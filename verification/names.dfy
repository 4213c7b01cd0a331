/** Qualified names: building `prefix:local` and splitting it again. */
module QNames {
  import opened XmlBase

  /** xmlBuildQName: `prefix:local`, or `local` alone without a prefix. */
  function QName(local: string, prefix: Option<string>): (r: string)
    ensures prefix.None? ==> r == local
    ensures prefix.Some? ==> |r| == |prefix.value| + 1 + |local|
    ensures prefix.Some? ==> r[..|prefix.value|] == prefix.value && r[|prefix.value|] == ':'
    ensures prefix.Some? ==> r[|prefix.value| + 1..] == local
  {
    if prefix.Some? then prefix.value + ":" + local else local
  }

  /** Index of the first ':' in `s`, if any. */
  function ColonAt(s: string): (r: Option<nat>)
    ensures r.Some? ==> r.value < |s| && s[r.value] == ':'
    ensures r.Some? ==> forall k :: 0 <= k < r.value ==> s[k] != ':'
    ensures r.None? ==> forall k :: 0 <= k < |s| ==> s[k] != ':'
  {
    if |s| == 0 then None
    else if s[0] == ':' then Some(0)
    else match ColonAt(s[1..])
      case None => None
      case Some(k) => Some(k + 1)
  }

  /** xmlSplitQName as the attribute declaration handler uses it: a name
      with a non-empty prefix and a non-empty local part around its first
      colon splits there; any other name is returned whole, unprefixed. */
  function SplitQName(name: string): (r: (Option<string>, string))
    ensures r.0.Some? ==> QName(r.1, r.0) == name && |r.0.value| > 0 && |r.1| > 0
    ensures r.0.Some? ==> forall k :: 0 <= k < |r.0.value| ==> r.0.value[k] != ':'
    ensures r.0.None? ==> r.1 == name
  {
    match ColonAt(name)
    case Some(i) =>
      if 0 < i < |name| - 1 then
        var r := (Some(name[..i]), name[i + 1..]);
        assert QName(r.1, r.0) == name[..i] + ":" + name[i + 1..];
        assert name == name[..i] + [name[i]] + name[i + 1..];
        r
      else (None, name)
    case None => (None, name)
  }

  /** Splitting undoes building for a colon-free non-empty prefix and a
      non-empty local part. */
  lemma SplitBuildRoundTrip(prefix: string, local: string)
    requires |prefix| > 0 && |local| > 0
    requires forall k :: 0 <= k < |prefix| ==> prefix[k] != ':'
    ensures SplitQName(QName(local, Some(prefix))) == (Some(prefix), local)
  {
    var name := QName(local, Some(prefix));
    assert forall k :: 0 <= k < |prefix| ==> name[k] == prefix[k];
    assert name[|prefix|] == ':';
  }
}
