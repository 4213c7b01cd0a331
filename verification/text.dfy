/** The text accumulator: xmlSAX2TextNode, xmlSAX2Characters and
    xmlSAX2CDataBlock. Successive character runs are appended into the last
    text child of the current element; `nodelen` is the logical length of
    that child and `nodemem` its buffer capacity, which grows by doubling. */
module TextAccumulator {
  import opened XmlBase
  import opened ParserErrors
  import opened Tree
  import opened Context

  /** Outcome of the fast append path: the new length and capacity, or the
      reason the append was refused. */
  datatype AppendStep =
    | Accept(nodelen: int, nodemem: int)
    | RejectHuge
    | RejectOverflow
    | RejectAlloc

  /** The size checks and buffer growth of the fast append path exactly as
      written: the guards are computed in `size_t` (so their sums wrap), the
      new capacity is a `size_t` stored back into the `int` field `nodemem`,
      and the new length is an `int` sum. */
  function AppendAsWritten(nodelen: int, nodemem: int, len: int, huge: bool, allocOk: bool): (r: AppendStep)
    requires -IntMax - 1 <= nodelen <= IntMax && -IntMax - 1 <= nodemem <= IntMax && 0 <= len <= IntMax
    ensures r.Accept? ==> -IntMax - 1 <= r.nodemem <= IntMax && -IntMax - 1 <= r.nodelen <= IntMax
    ensures r.RejectHuge? ==> !huge
  {
    if SizeT(SizeT(nodelen) + SizeT(len)) > MaxTextLength && !huge then RejectHuge
    else if SizeT(nodelen) > SizeMax - SizeT(len) || SizeT(SizeT(nodemem) + SizeT(len)) > SizeMax / 2 then RejectOverflow
    else if Int32(nodelen + len) >= nodemem then
      if !allocOk then RejectAlloc
      else
        var size := SizeT(SizeT(Int32(nodemem + len)) * 2);
        Accept(Int32(nodelen + len), Int32(size))
    else Accept(Int32(nodelen + len), nodemem)
  }

  /** The fast append path with both sums kept within INT_MAX, the width of
      the fields that hold the length and the capacity: the new length must
      fit, and a buffer that has to grow must still fit once doubled. */
  function Append(nodelen: int, nodemem: int, len: int, huge: bool, allocOk: bool): (r: AppendStep)
    requires 0 <= nodelen < nodemem && 0 <= len
    ensures r.Accept? <==>
      && (huge || nodelen + len <= MaxTextLength)
      && nodelen <= IntMax - len
      && (nodelen + len < nodemem || (nodemem + len <= IntMax / 2 && allocOk))
    ensures r.RejectHuge? <==> !huge && nodelen + len > MaxTextLength
    ensures r.RejectAlloc? ==> !allocOk && nodemem <= nodelen + len
    ensures r.Accept? ==> r.nodelen == nodelen + len && r.nodelen < r.nodemem
    ensures r.Accept? && nodemem <= IntMax ==> r.nodemem <= IntMax
    ensures r.Accept? && nodelen + len < nodemem ==> r.nodemem == nodemem
    ensures r.Accept? && nodelen + len >= nodemem ==> r.nodemem == (nodemem + len) * 2
  {
    if nodelen + len > MaxTextLength && !huge then RejectHuge
    else if nodelen > IntMax - len then RejectOverflow
    else if nodelen + len >= nodemem then
      if nodemem + len > IntMax / 2 then RejectOverflow
      else if !allocOk then RejectAlloc
      else Accept(nodelen + len, (nodemem + len) * 2)
    else Accept(nodelen + len, nodemem)
  }

  /** As written, with XML_PARSE_HUGE a text node whose buffer grows past
      INT_MAX gets a negative capacity: the append succeeds but leaves
      `nodelen >= nodemem`. */
  lemma AppendAsWrittenLosesCapacity()
    ensures AppendAsWritten(0x4000_0000 - 1, 0x4000_0000, 1, true, true)
              == Accept(0x4000_0000, -0x7fff_fffe)
  {
    assert Int32(0x4000_0000 + 1) == 0x4000_0001;
    assert SizeT(0x4000_0001) * 2 == 0x8000_0002;
    assert Int32(0x8000_0002) == -0x7fff_fffe;
  }

  /** As written, a negative capacity makes the `size_t` overflow guard
      refuse every run shorter than its magnitude, whether or not the run
      would fit: once the capacity was lost, the text node stops growing. */
  lemma NegativeCapacityRefused(nodelen: int, nodemem: int, len: int, allocOk: bool)
    requires -IntMax - 1 <= nodelen <= IntMax && -IntMax - 1 <= nodemem < 0 && 0 <= len <= IntMax
    requires nodemem + len < 0
    ensures AppendAsWritten(nodelen, nodemem, len, true, allocOk) == RejectOverflow
  {
    assert SizeT(nodemem) == nodemem + SizeMax + 1;
    assert SizeT(len) == len;
    assert SizeT(SizeT(nodemem) + SizeT(len)) == nodemem + len + SizeMax + 1;
  }

  /** After the lost capacity of AppendAsWrittenLosesCapacity, the next run
      of any length below 2^31 - 2 is refused as an overflow. */
  lemma LostCapacityStopsText(len: int, allocOk: bool)
    requires 0 <= len < 0x7fff_fffe
    ensures AppendAsWritten(0x4000_0000, -0x7fff_fffe, len, true, allocOk) == RejectOverflow
  {
    AppendAsWrittenLosesCapacity();
    NegativeCapacityRefused(0x4000_0000, -0x7fff_fffe, len, allocOk);
  }

  /** The corrected append against the source on every state the fields can
      hold: without XML_PARSE_HUGE the two always agree, and with it they
      agree wherever the source's `int` arithmetic does not wrap. Where
      they differ, the corrected path refuses as an overflow, and the
      source either refuses too or accepts with a length or capacity that
      is not the true one. */
  lemma AppendAgreesWithSource(nodelen: int, nodemem: int, len: int, huge: bool, allocOk: bool)
    requires 0 <= nodelen < nodemem <= IntMax && 0 <= len <= IntMax
    ensures !huge ==> AppendAsWritten(nodelen, nodemem, len, huge, allocOk) == Append(nodelen, nodemem, len, huge, allocOk)
    ensures nodelen + len <= IntMax && (nodelen + len >= nodemem ==> nodemem + len <= IntMax / 2) ==>
              AppendAsWritten(nodelen, nodemem, len, huge, allocOk) == Append(nodelen, nodemem, len, huge, allocOk)
    ensures
      var w := AppendAsWritten(nodelen, nodemem, len, huge, allocOk);
      w != Append(nodelen, nodemem, len, huge, allocOk) ==>
        && Append(nodelen, nodemem, len, huge, allocOk) == RejectOverflow
        && (w.Accept? ==> w.nodelen != nodelen + len || w.nodemem != (nodemem + len) * 2)
  {
    assert SizeT(nodelen) == nodelen && SizeT(len) == len && SizeT(nodemem) == nodemem;
    assert SizeT(nodelen + len) == nodelen + len;
    assert SizeT(nodemem + len) == nodemem + len;
    if nodelen + len <= IntMax {
      assert Int32(nodelen + len) == nodelen + len;
      if nodelen + len >= nodemem && nodemem + len <= IntMax / 2 {
        assert Int32(nodemem + len) == nodemem + len;
        assert SizeT((nodemem + len) * 2) == (nodemem + len) * 2;
        assert Int32((nodemem + len) * 2) == (nodemem + len) * 2;
      }
    }
  }

  /** The node xmlSAX2TextNode builds: a text node named "text" holding a
      copy of the run. */
  function TextLeaf(ch: string): (n: Node)
    ensures n.kind == TextNode && n.content == ch && n.children == []
  {
    Leaf(TextNode, "text", ch)
  }

  /** The text child of the current node that the next run may extend. */
  function LastText(ctx: Ctxt): (r: Option<nat>)
    requires ctx.IndicesOk()
    ensures r.Some? ==> r.value < |ctx.nodes| && ctx.nodes[r.value].kind == TextNode
    ensures r.Some? ==> ctx.Current().Some? && LastChild(ctx.nodes, ctx.Current().value) == r
  {
    match ctx.Current()
    case None => None
    case Some(c) =>
      match LastChild(ctx.nodes, c)
      case None => None
      case Some(t) => if ctx.nodes[t].kind == TextNode then Some(t) else None
  }

  /** A new text child of the current node, with the cursor reset to it. */
  function AddTextChild(ctx: Ctxt, c: nat, ch: string): (r: Ctxt)
    requires ctx.IndicesOk() && ctx.Current() == Some(c)
    ensures r.IndicesOk() && r.CursorOk() && r.nodeTab == ctx.nodeTab && r.status == ctx.status
    ensures |r.nodes| == |ctx.nodes| + 1
    ensures r.nodes[c].children == ctx.nodes[c].children + [|ctx.nodes|]
    ensures r.nodes[|ctx.nodes|] == TextLeaf(ch).(parent := NodeParent(c))
    ensures forall i :: 0 <= i < |ctx.nodes| && i != c ==> r.nodes[i] == ctx.nodes[i]
    ensures r.nodelen == |ch| && r.nodemem == |ch| + 1
    ensures LastText(r) == Some(|ctx.nodes|)
    ensures r == ctx.(nodes := r.nodes, nodelen := r.nodelen, nodemem := r.nodemem)
  {
    var nodes' := AppendChild(ctx.nodes, c, TextLeaf(ch));
    var r := ctx.(nodes := nodes', nodelen := |ch|, nodemem := |ch| + 1);
    assert LastChild(r.nodes, c) == Some(|ctx.nodes|);
    CursorOkAt(r, c, |ctx.nodes|);
    r
  }

  /** The out-of-memory latch, leaving the tree and the cursor alone. */
  function Reject(ctx: Ctxt): (r: Ctxt)
    requires ctx.IndicesOk() && ctx.CursorOk()
    ensures r.IndicesOk() && r.CursorOk()
    ensures r == ctx.(status := ErrMemory(ctx.status))
  {
    var r := ctx.(status := ErrMemory(ctx.status));
    CursorOkFrame(ctx, r);
    r
  }

  /** Under the cursor invariant, an armed cursor describes the last text child. */
  lemma TrackedText(ctx: Ctxt, t: nat)
    requires ctx.IndicesOk() && ctx.CursorOk()
    requires LastText(ctx) == Some(t) && ctx.nodemem != 0
    ensures 0 <= ctx.nodelen < ctx.nodemem && |ctx.nodes[t].content| == ctx.nodelen
  {
  }

  /** The fast path once the size checks have passed: the run lands at the
      end of the tracked text child, and the counters take their new values. */
  function ExtendAccepted(ctx: Ctxt, t: nat, ch: string, len': int, mem': int): (r: Ctxt)
    requires ctx.IndicesOk() && LastText(ctx) == Some(t)
    requires |ctx.nodes[t].content| == ctx.nodelen && len' == ctx.nodelen + |ch| && 0 <= len' < mem'
    ensures r.IndicesOk() && r.CursorOk()
    ensures r == ctx.(nodes := ctx.nodes[t := ctx.nodes[t].(content := ctx.nodes[t].content + ch)],
                      nodelen := len', nodemem := mem')
  {
    var r := ctx.(nodes := SetContent(ctx.nodes, t, ctx.nodes[t].content + ch), nodelen := len', nodemem := mem');
    CursorOkAt(r, ctx.Current().value, t);
    r
  }

  /** The fast path: append the run into the tracked text child `t`. */
  function ExtendText(ctx: Ctxt, t: nat, ch: string, allocOk: bool): (r: Ctxt)
    requires ctx.IndicesOk() && LastText(ctx) == Some(t)
    requires 0 <= ctx.nodelen < ctx.nodemem && |ctx.nodes[t].content| == ctx.nodelen
    ensures r.IndicesOk() && r.CursorOk()
    ensures r.nodeTab == ctx.nodeTab && r.myDoc == ctx.myDoc && r.cfg.inSubset == ctx.cfg.inSubset
    ensures
      var step := Append(ctx.nodelen, ctx.nodemem, |ch|, ParseHuge in ctx.cfg.options, allocOk);
      && (step.Accept? ==>
            && r.nodes == ctx.nodes[t := ctx.nodes[t].(content := ctx.nodes[t].content + ch)]
            && r.nodelen == ctx.nodelen + |ch| && r.nodemem == step.nodemem && r.status == ctx.status)
      && (!step.Accept? ==> r == ctx.(status := ErrMemory(ctx.status)))
  {
    var step := Append(ctx.nodelen, ctx.nodemem, |ch|, ParseHuge in ctx.cfg.options, allocOk);
    if step.Accept? then ExtendAccepted(ctx, t, ch, step.nodelen, step.nodemem)
    else
      CursorOkAt(ctx, ctx.Current().value, t);
      Reject(ctx)
  }

  /** The slow path (`nodemem == 0`): xmlTextConcat, then re-derive the
      cursor from the content. On failure the content is left as it was. */
  function ConcatText(ctx: Ctxt, t: nat, ch: string, allocOk: bool): (r: Ctxt)
    requires ctx.IndicesOk() && LastText(ctx) == Some(t)
    ensures r.IndicesOk() && r.CursorOk()
    ensures r.nodeTab == ctx.nodeTab && r.myDoc == ctx.myDoc && r.cfg.inSubset == ctx.cfg.inSubset
    ensures allocOk ==> r.nodes == ctx.nodes[t := ctx.nodes[t].(content := ctx.nodes[t].content + ch)]
    ensures allocOk ==> r.status == ctx.status
    ensures !allocOk ==> r.nodes == ctx.nodes && r.status == ErrMemory(ctx.status)
    ensures r.nodelen == |r.nodes[t].content| && r.nodemem == r.nodelen + 1
  {
    var nodes' := if allocOk then SetContent(ctx.nodes, t, ctx.nodes[t].content + ch) else ctx.nodes;
    var status' := if allocOk then ctx.status else ErrMemory(ctx.status);
    var r := ctx.(nodes := nodes', status := status',
                  nodelen := |nodes'[t].content|, nodemem := |nodes'[t].content| + 1);
    CursorOkAt(r, ctx.Current().value, t);
    r
  }

  /** xmlSAX2Characters. `allocOk` is whether the allocation the taken path
      needs (a new text node, a larger buffer, the concatenation) succeeds. */
  function Characters(ctx: Ctxt, ch: string, allocOk: bool): (r: Ctxt)
    requires ctx.IndicesOk() && ctx.CursorOk()
    ensures r.IndicesOk() && r.CursorOk()
    ensures r.nodeTab == ctx.nodeTab && r.myDoc == ctx.myDoc && r.cfg.inSubset == ctx.cfg.inSubset
    ensures ctx.Current().None? ==> r == ctx
    // The first run on a childless element creates its one text child.
    ensures ctx.Current().Some? && ctx.nodes[ctx.Current().value].children == [] && allocOk ==>
      var c := ctx.Current().value;
      && |r.nodes| == |ctx.nodes| + 1
      && r.nodes[c].children == [|ctx.nodes|]
      && r.nodes[|ctx.nodes|].kind == TextNode && r.nodes[|ctx.nodes|].content == ch
      && r.nodelen == |ch| && r.nodemem == |ch| + 1 && r.status == ctx.status
    // A first text node that cannot be allocated leaves the tree alone.
    ensures ctx.Current().Some? && ctx.nodes[ctx.Current().value].children == [] && !allocOk ==>
      r == ctx.(status := ErrMemory(ctx.status))
    // A run after a text child whose buffer is tracked extends that child.
    ensures LastText(ctx).Some? && ctx.nodemem != 0 ==>
      var t := LastText(ctx).value;
      var step := Append(ctx.nodelen, ctx.nodemem, |ch|, ParseHuge in ctx.cfg.options, allocOk);
      && (step.Accept? ==>
            && r.nodes == ctx.nodes[t := ctx.nodes[t].(content := ctx.nodes[t].content + ch)]
            && r.nodelen == ctx.nodelen + |ch| && r.status == ctx.status)
      && (!step.Accept? ==> r == ctx.(status := ErrMemory(ctx.status)))
    // A run after an untracked text child (`nodemem == 0`) is concatenated
    // onto it, and the cursor is re-derived from the content either way.
    ensures LastText(ctx).Some? && ctx.nodemem == 0 ==>
      var t := LastText(ctx).value;
      && (allocOk ==> r.nodes == ctx.nodes[t := ctx.nodes[t].(content := ctx.nodes[t].content + ch)]
                      && r.status == ctx.status)
      && (!allocOk ==> r.nodes == ctx.nodes && r.status == ErrMemory(ctx.status))
      && r.nodelen == |r.nodes[t].content| && r.nodemem == r.nodelen + 1
    // A run after a child that is not text starts a new text child.
    ensures ctx.Current().Some? && LastText(ctx).None? && ctx.nodes[ctx.Current().value].children != [] ==>
      if allocOk then
        && |r.nodes| == |ctx.nodes| + 1
        && LastText(r) == Some(|ctx.nodes|) && r.nodes[|ctx.nodes|].content == ch
        && r.nodelen == |ch| && r.nodemem == |ch| + 1
      else r == ctx.(status := ErrMemory(ctx.status))
  {
    match ctx.Current()
    case None => ctx
    case Some(c) =>
      match LastChild(ctx.nodes, c)
      case None =>
        if allocOk then AddTextChild(ctx, c, ch)
        else Reject(ctx)
      case Some(t) =>
        if ctx.nodes[t].kind == TextNode && ctx.nodemem != 0 then
          TrackedText(ctx, t);
          ExtendText(ctx, t, ch, allocOk)
        else if ctx.nodes[t].kind == TextNode then ConcatText(ctx, t, ch, allocOk)
        else if allocOk then AddTextChild(ctx, c, ch)
        else Reject(ctx)
  }

  /** Two successive character runs in an element without children end up
      in one text child holding both, with the length tracked below the
      capacity. */
  lemma TwoRunsCoalesce(ctx: Ctxt, a: string, b: string)
    requires ctx.IndicesOk() && ctx.CursorOk() && ctx.Current().Some?
    requires ctx.nodes[ctx.Current().value].children == []
    requires |a| + |b| <= MaxTextLength
    ensures
      var r := Characters(Characters(ctx, a, true), b, true);
      var c := ctx.Current().value;
      && |r.nodes| == |ctx.nodes| + 1 && r.nodes[c].children == [|ctx.nodes|]
      && r.nodes[|ctx.nodes|].kind == TextNode && r.nodes[|ctx.nodes|].content == a + b
      && r.nodelen == |a| + |b| < r.nodemem && r.status == ctx.status
  {
    var c := ctx.Current().value;
    var t := |ctx.nodes|;
    var c1 := Characters(ctx, a, true);
    assert c1.Current() == Some(c);
    assert LastChild(c1.nodes, c) == Some(t);
    assert LastText(c1) == Some(t);
    var step := Append(c1.nodelen, c1.nodemem, |b|, ParseHuge in c1.cfg.options, true);
    assert step.Accept?;
  }

  /** xmlSAX2CDataBlock: a CDATA run merges into a CDATA last child of the
      current node, otherwise it becomes a new CDATA child. A failed
      allocation is silently dropped, as the source ignores it. */
  function CDataBlock(ctx: Ctxt, value: string, allocOk: bool): (r: Ctxt)
    requires ctx.IndicesOk() && ctx.CursorOk()
    ensures r.IndicesOk() && r.CursorOk()
    ensures r.nodeTab == ctx.nodeTab && r.status == ctx.status && r.myDoc == ctx.myDoc
    ensures ctx.Current().None? || !allocOk ==> r == ctx
    ensures ctx.Current().Some? && allocOk ==>
      var c := ctx.Current().value;
      match LastChild(ctx.nodes, c)
      case Some(t) =>
        if ctx.nodes[t].kind == CDataNode then
          r.nodes == ctx.nodes[t := ctx.nodes[t].(content := ctx.nodes[t].content + value)]
        else
          && |r.nodes| == |ctx.nodes| + 1 && LastChild(r.nodes, c) == Some(|ctx.nodes|)
          && r.nodes[|ctx.nodes|].kind == CDataNode && r.nodes[|ctx.nodes|].content == value
      case None =>
          && |r.nodes| == |ctx.nodes| + 1 && LastChild(r.nodes, c) == Some(|ctx.nodes|)
          && r.nodes[|ctx.nodes|].kind == CDataNode && r.nodes[|ctx.nodes|].content == value
  {
    match ctx.Current()
    case None => ctx
    case Some(c) =>
      if !allocOk then ctx
      else
        var last := LastChild(ctx.nodes, c);
        if last.Some? && ctx.nodes[last.value].kind == CDataNode then
          var t := last.value;
          var r := ctx.(nodes := SetContent(ctx.nodes, t, ctx.nodes[t].content + value));
          assert LastChild(r.nodes, c) == last;
          r
        else
          var r := ctx.(nodes := AppendChild(ctx.nodes, c, Leaf(CDataNode, "#cdata-section", value)));
          assert LastChild(r.nodes, c) == Some(|ctx.nodes|);
          r
  }

  /** Two successive CDATA blocks in an element without children end up
      in one CDATA child holding both. */
  lemma CDataBlocksMerge(ctx: Ctxt, a: string, b: string)
    requires ctx.IndicesOk() && ctx.CursorOk() && ctx.Current().Some?
    requires ctx.nodes[ctx.Current().value].children == []
    ensures
      var r := CDataBlock(CDataBlock(ctx, a, true), b, true);
      var c := ctx.Current().value;
      && |r.nodes| == |ctx.nodes| + 1 && r.nodes[c].children == [|ctx.nodes|]
      && r.nodes[|ctx.nodes|].kind == CDataNode && r.nodes[|ctx.nodes|].content == a + b
  {
    var c := ctx.Current().value;
    var c1 := CDataBlock(ctx, a, true);
    assert c1.Current() == Some(c);
    assert LastChild(ctx.nodes, c).None?;
    assert c1.nodes[c].children == [|ctx.nodes|];
  }
}
