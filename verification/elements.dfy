/** The tree-building handlers for markup: element start and end with
    namespace declarations and attributes, entity and character references,
    comments and processing instructions. */
module Builder {
  import opened XmlBase
  import opened ParserErrors
  import opened Tree
  import opened Context
  import opened QNames

  // ---------------------------------------------------------------------
  // Linking a freshly allocated node
  // ---------------------------------------------------------------------

  /** xmlAddChild(doc, e): `e` becomes the last top-level node. */
  function LinkToDoc(ctx: Ctxt, e: nat): (r: Ctxt)
    requires ctx.IndicesOk() && ctx.myDoc.Some? && e < |ctx.nodes|
    ensures r.IndicesOk() && NodesExtend(ctx.nodes, r.nodes) && |r.nodes| == |ctx.nodes|
    ensures r.myDoc == Some(ctx.myDoc.value.(children := ctx.myDoc.value.children + [e]))
    ensures r.nodes[e].parent == DocParent
    ensures forall i :: 0 <= i < |ctx.nodes| ==> r.nodes[i].children == ctx.nodes[i].children
    ensures r == ctx.(nodes := r.nodes, myDoc := r.myDoc)
  {
    var doc := ctx.myDoc.value;
    ctx.(nodes := ctx.nodes[e := ctx.nodes[e].(parent := DocParent)],
         myDoc := Some(doc.(children := doc.children + [e])))
  }

  /** xmlAddChild(subset, e) for the internal (`internal`) or external
      subset; when that subset does not exist the call fails and `e` stays
      detached. */
  function LinkToSubset(ctx: Ctxt, internal: bool, e: nat): (r: Ctxt)
    requires ctx.IndicesOk() && ctx.myDoc.Some? && e < |ctx.nodes|
    ensures r.IndicesOk() && NodesExtend(ctx.nodes, r.nodes) && |r.nodes| == |ctx.nodes|
    ensures forall i :: 0 <= i < |ctx.nodes| ==> r.nodes[i].children == ctx.nodes[i].children
    ensures r.myDoc.Some? && r.myDoc.value.children == ctx.myDoc.value.children
    ensures internal ==> r.myDoc.value.extSubset == ctx.myDoc.value.extSubset
    ensures !internal ==> r.myDoc.value.intSubset == ctx.myDoc.value.intSubset
    ensures internal && ctx.myDoc.value.intSubset.Some? ==>
              && r.myDoc.value.intSubset.Some?
              && r.myDoc.value.intSubset.value == ctx.myDoc.value.intSubset.value.(
                   children := ctx.myDoc.value.intSubset.value.children + [e])
              && r.nodes[e].parent == SubsetParent(true)
    ensures !internal && ctx.myDoc.value.extSubset.Some? ==>
              && r.myDoc.value.extSubset.Some?
              && r.myDoc.value.extSubset.value == ctx.myDoc.value.extSubset.value.(
                   children := ctx.myDoc.value.extSubset.value.children + [e])
              && r.nodes[e].parent == SubsetParent(false)
    ensures (if internal then ctx.myDoc.value.intSubset else ctx.myDoc.value.extSubset).None? ==> r == ctx
    ensures r == ctx.(nodes := r.nodes, myDoc := r.myDoc)
  {
    var doc := ctx.myDoc.value;
    var sub := if internal then doc.intSubset else doc.extSubset;
    if sub.None? then ctx
    else
      var d := sub.value.(children := sub.value.children + [e]);
      var doc' := if internal then doc.(intSubset := Some(d)) else doc.(extSubset := Some(d));
      ctx.(nodes := ctx.nodes[e := ctx.nodes[e].(parent := SubsetParent(internal))], myDoc := Some(doc'))
  }

  /** xmlAddSibling(p, e) for a detached `e`: `e` becomes the last child of
      whatever holds `p`. A parent index outside the arena, or `e` itself,
      links nothing. */
  function AddSibling(ctx: Ctxt, p: nat, e: nat): (r: Ctxt)
    requires ctx.IndicesOk() && ctx.myDoc.Some? && p < |ctx.nodes| && e < |ctx.nodes|
    ensures r.IndicesOk() && NodesExtend(ctx.nodes, r.nodes) && |r.nodes| == |ctx.nodes|
    ensures r.myDoc.Some?
    ensures forall i :: 0 <= i < |ctx.nodes| && ctx.nodes[p].parent != NodeParent(i) ==>
              r.nodes[i].children == ctx.nodes[i].children
    ensures r.nodes[e].children == ctx.nodes[e].children
    ensures forall i :: 0 <= i < |ctx.nodes| && i != e ==> r.nodes[i].parent == ctx.nodes[i].parent
    ensures ctx.nodes[p].parent.NodeParent? && ctx.nodes[p].parent.index < |ctx.nodes|
            && ctx.nodes[p].parent.index != e ==>
              && LastChild(r.nodes, ctx.nodes[p].parent.index) == Some(e)
              && r.nodes[e].parent == ctx.nodes[p].parent
    ensures ctx.nodes[p].parent == DocParent ==>
              r.myDoc.value.children == ctx.myDoc.value.children + [e] && r.nodes[e].parent == DocParent
    ensures r == ctx.(nodes := r.nodes, myDoc := r.myDoc)
  {
    match ctx.nodes[p].parent
    case NodeParent(q) =>
      if q < |ctx.nodes| && q != e then ctx.(nodes := LinkChild(ctx.nodes, q, e)) else ctx
    case DocParent => LinkToDoc(ctx, e)
    case SubsetParent(internal) => LinkToSubset(ctx, internal, e)
    case Detached => ctx
  }

  /** Linking a non-text node keeps the text cursor valid: the current
      node either keeps its children or ends with the new node. */
  lemma CursorOkAfterLink(ctx: Ctxt, r: Ctxt, e: nat)
    requires ctx.IndicesOk() && ctx.CursorOk() && r.IndicesOk()
    requires r.nodeTab == ctx.nodeTab && r.nodelen == ctx.nodelen && r.nodemem == ctx.nodemem
    requires NodesExtend(ctx.nodes, r.nodes) && e < |r.nodes| && r.nodes[e].kind != TextNode
    requires ctx.Current().Some? ==>
               r.nodes[ctx.Current().value].children == ctx.nodes[ctx.Current().value].children
               || LastChild(r.nodes, ctx.Current().value) == Some(e)
    ensures r.CursorOk()
  {
  }

  // ---------------------------------------------------------------------
  // Comments, processing instructions and references
  // ---------------------------------------------------------------------

  /** The preconditions of placing a fresh non-text node `n`. */
  predicate Placeable(ctx: Ctxt, n: Node) {
    && ctx.IndicesOk() && ctx.CursorOk() && ctx.myDoc.Some?
    && n.children == [] && n.parent == Detached && n.kind != TextNode
  }

  /** The facts every placement of `n` at index |ctx.nodes| keeps. */
  predicate Placed(ctx: Ctxt, n: Node, r: Ctxt)
    requires ctx.IndicesOk()
  {
    && r.IndicesOk() && r.CursorOk() && r.myDoc.Some?
    && r == ctx.(nodes := r.nodes, myDoc := r.myDoc)
    && |r.nodes| == |ctx.nodes| + 1 && NodesExtend(ctx.nodes, r.nodes)
    && r.nodes[|ctx.nodes|].(parent := Detached) == n
  }

  /** Placement inside the DTD subset being parsed. */
  function PlaceInSubset(ctx: Ctxt, n: Node, internal: bool): (r: Ctxt)
    requires Placeable(ctx, n)
    ensures Placed(ctx, n, r)
    ensures r.myDoc.value.children == ctx.myDoc.value.children
    ensures forall i :: 0 <= i < |ctx.nodes| ==> r.nodes[i].children == ctx.nodes[i].children
    ensures internal ==> r.myDoc.value.extSubset == ctx.myDoc.value.extSubset
    ensures !internal ==> r.myDoc.value.intSubset == ctx.myDoc.value.intSubset
    ensures internal && ctx.myDoc.value.intSubset.Some? ==>
              && r.myDoc.value.intSubset.Some?
              && r.myDoc.value.intSubset.value.children == ctx.myDoc.value.intSubset.value.children + [|ctx.nodes|]
    ensures !internal && ctx.myDoc.value.extSubset.Some? ==>
              && r.myDoc.value.extSubset.Some?
              && r.myDoc.value.extSubset.value.children == ctx.myDoc.value.extSubset.value.children + [|ctx.nodes|]
  {
    var e := |ctx.nodes|;
    var r := LinkToSubset(ctx.(nodes := AppendNode(ctx.nodes, n)), internal, e);
    CursorOkAfterLink(ctx, r, e);
    r
  }

  /** Placement at the top level of the document. */
  function PlaceAtTop(ctx: Ctxt, n: Node): (r: Ctxt)
    requires Placeable(ctx, n)
    ensures Placed(ctx, n, r)
    ensures r.myDoc.value == ctx.myDoc.value.(children := ctx.myDoc.value.children + [|ctx.nodes|])
    ensures r.nodes[|ctx.nodes|].parent == DocParent
    ensures forall i :: 0 <= i < |ctx.nodes| ==> r.nodes[i].children == ctx.nodes[i].children
  {
    var e := |ctx.nodes|;
    var r := LinkToDoc(ctx.(nodes := AppendNode(ctx.nodes, n)), e);
    CursorOkAfterLink(ctx, r, e);
    r
  }

  /** Placement under the open node `p`: as its last child when it is an
      element, else after it. */
  function PlaceUnder(ctx: Ctxt, n: Node, p: nat): (r: Ctxt)
    requires Placeable(ctx, n) && ctx.Current() == Some(p)
    ensures Placed(ctx, n, r)
    ensures ctx.nodes[p].kind == ElementNode ==>
              && LastChild(r.nodes, p) == Some(|ctx.nodes|)
              && r.nodes[|ctx.nodes|].parent == NodeParent(p)
              && r.myDoc == ctx.myDoc
  {
    var e := |ctx.nodes|;
    var c0 := ctx.(nodes := AppendNode(ctx.nodes, n));
    var r := if ctx.nodes[p].kind == ElementNode then c0.(nodes := LinkChild(c0.nodes, p, e))
             else AddSibling(c0, p, e);
    CursorOkAfterLink(ctx, r, e);
    r
  }

  /** The placement shared by xmlSAX2Comment and
      xmlSAX2ProcessingInstruction: inside a subset the node goes to that
      subset; otherwise to the top of the document when the document is
      still empty or no element is open; otherwise under the current
      element (or after the current node when that is not an element). */
  function AddMisc(ctx: Ctxt, n: Node): (r: Ctxt)
    requires Placeable(ctx, n)
    ensures Placed(ctx, n, r)
    // Inside a subset: only that subset's children change.
    ensures ctx.cfg.inSubset == 1 || ctx.cfg.inSubset == 2 ==>
              && r.myDoc.value.children == ctx.myDoc.value.children
              && forall i :: 0 <= i < |ctx.nodes| ==> r.nodes[i].children == ctx.nodes[i].children
    ensures ctx.cfg.inSubset == 1 && ctx.myDoc.value.intSubset.Some? ==>
              && r.myDoc.value.intSubset.Some?
              && r.myDoc.value.intSubset.value.children == ctx.myDoc.value.intSubset.value.children + [|ctx.nodes|]
    ensures ctx.cfg.inSubset == 2 && ctx.myDoc.value.extSubset.Some? ==>
              && r.myDoc.value.extSubset.Some?
              && r.myDoc.value.extSubset.value.children == ctx.myDoc.value.extSubset.value.children + [|ctx.nodes|]
    // Outside the subsets: top level, or the last child of the open element.
    ensures ctx.cfg.inSubset != 1 && ctx.cfg.inSubset != 2 && (ctx.myDoc.value.children == [] || ctx.Current().None?) ==>
              && r.myDoc.value == ctx.myDoc.value.(children := ctx.myDoc.value.children + [|ctx.nodes|])
              && r.nodes[|ctx.nodes|].parent == DocParent
    ensures ctx.cfg.inSubset != 1 && ctx.cfg.inSubset != 2 && ctx.myDoc.value.children != [] && ctx.Current().Some?
              && ctx.nodes[ctx.Current().value].kind == ElementNode ==>
              && LastChild(r.nodes, ctx.Current().value) == Some(|ctx.nodes|)
              && r.nodes[|ctx.nodes|].parent == NodeParent(ctx.Current().value)
              && r.myDoc == ctx.myDoc
  {
    if ctx.cfg.inSubset == 1 then PlaceInSubset(ctx, n, true)
    else if ctx.cfg.inSubset == 2 then PlaceInSubset(ctx, n, false)
    else if ctx.myDoc.value.children == [] || ctx.Current().None? then PlaceAtTop(ctx, n)
    else PlaceUnder(ctx, n, ctx.Current().value)
  }

  /** xmlSAX2Comment. `allocOk` is whether xmlNewDocComment succeeds; when
      it does not, the comment is dropped without an error. */
  function Comment(ctx: Ctxt, value: string, allocOk: bool): (r: Ctxt)
    requires ctx.IndicesOk() && ctx.CursorOk() && ctx.myDoc.Some?
    ensures r.IndicesOk() && r.CursorOk()
    ensures r.status == ctx.status && r.nodeTab == ctx.nodeTab
    ensures !allocOk ==> r == ctx
    ensures allocOk ==>
              && |r.nodes| == |ctx.nodes| + 1 && NodesExtend(ctx.nodes, r.nodes)
              && r.nodes[|ctx.nodes|].kind == CommentNode && r.nodes[|ctx.nodes|].content == value
  {
    if !allocOk then ctx else AddMisc(ctx, Leaf(CommentNode, "comment", value))
  }

  /** xmlSAX2ProcessingInstruction. `allocOk` is whether xmlNewDocPI
      succeeds; when it does not, the instruction is dropped without an
      error. A missing data part leaves the content empty. */
  function ProcessingInstruction(ctx: Ctxt, target: string, data: Option<string>, allocOk: bool): (r: Ctxt)
    requires ctx.IndicesOk() && ctx.CursorOk() && ctx.myDoc.Some?
    ensures r.IndicesOk() && r.CursorOk()
    ensures r.status == ctx.status && r.nodeTab == ctx.nodeTab
    ensures !allocOk ==> r == ctx
    ensures allocOk ==>
              && |r.nodes| == |ctx.nodes| + 1 && NodesExtend(ctx.nodes, r.nodes)
              && r.nodes[|ctx.nodes|].kind == PiNode && r.nodes[|ctx.nodes|].name == target
              && r.nodes[|ctx.nodes|].content == (if data.Some? then data.value else "")
  {
    if !allocOk then ctx
    else AddMisc(ctx, Leaf(PiNode, target, if data.Some? then data.value else ""))
  }

  /** xmlSAX2Reference: a name starting with `#` is a character
      reference, any other an entity reference; it is appended to the
      current node, and dropped when no node is open or the allocation
      (`allocOk`) fails. */
  function Reference(ctx: Ctxt, name: string, allocOk: bool): (r: Ctxt)
    requires ctx.IndicesOk() && ctx.CursorOk()
    ensures r.IndicesOk() && r.CursorOk()
    ensures r.status == ctx.status && r.nodeTab == ctx.nodeTab && r.myDoc == ctx.myDoc
    ensures ctx.Current().None? || !allocOk ==> r == ctx
    ensures ctx.Current().Some? && allocOk ==>
              var c := ctx.Current().value;
              && |r.nodes| == |ctx.nodes| + 1 && NodesExtend(ctx.nodes, r.nodes)
              && LastChild(r.nodes, c) == Some(|ctx.nodes|)
              && r.nodes[|ctx.nodes|].name == name
              && (r.nodes[|ctx.nodes|].kind == CharRefNode <==> StartsWith(name, '#'))
              && (r.nodes[|ctx.nodes|].kind == EntityRefNode <==> !StartsWith(name, '#'))
  {
    match ctx.Current()
    case None => ctx
    case Some(c) =>
      if !allocOk then ctx
      else
        var kind := if StartsWith(name, '#') then CharRefNode else EntityRefNode;
        var r := ctx.(nodes := AppendChild(ctx.nodes, c, Leaf(kind, name, "")));
        assert LastChild(r.nodes, c) == Some(|ctx.nodes|);
        r
  }

  // ---------------------------------------------------------------------
  // Element end
  // ---------------------------------------------------------------------

  /** xmlSAX2EndElementNs: disarm the text fast path and pop the open
      element stack (nodePop does nothing on an empty stack). */
  function EndElementNs(ctx: Ctxt): (r: Ctxt)
    ensures r.nodemem == -1
    ensures ctx.nodeTab != [] ==> r.nodeTab == ctx.nodeTab[..|ctx.nodeTab| - 1]
    ensures ctx.nodeTab == [] ==> r.nodeTab == []
    ensures r.nodes == ctx.nodes && r.status == ctx.status && r.myDoc == ctx.myDoc
    ensures ctx.Valid() ==> r.Valid()
  {
    var tab := if |ctx.nodeTab| == 0 then [] else ctx.nodeTab[..|ctx.nodeTab| - 1];
    ctx.(nodemem := -1, nodeTab := tab)
  }

  // ---------------------------------------------------------------------
  // Element start: namespaces
  // ---------------------------------------------------------------------

  /** The name the element gets: `prefix:local` when the prefix has no
      namespace in scope (the parser then passes no URI), else the local
      name. */
  function ElementName(localname: string, prefix: Option<string>, uri: Option<string>): (r: string)
    ensures prefix.Some? && uri.None? ==> r == QName(localname, prefix)
    ensures prefix.None? || uri.Some? ==> r == localname
  {
    if prefix.Some? && uri.None? then QName(localname, prefix) else localname
  }

  /** The nsDef list of a new element: the declarations whose xmlNewNs
      call succeeds (`ok`), in declaration order. */
  function CreatedNs(namespaces: seq<Ns>, ok: seq<bool>): (r: seq<Ns>)
    requires |ok| == |namespaces|
    ensures |r| <= |namespaces|
    ensures forall k :: 0 <= k < |r| ==> r[k] in namespaces
    ensures (forall k :: 0 <= k < |ok| ==> ok[k]) ==> r == namespaces
    decreases |namespaces|
  {
    if |namespaces| == 0 then []
    else (if ok[0] then [namespaces[0]] else []) + CreatedNs(namespaces[1..], ok[1..])
  }

  /** Creation keeps declaration order: what is created from a list is
      what is created from its first part followed by what is created from
      the rest. */
  lemma {:induction false} CreatedNsAppend(a: seq<Ns>, oa: seq<bool>, b: seq<Ns>, ob: seq<bool>)
    requires |oa| == |a| && |ob| == |b|
    ensures CreatedNs(a + b, oa + ob) == CreatedNs(a, oa) + CreatedNs(b, ob)
    decreases |a|
  {
    if |a| == 0 {
      assert a + b == b && oa + ob == ob;
    } else {
      var head := if oa[0] then [a[0]] else [];
      CreatedNsAppend(a[1..], oa[1..], b, ob);
      assert (a + b)[1..] == a[1..] + b && (a + b)[0] == a[0];
      assert (oa + ob)[1..] == oa[1..] + ob && (oa + ob)[0] == oa[0];
      assert CreatedNs(a + b, oa + ob) == head + (CreatedNs(a[1..], oa[1..]) + CreatedNs(b, ob));
      assert CreatedNs(a, oa) == head + CreatedNs(a[1..], oa[1..]);
      ConcatAssoc(head, CreatedNs(a[1..], oa[1..]), CreatedNs(b, ob));
    }
  }

  /** The position of the last declaration of `prefix` in `defs`. */
  function LastIndexOf(defs: seq<Ns>, prefix: Option<string>): (r: Option<nat>)
    ensures r.Some? ==> r.value < |defs| && defs[r.value].prefix == prefix
    ensures r.Some? ==> forall j :: r.value < j < |defs| ==> defs[j].prefix != prefix
    ensures r.None? ==> forall j :: 0 <= j < |defs| ==> defs[j].prefix != prefix
    decreases |defs|
  {
    if |defs| == 0 then None
    else if defs[|defs| - 1].prefix == prefix then Some(|defs| - 1)
    else LastIndexOf(defs[..|defs| - 1], prefix)
  }

  /** The namespace an element takes from its own declarations: each
      declaration of the element's prefix overwrites the previous choice,
      so the last one wins. */
  function OwnNs(defs: seq<Ns>, prefix: Option<string>): (r: Option<Ns>)
  {
    match LastIndexOf(defs, prefix)
    case None => None
    case Some(k) => Some(defs[k])
  }

  /** The namespace a new element ends up in, computed on the tree as it
      was before the element: none without a URI; else its own last
      matching declaration; else the nearest one in scope at the parent;
      else, for `xml`, the fixed XML namespace. */
  function ResolvedNs(nodes: seq<Node>, parent: Option<nat>, prefix: Option<string>,
                      uri: Option<string>, created: seq<Ns>): Option<Ns>
  {
    if uri.None? then None
    else if OwnNs(created, prefix).Some? then OwnNs(created, prefix)
    else if SearchNs(nodes, parent, prefix).Some? then SearchNs(nodes, parent, prefix)
    else if prefix == Some("xml") then Some(XmlNamespace)
    else None
  }

  /** The ancestor walk reads only kinds, declarations and parent links. */
  lemma {:induction false} SearchFromFrame(a: seq<Node>, b: seq<Node>, i: nat, prefix: Option<string>)
    requires i < |a| <= |b|
    requires forall j :: 0 <= j < |a| ==>
               b[j].kind == a[j].kind && b[j].nsDef == a[j].nsDef && b[j].parent == a[j].parent
    ensures SearchFrom(b, i, prefix) == SearchFrom(a, i, prefix)
    decreases i
  {
    assert b[i].kind == a[i].kind && b[i].nsDef == a[i].nsDef && b[i].parent == a[i].parent;
    match a[i].parent
    case NodeParent(p) =>
      if p < i {
        SearchFromFrame(a, b, p, prefix);
      }
    case _ =>
  }

  /** SearchNs from an old node gives the same answer on a tree that only
      added nodes and links below it. */
  lemma SearchNsFrame(a: seq<Node>, b: seq<Node>, start: Option<nat>, prefix: Option<string>)
    requires |a| <= |b| && (start.Some? ==> start.value < |a|)
    requires forall j :: 0 <= j < |a| ==>
               b[j].kind == a[j].kind && b[j].nsDef == a[j].nsDef && b[j].parent == a[j].parent
    ensures SearchNs(b, start, prefix) == SearchNs(a, start, prefix)
  {
    if start.Some? && prefix != Some("xml") {
      SearchFromFrame(a, b, start.value, prefix);
    }
  }

  /** xmlSAX2StartElementNs, the search for a namespace the element's own
      declarations did not provide: from the parent, then (for `xml` only)
      from the element itself; failing both, a placeholder declaration
      with no namespace name is added to the element and a warning is
      issued, while the element itself stays without a namespace. The
      second component is false when the placeholder cannot be allocated
      (`placeholderOk`), which ends the handler. */
  function ResolveNs(ctx: Ctxt, e: nat, parent: Option<nat>, prefix: Option<string>,
                     placeholderOk: bool): (r: (Ctxt, bool))
    requires ctx.IndicesOk() && e < |ctx.nodes|
    ensures r.0.IndicesOk() && |r.0.nodes| == |ctx.nodes|
    ensures r.0 == ctx.(nodes := r.0.nodes, status := r.0.status)
    ensures forall i :: 0 <= i < |ctx.nodes| && i != e ==> r.0.nodes[i] == ctx.nodes[i]
    ensures r.0.nodes[e] == ctx.nodes[e].(ns := r.0.nodes[e].ns, nsDef := r.0.nodes[e].nsDef)
    ensures
      var found := SearchNs(ctx.nodes, parent, prefix);
      var found' := if found.None? && prefix == Some("xml") then SearchNs(ctx.nodes, Some(e), prefix) else found;
      && (found'.Some? ==> r.1 && r.0.nodes[e] == ctx.nodes[e].(ns := found') && r.0.status == ctx.status)
      && (found'.None? && placeholderOk ==>
            && r.1 && r.0.nodes[e] == ctx.nodes[e].(nsDef := ctx.nodes[e].nsDef + [Ns(prefix, None)])
            && r.0.status == NsWarnMsg(ctx.status, NsErrUndefinedNamespace))
      && (found'.None? && !placeholderOk ==> !r.1 && r.0 == ctx.(status := ErrMemory(ctx.status)))
  {
    var found := SearchNs(ctx.nodes, parent, prefix);
    var found' := if found.None? && prefix == Some("xml") then SearchNs(ctx.nodes, Some(e), prefix) else found;
    if found'.Some? then
      (ctx.(nodes := ctx.nodes[e := ctx.nodes[e].(ns := found')]), true)
    else if !placeholderOk then
      (ctx.(status := ErrMemory(ctx.status)), false)
    else
      (ctx.(nodes := ctx.nodes[e := ctx.nodes[e].(nsDef := ctx.nodes[e].nsDef + [Ns(prefix, None)])],
            status := NsWarnMsg(ctx.status, NsErrUndefinedNamespace)), true)
  }

  // ---------------------------------------------------------------------
  // Element start: node creation and linking
  // ---------------------------------------------------------------------

  /** No DTD can validate the document: no external subset, and an internal
      subset that is absent or declares nothing. */
  predicate NoDtd(d: Doc) {
    d.extSubset.None? && (d.intSubset.None? || HasNoDeclarations(d.intSubset.value))
  }

  /** The validity check xmlSAX2StartElementNs runs first: validating
      without any DTD reports an error and switches validation off. */
  function CheckDtdPresent(ctx: Ctxt): (r: Ctxt)
    requires ctx.myDoc.Some?
    ensures r == ctx.(status := r.status, validate := r.validate)
    ensures ctx.validate && NoDtd(ctx.myDoc.value) ==>
              !r.validate && r.status == ErrValid(ctx.status, ErrNoDtd)
    ensures !(ctx.validate && NoDtd(ctx.myDoc.value)) ==> r == ctx
  {
    if ctx.validate && NoDtd(ctx.myDoc.value) then
      ctx.(status := ErrValid(ctx.status, ErrNoDtd), validate := false)
    else ctx
  }

  /** The preconditions of opening a fresh element `elem`. */
  predicate Openable(ctx: Ctxt, elem: Node) {
    && ctx.IndicesOk() && ctx.myDoc.Some?
    && elem.children == [] && elem.parent == Detached && elem.kind == ElementNode
  }

  /** The facts every way of opening `elem` at index |ctx.nodes| keeps. */
  predicate Opened(ctx: Ctxt, elem: Node, r: Ctxt)
    requires ctx.IndicesOk()
  {
    && r.IndicesOk() && r.myDoc.Some? && r.CursorOk()
    && r == ctx.(nodes := r.nodes, myDoc := r.myDoc, nodeTab := r.nodeTab, nodemem := -1)
    && |r.nodes| == |ctx.nodes| + 1 && NodesExtend(ctx.nodes, r.nodes)
    && r.nodeTab == ctx.nodeTab + [|ctx.nodes|]
    && r.nodes[|ctx.nodes|].(parent := Detached) == elem
    && forall i :: 0 <= i < |ctx.nodes| ==> r.nodes[i].parent == ctx.nodes[i].parent
  }

  /** The freshly allocated element, pushed, with the fast path disarmed. */
  function Pushed(ctx: Ctxt, elem: Node): (r: Ctxt)
    requires Openable(ctx, elem)
    ensures r.IndicesOk() && r.nodes == AppendNode(ctx.nodes, elem)
    ensures r == ctx.(nodes := r.nodes, nodeTab := ctx.nodeTab + [|ctx.nodes|], nodemem := -1)
  {
    ctx.(nodes := AppendNode(ctx.nodes, elem), nodemem := -1, nodeTab := ctx.nodeTab + [|ctx.nodes|])
  }

  /** Opening with no element open: the element goes to the top level. */
  function OpenAtTop(ctx: Ctxt, elem: Node): (r: Ctxt)
    requires Openable(ctx, elem) && ctx.Current().None?
    ensures Opened(ctx, elem, r)
    ensures r.myDoc.value == ctx.myDoc.value.(children := ctx.myDoc.value.children + [|ctx.nodes|])
    ensures r.nodes[|ctx.nodes|].parent == DocParent
    ensures forall i :: 0 <= i < |ctx.nodes| ==> r.nodes[i].children == ctx.nodes[i].children
  {
    LinkToDoc(Pushed(ctx, elem), |ctx.nodes|)
  }

  /** The element pushed, and linked at the top level when the document
      has no top-level node yet. */
  function StagedInside(ctx: Ctxt, elem: Node): (r: Ctxt)
    requires Openable(ctx, elem) && ctx.Current().Some?
    ensures Opened(ctx, elem, r)
    ensures forall i :: 0 <= i < |ctx.nodes| ==> r.nodes[i].children == ctx.nodes[i].children
    ensures r.nodes[|ctx.nodes|].children == []
    ensures r.myDoc.value == ctx.myDoc.value.(children := ctx.myDoc.value.children
                               + (if ctx.myDoc.value.children == [] then [|ctx.nodes|] else []))
  {
    var c0 := Pushed(ctx, elem);
    if ctx.myDoc.value.children == [] then LinkToDoc(c0, |ctx.nodes|) else c0
  }

  /** Link the staged element as the last child of the open element `p`. */
  function LinkUnder(ctx: Ctxt, elem: Node, c1: Ctxt, p: nat): (r: Ctxt)
    requires Openable(ctx, elem) && ctx.Current() == Some(p) && Opened(ctx, elem, c1)
    requires forall i :: 0 <= i < |ctx.nodes| ==> c1.nodes[i].children == ctx.nodes[i].children
    requires c1.nodes[|ctx.nodes|].children == []
    ensures Opened(ctx, elem, r) && r.myDoc == c1.myDoc
    ensures r.nodes[p].children == ctx.nodes[p].children + [|ctx.nodes|]
    ensures r.nodes[|ctx.nodes|].parent == NodeParent(p)
    ensures forall i :: 0 <= i < |ctx.nodes| && i != p ==> r.nodes[i].children == ctx.nodes[i].children
  {
    var e := |ctx.nodes|;
    var r := c1.(nodes := LinkChild(c1.nodes, p, e));
    NodesExtendTrans(ctx.nodes, c1.nodes, r.nodes);
    r
  }

  /** Opening inside the open element `p`: the element becomes its last
      child, and also a top-level node when the document has none yet. */
  function OpenInside(ctx: Ctxt, elem: Node, p: nat): (r: Ctxt)
    requires Openable(ctx, elem) && ctx.Current() == Some(p)
    ensures Opened(ctx, elem, r)
    ensures LastChild(r.nodes, p) == Some(|ctx.nodes|)
    ensures r.nodes[p].children == ctx.nodes[p].children + [|ctx.nodes|]
    ensures r.nodes[|ctx.nodes|].parent == NodeParent(p)
    ensures forall i :: 0 <= i < |ctx.nodes| && i != p ==> r.nodes[i].children == ctx.nodes[i].children
    ensures r.myDoc.value == ctx.myDoc.value.(children := ctx.myDoc.value.children
                               + (if ctx.myDoc.value.children == [] then [|ctx.nodes|] else []))
  {
    LinkUnder(ctx, elem, StagedInside(ctx, elem), p)
  }

  /** Opening while the open node `p` is not an element: the element is
      linked after it. The sibling link first unlinks the node, so a
      top-level link made just before does not last. */
  function OpenAfter(ctx: Ctxt, elem: Node, p: nat): (r: Ctxt)
    requires Openable(ctx, elem) && ctx.Current() == Some(p)
    ensures Opened(ctx, elem, r)
  {
    AddSibling(Pushed(ctx, elem), p, |ctx.nodes|)
  }

  /** Allocate the element node `elem`, hang it at the top of the document
      when the document is still empty or no element is open, disarm the
      text fast path, push it, and link it under the previously open node
      (as its last child when that is an element, else after it). */
  function OpenElement(ctx: Ctxt, elem: Node): (r: Ctxt)
    requires Openable(ctx, elem)
    ensures Opened(ctx, elem, r)
    ensures ctx.Current().None? ==>
              && r.myDoc.value == ctx.myDoc.value.(children := ctx.myDoc.value.children + [|ctx.nodes|])
              && r.nodes[|ctx.nodes|].parent == DocParent
              && forall i :: 0 <= i < |ctx.nodes| ==> r.nodes[i].children == ctx.nodes[i].children
    ensures ctx.Current().Some? && ctx.nodes[ctx.Current().value].kind == ElementNode ==>
              var p := ctx.Current().value;
              && LastChild(r.nodes, p) == Some(|ctx.nodes|)
              && r.nodes[p].children == ctx.nodes[p].children + [|ctx.nodes|]
              && r.nodes[|ctx.nodes|].parent == NodeParent(p)
              && (forall i :: 0 <= i < |ctx.nodes| && i != p ==> r.nodes[i].children == ctx.nodes[i].children)
              && r.myDoc.value == ctx.myDoc.value.(children := ctx.myDoc.value.children
                                     + (if ctx.myDoc.value.children == [] then [|ctx.nodes|] else []))
  {
    match ctx.Current()
    case None => OpenAtTop(ctx, elem)
    case Some(p) =>
      if ctx.nodes[p].kind == ElementNode then OpenInside(ctx, elem, p)
      else OpenAfter(ctx, elem, p)
  }

  // ---------------------------------------------------------------------
  // Attributes
  // ---------------------------------------------------------------------

  /** One attribute of a start tag as the parser delivers it. `expanded` is
      true when the parser had to copy the value because it held entity
      references; `isId` and `isRef` are what xmlIsID and xmlIsRef answer
      for it from DTD tables outside this model. */
  datatype AttrEvent = AttrEvent(
    localname: string,
    prefix: Option<string>,
    uri: Option<string>,
    value: string,
    expanded: bool,
    isId: bool,
    isRef: bool)

  /** Whether the allocations for one attribute succeed: the attribute
      itself, and the text node of its value. */
  datatype AttrAlloc = AttrAlloc(prop: bool, text: bool)

  /** A prefix with no namespace in scope is folded into the name, as
      `prefix:local` without a prefix. */
  function Unprefixed(ev: AttrEvent): (r: AttrEvent)
    ensures ev.prefix.Some? && ev.uri.None? ==>
              r == ev.(localname := QName(ev.localname, ev.prefix), prefix := None)
    ensures ev.prefix.None? || ev.uri.Some? ==> r == ev
    ensures r.prefix.Some? ==> r.uri.Some?
  {
    if ev.prefix.Some? && ev.uri.None? then ev.(localname := QName(ev.localname, ev.prefix), prefix := None)
    else ev
  }

  /** The attributes that reach the tree: the last `nbDefaulted` of them
      come from DTD defaults and are dropped unless XML_COMPLETE_ATTRS is
      requested. */
  function Delivered(attributes: seq<AttrEvent>, nbDefaulted: nat, loadsubset: set<LoadFlag>): (r: seq<AttrEvent>)
    requires nbDefaulted <= |attributes|
    ensures CompleteAttrs in loadsubset ==> r == attributes
    ensures CompleteAttrs !in loadsubset ==> r == attributes[..|attributes| - nbDefaulted]
  {
    if nbDefaulted != 0 && CompleteAttrs !in loadsubset then attributes[..|attributes| - nbDefaulted]
    else attributes
  }

  /** xmlSAX2TextNode: a detached text node holding exactly `str` (the
      interned and the copied representation hold the same characters), or
      no node and an out-of-memory report when an allocation fails. */
  function NewTextNode(s: Status, str: string, allocOk: bool): (r: (Status, Option<Node>))
    ensures r.1.Some? <==> allocOk
    ensures allocOk ==> r.0 == s && r.1.value == Leaf(TextNode, "text", str)
    ensures !allocOk ==> r.0 == ErrMemory(s)
  {
    if allocOk then (s, Some(Leaf(TextNode, "text", str))) else (ErrMemory(s), None)
  }

  /** The value subtree of an attribute: the node list of a value that
      still holds entity references when entities are not substituted,
      otherwise one text node. */
  function ValueOf(ctx: Ctxt, ev: AttrEvent, textOk: bool): (r: (Status, AttrValue))
    ensures !ctx.cfg.replaceEntities && ev.expanded ==> r == (ctx.status, NodeListValue(ev.value))
    ensures (ctx.cfg.replaceEntities || !ev.expanded) && textOk ==> r == (ctx.status, TextValue(ev.value))
    ensures (ctx.cfg.replaceEntities || !ev.expanded) && !textOk ==> r == (ErrMemory(ctx.status), NoValue)
  {
    if !ctx.cfg.replaceEntities && ev.expanded then (ctx.status, NodeListValue(ev.value))
    else
      var t := NewTextNode(ctx.status, ev.value, textOk);
      (t.0, if t.1.Some? then TextValue(t.1.value.content) else NoValue)
  }

  /** ID and reference registration happens only when IDs are not skipped,
      and either entities are kept and the content is not from an external
      entity being loaded, or entities are substituted and no DTD subset is
      being parsed. */
  predicate IdGate(ctx: Ctxt) {
    && SkipIds !in ctx.cfg.loadsubset
    && ((!ctx.cfg.replaceEntities && ctx.cfg.external != 2) || (ctx.cfg.replaceEntities && ctx.cfg.inSubset == 0))
  }

  /** What an attribute registers: `xml:id` always an ID, otherwise an ID
      or a reference as the DTD declares it. */
  function Registers(ev: AttrEvent): (r: Option<IdKind>)
    ensures r == Some(RegisteredId) <==> (ev.prefix == Some("xml") && ev.localname == "id") || ev.isId
    ensures r == Some(RegisteredRef) <==> !(ev.prefix == Some("xml") && ev.localname == "id") && !ev.isId && ev.isRef
    ensures r.None? <==> !(ev.prefix == Some("xml") && ev.localname == "id") && !ev.isId && !ev.isRef
  {
    if ev.prefix == Some("xml") && ev.localname == "id" then Some(RegisteredId)
    else if ev.isId then Some(RegisteredId)
    else if ev.isRef then Some(RegisteredRef)
    else None
  }

  /** The attribute list of node `c` is all that differs between `a` and `b`. */
  predicate OnlyAttrsOf(a: seq<Node>, b: seq<Node>, c: nat) {
    && |b| == |a| && c < |a|
    && (forall i :: 0 <= i < |a| && i != c ==> b[i] == a[i])
    && b[c] == a[c].(attrs := b[c].attrs)
  }

  /** Between `a` and `b` only node `c`'s attribute list changed, by
      appending at most `n` attributes. */
  predicate AttrsGrew(a: seq<Node>, b: seq<Node>, c: nat, n: nat) {
    && OnlyAttrsOf(a, b, c)
    && |a[c].attrs| <= |b[c].attrs| <= |a[c].attrs| + n
    && b[c].attrs[..|a[c].attrs|] == a[c].attrs
  }

  /** Every attribute allocation succeeds. */
  predicate AllAllocated(allocs: seq<AttrAlloc>) {
    forall k :: 0 <= k < |allocs| ==> allocs[k].prop
  }

  lemma AllAllocatedPrefix(allocs: seq<AttrAlloc>, n: nat)
    requires AllAllocated(allocs) && n <= |allocs|
    ensures AllAllocated(allocs[..n])
  {
  }

  lemma AllAllocatedTail(allocs: seq<AttrAlloc>)
    requires AllAllocated(allocs) && |allocs| > 0
    ensures AllAllocated(allocs[1..])
  {
  }

  /** The attribute xmlSAX2AttributeNs builds for `ev` on the element `c`:
      named by its local name, in the namespace its prefix finds from `c`
      (an unprefixed attribute has none), with the value ValueOf gives. */
  function NewAttr(ctx: Ctxt, c: nat, ev: AttrEvent, textOk: bool): (r: (Status, Attr))
    requires c < |ctx.nodes|
    ensures r.1.name == ev.localname
    ensures ev.prefix.None? ==> r.1.ns.None?
    ensures ev.prefix.Some? ==> r.1.ns == SearchNs(ctx.nodes, Some(c), ev.prefix)
    ensures ev.prefix == Some("xml") ==> r.1.ns == Some(XmlNamespace)
    ensures (r.1.value, r.0) == (ValueOf(ctx, ev, textOk).1, ValueOf(ctx, ev, textOk).0)
  {
    var ns := if ev.prefix.Some? then SearchNs(ctx.nodes, Some(c), ev.prefix) else None;
    var v := ValueOf(ctx, ev, textOk);
    (v.0, Attr(ev.localname, ns, v.1))
  }

  /** The ID table after an attribute at position `pos` of element `c`:
      one registration when IdGate holds and the attribute registers
      something, else unchanged. */
  function IdsAfter(ctx: Ctxt, ev: AttrEvent, c: nat, pos: nat): (r: seq<IdRegistration>)
    ensures IdGate(ctx) && Registers(ev).Some? ==>
              r == ctx.ids + [IdRegistration(Registers(ev).value, ev.value, c, pos)]
    ensures !IdGate(ctx) || Registers(ev).None? ==> r == ctx.ids
  {
    var kind := if IdGate(ctx) then Registers(ev) else None;
    if kind.Some? then ctx.ids + [IdRegistration(kind.value, ev.value, c, pos)] else ctx.ids
  }

  /** `a` appended to the attribute list of node `c`. */
  function AppendAttr(nodes: seq<Node>, c: nat, a: Attr): (r: seq<Node>)
    requires c < |nodes| && ArenaClosed(nodes)
    ensures ArenaClosed(r) && OnlyAttrsOf(nodes, r, c)
    ensures r[c].attrs == nodes[c].attrs + [a]
  {
    nodes[c := nodes[c].(attrs := nodes[c].attrs + [a])]
  }

  /** xmlSAX2AttributeNs: append an attribute to the current element, with
      the status NewAttr reports, and record its ID or reference.
      `alloc.prop` false is an out-of-memory report and no attribute. */
  function AttributeNs(ctx: Ctxt, ev: AttrEvent, alloc: AttrAlloc): (r: Ctxt)
    requires ctx.IndicesOk() && ctx.CursorOk() && ctx.Current().Some?
    ensures r.IndicesOk() && r.CursorOk()
    ensures r == ctx.(nodes := r.nodes, status := r.status, ids := r.ids)
    ensures AttrsGrew(ctx.nodes, r.nodes, ctx.Current().value, 1)
    ensures !alloc.prop ==> r == ctx.(status := ErrMemory(ctx.status))
    ensures alloc.prop ==>
              var c := ctx.Current().value;
              var na := NewAttr(ctx, c, ev, alloc.text);
              && r.nodes[c].attrs == ctx.nodes[c].attrs + [na.1] && r.status == na.0
              && r.ids == IdsAfter(ctx, ev, c, |ctx.nodes[c].attrs|)
  {
    var c := ctx.Current().value;
    if !alloc.prop then ctx.(status := ErrMemory(ctx.status))
    else
      var na := NewAttr(ctx, c, ev, alloc.text);
      var r := ctx.(nodes := AppendAttr(ctx.nodes, c, na.1), status := na.0,
                    ids := IdsAfter(ctx, ev, c, |ctx.nodes[c].attrs|));
      CursorOkSameShape(ctx, r);
      assert r.nodes[c].attrs[..|ctx.nodes[c].attrs|] == ctx.nodes[c].attrs;
      r
  }

  /** The attribute loop of xmlSAX2StartElementNs: every delivered
      attribute, in order, with an undefined prefix folded into its name. */
  function AddAttributes(ctx: Ctxt, evs: seq<AttrEvent>, allocs: seq<AttrAlloc>): (r: Ctxt)
    requires ctx.IndicesOk() && ctx.CursorOk() && ctx.Current().Some? && |allocs| == |evs|
    ensures r.IndicesOk() && r.CursorOk()
    ensures r == ctx.(nodes := r.nodes, status := r.status, ids := r.ids)
    ensures AttrsGrew(ctx.nodes, r.nodes, ctx.Current().value, |evs|)
    decreases |evs|
  {
    if |evs| == 0 then ctx
    else
      var c := ctx.Current().value;
      var c1 := AttributeNs(ctx, Unprefixed(evs[0]), allocs[0]);
      var r := AddAttributes(c1, evs[1..], allocs[1..]);
      AttrsGrow(ctx.nodes, c1.nodes, r.nodes, c, 1, |evs| - 1);
      r
  }

  /** Two attribute-only changes of one node compose. */
  lemma AttrsGrow(a: seq<Node>, b: seq<Node>, d: seq<Node>, c: nat, n: nat, m: nat)
    requires AttrsGrew(a, b, c, n) && AttrsGrew(b, d, c, m)
    ensures AttrsGrew(a, d, c, n + m)
  {
    assert d[c].attrs[..|a[c].attrs|] == d[c].attrs[..|b[c].attrs|][..|a[c].attrs|];
  }

  /** The names of an attribute list, in order. */
  function AttrNames(a: seq<Attr>): (r: seq<string>)
    ensures |r| == |a| && forall k :: 0 <= k < |a| ==> r[k] == a[k].name
  {
    seq(|a|, k requires 0 <= k < |a| => a[k].name)
  }

  /** The names the delivered attributes are stored under, in order. */
  function EventNames(evs: seq<AttrEvent>): (r: seq<string>)
    ensures |r| == |evs| && forall k :: 0 <= k < |evs| ==> r[k] == Unprefixed(evs[k]).localname
  {
    seq(|evs|, k requires 0 <= k < |evs| => Unprefixed(evs[k]).localname)
  }

  lemma AttrNamesSnoc(a: seq<Attr>, x: Attr)
    ensures AttrNames(a + [x]) == AttrNames(a) + [x.name]
  {
    assert AttrNames(a + [x]) == AttrNames(a) + [x.name];
  }

  lemma EventNamesCons(evs: seq<AttrEvent>)
    requires |evs| > 0
    ensures EventNames(evs) == [Unprefixed(evs[0]).localname] + EventNames(evs[1..])
  {
    assert EventNames(evs) == [Unprefixed(evs[0]).localname] + EventNames(evs[1..]);
  }

  /** When every allocation succeeds, the element ends up with its
      attributes in the order the start tag delivered them. */
  lemma {:induction false} AttributesInOrder(ctx: Ctxt, evs: seq<AttrEvent>, allocs: seq<AttrAlloc>)
    requires ctx.IndicesOk() && ctx.CursorOk() && ctx.Current().Some? && |allocs| == |evs|
    requires AllAllocated(allocs)
    ensures
      var c := ctx.Current().value;
      AttrNames(AddAttributes(ctx, evs, allocs).nodes[c].attrs) == AttrNames(ctx.nodes[c].attrs) + EventNames(evs)
    decreases |evs|
  {
    var c := ctx.Current().value;
    if |evs| == 0 {
      assert EventNames(evs) == [];
    } else {
      var ev := Unprefixed(evs[0]);
      var c1 := AttributeNs(ctx, ev, allocs[0]);
      assert c1.Current() == Some(c);
      var r := AddAttributes(c1, evs[1..], allocs[1..]);
      assert AddAttributes(ctx, evs, allocs) == r;
      AllAllocatedTail(allocs);
      AttributeNsNames(ctx, ev, allocs[0]);
      AttributesInOrder(c1, evs[1..], allocs[1..]);
      EventNamesCons(evs);
      ConcatStep(AttrNames(ctx.nodes[c].attrs), AttrNames(c1.nodes[c].attrs), ev.localname,
                 EventNames(evs[1..]), EventNames(evs));
    }
  }

  lemma ConcatAssoc<T>(x: seq<T>, y: seq<T>, z: seq<T>)
    ensures x + (y + z) == (x + y) + z
  {
  }

  /** Moving one element across a concatenation. */
  lemma ConcatStep<T>(a: seq<T>, b: seq<T>, x: T, e: seq<T>, f: seq<T>)
    requires b == a + [x] && f == [x] + e
    ensures b + e == a + f
  {
  }

  /** One allocated attribute adds its name at the end of the list. */
  lemma AttributeNsNames(ctx: Ctxt, ev: AttrEvent, alloc: AttrAlloc)
    requires ctx.IndicesOk() && ctx.CursorOk() && ctx.Current().Some? && alloc.prop
    ensures var c := ctx.Current().value;
            AttrNames(AttributeNs(ctx, ev, alloc).nodes[c].attrs) == AttrNames(ctx.nodes[c].attrs) + [ev.localname]
  {
    var c := ctx.Current().value;
    AttrNamesSnoc(ctx.nodes[c].attrs, NewAttr(ctx, c, ev, alloc.text).1);
  }

  // ---------------------------------------------------------------------
  // Element start
  // ---------------------------------------------------------------------

  /** The element has a namespace name, but neither its own declarations
      nor the scope of its parent bind its prefix, and it is not `xml`. */
  predicate NeedsPlaceholder(nodes: seq<Node>, parent: Option<nat>, prefix: Option<string>,
                             uri: Option<string>, created: seq<Ns>) {
    && uri.Some? && OwnNs(created, prefix).None?
    && SearchNs(nodes, parent, prefix).None? && prefix != Some("xml")
  }

  /** Namespace resolution for the new element `e`, open in `c1`, when its
      own declarations did not bind it; `parent` was open before it. */
  function ResolveStage(c1: Ctxt, e: nat, parent: Option<nat>, prefix: Option<string>, uri: Option<string>,
                        placeholderOk: bool): (r: (Ctxt, bool))
    requires c1.IndicesOk() && c1.CursorOk() && c1.Current() == Some(e)
    ensures r.0.IndicesOk() && r.0.CursorOk()
    ensures r.0 == c1.(nodes := r.0.nodes, status := r.0.status)
    ensures |r.0.nodes| == |c1.nodes| && forall i :: 0 <= i < |c1.nodes| && i != e ==> r.0.nodes[i] == c1.nodes[i]
    ensures r.0.nodes[e] == c1.nodes[e].(ns := r.0.nodes[e].ns, nsDef := r.0.nodes[e].nsDef)
    ensures uri.None? || c1.nodes[e].ns.Some? ==> r.1 && r.0 == c1
    ensures uri.Some? && c1.nodes[e].ns.None? ==>
      var found := SearchNs(c1.nodes, parent, prefix);
      var found' := if found.None? && prefix == Some("xml") then SearchNs(c1.nodes, Some(e), prefix) else found;
      && r.0.nodes[e].ns == found'
      && (found'.Some? ==> r.1 && r.0.nodes[e].nsDef == c1.nodes[e].nsDef)
      && (found'.None? && placeholderOk ==> r.1 && r.0.nodes[e].nsDef == c1.nodes[e].nsDef + [Ns(prefix, None)])
      && (found'.None? && !placeholderOk ==> !r.1 && r.0.nodes[e].nsDef == c1.nodes[e].nsDef && Stopped(r.0.status))
  {
    if uri.Some? && c1.nodes[e].ns.None? then
      var r := ResolveNs(c1, e, parent, prefix, placeholderOk);
      CursorOkSameShape(c1, r.0);
      r
    else (c1, true)
  }

  /** The attribute loop on the element `e` open in `c2`, with the order
      the start tag gave when every allocation succeeds. */
  function AttributeStage(c2: Ctxt, e: nat, evs: seq<AttrEvent>, allocs: seq<AttrAlloc>): (r: Ctxt)
    requires c2.IndicesOk() && c2.CursorOk() && c2.Current() == Some(e) && |allocs| == |evs|
    ensures r.IndicesOk() && r.CursorOk()
    ensures r == c2.(nodes := r.nodes, status := r.status, ids := r.ids)
    ensures OnlyAttrsOf(c2.nodes, r.nodes, e)
    ensures AllAllocated(allocs) ==>
              AttrNames(r.nodes[e].attrs) == AttrNames(c2.nodes[e].attrs) + EventNames(evs)
  {
    var r := AddAttributes(c2, evs, allocs);
    assert AllAllocated(allocs) ==>
             AttrNames(r.nodes[e].attrs) == AttrNames(c2.nodes[e].attrs) + EventNames(evs) by {
      if AllAllocated(allocs) {
        AttributesInOrder(c2, evs, allocs);
      }
    }
    r
  }

  /** The element node xmlSAX2StartElementNs allocates: its name, its
      created declarations, and the namespace its own declarations give it. */
  function NewElement(localname: string, prefix: Option<string>, uri: Option<string>,
                      namespaces: seq<Ns>, nsOk: seq<bool>): (n: Node)
    requires |nsOk| == |namespaces|
    ensures n.kind == ElementNode && n.children == [] && n.parent == Detached && n.attrs == []
    ensures n.name == ElementName(localname, prefix, uri) && n.nsDef == CreatedNs(namespaces, nsOk)
    ensures uri.None? ==> n.ns.None?
    ensures uri.Some? ==> n.ns == OwnNs(CreatedNs(namespaces, nsOk), prefix)
  {
    var created := CreatedNs(namespaces, nsOk);
    Node(ElementNode, ElementName(localname, prefix, uri), "", Detached, [], created,
         if uri.Some? then OwnNs(created, prefix) else None, [])
  }

  /** Namespace resolution, then (unless the placeholder could not be
      allocated) the attribute loop, for the element `e` open in `c1`. */
  function CompleteElement(c1: Ctxt, e: nat, parent: Option<nat>, prefix: Option<string>, uri: Option<string>,
                           evs: seq<AttrEvent>, allocs: seq<AttrAlloc>, placeholderOk: bool): (r: Ctxt)
    requires c1.IndicesOk() && c1.CursorOk() && c1.Current() == Some(e) && |allocs| == |evs|
    ensures r.IndicesOk() && r.CursorOk()
    ensures r == c1.(nodes := r.nodes, status := r.status, ids := r.ids)
    ensures |r.nodes| == |c1.nodes| && forall i :: 0 <= i < |c1.nodes| && i != e ==> r.nodes[i] == c1.nodes[i]
    ensures r.nodes[e] == c1.nodes[e].(ns := r.nodes[e].ns, nsDef := r.nodes[e].nsDef, attrs := r.nodes[e].attrs)
    ensures
      var c2 := ResolveStage(c1, e, parent, prefix, uri, placeholderOk);
      && r.nodes[e].ns == c2.0.nodes[e].ns && r.nodes[e].nsDef == c2.0.nodes[e].nsDef
      && (!c2.1 ==> r == c2.0)
      && (c2.1 ==> r == AttributeStage(c2.0, e, evs, allocs))
  {
    var c2 := ResolveStage(c1, e, parent, prefix, uri, placeholderOk);
    if !c2.1 then c2.0 else AttributeStage(c2.0, e, evs, allocs)
  }

  /** The part of xmlSAX2StartElementNs after the validity check, when the
      element node can be allocated. */
  function BuildElement(ctx: Ctxt, localname: string, prefix: Option<string>, uri: Option<string>,
                        namespaces: seq<Ns>, nsOk: seq<bool>,
                        attributes: seq<AttrEvent>, nbDefaulted: nat, attrAllocs: seq<AttrAlloc>,
                        placeholderOk: bool): (r: Ctxt)
    requires ctx.IndicesOk() && ctx.CursorOk() && ctx.myDoc.Some?
    requires |nsOk| == |namespaces| && nbDefaulted <= |attributes| && |attrAllocs| == |attributes|
    ensures r.IndicesOk() && r.CursorOk() && r.myDoc.Some?
    ensures r.validate == ctx.validate && r.nodemem == -1
    ensures |r.nodes| == |ctx.nodes| + 1 && NodesExtend(ctx.nodes, r.nodes)
    ensures r.nodeTab == ctx.nodeTab + [|ctx.nodes|]
    ensures ElementLinked(ctx.nodes, ctx.Current(), ctx.myDoc.value, r.nodes, r.myDoc.value,
                          ElementName(localname, prefix, uri))
  {
    var e := |ctx.nodes|;
    var elem := NewElement(localname, prefix, uri, namespaces, nsOk);
    var c1 := OpenElement(ctx, elem);
    var delivered := Delivered(attributes, nbDefaulted, ctx.cfg.loadsubset);
    var r := CompleteElement(c1, e, ctx.Current(), prefix, uri, delivered, attrAllocs[..|delivered|], placeholderOk);
    CompleteLinks(ctx, elem, c1, r);
    r
  }

  /** xmlSAX2StartElementNs. `namespaces` are the declarations on the tag
      and `nsOk` whether xmlNewNs succeeds for each; `attributes` end with
      `nbDefaulted` attributes defaulted from the DTD, and `attrAllocs`
      says whether each one's allocations succeed; `allocOk` is whether
      the element node itself can be allocated, `placeholderOk` whether a
      placeholder declaration can be. */
  function StartElementNs(ctx: Ctxt, localname: string, prefix: Option<string>, uri: Option<string>,
                          namespaces: seq<Ns>, nsOk: seq<bool>,
                          attributes: seq<AttrEvent>, nbDefaulted: nat, attrAllocs: seq<AttrAlloc>,
                          allocOk: bool, placeholderOk: bool): (r: Ctxt)
    requires ctx.IndicesOk() && ctx.CursorOk() && ctx.myDoc.Some?
    requires |nsOk| == |namespaces| && nbDefaulted <= |attributes| && |attrAllocs| == |attributes|
    ensures r.IndicesOk() && r.CursorOk() && r.myDoc.Some?
    ensures ctx.validate && NoDtd(ctx.myDoc.value) ==> !r.validate
    ensures !(ctx.validate && NoDtd(ctx.myDoc.value)) ==> r.validate == ctx.validate
    ensures !allocOk ==> r.nodes == ctx.nodes && r.nodeTab == ctx.nodeTab && Stopped(r.status)
    ensures allocOk ==>
              && |r.nodes| == |ctx.nodes| + 1 && NodesExtend(ctx.nodes, r.nodes)
              && r.nodeTab == ctx.nodeTab + [|ctx.nodes|] && r.nodemem == -1
              && ElementLinked(ctx.nodes, ctx.Current(), ctx.myDoc.value, r.nodes, r.myDoc.value,
                               ElementName(localname, prefix, uri))
  {
    var c0 := CheckDtdPresent(ctx);
    if !allocOk then c0.(status := ErrMemory(c0.status))
    else BuildElement(c0, localname, prefix, uri, namespaces, nsOk, attributes, nbDefaulted, attrAllocs, placeholderOk)
  }

  // ---------------------------------------------------------------------
  // Properties of an element start
  // ---------------------------------------------------------------------

  /** The preconditions xmlSAX2StartElementNs places on its arguments. */
  predicate StartArgs(ctx: Ctxt, namespaces: seq<Ns>, nsOk: seq<bool>, attributes: seq<AttrEvent>,
                      nbDefaulted: nat, attrAllocs: seq<AttrAlloc>) {
    && ctx.IndicesOk() && ctx.CursorOk() && ctx.myDoc.Some?
    && |nsOk| == |namespaces| && nbDefaulted <= |attributes| && |attrAllocs| == |attributes|
  }

  /** `after` is `nodes` with a childless element named `name` added at
      index |nodes|, as the last child of `parent` when that is an element,
      or as a new top-level node of the document when nothing is open; no
      other node's children change. */
  predicate ElementLinked(nodes: seq<Node>, parent: Option<nat>, doc: Doc, after: seq<Node>, docAfter: Doc,
                          name: string)
    requires |after| == |nodes| + 1 && (parent.Some? ==> parent.value < |nodes|)
  {
    var e := |nodes|;
    && after[e].kind == ElementNode && after[e].name == name && after[e].children == []
    && (parent.Some? && nodes[parent.value].kind == ElementNode ==>
          && LastChild(after, parent.value) == Some(e)
          && after[e].parent == NodeParent(parent.value))
    && (parent.None? ==> docAfter.children == doc.children + [e] && after[e].parent == DocParent)
    && (parent.None? || nodes[parent.value].kind == ElementNode ==>
          forall i :: 0 <= i < |nodes| && Some(i) != parent ==> after[i].children == nodes[i].children)
  }

  /** Completing an opened element touches only its own namespaces and
      attributes, so the links OpenElement made stay as they are. */
  lemma CompleteLinks(c0: Ctxt, elem: Node, c1: Ctxt, r: Ctxt)
    requires Openable(c0, elem) && c1 == OpenElement(c0, elem)
    requires r.myDoc == c1.myDoc && |r.nodes| == |c1.nodes|
    requires forall i :: 0 <= i < |c1.nodes| && i != |c0.nodes| ==> r.nodes[i] == c1.nodes[i]
    requires r.nodes[|c0.nodes|] == c1.nodes[|c0.nodes|].(ns := r.nodes[|c0.nodes|].ns,
               nsDef := r.nodes[|c0.nodes|].nsDef, attrs := r.nodes[|c0.nodes|].attrs)
    ensures |r.nodes| == |c0.nodes| + 1 && r.myDoc.Some?
    ensures ElementLinked(c0.nodes, c0.Current(), c0.myDoc.value, r.nodes, r.myDoc.value, elem.name)
  {
    if c0.Current().Some? && c0.nodes[c0.Current().value].kind == ElementNode {
      var p := c0.Current().value;
      assert r.nodes[p] == c1.nodes[p];
    }
  }

  /** A call of xmlSAX2StartElementNs whose element node is allocated is
      the element opened, then completed. */
  lemma StartElementUnfold(ctx: Ctxt, localname: string, prefix: Option<string>, uri: Option<string>,
                           namespaces: seq<Ns>, nsOk: seq<bool>,
                           attributes: seq<AttrEvent>, nbDefaulted: nat, attrAllocs: seq<AttrAlloc>,
                           placeholderOk: bool)
    requires StartArgs(ctx, namespaces, nsOk, attributes, nbDefaulted, attrAllocs)
    ensures
      var c1 := OpenElement(CheckDtdPresent(ctx), NewElement(localname, prefix, uri, namespaces, nsOk));
      var delivered := Delivered(attributes, nbDefaulted, ctx.cfg.loadsubset);
      StartElementNs(ctx, localname, prefix, uri, namespaces, nsOk, attributes, nbDefaulted, attrAllocs, true, placeholderOk)
        == CompleteElement(c1, |ctx.nodes|, ctx.Current(), prefix, uri, delivered, attrAllocs[..|delivered|], placeholderOk)
  {
  }

  /** Completing a freshly opened element: its namespace is the one
      ResolvedNs computes on the tree before it was opened. */
  lemma CompleteNamespaces(c0: Ctxt, elem: Node, c1: Ctxt, prefix: Option<string>, uri: Option<string>,
                           evs: seq<AttrEvent>, allocs: seq<AttrAlloc>, placeholderOk: bool)
    requires Openable(c0, elem) && Opened(c0, elem, c1) && |allocs| == |evs|
    requires uri.None? ==> elem.ns.None?
    requires uri.Some? ==> elem.ns == OwnNs(elem.nsDef, prefix)
    ensures
      var e := |c0.nodes|;
      var r := CompleteElement(c1, e, c0.Current(), prefix, uri, evs, allocs, placeholderOk);
      && r.nodes[e].ns == ResolvedNs(c0.nodes, c0.Current(), prefix, uri, elem.nsDef)
      && (if NeedsPlaceholder(c0.nodes, c0.Current(), prefix, uri, elem.nsDef) && placeholderOk
          then r.nodes[e].nsDef == elem.nsDef + [Ns(prefix, None)]
          else r.nodes[e].nsDef == elem.nsDef)
  {
    var e := |c0.nodes|;
    assert c1.nodes[e].ns == elem.ns && c1.nodes[e].nsDef == elem.nsDef;
    SearchNsFrame(c0.nodes, c1.nodes, c0.Current(), prefix);
  }

  /** Completing a freshly opened element: no attributes when the
      placeholder fails, else the delivered ones in order when every
      allocation succeeds. */
  lemma CompleteAttributes(c0: Ctxt, elem: Node, c1: Ctxt, prefix: Option<string>, uri: Option<string>,
                           evs: seq<AttrEvent>, allocs: seq<AttrAlloc>, placeholderOk: bool)
    requires Openable(c0, elem) && Opened(c0, elem, c1) && |allocs| == |evs| && elem.attrs == []
    requires uri.None? ==> elem.ns.None?
    requires uri.Some? ==> elem.ns == OwnNs(elem.nsDef, prefix)
    ensures
      var e := |c0.nodes|;
      var r := CompleteElement(c1, e, c0.Current(), prefix, uri, evs, allocs, placeholderOk);
      var stuck := NeedsPlaceholder(c0.nodes, c0.Current(), prefix, uri, elem.nsDef) && !placeholderOk;
      && (stuck ==> r.nodes[e].attrs == [] && Stopped(r.status))
      && (!stuck && AllAllocated(allocs) ==>
            AttrNames(r.nodes[e].attrs) == EventNames(evs))
  {
    var e := |c0.nodes|;
    assert c1.nodes[e].ns == elem.ns && c1.nodes[e].attrs == [];
    SearchNsFrame(c0.nodes, c1.nodes, c0.Current(), prefix);
    var c2 := ResolveStage(c1, e, c0.Current(), prefix, uri, placeholderOk);
    assert c2.0.nodes[e].attrs == [];
    assert AttrNames([]) == [];
  }

  /** The namespace of a new element is the one ResolvedNs describes; its
      declarations are the created ones, plus a placeholder for a prefix
      found nowhere. */
  lemma StartElementNamespaces(ctx: Ctxt, localname: string, prefix: Option<string>, uri: Option<string>,
                               namespaces: seq<Ns>, nsOk: seq<bool>,
                               attributes: seq<AttrEvent>, nbDefaulted: nat, attrAllocs: seq<AttrAlloc>,
                               placeholderOk: bool)
    requires StartArgs(ctx, namespaces, nsOk, attributes, nbDefaulted, attrAllocs)
    ensures
      var r := StartElementNs(ctx, localname, prefix, uri, namespaces, nsOk, attributes, nbDefaulted,
                              attrAllocs, true, placeholderOk);
      var e := |ctx.nodes|;
      var created := CreatedNs(namespaces, nsOk);
      && r.nodes[e].ns == ResolvedNs(ctx.nodes, ctx.Current(), prefix, uri, created)
      && (if NeedsPlaceholder(ctx.nodes, ctx.Current(), prefix, uri, created) && placeholderOk
          then r.nodes[e].nsDef == created + [Ns(prefix, None)]
          else r.nodes[e].nsDef == created)
  {
    var c0 := CheckDtdPresent(ctx);
    var elem := NewElement(localname, prefix, uri, namespaces, nsOk);
    var delivered := Delivered(attributes, nbDefaulted, ctx.cfg.loadsubset);
    StartElementUnfold(ctx, localname, prefix, uri, namespaces, nsOk, attributes, nbDefaulted, attrAllocs, placeholderOk);
    CompleteNamespaces(c0, elem, OpenElement(c0, elem), prefix, uri, delivered, attrAllocs[..|delivered|], placeholderOk);
  }

  /** When the placeholder cannot be allocated the element keeps no
      attributes and the parse is stopped; otherwise, when every
      allocation succeeds, it carries the delivered attributes in order. */
  lemma StartElementAttributes(ctx: Ctxt, localname: string, prefix: Option<string>, uri: Option<string>,
                               namespaces: seq<Ns>, nsOk: seq<bool>,
                               attributes: seq<AttrEvent>, nbDefaulted: nat, attrAllocs: seq<AttrAlloc>,
                               placeholderOk: bool)
    requires StartArgs(ctx, namespaces, nsOk, attributes, nbDefaulted, attrAllocs)
    ensures
      var r := StartElementNs(ctx, localname, prefix, uri, namespaces, nsOk, attributes, nbDefaulted,
                              attrAllocs, true, placeholderOk);
      var e := |ctx.nodes|;
      var stuck := NeedsPlaceholder(ctx.nodes, ctx.Current(), prefix, uri, CreatedNs(namespaces, nsOk))
                   && !placeholderOk;
      && (stuck ==> r.nodes[e].attrs == [] && Stopped(r.status))
      && (!stuck && AllAllocated(attrAllocs) ==>
            AttrNames(r.nodes[e].attrs) == EventNames(Delivered(attributes, nbDefaulted, ctx.cfg.loadsubset)))
  {
    var c0 := CheckDtdPresent(ctx);
    var elem := NewElement(localname, prefix, uri, namespaces, nsOk);
    var delivered := Delivered(attributes, nbDefaulted, ctx.cfg.loadsubset);
    var allocs := attrAllocs[..|delivered|];
    StartElementUnfold(ctx, localname, prefix, uri, namespaces, nsOk, attributes, nbDefaulted, attrAllocs, placeholderOk);
    CompleteAttributes(c0, elem, OpenElement(c0, elem), prefix, uri, delivered, allocs, placeholderOk);
    if AllAllocated(attrAllocs) {
      AllAllocatedPrefix(attrAllocs, |delivered|);
    }
  }

  /** An element start keeps the tree-building invariant, and the matching
      element end restores the open-element stack: the new element is
      pushed on top of the element it was linked under. */
  lemma StartElementKeepsValid(ctx: Ctxt, localname: string, prefix: Option<string>, uri: Option<string>,
                               namespaces: seq<Ns>, nsOk: seq<bool>,
                               attributes: seq<AttrEvent>, nbDefaulted: nat, attrAllocs: seq<AttrAlloc>,
                               allocOk: bool, placeholderOk: bool)
    requires StartArgs(ctx, namespaces, nsOk, attributes, nbDefaulted, attrAllocs) && ctx.Valid()
    ensures
      var r := StartElementNs(ctx, localname, prefix, uri, namespaces, nsOk, attributes, nbDefaulted,
                              attrAllocs, allocOk, placeholderOk);
      && r.Valid()
      && (allocOk ==> EndElementNs(r).nodeTab == ctx.nodeTab)
  {
    var r := StartElementNs(ctx, localname, prefix, uri, namespaces, nsOk, attributes, nbDefaulted,
                            attrAllocs, allocOk, placeholderOk);
    if allocOk {
      PushKeepsValid(ctx, r, |ctx.nodes|);
      assert r.nodeTab[..|r.nodeTab| - 1] == ctx.nodeTab;
    } else {
      assert r.nodes == ctx.nodes && r.nodeTab == ctx.nodeTab;
    }
  }

  /** Pushing a new element that became the last child of the open element
      (only that element's children changing) keeps the invariant. */
  lemma PushKeepsValid(ctx: Ctxt, r: Ctxt, e: nat)
    requires ctx.Valid() && r.IndicesOk() && r.CursorOk()
    requires e == |ctx.nodes| && |r.nodes| == e + 1 && NodesExtend(ctx.nodes, r.nodes)
    requires r.nodeTab == ctx.nodeTab + [e] && r.nodes[e].kind == ElementNode
    requires ctx.Current().Some? ==> LastChild(r.nodes, ctx.Current().value) == Some(e)
    requires forall i :: 0 <= i < |ctx.nodes| && Some(i) != ctx.Current() ==>
               r.nodes[i].children == ctx.nodes[i].children
    ensures r.Valid()
  {
    var tab := ctx.nodeTab;
    assert forall k :: 0 <= k < |r.nodeTab| ==> r.nodes[r.nodeTab[k]].kind == ElementNode;
    forall k | 0 < k < |r.nodeTab|
      ensures LastChild(r.nodes, r.nodeTab[k - 1]) == Some(r.nodeTab[k])
    {
      if k < |tab| {
        assert tab[k - 1] < tab[|tab| - 1];
        assert r.nodes[tab[k - 1]].children == ctx.nodes[tab[k - 1]].children;
      }
    }
  }
}
