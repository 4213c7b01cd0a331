/** The parser context record (`xmlParserCtxt`) as far as the SAX2 handlers
    read or write it, with the invariants the handlers maintain between
    events. */
module Context {
  import opened XmlBase
  import opened ParserErrors
  import opened Tree

  /** One entry of the input stack; only what the handlers look at. */
  datatype Input = Input(filename: Option<string>, encoding: Option<string>, length: nat)

  datatype IdKind = RegisteredId | RegisteredRef

  /** One call of xmlAddID or xmlAddRef: the value and the attribute
      (element index, position in its attribute list) it was made for. */
  datatype IdRegistration = IdRegistration(kind: IdKind, value: string, element: nat, attr: nat)

  /** The parser settings the handlers consult: `loadsubset` and
      `options` flags, entity substitution, pedantic warnings, whether
      external content or a DTD subset is being parsed, and the
      `version` and `standalone` values from the XML declaration. */
  datatype Config = Config(
    loadsubset: set<LoadFlag>,
    options: set<ParseOption>,
    replaceEntities: bool,
    pedantic: bool,
    external: int,
    inSubset: int,
    version: Option<string>,
    standalone: int)

  /** The input side of the context: the encoding declared for the
      document, the character set of the input, the directory of the
      document, and the stack of open inputs. */
  datatype Inputs = Inputs(
    encoding: Option<string>,
    charset: int,
    directory: Option<string>,
    input: Option<Input>,
    inputNr: int,
    inputMax: int,
    inputTab: seq<Input>)

  datatype Ctxt = Ctxt(
    status: Status,
    validate: bool,
    vctxtValid: bool,
    cfg: Config,
    io: Inputs,
    myDoc: Option<Doc>,
    nodes: seq<Node>,
    nodeTab: seq<nat>,
    nodelen: int,
    nodemem: int,
    ids: seq<IdRegistration>)
  {
    /** `ctxt->node`: the top of the open-element stack. */
    function Current(): (r: Option<nat>)
      ensures r.None? <==> nodeTab == []
      ensures r.Some? ==> r.value == nodeTab[|nodeTab| - 1]
    {
      if |nodeTab| == 0 then None else Some(nodeTab[|nodeTab| - 1])
    }

    /** Every index held by the context points into the arena. */
    predicate IndicesOk() {
      && ArenaClosed(nodes)
      && (forall k :: 0 <= k < |nodeTab| ==> nodeTab[k] < |nodes|)
    }

    /** `nodelen`/`nodemem` describe the current node's last child when it is
        a text node and the fast append path is armed (`nodemem != 0`): the
        logical length is the content length and leaves room for the
        terminating NUL. */
    predicate CursorOk()
      requires IndicesOk()
    {
      match Current()
      case None => true
      case Some(c) =>
        match LastChild(nodes, c)
        case None => true
        case Some(t) =>
          nodes[t].kind == TextNode && nodemem != 0 ==>
            0 <= nodelen < nodemem && |nodes[t].content| == nodelen
    }

    /** Only elements are ever pushed on the open-element stack. */
    predicate ElementsOnStack()
      requires IndicesOk()
    {
      forall k :: 0 <= k < |nodeTab| ==> nodes[nodeTab[k]].kind == ElementNode
    }

    /** Each open element is the last child of the element opened before it. */
    predicate StackLinked()
      requires IndicesOk()
    {
      forall k :: 0 < k < |nodeTab| ==> LastChild(nodes, nodeTab[k - 1]) == Some(nodeTab[k])
    }

    /** Open elements were allocated in the order they were opened, so no
        element is open twice. */
    predicate StackOrdered() {
      forall j, k :: 0 <= j < k < |nodeTab| ==> nodeTab[j] < nodeTab[k]
    }

    /** The invariant the tree-building handlers keep between events. */
    predicate Valid() {
      IndicesOk() && CursorOk() && ElementsOnStack() && StackLinked() && StackOrdered()
    }

    /** The base used to resolve a system identifier: the current input's
        file name, else the context's directory. */
    function Base(): (r: Option<string>)
      ensures io.input.Some? && io.input.value.filename.Some? ==> r == io.input.value.filename
      ensures (io.input.None? || io.input.value.filename.None?) ==> r == io.directory
    {
      if io.input.Some? && io.input.value.filename.Some? then io.input.value.filename else io.directory
    }
  }

  /** CursorOk reads only the arena, the stack and the two counters. */
  lemma CursorOkFrame(a: Ctxt, b: Ctxt)
    requires a.IndicesOk() && a.CursorOk()
    requires b.nodes == a.nodes && b.nodeTab == a.nodeTab && b.nodelen == a.nodelen && b.nodemem == a.nodemem
    ensures b.IndicesOk() && b.CursorOk()
  {
  }

  /** A tracked text child whose length and capacity match the counters. */
  lemma CursorOkAt(ctx: Ctxt, c: nat, t: nat)
    requires ctx.IndicesOk() && ctx.Current() == Some(c)
    requires LastChild(ctx.nodes, c) == Some(t)
    requires 0 <= ctx.nodelen < ctx.nodemem && |ctx.nodes[t].content| == ctx.nodelen
    ensures ctx.CursorOk()
  {
  }

  /** CursorOk reads only the stack, the counters, and each node's kind,
      content and children. */
  lemma CursorOkSameShape(a: Ctxt, b: Ctxt)
    requires a.IndicesOk() && a.CursorOk()
    requires b.nodeTab == a.nodeTab && b.nodelen == a.nodelen && b.nodemem == a.nodemem
    requires |b.nodes| == |a.nodes|
    requires forall i :: 0 <= i < |a.nodes| ==>
               b.nodes[i].kind == a.nodes[i].kind && b.nodes[i].content == a.nodes[i].content
               && b.nodes[i].children == a.nodes[i].children
    ensures b.IndicesOk() && b.CursorOk()
  {
  }
}
