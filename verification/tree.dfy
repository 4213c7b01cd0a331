/** The document tree as an index-based arena. A node's children, the
    document's top-level children and the DTD subsets' children are indices
    into one `seq<Node>`; parents are non-owning back references. */
module Tree {
  import opened XmlBase

  datatype NodeKind =
    | ElementNode
    | TextNode
    | CDataNode
    | CommentNode
    | PiNode
    | EntityRefNode
    | CharRefNode

  /** A namespace binding (`xmlNs`): a prefix (None is the default
      namespace) and a namespace name (None only for placeholders). */
  datatype Ns = Ns(prefix: Option<string>, href: Option<string>)

  /** The value subtree of an attribute: a single text node, or the node
      list built from a value that still holds entity references. */
  datatype AttrValue = NoValue | TextValue(text: string) | NodeListValue(raw: string)

  datatype Attr = Attr(name: string, ns: Option<Ns>, value: AttrValue)

  /** Where a node hangs: nowhere, at the top of the document, under an
      arena node, or under the internal or external DTD subset. */
  datatype ParentRef = Detached | DocParent | NodeParent(index: nat) | SubsetParent(internal: bool)

  datatype Node = Node(
    kind: NodeKind,
    name: string,
    content: string,
    parent: ParentRef,
    children: seq<nat>,
    nsDef: seq<Ns>,
    ns: Option<Ns>,
    attrs: seq<Attr>)

  /** A node without children, namespaces or attributes. */
  function Leaf(kind: NodeKind, name: string, content: string): (n: Node)
    ensures n.kind == kind && n.name == name && n.content == content
    ensures n.children == [] && n.attrs == [] && n.nsDef == [] && n.parent == Detached
  {
    Node(kind, name, content, Detached, [], [], None, [])
  }

  /** Entity kinds (`xmlEntityType`). */
  datatype EntityType =
    | InternalGeneral
    | ExternalGeneralParsed
    | ExternalGeneralUnparsed
    | InternalParameter
    | ExternalParameter
    | InternalPredefined

  /** A URI produced by a call this model does not look into:
      xmlBuildURI(reference, base) or xmlPathToURI(path). */
  datatype UriRef = BuiltUri(reference: string, base: Option<string>) | PathUri(path: string)

  datatype Entity = Entity(
    name: string,
    etype: EntityType,
    publicId: Option<string>,
    systemId: Option<string>,
    content: Option<string>,
    uri: Option<UriRef>,
    loaded: bool)

  datatype AttributeType =
    | CDataType | IdType | IdRefType | IdRefsType | EntityAttrType | EntitiesType
    | NmTokenType | NmTokensType | EnumerationType | NotationType

  datatype AttributeDefault = NoDefault | RequiredDefault | ImpliedDefault | FixedDefault

  /** An attribute declaration (`xmlAttribute`): the element it belongs
      to, its split name, type, default kind and value, and the
      enumerated values. */
  datatype DtdAttribute = DtdAttribute(
    elem: string,
    name: string,
    prefix: Option<string>,
    atype: AttributeType,
    def: AttributeDefault,
    defaultValue: Option<string>,
    tree: seq<string>)

  datatype ElementTypeVal = UndefinedElement | EmptyElement | AnyElement | MixedElement | ChildrenElement

  /** An element type declaration (`xmlElement`); its content model is
      not represented. */
  datatype DtdElement = DtdElement(name: string, etype: ElementTypeVal)

  datatype Notation = Notation(name: string, publicId: Option<string>, systemId: Option<string>)

  /** A DTD subset with its declaration tables and its comment/PI children. */
  datatype Dtd = Dtd(
    name: string,
    externalId: Option<string>,
    systemId: Option<string>,
    entities: seq<Entity>,
    attributes: seq<DtdAttribute>,
    elements: seq<DtdElement>,
    notations: seq<Notation>,
    children: seq<nat>)

  /** A freshly created subset, as xmlCreateIntSubset and xmlNewDtd return it. */
  function NewDtd(name: string, externalId: Option<string>, systemId: Option<string>): (d: Dtd)
    ensures d.name == name && d.externalId == externalId && d.systemId == systemId
    ensures HasNoDeclarations(d) && d.children == []
  {
    Dtd(name, externalId, systemId, [], [], [], [], [])
  }

  /** The subset's four declaration tables are all empty. */
  predicate HasNoDeclarations(d: Dtd) {
    d.entities == [] && d.attributes == [] && d.elements == [] && d.notations == []
  }

  /** A document (`xmlDoc`): its top-level children, the two DTD subsets,
      and the properties recorded from the XML declaration and the input. */
  datatype Doc = Doc(
    version: string,
    children: seq<nat>,
    intSubset: Option<Dtd>,
    extSubset: Option<Dtd>,
    standalone: int,
    encoding: Option<string>,
    charset: int,
    url: Option<UriRef>,
    old10: bool,
    parseFlags: set<ParseOption>)

  /** Every child index stored in the arena points into the arena. */
  predicate ArenaClosed(nodes: seq<Node>) {
    forall i, k :: 0 <= i < |nodes| && 0 <= k < |nodes[i].children| ==> nodes[i].children[k] < |nodes|
  }

  /** `b` keeps every node of `a` with its kind, name, content, namespaces
      and attributes; only links and newly allocated nodes may differ. */
  predicate NodesExtend(a: seq<Node>, b: seq<Node>) {
    && |a| <= |b|
    && forall i :: 0 <= i < |a| ==>
         && b[i].kind == a[i].kind && b[i].name == a[i].name && b[i].content == a[i].content
         && b[i].nsDef == a[i].nsDef && b[i].ns == a[i].ns && b[i].attrs == a[i].attrs
  }

  lemma NodesExtendTrans(a: seq<Node>, b: seq<Node>, c: seq<Node>)
    requires NodesExtend(a, b) && NodesExtend(b, c)
    ensures NodesExtend(a, c)
  {
  }

  /** The last child of node `i`, if any (`node->last`). */
  function LastChild(nodes: seq<Node>, i: nat): (r: Option<nat>)
    requires i < |nodes|
    ensures r.None? <==> nodes[i].children == []
    ensures r.Some? ==> r.value in nodes[i].children
  {
    var kids := nodes[i].children;
    if |kids| == 0 then None else Some(kids[|kids| - 1])
  }

  /** xmlAddChild(parent, n) for a freshly allocated `n`: `n` becomes the
      new last node of the arena and the last child of `p`. */
  function AppendChild(nodes: seq<Node>, p: nat, n: Node): (r: seq<Node>)
    requires p < |nodes|
    requires ArenaClosed(nodes)
    ensures |r| == |nodes| + 1 && ArenaClosed(r)
    ensures r[|nodes|] == n.(parent := NodeParent(p), children := [])
    ensures r[p].children == nodes[p].children + [|nodes|]
    ensures r[p] == nodes[p].(children := nodes[p].children + [|nodes|])
    ensures forall i :: 0 <= i < |nodes| && i != p ==> r[i] == nodes[i]
  {
    var m := n.(parent := NodeParent(p), children := []);
    var r := nodes[p := nodes[p].(children := nodes[p].children + [|nodes|])] + [m];
    assert forall i, k :: 0 <= i < |r| && 0 <= k < |r[i].children| ==> r[i].children[k] < |r| by {
      forall i, k | 0 <= i < |r| && 0 <= k < |r[i].children|
        ensures r[i].children[k] < |r|
      {
        if i != p && i < |nodes| {
          assert r[i] == nodes[i];
        }
      }
    }
    r
  }

  /** Allocate a childless node at the end of the arena. */
  function AppendNode(nodes: seq<Node>, n: Node): (r: seq<Node>)
    requires ArenaClosed(nodes) && n.children == []
    ensures |r| == |nodes| + 1 && ArenaClosed(r)
    ensures r[|nodes|] == n && r[..|nodes|] == nodes
    ensures forall i :: 0 <= i < |nodes| ==> r[i] == nodes[i]
    ensures NodesExtend(nodes, r)
  {
    var r := nodes + [n];
    assert forall i, k :: 0 <= i < |r| && 0 <= k < |r[i].children| ==> r[i].children[k] < |r| by {
      forall i, k | 0 <= i < |r| && 0 <= k < |r[i].children|
        ensures r[i].children[k] < |r|
      {
        assert r[i] == nodes[i];
      }
    }
    r
  }

  /** Link the existing node `e` as the new last child of `p`. */
  function LinkChild(nodes: seq<Node>, p: nat, e: nat): (r: seq<Node>)
    requires p < |nodes| && e < |nodes| && ArenaClosed(nodes)
    ensures |r| == |nodes| && ArenaClosed(r)
    ensures r[p].children == nodes[p].children + [e]
    ensures r[e].parent == NodeParent(p)
    ensures forall i :: 0 <= i < |nodes| && i != p ==> r[i].children == nodes[i].children
    ensures NodesExtend(nodes, r)
    ensures forall i :: 0 <= i < |nodes| && i != e ==> r[i].parent == nodes[i].parent
    ensures e != p ==> r[e] == nodes[e].(parent := NodeParent(p))
    ensures e != p ==> r[p] == nodes[p].(children := nodes[p].children + [e])
  {
    var n1 := nodes[e := nodes[e].(parent := NodeParent(p))];
    var r := n1[p := n1[p].(children := n1[p].children + [e])];
    assert forall i, k :: 0 <= i < |r| && 0 <= k < |r[i].children| ==> r[i].children[k] < |r| by {
      forall i, k | 0 <= i < |r| && 0 <= k < |r[i].children|
        ensures r[i].children[k] < |r|
      {
        if i != p {
          assert r[i].children == nodes[i].children;
        }
      }
    }
    r
  }

  /** Replace the content of node `t`, leaving every link alone. */
  function SetContent(nodes: seq<Node>, t: nat, s: string): (r: seq<Node>)
    requires t < |nodes|
    requires ArenaClosed(nodes)
    ensures |r| == |nodes| && ArenaClosed(r)
    ensures r[t] == nodes[t].(content := s)
    ensures forall i :: 0 <= i < |nodes| ==> r[i].children == nodes[i].children && r[i].kind == nodes[i].kind
    ensures forall i :: 0 <= i < |nodes| && i != t ==> r[i] == nodes[i]
  {
    nodes[t := nodes[t].(content := s)]
  }

  /** True when a namespace declaration answers a lookup of `prefix`; a
      default-namespace lookup skips declarations without a name. */
  predicate Answers(ns: Ns, prefix: Option<string>) {
    ns.prefix == prefix && (prefix.Some? || ns.href.Some?)
  }

  /** The first entry of `defs` that answers a lookup of `prefix`. */
  function FirstAnswer(defs: seq<Ns>, prefix: Option<string>): (r: Option<Ns>)
    ensures r.Some? ==> r.value in defs && Answers(r.value, prefix)
    ensures r.None? ==> forall k :: 0 <= k < |defs| ==> !Answers(defs[k], prefix)
  {
    if |defs| == 0 then None
    else if Answers(defs[0], prefix) then Some(defs[0])
    else FirstAnswer(defs[1..], prefix)
  }

  /** The binding the `xml` prefix always has. */
  const XmlNamespace: Ns := Ns(Some("xml"), Some("http://www.w3.org/XML/1998/namespace"))

  /** xmlSearchNs(doc, node, prefix), reduced to what this model needs: no
      start node finds nothing; `xml` is always bound; otherwise the nearest
      element on the ancestor chain whose nsDef answers wins. */
  function SearchNs(nodes: seq<Node>, start: Option<nat>, prefix: Option<string>): (r: Option<Ns>)
    ensures start.None? ==> r.None?
    ensures r.Some? ==> r.value.prefix == prefix
    ensures r.Some? && prefix != Some("xml") ==> Answers(r.value, prefix)
    ensures start.Some? && start.value < |nodes| && prefix == Some("xml") ==> r == Some(XmlNamespace)
  {
    if start.None? || start.value >= |nodes| then None
    else if prefix == Some("xml") then Some(XmlNamespace)
    else SearchFrom(nodes, start.value, prefix)
  }

  /** The walk of SearchNs from node `i` towards the root. Parent indices
      that do not decrease end the walk (in the arena a parent is always
      allocated before its children). */
  function SearchFrom(nodes: seq<Node>, i: nat, prefix: Option<string>): (r: Option<Ns>)
    requires i < |nodes|
    ensures r.Some? ==> Answers(r.value, prefix)
    ensures nodes[i].kind == ElementNode && FirstAnswer(nodes[i].nsDef, prefix).Some? ==>
              r == FirstAnswer(nodes[i].nsDef, prefix)
    decreases i
  {
    var n := nodes[i];
    var own := if n.kind == ElementNode then FirstAnswer(n.nsDef, prefix) else None;
    if own.Some? then own
    else match n.parent
      case NodeParent(p) => if p < i then SearchFrom(nodes, p, prefix) else None
      case _ => None
  }
}
