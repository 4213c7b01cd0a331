# libxml2 SAX2 tree builder, modelled in Dafny

This project models `deps/libxml2/SAX2.c`, the default SAX2 handler set of
libxml2 2.7.8 as bundled with RetroArch. The parser calls these handlers one
event at a time, and they build the document tree. The model is a pure state
machine:

- A parser context `Context.Ctxt` carries:
  - the error flags (`ParserErrors.Status`);
  - the configuration (`inSubset`, `replaceEntities`, `pedantic`, `loadsubset`, options);
  - the input stack;
  - the document;
  - a node arena `seq<Tree.Node>`;
  - the open-element stack `nodeTab`;
  - the text cursor `nodelen`/`nodemem`;
  - the ID/IDREF registrations.
- Every handler is a function from a context to a new context.
- Links between nodes are arena indices.
- Most allocations, and most calls into code outside SAX2.c, that can fail become a parameter. Examples: the booleans `allocOk`, `added` and `tabAllocOk`, and the `EntityParse` value `outcome`. The few that are taken to succeed are listed under "## Left out".
- A call that does arbitrary work on the context becomes a function parameter. Example: `parse`, the nested external-subset parse.

Modules, in dependency order:

- `XmlBase` (base.dfy): options, error codes, and the C integer conversions.
- `ParserErrors` (errors.dfy): the error reporters as transitions of the status flags.
- `Tree` (tree.dfy): nodes, DTD subsets, the document, and the namespace search.
- `Context` (context.dfy): the parser context and the invariant the handlers keep.
- `QNames` (names.dfy): building and splitting qualified names.
- `TextAccumulator` (text.dfy): `xmlSAX2Characters`, `xmlSAX2TextNode`'s text node and `xmlSAX2CDataBlock`.
- `Builder` (elements.dfy): element start and end, attributes, namespaces, comments, PIs and references.
- `Declarations` (decls.dfy): the entity, attribute, element and notation declaration handlers.
- `Subsets` (subsets.dfy): the internal and external subset handlers and entity lookup.
- `Documents` (document.dfy): document start and end.
- `SaxHandler` (handler.dfy): `xmlSAXVersion` and `xmlSAX2InitDefaultSAXHandler`.

The invariant `Ctxt.Valid` holds that:

- every index points into the arena;
- the open-element stack holds elements, each the last child of the one below it;
- when `nodemem != 0` and the current node's last child is text, `nodelen` is that child's length and `nodelen < nodemem`.

The handlers that touch the tree preserve this invariant.

Points where the code differs from the libxml2 documentation, and the model follows the code:

- An element's own namespace is taken from the last of its declarations with the element's prefix, not the first. The loop at SAX2.c:1306-1307 overwrites `ret->ns` on every match.
- When no binding is found for a prefix, a placeholder declaration is added to the element's `nsDef`. The element's `ns` stays NULL, because SAX2.c:1352 does not assign it.
- A repeated declaration is modelled without saying which declaration stays authoritative. That choice is made inside `xmlAddDocEntity` and the other table functions, which are not part of this model.

The error reporters (SAX2.c:54-207) are modelled through their effect on the
parser's status flags. The message text and `__xmlRaiseError`'s routing to
callbacks are left out.

## Model

| member | source | states |
|---|---|---|
| ParserErrors.ErrMemory | deps/libxml2/SAX2.c:54-62 | An out-of-memory report always leaves the parse stopped with XML_ERR_NO_MEMORY, and never touches the well-formed, valid or recovery flags |
| ParserErrors.ErrValid | deps/libxml2/SAX2.c:74-102 | A validity error is ignored on a stopped parse; otherwise it records its code and clears `valid` only |
| ParserErrors.FatalErr | deps/libxml2/SAX2.c:114-133 | A fatal error is ignored on a stopped parse; otherwise it clears `wellFormed` and `valid` and sets `disableSAX` unless recovery is on |
| ParserErrors.WarnMsg | deps/libxml2/SAX2.c:145-158 | A parser warning changes nothing but the recorded error code, and nothing at all once stopped |
| ParserErrors.NsErrMsg | deps/libxml2/SAX2.c:170-183 | A namespace error changes only the recorded error code, and nothing once stopped |
| ParserErrors.NsWarnMsg | deps/libxml2/SAX2.c:194-207 | A namespace warning changes only the recorded error code, and nothing once stopped |
| ParserErrors.StoppedIsAbsorbing | deps/libxml2/SAX2.c:74-207 | Once stopped, every reporter but the out-of-memory one is the identity, and the out-of-memory one keeps the parse stopped |
| ParserErrors.ReportersAreMonotone | deps/libxml2/SAX2.c:74-133 | No reporter can set `wellFormed` or `valid` back to true |
| QNames.QName | deps/libxml2/SAX2.c:1239 | The built name is the prefix, a colon, then the local name, or the local name alone without a prefix |
| QNames.SplitQName | deps/libxml2/SAX2.c:692 | A split name rebuilds to the original name, with a non-empty colon-free prefix and a non-empty local part; an unsplit name comes back whole |
| QNames.SplitBuildRoundTrip | deps/libxml2/SAX2.c:692 | Splitting `prefix:local` gives back exactly the prefix and the local part |
| TextAccumulator.AppendAsWritten | deps/libxml2/SAX2.c:1529-1555 | The size guards and growth of the append path with the source's wrapping `size_t` sums and `int` conversions. Its results always fit an `int`, and a rejection for size happens only without XML_PARSE_HUGE |
| TextAccumulator.Append | deps/libxml2/SAX2.c:1529-1555 | An append is accepted exactly when it is within the text limit (or HUGE), the new length fits an `int`, and the run either fits the buffer or the buffer can be reallocated to a doubled size that fits an `int`. It then adds `len` to the length, keeps `nodelen < nodemem`, and doubles `nodemem + len` only when the run does not fit |
| TextAccumulator.AppendAsWrittenLosesCapacity | deps/libxml2/SAX2.c:1539-1550 | Under XML_PARSE_HUGE, a capacity doubled past INT_MAX is stored negative in `nodemem`, so an accepted append ends with `nodelen >= nodemem` |
| TextAccumulator.NegativeCapacityRefused | deps/libxml2/SAX2.c:1534-1538 | As written, a negative capacity makes the `size_t` overflow guard refuse every run shorter than its magnitude |
| TextAccumulator.LostCapacityStopsText | deps/libxml2/SAX2.c:1534-1550 | After the capacity is lost, every later run shorter than 2^31 - 2 is refused as an overflow |
| TextAccumulator.AppendAgreesWithSource | deps/libxml2/SAX2.c:1529-1555 | On every state the `int` fields can hold: without HUGE the corrected append equals the source's; with HUGE they agree wherever the source's `int` arithmetic does not wrap. Where they differ, the corrected one refuses as an overflow, and the source refuses too or records a length or capacity that is not the true one |
| TextAccumulator.AddTextChild | deps/libxml2/SAX2.c:1497-1505 | A new text child becomes the current node's last child, holding the run, with the cursor reset to `len` and `len + 1`; no other node changes |
| TextAccumulator.TrackedText | deps/libxml2/SAX2.c:1514-1555 | While the cursor is armed on a text last child, `nodelen` is that child's length and stays below `nodemem` |
| TextAccumulator.ExtendText | deps/libxml2/SAX2.c:1514-1555 | Built on the corrected TextAccumulator.Append, not on the source's wrapping arithmetic (see "## Findings"). The fast path appends the run to the tracked text child exactly when the append is accepted; otherwise the tree and the cursor are unchanged and the parse is latched out of memory |
| TextAccumulator.ConcatText | deps/libxml2/SAX2.c:1556-1563 | The slow path concatenates onto the text child (or reports out of memory and leaves it) and re-derives the cursor from the content's length |
| TextAccumulator.Characters | deps/libxml2/SAX2.c:1476-1576 | The tracked-text path uses the corrected TextAccumulator.Append, not the source's wrapping arithmetic (see "## Findings"). With no open node nothing happens. The first run on a childless element creates one text child with `nodelen = len`, `nodemem = len + 1`. A failed first node only latches out of memory. A run after a tracked text child extends it by exactly the run, or rejects it with the out-of-memory latch. A run after an untracked text child (`nodemem == 0`) is concatenated onto it, or, if that fails, it is reported out of memory and left alone; either way the cursor is re-derived from its length. A run after a non-text child starts a new text child, or latches out of memory. The open-element stack, the document and the cursor invariant are kept |
| TextAccumulator.TwoRunsCoalesce | deps/libxml2/SAX2.c:1476-1576 | Two successive runs in an empty element leave a single text child holding their concatenation, with `nodelen` the total length and below `nodemem` |
| TextAccumulator.CDataBlock | deps/libxml2/SAX2.c:1695-1709 | A CDATA run is appended to a CDATA last child, and otherwise becomes a new CDATA last child; failure or no open node changes nothing |
| TextAccumulator.CDataBlocksMerge | deps/libxml2/SAX2.c:1695-1709 | Two successive CDATA blocks in an empty element leave one CDATA child holding both |
| Builder.AddMisc | deps/libxml2/SAX2.c:1623-1638 | A comment or PI goes to the internal subset when `inSubset` is 1 and to the external one when it is 2. Otherwise it goes to the top of the document when that is empty or no node is open, and otherwise becomes the last child of the open element. No other node's children change |
| Builder.Comment | deps/libxml2/SAX2.c:1649-1684 | A comment adds exactly one comment node with the given text, keeps the error flags and the stack, and is dropped when it cannot be allocated |
| Builder.ProcessingInstruction | deps/libxml2/SAX2.c:1602-1639 | A PI adds exactly one PI node named by its target with its data as content, and is dropped when it cannot be allocated |
| Builder.Reference | deps/libxml2/SAX2.c:1452-1465 | A reference becomes the open node's last child, as a character reference exactly when its name starts with `#` and as an entity reference otherwise; with no open node it is dropped |
| Builder.EndElementNs | deps/libxml2/SAX2.c:1417-1442 | Ending an element disarms the text cursor and pops exactly one entry of a non-empty stack, keeping the invariant |
| Builder.ElementName | deps/libxml2/SAX2.c:1231-1241 | A prefixed element without a namespace name is named `prefix:local`; otherwise it is named by its local name |
| Builder.CreatedNs | deps/libxml2/SAX2.c:1295-1316 | Every declaration on the element is one the tag supplied, there are never more than the tag supplied, and all of them are kept when every creation succeeds |
| Builder.CreatedNsAppend | deps/libxml2/SAX2.c:1295-1316 | Declarations are created in the order the tag supplies them: creating from a concatenation is concatenating the creations |
| Builder.LastIndexOf | deps/libxml2/SAX2.c:1306-1307 | Finds the last declaration with the element's prefix, the one the loop leaves in `ret->ns` |
| Builder.ResolveNs | deps/libxml2/SAX2.c:1346-1366 | An unbound element namespace is searched from the parent, then (for `xml` only) from the element itself. When nothing is found, a null-href placeholder is appended to the element's declarations with an undefined-namespace warning, or the parse is stopped when the placeholder cannot be allocated |
| Builder.CheckDtdPresent | deps/libxml2/SAX2.c:1217-1226 | Validating a document with no external subset and an empty or absent internal subset reports XML_ERR_NO_DTD and switches validation off; anything else is unchanged |
| Builder.OpenElement | deps/libxml2/SAX2.c:1289-1333 | The new element is pushed and the cursor disarmed. With no open node it becomes a top-level node; under an open element it becomes that element's last child (and also a top-level node when the document had none). Existing nodes keep their content |
| Builder.Unprefixed | deps/libxml2/SAX2.c:1377-1400 | An attribute whose prefix has no namespace is stored as `prefix:local` without a prefix, so every prefix that remains has a namespace |
| Builder.Delivered | deps/libxml2/SAX2.c:1338-1340 | The DTD-defaulted attributes at the end of the list are dropped unless XML_COMPLETE_ATTRS is requested |
| Builder.NewTextNode | deps/libxml2/SAX2.c:960-1026 | A text node exists exactly when its allocation succeeds, and then holds exactly the run; failure is an out-of-memory report |
| Builder.ValueOf | deps/libxml2/SAX2.c:1103-1141 | An attribute value keeps entity references as a node list when entities are not substituted and the value was expanded; otherwise it is a single text node, or none with an out-of-memory report |
| Builder.NewAttr | deps/libxml2/SAX2.c:1043-1101 | An attribute is named by its local name and gets a namespace only when it has a prefix, from the search at its owning element; `xml` always binds to the XML namespace |
| Builder.Registers | deps/libxml2/SAX2.c:1150-1170 | The dispatch is exclusive: `xml:id` or a declared ID registers an ID; only an attribute that is neither, and is a declared IDREF, registers a reference; anything else registers nothing |
| Builder.IdsAfter | deps/libxml2/SAX2.c:1143-1171 | Under the ID gate an attribute registers at most one ID or reference, with `xml:id` first, then a declared ID, then a declared IDREF; otherwise nothing is registered |
| Builder.AttributeNs | deps/libxml2/SAX2.c:1043-1174 | An attribute is appended to the end of the open element's list and nothing else in the tree changes, with its ID/IDREF registration; a failed allocation is an out-of-memory report and adds nothing |
| Builder.AddAttributes | deps/libxml2/SAX2.c:1372-1402 | The attribute loop only appends to the open element's attribute list, at most one attribute per event, keeping the earlier ones as a prefix |
| Builder.AttributesInOrder | deps/libxml2/SAX2.c:1372-1402 | When every allocation succeeds, the element's attribute names are the earlier ones followed by the delivered names in event order |
| Builder.ResolveStage | deps/libxml2/SAX2.c:1346-1367 | The namespace search runs only for an element with a namespace name that its own declarations did not bind, and touches only that element's `ns` and `nsDef` |
| Builder.AttributeStage | deps/libxml2/SAX2.c:1372-1402 | The attribute stage touches only the new element's attributes and gives them in event order when allocations succeed |
| Builder.NewElement | deps/libxml2/SAX2.c:1245-1316 | A new element is childless, carries its created declarations, and with a namespace name takes the last own declaration with its prefix |
| Builder.CompleteElement | deps/libxml2/SAX2.c:1346-1402 | After the namespace stage the attribute stage runs only if the placeholder allocation did not stop the handler; only the new element changes |
| Builder.BuildElement | deps/libxml2/SAX2.c:1245-1402 | A built element is one new node pushed on the stack with the cursor disarmed, linked as ElementLinked describes, and the invariant is kept |
| Builder.StartElementNs | deps/libxml2/SAX2.c:1194-1404 | Starting an element switches validation off exactly when validating without a DTD. On allocation failure it stops the parse and leaves the tree and stack alone. Otherwise it adds one childless element named as the tag says, pushes it, and links it under the previous open element or at the top level |
| Builder.CompleteNamespaces | deps/libxml2/SAX2.c:1346-1366 | For any freshly opened element, its final namespace is the resolved one (own last match, parent scope, `xml` fallback, else none), and the placeholder is added exactly when nothing bound the prefix and it could be allocated |
| Builder.CompleteAttributes | deps/libxml2/SAX2.c:1367-1402 | For any freshly opened element, a failed placeholder leaves it without attributes and the parse stopped; otherwise, when every allocation succeeds, its attribute names are the event names in order |
| Builder.StartElementNamespaces | deps/libxml2/SAX2.c:1295-1366 | The new element's namespace is its own last matching declaration, else the binding in scope at its parent, else for `xml` the XML namespace, else none. Its declarations are the created ones in order, plus the placeholder exactly when nothing bound the prefix |
| Builder.StartElementAttributes | deps/libxml2/SAX2.c:1338-1402 | When the placeholder cannot be allocated the element has no attributes and the parse is stopped; otherwise, with all allocations succeeding, its attributes are the delivered ones in order |
| Builder.StartElementKeepsValid | deps/libxml2/SAX2.c:1317-1333 | Starting an element keeps the context invariant, and the matching end pops back to the stack as it was |
| Declarations.EntityUri | deps/libxml2/SAX2.c:619-630 | An entity gets a URI exactly when it has a system identifier, resolved against the input's file name or else the directory |
| Declarations.NewEntity | deps/libxml2/SAX2.c:612-630 | A declared entity carries the declared name, type, identifiers and content, is not loaded, and has a URI exactly when it has a system identifier |
| Declarations.EntityDecl | deps/libxml2/SAX2.c:605-655 | With `inSubset` 1 or 2 the entity is filed in the internal or external subset when the table accepts it, and the other subset never changes. A refused internal declaration under `pedantic` is a WAR_ENTITY_REDEFINED warning. Any other `inSubset` is a fatal ERR_ENTITY_PROCESSING error that files nothing |
| Declarations.UnparsedEntityDecl | deps/libxml2/SAX2.c:799-851 | An unparsed entity, with its notation name as content, is routed like EntityDecl without changing the flags; outside both subsets it is a fatal ERR_INTERNAL_ERROR |
| Declarations.CheckXmlId | deps/libxml2/SAX2.c:681-690 | Declaring `xml:id` with a type other than ID records XML_DTD_XMLID_TYPE but keeps the `valid` flag as it was; any other declaration is unchanged |
| Declarations.AttributeDecl | deps/libxml2/SAX2.c:670-713 | Without a document nothing happens. Otherwise the validation context is reset to valid, the xml:id check runs, and the declaration with its split name is routed on `inSubset`; outside both subsets it is a fatal ERR_INTERNAL_ERROR |
| Declarations.ElementDecl | deps/libxml2/SAX2.c:725-747 | Without a document nothing happens; an element declaration is routed on `inSubset`, and outside both subsets it is a fatal ERR_INTERNAL_ERROR that files nothing |
| Declarations.NotationDecl | deps/libxml2/SAX2.c:759-786 | A notation with neither identifier, or one outside both subsets, is a fatal ERR_NOTATION_PROCESSING that files nothing; otherwise it is routed on `inSubset` |
| Subsets.InternalSubset | deps/libxml2/SAX2.c:331-352 | A DOCTYPE replaces any existing internal subset with a fresh, empty one carrying its identifiers, or leaves none with an out-of-memory report; without a document nothing happens |
| Subsets.InternalSubsetReplaces | deps/libxml2/SAX2.c:340-349 | Whatever internal subset existed before, the result is the same: at most one internal subset, never merged |
| Subsets.SubsetInputs | deps/libxml2/SAX2.c:404-434 | The subset is parsed on a fresh stack of capacity 5 holding only the resolved input, whose file name defaults to the system identifier |
| Subsets.Restored | deps/libxml2/SAX2.c:453-457 | Restoring puts back the saved input, stack depth, capacity, table and charset |
| Subsets.SubsetParseStart | deps/libxml2/SAX2.c:393-434 | The nested parse starts from the document with a fresh external subset when it had none and xmlNewDtd succeeds, or else the document unchanged, with the resolved input alone on a fresh stack |
| Subsets.ExternalSubset | deps/libxml2/SAX2.c:364-460 | On every path the caller's input, `inputNr`, `inputMax`, `inputTab` and charset are restored. Nothing happens without an identifier, a reason to load, well-formedness and a document, or when the resolver returns nothing. An input-table allocation failure is an out-of-memory report, leaving at most a new external subset that was not there before. Otherwise the result is what the nested parse makes of SubsetParseStart, with the inputs restored |
| Subsets.ExternalSubsetParsesAlone | deps/libxml2/SAX2.c:393-457 | The nested parse sees only the resolved input on its own stack. On the first DOCTYPE it sees a fresh, empty external subset with the DOCTYPE's name; an existing one is kept. All its other effects persist after the restore |
| Subsets.PredefinedEntity | deps/libxml2/SAX2.c:516-520 | Exactly `lt`, `gt`, `amp`, `apos` and `quot` are predefined, as loaded internal predefined entities |
| Subsets.StandaloneLookup | deps/libxml2/SAX2.c:521-541 | A standalone document hides its external subset except while that subset is parsed. Outside it, an entity found only there is still returned with a fatal ERR_NOT_STANDALONE, and the document's standalone value is unchanged |
| Subsets.GetEntity | deps/libxml2/SAX2.c:509-569 | In content, the predefined entities win. An unloaded external parsed entity that validation or substitution needs is parsed. It is marked loaded only when the parse produced nodes; an empty content leaves it unmarked. On failure the lookup returns nothing, with ERR_ENTITY_PROCESSING and validation off. Only the subsets, flags and validation can change |
| Subsets.NotStandaloneReported | deps/libxml2/SAX2.c:526-537 | In a standalone document, outside the external subset, an entity declared only there is found and ERR_NOT_STANDALONE is reported, with `standalone` still 1 |
| Subsets.ExternalSubsetSeesItsOwn | deps/libxml2/SAX2.c:522-525 | While the external subset of a standalone document is parsed, its own entities are found with no error |
| Subsets.InternalDeclarationWins | deps/libxml2/SAX2.c:516-541 | An entity declared in the internal subset is what the lookup returns, except that in content a predefined name returns the predefined entity |
| Subsets.DeclaredThenFound | deps/libxml2/SAX2.c:612-614 | An entity accepted in the internal subset under a new name is what a later lookup in content returns |
| Subsets.LoadedOnce | deps/libxml2/SAX2.c:542-567 | After a load that produced nodes, the entity is marked loaded where it was declared, so the next lookup does not load it again and returns it whatever that parse would do |
| Subsets.EmptyEntityParsedAgain | deps/libxml2/SAX2.c:542-557 | A load that produced no node leaves the document and the entity unchanged, so the next lookup that needs its content parses it again |
| Documents.NewDocument | deps/libxml2/SAX2.c:889-899 | The new document has no children or subsets, the declared version or "1.0", the context's encoding and standalone value, the OLD10 property exactly when requested, and the parse options as flags |
| Documents.StartDocument | deps/libxml2/SAX2.c:874-915 | Starting a document replaces any previous one, or leaves none with an out-of-memory report. A document read from a named file takes the file's URI, with an out-of-memory report when the URI cannot be made |
| Documents.DiscoveredEncoding | deps/libxml2/SAX2.c:932-942 | The encoding found while parsing prefers the context's, then the first input's |
| Documents.Finished | deps/libxml2/SAX2.c:932-946 | Ending a document never overwrites an encoding or charset it already has. A missing encoding takes the one found while parsing, and the context's copy is cleared when handed over. A missing charset takes the input's |
| Documents.EndDocument | deps/libxml2/SAX2.c:924-947 | Without a document nothing happens; otherwise only the encoding, charset and the context's encoding change, as Finished says |
| Documents.EndDocumentIdempotent | deps/libxml2/SAX2.c:932-946 | Ending twice records nothing more on the document |
| Documents.DeclaredEncodingKept | deps/libxml2/SAX2.c:895-946 | A document whose declaration named an encoding keeps exactly that encoding and the UTF-8 charset at its end, and the inputs are untouched |
| SaxHandler.Sax2Callback | deps/libxml2/SAX2.c:1727-1759 | Exactly the SAX1 element callbacks and `serror` are NULL. Every other slot holds its own SAX2 handler, except that ignorable whitespace goes to the characters handler and the three diagnostics go to the parser's |
| SaxHandler.SaxVersion | deps/libxml2/SAX2.c:1723-1762 | Only version 2 is accepted: it returns 0, marks the table with XML_SAX2_MAGIC and fills every slot as Sax2Callback says. Any other version returns -1 and leaves the table alone |
| SaxHandler.SaxVersionForgets | deps/libxml2/SAX2.c:1726-1759 | Version 2 does not depend on the table's previous contents, so applying it twice is applying it once |
| SaxHandler.InitDefaultSaxHandler | deps/libxml2/SAX2.c:1772-1782 | An initialised table is left alone. Otherwise it becomes the version-2 table, with the warning slot set exactly when `warning` is non-zero |
| SaxHandler.InitDefaultOnce | deps/libxml2/SAX2.c:1774-1775 | A second default initialisation changes nothing, whatever its warning flag |

## Left out

- gfx/gl_font.c: GL rendering forwarders, unrelated to the tree builder.
- deps/libxml2/libxml/xmlversion.h: version and feature macros only.
- The HTML branches of SAX2.c (342-343, 881-887, and the `!ctxt->html` test at 1103) are runtime tests of `ctxt->html`. The XML parser never sets that flag, so the model takes them as false.
- xmlSAX2GetPublicId, GetSystemId, GetLineNumber, GetColumnNumber, IsStandalone, HasInternalSubset, HasExternalSubset, SetDocumentLocator and IgnorableWhitespace: accessors and no-ops with no effect on the tree. xmlSAX2ResolveEntity and xmlSAX2GetParameterEntity are I/O and table lookup; they are not modelled.
- The resolver, xmlParseExternalSubset, xmlParseCtxtExternalEntity and encoding sniffing: these are I/O or nested parsing. They appear as the parameters `resolved` and `parse`, and as the `EntityParse` outcome. The loaded entity's children are not represented; `Entity.loaded` stands for `children != NULL`.
- xmlBuildURI, xmlPathToURI and xmlCanonicPath compute strings this model does not look into. They are kept as the symbolic `UriRef` values `BuiltUri`/`PathUri`, and the canonical file name at 429 is the system identifier itself.
- The table functions:
  - xmlAddDocEntity, xmlAddDtdEntity and xmlAdd*Decl are represented only by the `added` result. When it is true, the declaration is appended to the subset's table.
  - Which of two declarations of one name stays authoritative is decided inside those functions and is not modelled.
  - xmlGetDocEntity is modelled as a first-match lookup in the internal subset, then in the external subset unless the document is standalone, then among the predefined entities.
- xmlAddID and xmlAddRef: only the registration call is recorded (`IdRegistration`). The ID table's contents and duplicate-ID errors belong to valid.c and are not modelled. xmlIsID and xmlIsRef are the event fields `isId`/`isRef`.
- xmlStringLenGetNodeList: the node list of a value holding entity references is kept as the raw value (`NodeListValue`).
- xmlSearchNs is modelled on the arena:
  - the `xml` prefix always binds to the XML namespace;
  - otherwise the search walks from the start node towards the root and takes the first declaration that answers.
- xmlNewNs: its success is the per-declaration parameter `nsOk`.
- xmlAddSibling: the model always adds at the end of the parent's children.
- Interned-string pointer comparisons (`prefix == pref` at 1306, `prefix == ctxt->str_xml` at 1150) are modelled as string equality.
- Free-list recycling, dictionary interning, XML_PARSE_COMPACT inline storage, line numbers, `record_info` positions and register-node callbacks: they change where a string lives, not its characters.
- Freed nodes: a node whose link fails (`xmlFreeNode` after a failed xmlAddChild) stays unreachable in the arena.
- Builder.Reference: a reference node's entity content is not looked up.
- Builder.ProcessingInstruction: a missing data part is modelled as empty content.
- Subsets.InternalSubset: xmlCreateIntSubset also links the DTD as a child of the document; that link is not modelled.
- Documents.EndDocument: `inputTab[0] != NULL` is modelled as a non-empty input table. The copy of the first input's encoding (`xmlStrdup` at 941) is taken to succeed; if it failed, the source would leave the document's encoding NULL.
- Documents.NewDocument: the copy of the context's encoding (`xmlStrdup` at 896) is taken to succeed; if it failed, the source would leave the document's encoding NULL.
- Builder.ElementName: for a prefix with no namespace in scope, the model always names the element `prefix:local`. In the source, `xmlDictQLookup` or `xmlBuildQName` (1234-1240) can fail to allocate; the element is then silently named by its bare local name (1248-1251, 1267-1270). That failure is not modelled.
- Builder.Unprefixed: for an attribute whose prefix has no namespace in scope, the model always folds the prefix into the name, so no remaining prefix lacks a URI. In the source, when `xmlDictQLookup` or `xmlBuildQName` fails to allocate (1378-1398), the attribute is passed at 1399 with its prefix and a NULL URI, and `xmlSAX2AttributeNs` then looks the prefix up with `xmlSearchNs` (1056-1057). That failure is not modelled.
- Declarations.EntityUri: `xmlBuildURI` (628, 647, 823, 843) is taken to succeed. If it failed, the source would leave the entity's URI NULL.
- Subsets.SubsetInputs: `xmlCanonicPath` at 429 is taken to succeed. If it failed, the source would leave the input's file name NULL.
- TextAccumulator.ExtendText: the unchecked copies of an interned or inline text content (`xmlStrdup` at 1523 and 1527) are taken to succeed.
- Builder.AttributeNs: the unchecked copy of the attribute's name (`xmlStrdup` at 1076) is taken to succeed.
- Builder.IdsAfter: the copy of the value (`xmlStrndup` at 1159, 1164 and 1168) is taken to succeed. If it failed, the source would call `xmlAddID` or `xmlAddRef` with a NULL value, which registers nothing; the model still records the registration.
- Declarations.EntityDecl: the redefinition warning in the external subset goes to the application's warning callback, which changes no parser state, so it is not visible in the model.
- Builder.StartElementNs: the result of `nodePush` at 1322 is ignored by the source, and the model always pushes. nodePush is in parser.c, which is not part of this model. It fails when its table cannot grow, and on excessive depth without XML_PARSE_HUGE, where it also reports a fatal error and sets XML_PARSER_EOF. The source then links the element anyway but leaves the parent as `ctxt->node`, so the element's attributes are attached to the previously open node. That path is not modelled.
- Builder.BuildElement: it assumes the push at 1322 succeeds, for the reason given for Builder.StartElementNs.
- Builder.OpenElement: it always pushes, for the reason given for Builder.StartElementNs.
- Builder.StartElementKeepsValid: the start and end pairing is stated for a push that succeeds. After a failed push, the matching end would pop the parent instead. Not modelled, as for Builder.StartElementNs.
- Declarations.AttributeDecl: xmlSplitQName is in parser.c, which is not part of this model. It also reports XML_NS_ERR_QNAME when the local part does not start with a letter, `_` or `:` (for example `a:1b`). That report is not in the modelled status; the split itself is modelled by QNames.SplitQName.
- Characters are Dafny `char`s, each standing for one `xmlChar` byte. Lengths count bytes, and UTF-8 decoding is not modelled.
- `size_t` is taken to be 64 bits wide (`XmlBase.SizeT`, `SizeMax`); `int` is 32 bits (`Int32`, `IntMax`).
- The ID/IDREF value is the attribute's raw value. The nested parse's effects on the tree are whatever `parse` returns. Neither is constrained further.

## Findings

| source | as written | input that shows it | evidently intended | confidence | as-written member | corrected member |
|---|---|---|---|---|---|---|
| deps/libxml2/SAX2.c:1539-1550 | `size = (nodemem + len) * 2` is a `size_t` stored into the `int` field `nodemem`; with XML_PARSE_HUGE nothing keeps it below INT_MAX | `nodelen = 2^30 - 1`, `nodemem = 2^30`, `len = 1`, HUGE set: the append is accepted and `nodemem` becomes `-2147483646`, so `nodelen < nodemem` fails. The `size_t` guard at 1534-1535 then refuses every following run shorter than 2^31 - 2 as an overflow and latches out of memory, so the text stops growing | refuse a run whose new length, or whose doubled buffer when the buffer must grow, does not fit the `int` fields (later libxml2 releases compare against INT_MAX) | not executed | TextAccumulator.AppendAsWritten (TextAccumulator.AppendAsWrittenLosesCapacity, TextAccumulator.LostCapacityStopsText) | TextAccumulator.Append |
