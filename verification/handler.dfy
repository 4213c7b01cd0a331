/** The SAX handler table: xmlSAXVersion fills it with the SAX2 tree
    builder, xmlSAX2InitDefaultSAXHandler does so once. */
module SaxHandler {
  import opened XmlBase

  /** The callback slots of `xmlSAXHandler`. */
  datatype Slot =
    | InternalSubsetSlot | IsStandaloneSlot | HasInternalSubsetSlot | HasExternalSubsetSlot
    | ResolveEntitySlot | GetEntitySlot | EntityDeclSlot | NotationDeclSlot | AttributeDeclSlot
    | ElementDeclSlot | UnparsedEntityDeclSlot | SetDocumentLocatorSlot | StartDocumentSlot
    | EndDocumentSlot | StartElementSlot | EndElementSlot | ReferenceSlot | CharactersSlot
    | IgnorableWhitespaceSlot | ProcessingInstructionSlot | CommentSlot | WarningSlot | ErrorSlot
    | FatalErrorSlot | GetParameterEntitySlot | CDataBlockSlot | ExternalSubsetSlot
    | StartElementNsSlot | EndElementNsSlot | SerrorSlot

  /** The functions a slot can hold: the SAX2 handler written for a slot
      (xmlSAX2Characters for the characters slot, and so on), the
      parser's generic diagnostics, or a function of the application. */
  datatype Callback = Sax2(slot: Slot) | ParserWarning | ParserError | Application(id: int)

  /** A handler table: the callback in each slot (None is NULL) and the
      `initialized` marker. */
  datatype Handler = Handler(slots: Slot -> Option<Callback>, initialized: int)

  /** The version xmlSAX2InitDefaultSAXHandler asks for. */
  const DefaultVersion: int := 2

  /** The SAX1 element callbacks and the structured error callback, which
      a SAX2 table leaves NULL. */
  predicate Sax1Only(s: Slot) {
    s.StartElementSlot? || s.EndElementSlot? || s.SerrorSlot?
  }

  /** What xmlSAXVersion(2) puts in each slot; None is NULL. Every slot
      holds the SAX2 handler written for it, except that ignorable
      whitespace goes to the characters handler and the three diagnostics
      to the parser's; the SAX1 element callbacks and the structured error
      callback are NULL. */
  function Sax2Callback(s: Slot): (r: Option<Callback>)
    ensures r.None? <==> Sax1Only(s)
    ensures r.Some? && r.value.Sax2? ==> r.value.slot == s || s.IgnorableWhitespaceSlot?
    ensures r.Some? && !r.value.Sax2? ==> s.WarningSlot? || s.ErrorSlot? || s.FatalErrorSlot?
    ensures s.IgnorableWhitespaceSlot? ==> r == Some(Sax2(CharactersSlot))
  {
    match s
    case StartElementSlot => None
    case EndElementSlot => None
    case SerrorSlot => None
    case IgnorableWhitespaceSlot => Some(Sax2(CharactersSlot))
    case WarningSlot => Some(ParserWarning)
    case ErrorSlot => Some(ParserError)
    case FatalErrorSlot => Some(ParserError)
    case _ => Some(Sax2(s))
  }

  /** xmlSAXVersion: only version 2 is supported (-1 otherwise, with the
      table untouched). Version 2 overwrites every slot with the SAX2
      table, so the result does not depend on the table passed in, and
      marks the table as a SAX2 one. */
  function SaxVersion(h: Handler, version: int): (r: (Handler, int))
    ensures version != 2 ==> r == (h, -1)
    ensures version == 2 ==> r.1 == 0 && r.0.initialized == Sax2Magic
    ensures version == 2 ==> forall s :: r.0.slots(s) == Sax2Callback(s)
  {
    if version == 2 then (Handler(Sax2Callback, Sax2Magic), 0) else (h, -1)
  }

  /** Version 2 forgets whatever the table held before, so asking for it
      twice gives the same table as asking once. */
  lemma SaxVersionForgets(h: Handler, g: Handler)
    ensures SaxVersion(h, 2) == SaxVersion(g, 2)
    ensures SaxVersion(SaxVersion(h, 2).0, 2) == SaxVersion(h, 2)
  {
  }

  /** xmlSAX2InitDefaultSAXHandler: a table already initialised is left
      alone; otherwise it becomes the default-version table, with the
      warning slot set only when `warning` is non-zero. */
  function InitDefaultSaxHandler(h: Handler, warning: int): (r: Handler)
    ensures h.initialized != 0 ==> r == h
    ensures h.initialized == 0 ==> r.initialized == Sax2Magic
    ensures h.initialized == 0 ==> (r.slots(WarningSlot).Some? <==> warning != 0)
    ensures h.initialized == 0 ==>
              forall s :: s != WarningSlot ==> r.slots(s) == SaxVersion(h, DefaultVersion).0.slots(s)
  {
    if h.initialized != 0 then h
    else
      var h1 := SaxVersion(h, DefaultVersion).0;
      var warn: Option<Callback> := if warning == 0 then None else Some(ParserWarning);
      h1.(slots := s => if s == WarningSlot then warn else h1.slots(s))
  }

  /** Initialising the default handler a second time changes nothing, with
      any warning flag. */
  lemma InitDefaultOnce(h: Handler, warning: int, again: int)
    ensures InitDefaultSaxHandler(InitDefaultSaxHandler(h, warning), again) == InitDefaultSaxHandler(h, warning)
  {
  }
}
