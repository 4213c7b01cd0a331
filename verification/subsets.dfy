/** The DTD subset handlers and entity lookup: xmlSAX2InternalSubset,
    xmlSAX2ExternalSubset and xmlSAX2GetEntity. */
module Subsets {
  import opened XmlBase
  import opened ParserErrors
  import opened Tree
  import opened Context
  import opened Declarations

  // ---------------------------------------------------------------------
  // Internal subset
  // ---------------------------------------------------------------------

  /** xmlSAX2InternalSubset: an existing internal subset is discarded with
      all its declarations and replaced by a fresh one (`allocOk` says
      whether it can be created; when not, the document is left without
      one and the parse is stopped). Without a document nothing happens. */
  function InternalSubset(ctx: Ctxt, name: string, externalId: Option<string>, systemId: Option<string>,
                          allocOk: bool): (r: Ctxt)
    ensures r == ctx.(myDoc := r.myDoc, status := r.status)
    ensures ctx.myDoc.None? ==> r == ctx
    ensures ctx.myDoc.Some? ==>
              && r.myDoc.Some? && r.myDoc.value == ctx.myDoc.value.(intSubset := r.myDoc.value.intSubset)
              && (allocOk ==>
                    && r.myDoc.value.intSubset.Some? && r.status == ctx.status
                    && HasNoDeclarations(r.myDoc.value.intSubset.value)
                    && r.myDoc.value.intSubset.value.children == []
                    && r.myDoc.value.intSubset.value.name == name
                    && r.myDoc.value.intSubset.value.externalId == externalId
                    && r.myDoc.value.intSubset.value.systemId == systemId)
              && (!allocOk ==> r.myDoc.value.intSubset.None? && r.status == ErrMemory(ctx.status))
  {
    if ctx.myDoc.None? then ctx
    else
      var doc := ctx.myDoc.value;
      if allocOk then ctx.(myDoc := Some(doc.(intSubset := Some(NewDtd(name, externalId, systemId)))))
      else ctx.(myDoc := Some(doc.(intSubset := None)), status := ErrMemory(ctx.status))
  }

  /** A second DOCTYPE with the same identifiers gives the same document as
      the first: the subset is replaced, never merged. */
  lemma InternalSubsetReplaces(ctx: Ctxt, name: string, externalId: Option<string>, systemId: Option<string>,
                               d: Dtd)
    requires ctx.myDoc.Some?
    ensures var c := ctx.(myDoc := Some(ctx.myDoc.value.(intSubset := Some(d))));
            InternalSubset(c, name, externalId, systemId, true).myDoc
              == InternalSubset(ctx, name, externalId, systemId, true).myDoc
  {
  }

  // ---------------------------------------------------------------------
  // External subset
  // ---------------------------------------------------------------------

  /** Whether xmlSAX2ExternalSubset tries to load the external subset: it
      has an identifier, validation or subset loading is requested, and the
      document so far is well formed. */
  predicate WantsExternalSubset(ctx: Ctxt, externalId: Option<string>, systemId: Option<string>) {
    && (externalId.Some? || systemId.Some?)
    && (ctx.validate || ctx.cfg.loadsubset != {})
    && ctx.status.wellFormed && ctx.myDoc.Some?
  }

  /** The input stack xmlSAX2ExternalSubset parses the subset with: a fresh
      table of capacity 5 holding only the resolved input, whose file name
      defaults to the system identifier. */
  function SubsetInputs(io: Inputs, input: Input, systemId: Option<string>): (r: Inputs)
    ensures r.inputNr == 1 && r.inputMax == 5 && |r.inputTab| == 1 && r.input == Some(r.inputTab[0])
    ensures r.inputTab[0].filename == if input.filename.Some? then input.filename else systemId
    ensures r.encoding == io.encoding && r.directory == io.directory && r.charset == io.charset
  {
    var input' := if input.filename.Some? then input else input.(filename := systemId);
    io.(input := Some(input'), inputNr := 1, inputMax := 5, inputTab := [input'])
  }

  /** The input stack of `io` with the saved input, stack and character set
      of `saved` put back. */
  function Restored(io: Inputs, saved: Inputs): (r: Inputs)
    ensures r.input == saved.input && r.inputNr == saved.inputNr && r.inputMax == saved.inputMax
    ensures r.inputTab == saved.inputTab && r.charset == saved.charset
    ensures r.encoding == io.encoding && r.directory == io.directory
  {
    io.(input := saved.input, inputNr := saved.inputNr, inputMax := saved.inputMax,
        inputTab := saved.inputTab, charset := saved.charset)
  }

  /** The context xmlParseExternalSubset starts from: the document with
      the external subset xmlNewDtd creates when the document has none
      (`dtdOk` is whether that allocation succeeds), and the resolved input
      alone on a fresh stack. */
  function SubsetParseStart(ctx: Ctxt, name: string, externalId: Option<string>, systemId: Option<string>,
                            input: Input, dtdOk: bool): (s: Ctxt)
    requires ctx.myDoc.Some?
    ensures s == ctx.(myDoc := s.myDoc, io := SubsetInputs(ctx.io, input, systemId))
    ensures s.myDoc.Some? && s.myDoc.value.(extSubset := ctx.myDoc.value.extSubset) == ctx.myDoc.value
    ensures ctx.myDoc.value.extSubset.None? && dtdOk ==>
              s.myDoc.value.extSubset == Some(NewDtd(name, externalId, systemId))
    ensures ctx.myDoc.value.extSubset.Some? || !dtdOk ==> s.myDoc == ctx.myDoc
  {
    var doc := ctx.myDoc.value;
    var doc' := if dtdOk && doc.extSubset.None? then doc.(extSubset := Some(NewDtd(name, externalId, systemId))) else doc;
    ctx.(myDoc := Some(doc'), io := SubsetInputs(ctx.io, input, systemId))
  }

  /** xmlSAX2ExternalSubset. `resolved` is what the resolveEntity callback
      returns; `dtdOk` whether xmlNewDtd succeeds (it records the new DTD
      as the external subset only when the document has none);
      `tabAllocOk` whether the new input table can be allocated; `parse`
      is xmlParseExternalSubset together with the encoding switch, as a
      transformation of the context. Whatever `parse` does to the input
      stack, the caller's input, stack and character set are restored. */
  function ExternalSubset(ctx: Ctxt, name: string, externalId: Option<string>, systemId: Option<string>,
                          resolved: Option<Input>, dtdOk: bool, tabAllocOk: bool, parse: Ctxt -> Ctxt): (r: Ctxt)
    ensures r.io.input == ctx.io.input && r.io.inputNr == ctx.io.inputNr && r.io.inputMax == ctx.io.inputMax
    ensures r.io.inputTab == ctx.io.inputTab && r.io.charset == ctx.io.charset
    ensures !WantsExternalSubset(ctx, externalId, systemId) || resolved.None? ==> r == ctx
    ensures WantsExternalSubset(ctx, externalId, systemId) && resolved.Some? && !tabAllocOk ==>
              && r == ctx.(myDoc := r.myDoc, status := ErrMemory(ctx.status))
              && r.myDoc.Some? && r.myDoc.value.(extSubset := ctx.myDoc.value.extSubset) == ctx.myDoc.value
              && (ctx.myDoc.value.extSubset.None? && dtdOk ==>
                    r.myDoc.value.extSubset == Some(NewDtd(name, externalId, systemId)))
              && (ctx.myDoc.value.extSubset.Some? || !dtdOk ==> r.myDoc == ctx.myDoc)
    ensures WantsExternalSubset(ctx, externalId, systemId) && resolved.Some? && tabAllocOk ==>
              var seen := SubsetParseStart(ctx, name, externalId, systemId, resolved.value, dtdOk);
              r == parse(seen).(io := Restored(parse(seen).io, ctx.io))
  {
    if WantsExternalSubset(ctx, externalId, systemId) && resolved.Some? then
      var doc := ctx.myDoc.value;
      var c1 := if dtdOk && doc.extSubset.None? then
                  ctx.(myDoc := Some(doc.(extSubset := Some(NewDtd(name, externalId, systemId)))))
                else ctx;
      if !tabAllocOk then c1.(status := ErrMemory(c1.status))
      else
        var c2 := parse(SubsetParseStart(ctx, name, externalId, systemId, resolved.value, dtdOk));
        c2.(io := Restored(c2.io, ctx.io))
    else ctx
  }

  /** The subset parser sees only the resolved input, on a stack of its
      own. On the first DOCTYPE it sees the external subset freshly created
      and still empty, ready to receive the declarations it parses; an
      existing external subset is kept as it was. Its effects other than on
      the input stack and character set persist. */
  lemma ExternalSubsetParsesAlone(ctx: Ctxt, name: string, externalId: Option<string>, systemId: Option<string>,
                                  input: Input, dtdOk: bool, parse: Ctxt -> Ctxt)
    requires WantsExternalSubset(ctx, externalId, systemId)
    ensures
      var seen := SubsetParseStart(ctx, name, externalId, systemId, input, dtdOk);
      var r := ExternalSubset(ctx, name, externalId, systemId, Some(input), dtdOk, true, parse);
      && seen.io.inputNr == 1 && seen.io.inputTab == [seen.io.input.value]
      && (ctx.myDoc.value.extSubset.None? && dtdOk ==>
            && seen.myDoc.value.extSubset.Some?
            && HasNoDeclarations(seen.myDoc.value.extSubset.value)
            && seen.myDoc.value.extSubset.value.name == name)
      && (ctx.myDoc.value.extSubset.Some? ==> seen.myDoc == ctx.myDoc)
      && r.(io := parse(seen).io) == parse(seen)
      && r.io == Restored(parse(seen).io, ctx.io)
  {
  }

  // ---------------------------------------------------------------------
  // Entity lookup
  // ---------------------------------------------------------------------

  /** xmlGetPredefinedEntity: the five entities every XML processor knows. */
  function PredefinedEntity(name: string): (r: Option<Entity>)
    ensures r.Some? <==> name in {"lt", "gt", "amp", "apos", "quot"}
    ensures r.Some? ==> r.value.name == name && r.value.etype == InternalPredefined && r.value.loaded
  {
    var value :=
      if name == "lt" then Some("<")
      else if name == "gt" then Some(">")
      else if name == "amp" then Some("&")
      else if name == "apos" then Some("'")
      else if name == "quot" then Some("\"")
      else None;
    if value.Some? then Some(Entity(name, InternalPredefined, None, None, value, None, true)) else None
  }

  /** Where xmlGetDocEntity finds a declared entity: the internal subset
      (true) first, then the external subset (false) unless the document
      is standalone. */
  function DeclaredIn(doc: Doc, name: string): (r: Option<bool>)
    ensures r == Some(true) ==> doc.intSubset.Some? && FindEntity(doc.intSubset.value.entities, name).Some?
    ensures r == Some(false) ==> doc.standalone != 1 && doc.extSubset.Some?
                                 && FindEntity(doc.extSubset.value.entities, name).Some?
    ensures r.None? ==> doc.intSubset.None? || FindEntity(doc.intSubset.value.entities, name).None?
    ensures r.None? && doc.standalone != 1 ==>
              doc.extSubset.None? || FindEntity(doc.extSubset.value.entities, name).None?
  {
    if doc.intSubset.Some? && FindEntity(doc.intSubset.value.entities, name).Some? then Some(true)
    else if doc.standalone != 1 && doc.extSubset.Some? && FindEntity(doc.extSubset.value.entities, name).Some?
    then Some(false)
    else None
  }

  /** xmlGetDocEntity: the declared entity DeclaredIn locates, else a
      predefined one. */
  function DocEntity(doc: Option<Doc>, name: string): (r: Option<Entity>)
    ensures doc.None? ==> r == PredefinedEntity(name)
    ensures doc.Some? && DeclaredIn(doc.value, name).None? ==> r == PredefinedEntity(name)
    ensures doc.Some? && DeclaredIn(doc.value, name).Some? ==>
              r == FindEntity(SubsetOf(doc.value, DeclaredIn(doc.value, name).value).value.entities, name)
    ensures r.Some? ==> r.value.name == name
  {
    if doc.None? then PredefinedEntity(name)
    else match DeclaredIn(doc.value, name)
      case None => PredefinedEntity(name)
      case Some(internal) => FindEntity(SubsetOf(doc.value, internal).value.entities, name)
  }

  /** The result of the lookup part of xmlSAX2GetEntity: the status after
      it, the entity found, and the subset it was declared in. */
  datatype Lookup = Lookup(status: Status, entity: Option<Entity>, source: Option<bool>)

  /** The lookup of xmlSAX2GetEntity on the document. A standalone
      document hides its external subset, except while that subset itself
      is parsed; outside it, an entity found only in the external subset
      of a standalone document is still returned, with a fatal
      ERR_NOT_STANDALONE error. The `standalone` flag is flipped for the
      second lookup and restored, so the document never changes. */
  function StandaloneLookup(ctx: Ctxt, name: string): (r: Lookup)
    ensures r.entity.Some? ==> r.entity.value.name == name
    ensures r.source.Some? ==> ctx.myDoc.Some? && r.entity.Some?
    ensures ctx.myDoc.None? ==> r == Lookup(ctx.status, PredefinedEntity(name), None)
    ensures ctx.myDoc.Some? && ctx.myDoc.value.standalone != 1 ==>
              r == Lookup(ctx.status, DocEntity(ctx.myDoc, name), DeclaredIn(ctx.myDoc.value, name))
    ensures ctx.myDoc.Some? && ctx.myDoc.value.standalone == 1 ==>
              var open := ctx.myDoc.value.(standalone := 0);
              && (ctx.cfg.inSubset == 2 ==>
                    r == Lookup(ctx.status, DocEntity(Some(open), name), DeclaredIn(open, name)))
              && (ctx.cfg.inSubset != 2 && DocEntity(ctx.myDoc, name).Some? ==>
                    r == Lookup(ctx.status, DocEntity(ctx.myDoc, name), DeclaredIn(ctx.myDoc.value, name)))
              && (ctx.cfg.inSubset != 2 && DocEntity(ctx.myDoc, name).None? ==>
                    && r.entity == DocEntity(Some(open), name) && r.source == DeclaredIn(open, name)
                    && r.status == (if r.entity.Some? then FatalErr(ctx.status, ErrNotStandalone) else ctx.status))
  {
    match ctx.myDoc
    case None => Lookup(ctx.status, PredefinedEntity(name), None)
    case Some(doc) =>
      var open := doc.(standalone := 0);
      if doc.standalone != 1 then Lookup(ctx.status, DocEntity(ctx.myDoc, name), DeclaredIn(doc, name))
      else if ctx.cfg.inSubset == 2 then Lookup(ctx.status, DocEntity(Some(open), name), DeclaredIn(open, name))
      else if DocEntity(ctx.myDoc, name).Some? then
        Lookup(ctx.status, DocEntity(ctx.myDoc, name), DeclaredIn(doc, name))
      else
        var e := DocEntity(Some(open), name);
        Lookup(if e.Some? then FatalErr(ctx.status, ErrNotStandalone) else ctx.status, e, DeclaredIn(open, name))
  }

  /** Every entity of `entities` named `name` marked as loaded. */
  function MarkLoaded(entities: seq<Entity>, name: string): (r: seq<Entity>)
    ensures |r| == |entities|
    ensures forall i :: 0 <= i < |entities| ==>
              r[i] == if entities[i].name == name then entities[i].(loaded := true) else entities[i]
  {
    seq(|entities|, i requires 0 <= i < |entities| =>
      if entities[i].name == name then entities[i].(loaded := true) else entities[i])
  }

  /** The document after the entity `name` declared in subset `source` has
      had its content parsed. */
  function WithLoaded(doc: Doc, source: bool, name: string): (r: Doc)
    requires SubsetOf(doc, source).Some?
    ensures SubsetOf(r, !source) == SubsetOf(doc, !source)
    ensures r.(intSubset := doc.intSubset, extSubset := doc.extSubset) == doc
  {
    var d := SubsetOf(doc, source).value;
    WithSubset(doc, source, d.(entities := MarkLoaded(d.entities, name)))
  }

  /** What xmlParseCtxtExternalEntity does with an entity's content: fail,
      succeed without producing a node, or succeed with at least one node
      that becomes the entity's children. */
  datatype EntityParse = ParseFailed | ParsedEmpty | ParsedNodes

  /** The returned entity is an external parsed entity whose content has
      not been loaded yet, and validation or entity substitution needs it. */
  predicate NeedsLoading(ctx: Ctxt, e: Option<Entity>) {
    && e.Some? && (ctx.validate || ctx.cfg.replaceEntities)
    && !e.value.loaded && e.value.etype == ExternalGeneralParsed
  }

  /** xmlSAX2GetEntity. Outside the DTD the five predefined entities come
      first, whatever the document declares. An entity that NeedsLoading
      is parsed, with `outcome` saying how xmlParseCtxtExternalEntity
      went. The entity counts as loaded only through its children, so it
      is marked loaded only when the parse produced nodes; an empty
      content leaves it to be parsed again by the next lookup. On failure
      the lookup fails with a fatal ERR_ENTITY_PROCESSING error and
      validation is switched off. */
  function GetEntity(ctx: Ctxt, name: string, outcome: EntityParse): (r: (Ctxt, Option<Entity>))
    ensures r.0 == ctx.(status := r.0.status, myDoc := r.0.myDoc, validate := r.0.validate)
    ensures ctx.cfg.inSubset == 0 && PredefinedEntity(name).Some? ==> r == (ctx, PredefinedEntity(name))
    ensures r.1.Some? ==> r.1.value.name == name
    ensures r.0.myDoc.Some? <==> ctx.myDoc.Some?
    ensures ctx.myDoc.Some? ==>
              r.0.myDoc.value.(intSubset := ctx.myDoc.value.intSubset, extSubset := ctx.myDoc.value.extSubset)
                == ctx.myDoc.value
    ensures r.0.validate != ctx.validate ==> r.1.None? && !r.0.validate
    ensures !(ctx.cfg.inSubset == 0 && PredefinedEntity(name).Some?) ==>
              var look := StandaloneLookup(ctx, name);
              && (!NeedsLoading(ctx, look.entity) ==> r == (ctx.(status := look.status), look.entity))
              && (NeedsLoading(ctx, look.entity) && outcome.ParsedNodes? ==>
                    r.1 == Some(look.entity.value.(loaded := true)) && r.0.status == look.status)
              && (NeedsLoading(ctx, look.entity) && outcome.ParsedEmpty? ==>
                    r == (ctx.(status := look.status), look.entity))
              && (NeedsLoading(ctx, look.entity) && outcome.ParseFailed? ==>
                    r == (ctx.(status := FatalErr(look.status, ErrEntityProcessing), validate := false), None))
  {
    if ctx.cfg.inSubset == 0 && PredefinedEntity(name).Some? then (ctx, PredefinedEntity(name))
    else
      var look := StandaloneLookup(ctx, name);
      var c1 := ctx.(status := look.status);
      if NeedsLoading(ctx, look.entity) then
        if outcome.ParsedNodes? then
          var doc := ctx.myDoc.value;
          var source := look.source.value;
          (c1.(myDoc := Some(WithLoaded(doc, source, name))), Some(look.entity.value.(loaded := true)))
        else if outcome.ParsedEmpty? then (c1, look.entity)
        else (c1.(status := FatalErr(look.status, ErrEntityProcessing), validate := false), None)
      else (c1, look.entity)
  }

  /** In a standalone document, outside the external subset, an entity
      declared only in the external subset is still found, but the
      document is reported as not standalone; the document's own
      `standalone` value is what it was. */
  lemma NotStandaloneReported(ctx: Ctxt, name: string, outcome: EntityParse)
    requires ctx.myDoc.Some? && ctx.myDoc.value.standalone == 1 && ctx.cfg.inSubset != 2
    requires PredefinedEntity(name).None?
    requires ctx.myDoc.value.intSubset.None? || FindEntity(ctx.myDoc.value.intSubset.value.entities, name).None?
    requires ctx.myDoc.value.extSubset.Some? && FindEntity(ctx.myDoc.value.extSubset.value.entities, name).Some?
    requires !ctx.validate && !ctx.cfg.replaceEntities
    ensures GetEntity(ctx, name, outcome).1 == FindEntity(ctx.myDoc.value.extSubset.value.entities, name)
    ensures GetEntity(ctx, name, outcome).0 == ctx.(status := FatalErr(ctx.status, ErrNotStandalone))
    ensures GetEntity(ctx, name, outcome).0.myDoc.value.standalone == 1
  {
    var open := ctx.myDoc.value.(standalone := 0);
    assert DeclaredIn(ctx.myDoc.value, name).None?;
    assert DeclaredIn(open, name) == Some(false);
  }

  /** While the external subset is parsed, a standalone document's external
      declarations are visible without any error. */
  lemma ExternalSubsetSeesItsOwn(ctx: Ctxt, name: string, outcome: EntityParse)
    requires ctx.myDoc.Some? && ctx.myDoc.value.standalone == 1 && ctx.cfg.inSubset == 2
    requires ctx.myDoc.value.intSubset.None? || FindEntity(ctx.myDoc.value.intSubset.value.entities, name).None?
    requires ctx.myDoc.value.extSubset.Some? && FindEntity(ctx.myDoc.value.extSubset.value.entities, name).Some?
    requires !ctx.validate && !ctx.cfg.replaceEntities
    ensures GetEntity(ctx, name, outcome) == (ctx, FindEntity(ctx.myDoc.value.extSubset.value.entities, name))
  {
    var open := ctx.myDoc.value.(standalone := 0);
    assert DeclaredIn(open, name) == Some(false);
  }

  /** The internal subset takes precedence over the external one, and a
      declaration takes precedence over a predefined entity except in
      content, where the five predefined entities always win. */
  lemma InternalDeclarationWins(ctx: Ctxt, name: string, outcome: EntityParse)
    requires ctx.myDoc.Some? && ctx.myDoc.value.intSubset.Some?
    requires FindEntity(ctx.myDoc.value.intSubset.value.entities, name).Some?
    requires !NeedsLoading(ctx, FindEntity(ctx.myDoc.value.intSubset.value.entities, name))
    ensures ctx.cfg.inSubset == 0 && PredefinedEntity(name).Some? ==>
              GetEntity(ctx, name, outcome).1 == PredefinedEntity(name)
    ensures !(ctx.cfg.inSubset == 0 && PredefinedEntity(name).Some?) ==>
              GetEntity(ctx, name, outcome) == (ctx, FindEntity(ctx.myDoc.value.intSubset.value.entities, name))
  {
    var open := ctx.myDoc.value.(standalone := 0);
    assert DeclaredIn(ctx.myDoc.value, name) == Some(true);
    assert DeclaredIn(open, name) == Some(true);
  }

  /** An entity declared in the internal subset, under a name nothing was
      declared under there before, is what a later lookup in content finds
      (unless it is one of the five predefined names). */
  lemma DeclaredThenFound(ctx: Ctxt, name: string, etype: EntityType, publicId: Option<string>,
                          systemId: Option<string>, content: Option<string>, outcome: EntityParse)
    requires ctx.cfg.inSubset == 1 && ctx.myDoc.Some? && ctx.myDoc.value.intSubset.Some?
    requires FindEntity(ctx.myDoc.value.intSubset.value.entities, name).None?
    requires PredefinedEntity(name).None?
    requires !ctx.validate && !ctx.cfg.replaceEntities
    ensures var c1 := EntityDecl(ctx, name, etype, publicId, systemId, content, true);
            var c2 := c1.(cfg := c1.cfg.(inSubset := 0));
            GetEntity(c2, name, outcome) == (c2, Some(NewEntity(ctx, name, etype, publicId, systemId, content)))
  {
    var e := NewEntity(ctx, name, etype, publicId, systemId, content);
    var c1 := EntityDecl(ctx, name, etype, publicId, systemId, content, true);
    var c2 := c1.(cfg := c1.cfg.(inSubset := 0));
    var before := ctx.myDoc.value.intSubset.value.entities;
    FindEntityAppend(before, e, name);
    assert c2.myDoc.value.intSubset.value.entities == before + [e];
    InternalDeclarationWins(c2, name, outcome);
  }

  /** Loading an external parsed entity marks its declaration, in the
      subset it was found in, as loaded, so a second lookup does not load
      it again. */
  lemma LoadedOnce(ctx: Ctxt, name: string)
    requires ctx.myDoc.Some? && ctx.myDoc.value.standalone != 1
    requires !(ctx.cfg.inSubset == 0 && PredefinedEntity(name).Some?)
    requires NeedsLoading(ctx, StandaloneLookup(ctx, name).entity)
    ensures var r := GetEntity(ctx, name, ParsedNodes);
            && r.1.Some? && r.1.value.loaded
            && !NeedsLoading(r.0, StandaloneLookup(r.0, name).entity)
            && forall o: EntityParse :: GetEntity(r.0, name, o).1 == r.1
  {
    var doc := ctx.myDoc.value;
    var source := DeclaredIn(doc, name).value;
    var d := SubsetOf(doc, source).value;
    var e := FindEntity(d.entities, name).value;
    var doc' := WithLoaded(doc, source, name);
    var d' := SubsetOf(doc', source).value;
    FindEntityLoaded(d.entities, name);
    assert FindEntity(d'.entities, name) == Some(e.(loaded := true));
    if source {
      assert DeclaredIn(doc', name) == Some(true);
    } else {
      assert doc'.intSubset == doc.intSubset;
      assert DeclaredIn(doc', name) == Some(false);
    }
  }

  /** An external entity whose content parsed to no node has no children,
      so it is not marked loaded, and the next lookup that needs its
      content parses it again. */
  lemma EmptyEntityParsedAgain(ctx: Ctxt, name: string)
    requires !(ctx.cfg.inSubset == 0 && PredefinedEntity(name).Some?)
    requires NeedsLoading(ctx, StandaloneLookup(ctx, name).entity)
    ensures var r := GetEntity(ctx, name, ParsedEmpty);
            && r.0.myDoc == ctx.myDoc && r.1 == StandaloneLookup(ctx, name).entity
            && NeedsLoading(r.0, StandaloneLookup(r.0, name).entity)
  {
  }

  /** Marking an entity loaded keeps it where the lookup finds it. */
  lemma {:induction false} FindEntityLoaded(entities: seq<Entity>, name: string)
    ensures FindEntity(MarkLoaded(entities, name), name).Some? <==> FindEntity(entities, name).Some?
    ensures FindEntity(entities, name).Some? ==>
              FindEntity(MarkLoaded(entities, name), name) == Some(FindEntity(entities, name).value.(loaded := true))
  {
    if |entities| > 0 {
      FindEntityLoaded(entities[1..], name);
      assert MarkLoaded(entities, name)[1..] == MarkLoaded(entities[1..], name);
    }
  }
}
