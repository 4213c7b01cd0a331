/** The DTD declaration handlers: entities, unparsed entities, attribute
    lists, element types and notations. Each one files its declaration in
    the subset being parsed (`inSubset` 1 is the internal subset, 2 the
    external one) and reports an error when called outside both. */
module Declarations {
  import opened XmlBase
  import opened ParserErrors
  import opened Tree
  import opened Context
  import opened QNames

  // ---------------------------------------------------------------------
  // Subsets and their declaration tables
  // ---------------------------------------------------------------------

  /** The internal or the external subset of a document. */
  function SubsetOf(doc: Doc, internal: bool): Option<Dtd> {
    if internal then doc.intSubset else doc.extSubset
  }

  /** `doc` with one of its subsets replaced and nothing else changed. */
  function WithSubset(doc: Doc, internal: bool, d: Dtd): (r: Doc)
    ensures SubsetOf(r, internal) == Some(d)
    ensures SubsetOf(r, !internal) == SubsetOf(doc, !internal)
    ensures r.(intSubset := doc.intSubset, extSubset := doc.extSubset) == doc
  {
    if internal then doc.(intSubset := Some(d)) else doc.(extSubset := Some(d))
  }

  /** The first entity of a table declared under `name`. */
  function FindEntity(entities: seq<Entity>, name: string): (r: Option<Entity>)
    ensures r.Some? ==> r.value in entities && r.value.name == name
    ensures r.None? <==> forall i :: 0 <= i < |entities| ==> entities[i].name != name
    decreases |entities|
  {
    if |entities| == 0 then None
    else if entities[0].name == name then Some(entities[0])
    else FindEntity(entities[1..], name)
  }

  /** One declaration, of any of the four kinds a subset records. */
  datatype Decl =
    | EntityD(entity: Entity)
    | AttributeD(attribute: DtdAttribute)
    | ElementD(element: DtdElement)
    | NotationD(notation: Notation)

  /** `decl` appended to the table of its kind; the other tables and the
      subset's identity are unchanged. */
  function Declare(d: Dtd, decl: Decl): (r: Dtd)
    ensures r.name == d.name && r.externalId == d.externalId && r.systemId == d.systemId
    ensures r.children == d.children
    ensures decl.EntityD? ==> r == d.(entities := d.entities + [decl.entity])
    ensures decl.AttributeD? ==> r == d.(attributes := d.attributes + [decl.attribute])
    ensures decl.ElementD? ==> r == d.(elements := d.elements + [decl.element])
    ensures decl.NotationD? ==> r == d.(notations := d.notations + [decl.notation])
  {
    match decl
    case EntityD(e) => d.(entities := d.entities + [e])
    case AttributeD(a) => d.(attributes := d.attributes + [a])
    case ElementD(el) => d.(elements := d.elements + [el])
    case NotationD(n) => d.(notations := d.notations + [n])
  }

  /** Appending to a table does not change what a name already found, and
      makes a name found nowhere find the new entity. */
  lemma {:induction false} FindEntityAppend(s: seq<Entity>, x: Entity, name: string)
    ensures FindEntity(s, name).Some? ==> FindEntity(s + [x], name) == FindEntity(s, name)
    ensures FindEntity(s, name).None? && x.name == name ==> FindEntity(s + [x], name) == Some(x)
    decreases |s|
  {
    if |s| > 0 {
      assert (s + [x])[1..] == s[1..] + [x];
      FindEntityAppend(s[1..], x, name);
    }
  }

  /** The table functions xmlAddDocEntity, xmlAddDtdEntity,
      xmlAddAttributeDecl, xmlAddElementDecl and xmlAddNotationDecl are
      not part of this model: `added` says whether the call returned a
      declaration. When it did, the declaration is in the subset's table;
      the handlers do not look at the tables themselves. */
  predicate Accepted(doc: Option<Doc>, internal: bool, added: bool) {
    doc.Some? && SubsetOf(doc.value, internal).Some? && added
  }

  /** How filing `decl` in one subset changes a document: the subset gets
      `decl` appended when the table function returned it, nothing changes
      otherwise, and no other part of the document ever changes. */
  predicate FiledIn(before: Option<Doc>, after: Option<Doc>, internal: bool, decl: Decl, added: bool) {
    && (!Accepted(before, internal, added) ==> after == before)
    && (before.Some? ==>
          && after.Some?
          && after.value.(intSubset := before.value.intSubset, extSubset := before.value.extSubset) == before.value
          && SubsetOf(after.value, !internal) == SubsetOf(before.value, !internal))
    && (Accepted(before, internal, added) ==>
          SubsetOf(after.value, internal) == Some(Declare(SubsetOf(before.value, internal).value, decl)))
  }

  /** Filing `decl` in one of the subsets of the context's document;
      the second component says whether it was filed. */
  function FileDecl(ctx: Ctxt, internal: bool, decl: Decl, added: bool): (r: (Ctxt, bool))
    ensures r.0 == ctx.(myDoc := r.0.myDoc)
    ensures r.1 <==> Accepted(ctx.myDoc, internal, added)
    ensures FiledIn(ctx.myDoc, r.0.myDoc, internal, decl, added)
  {
    if Accepted(ctx.myDoc, internal, added) then
      var d := Declare(SubsetOf(ctx.myDoc.value, internal).value, decl);
      (ctx.(myDoc := Some(WithSubset(ctx.myDoc.value, internal, d))), true)
    else (ctx, false)
  }

  // ---------------------------------------------------------------------
  // Entity declarations
  // ---------------------------------------------------------------------

  /** The URI an entity with a system identifier records: the identifier
      resolved against the current input's file name, or the context's
      directory when there is none (xmlBuildURI is not looked into). */
  function EntityUri(ctx: Ctxt, systemId: Option<string>): (r: Option<UriRef>)
    ensures systemId.None? ==> r.None?
    ensures systemId.Some? ==> r == Some(BuiltUri(systemId.value, ctx.Base()))
  {
    if systemId.Some? then Some(BuiltUri(systemId.value, ctx.Base())) else None
  }

  /** The entity a declaration creates: not yet loaded, and with the URI
      the handler fills in (a newly created entity has none). */
  function NewEntity(ctx: Ctxt, name: string, etype: EntityType, publicId: Option<string>,
                     systemId: Option<string>, content: Option<string>): (e: Entity)
    ensures e.name == name && e.etype == etype && e.publicId == publicId && e.systemId == systemId
    ensures e.content == content && !e.loaded
    ensures e.uri.Some? <==> systemId.Some?
    ensures e.uri.Some? ==> e.uri.value.BuiltUri? && e.uri.value.reference == systemId.value
  {
    Entity(name, etype, publicId, systemId, content, EntityUri(ctx, systemId), false)
  }

  /** xmlSAX2EntityDecl. Inside a subset the entity goes to that subset's
      table; a redefinition in the internal subset is reported as
      WAR_ENTITY_REDEFINED when `pedantic` is set (in the external subset
      the report goes to the user's warning callback, which changes no
      state); outside both subsets the call is a fatal
      ERR_ENTITY_PROCESSING error. */
  function EntityDecl(ctx: Ctxt, name: string, etype: EntityType, publicId: Option<string>,
                      systemId: Option<string>, content: Option<string>, added: bool): (r: Ctxt)
    ensures r == ctx.(myDoc := r.myDoc, status := r.status)
    ensures ctx.cfg.inSubset != 1 && ctx.cfg.inSubset != 2 ==>
              r == ctx.(status := FatalErr(ctx.status, ErrEntityProcessing))
    ensures ctx.cfg.inSubset == 1 || ctx.cfg.inSubset == 2 ==>
              var internal := ctx.cfg.inSubset == 1;
              var ent := EntityD(NewEntity(ctx, name, etype, publicId, systemId, content));
              && FiledIn(ctx.myDoc, r.myDoc, internal, ent, added)
              && (!Accepted(ctx.myDoc, internal, added) && internal && ctx.cfg.pedantic ==>
                    r.status == WarnMsg(ctx.status, WarEntityRedefined))
              && (Accepted(ctx.myDoc, internal, added) || !internal || !ctx.cfg.pedantic ==>
                    r.status == ctx.status)
  {
    if ctx.cfg.inSubset == 1 || ctx.cfg.inSubset == 2 then
      var internal := ctx.cfg.inSubset == 1;
      var filed := FileDecl(ctx, internal, EntityD(NewEntity(ctx, name, etype, publicId, systemId, content)), added);
      if !filed.1 && internal && ctx.cfg.pedantic then ctx.(status := WarnMsg(ctx.status, WarEntityRedefined))
      else filed.0
    else ctx.(status := FatalErr(ctx.status, ErrEntityProcessing))
  }

  /** xmlSAX2UnparsedEntityDecl: as EntityDecl, for an external unparsed
      entity whose content is its notation name; redefinitions only reach
      the user's warning callback, and a call outside both subsets is a
      fatal ERR_INTERNAL_ERROR error. */
  function UnparsedEntityDecl(ctx: Ctxt, name: string, publicId: Option<string>, systemId: Option<string>,
                              notationName: Option<string>, added: bool): (r: Ctxt)
    ensures r == ctx.(myDoc := r.myDoc, status := r.status)
    ensures ctx.cfg.inSubset != 1 && ctx.cfg.inSubset != 2 ==>
              r == ctx.(status := FatalErr(ctx.status, ErrInternalError))
    ensures ctx.cfg.inSubset == 1 || ctx.cfg.inSubset == 2 ==>
              var ent := NewEntity(ctx, name, ExternalGeneralUnparsed, publicId, systemId, notationName);
              FiledIn(ctx.myDoc, r.myDoc, ctx.cfg.inSubset == 1, EntityD(ent), added) && r.status == ctx.status
  {
    if ctx.cfg.inSubset == 1 || ctx.cfg.inSubset == 2 then
      var ent := NewEntity(ctx, name, ExternalGeneralUnparsed, publicId, systemId, notationName);
      FileDecl(ctx, ctx.cfg.inSubset == 1, EntityD(ent), added).0
    else ctx.(status := FatalErr(ctx.status, ErrInternalError))
  }

  // ---------------------------------------------------------------------
  // Attribute, element and notation declarations
  // ---------------------------------------------------------------------

  /** The `xml:id` check of xmlSAX2AttributeDecl: declaring `xml:id` with a
      type other than ID is reported as a validity error, but the validity
      flag keeps its value. */
  function CheckXmlId(s: Status, fullname: string, atype: AttributeType): (r: Status)
    ensures r.valid == s.valid && r.wellFormed == s.wellFormed
    ensures fullname != "xml:id" || atype == IdType ==> r == s
    ensures fullname == "xml:id" && atype != IdType && !Stopped(s) ==> r.errNo == DtdXmlIdType
  {
    if fullname == "xml:id" && atype != IdType then ErrValid(s, DtdXmlIdType).(valid := s.valid) else s
  }

  /** xmlSAX2AttributeDecl. Without a document nothing happens. Otherwise
      the `xml:id` check runs, the validation context is reset to valid,
      the name is split at its prefix, and the declaration goes to the
      subset being parsed; outside both subsets the call is a fatal
      ERR_INTERNAL_ERROR error. */
  function AttributeDecl(ctx: Ctxt, elem: string, fullname: string, atype: AttributeType,
                         def: AttributeDefault, defaultValue: Option<string>, tree: seq<string>,
                         added: bool): (r: Ctxt)
    ensures r == ctx.(myDoc := r.myDoc, status := r.status, vctxtValid := r.vctxtValid)
    ensures ctx.myDoc.None? ==> r == ctx
    ensures ctx.myDoc.Some? ==> r.vctxtValid
    ensures ctx.myDoc.Some? && ctx.cfg.inSubset != 1 && ctx.cfg.inSubset != 2 ==>
              && r.myDoc == ctx.myDoc
              && r.status == FatalErr(CheckXmlId(ctx.status, fullname, atype), ErrInternalError)
    ensures ctx.myDoc.Some? && (ctx.cfg.inSubset == 1 || ctx.cfg.inSubset == 2) ==>
              var split := SplitQName(fullname);
              var decl := DtdAttribute(elem, split.1, split.0, atype, def, defaultValue, tree);
              && FiledIn(ctx.myDoc, r.myDoc, ctx.cfg.inSubset == 1, AttributeD(decl), added)
              && r.status == CheckXmlId(ctx.status, fullname, atype)
  {
    if ctx.myDoc.None? then ctx
    else
      var c1 := ctx.(status := CheckXmlId(ctx.status, fullname, atype), vctxtValid := true);
      var split := SplitQName(fullname);
      var decl := DtdAttribute(elem, split.1, split.0, atype, def, defaultValue, tree);
      if ctx.cfg.inSubset == 1 || ctx.cfg.inSubset == 2 then
        FileDecl(c1, ctx.cfg.inSubset == 1, AttributeD(decl), added).0
      else c1.(status := FatalErr(c1.status, ErrInternalError))
  }

  /** xmlSAX2ElementDecl. Without a document nothing happens; outside both
      subsets the call is a fatal ERR_INTERNAL_ERROR error. */
  function ElementDecl(ctx: Ctxt, name: string, etype: ElementTypeVal, added: bool): (r: Ctxt)
    ensures r == ctx.(myDoc := r.myDoc, status := r.status)
    ensures ctx.myDoc.None? ==> r == ctx
    ensures ctx.myDoc.Some? && ctx.cfg.inSubset != 1 && ctx.cfg.inSubset != 2 ==>
              r == ctx.(status := FatalErr(ctx.status, ErrInternalError))
    ensures ctx.myDoc.Some? && (ctx.cfg.inSubset == 1 || ctx.cfg.inSubset == 2) ==>
              FiledIn(ctx.myDoc, r.myDoc, ctx.cfg.inSubset == 1, ElementD(DtdElement(name, etype)), added)
              && r.status == ctx.status
  {
    if ctx.myDoc.None? then ctx
    else if ctx.cfg.inSubset == 1 || ctx.cfg.inSubset == 2 then
      FileDecl(ctx, ctx.cfg.inSubset == 1, ElementD(DtdElement(name, etype)), added).0
    else ctx.(status := FatalErr(ctx.status, ErrInternalError))
  }

  /** xmlSAX2NotationDecl. Without a document nothing happens; a notation
      with neither a public nor a system identifier, or one declared
      outside both subsets, is a fatal ERR_NOTATION_PROCESSING error. */
  function NotationDecl(ctx: Ctxt, name: string, publicId: Option<string>, systemId: Option<string>,
                        added: bool): (r: Ctxt)
    ensures r == ctx.(myDoc := r.myDoc, status := r.status)
    ensures ctx.myDoc.None? ==> r == ctx
    ensures ctx.myDoc.Some? && ((publicId.None? && systemId.None?) || (ctx.cfg.inSubset != 1 && ctx.cfg.inSubset != 2)) ==>
              r == ctx.(status := FatalErr(ctx.status, ErrNotationProcessing))
    ensures ctx.myDoc.Some? && (publicId.Some? || systemId.Some?) && (ctx.cfg.inSubset == 1 || ctx.cfg.inSubset == 2) ==>
              FiledIn(ctx.myDoc, r.myDoc, ctx.cfg.inSubset == 1, NotationD(Notation(name, publicId, systemId)), added)
              && r.status == ctx.status
  {
    if ctx.myDoc.None? then ctx
    else if publicId.None? && systemId.None? then ctx.(status := FatalErr(ctx.status, ErrNotationProcessing))
    else if ctx.cfg.inSubset == 1 || ctx.cfg.inSubset == 2 then
      FileDecl(ctx, ctx.cfg.inSubset == 1, NotationD(Notation(name, publicId, systemId)), added).0
    else ctx.(status := FatalErr(ctx.status, ErrNotationProcessing))
  }
}
