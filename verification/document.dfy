/** The document handlers: xmlSAX2StartDocument creates the document,
    xmlSAX2EndDocument records on it the encoding and character set found
    while parsing. */
module Documents {
  import opened XmlBase
  import opened ParserErrors
  import opened Tree
  import opened Context

  /** The document xmlNewDoc creates for the parser: no children and no
      subsets, version "1.0" unless the XML declaration gave one, and the
      declaration's encoding and standalone value. */
  function NewDocument(ctx: Ctxt): (r: Doc)
    ensures r.children == [] && r.intSubset.None? && r.extSubset.None? && r.url.None?
    ensures ctx.cfg.version.Some? ==> r.version == ctx.cfg.version.value
    ensures ctx.cfg.version.None? ==> r.version == "1.0"
    ensures r.encoding == ctx.io.encoding && r.standalone == ctx.cfg.standalone
    ensures r.charset == CharEncodingUtf8
    ensures r.old10 <==> ParseOld10 in ctx.cfg.options
    ensures r.parseFlags == ctx.cfg.options
  {
    Doc(if ctx.cfg.version.Some? then ctx.cfg.version.value else "1.0", [], None, None,
        ctx.cfg.standalone, ctx.io.encoding, CharEncodingUtf8, None, ParseOld10 in ctx.cfg.options,
        ctx.cfg.options)
  }

  /** xmlSAX2StartDocument. `allocOk` is whether xmlNewDoc succeeds,
      `urlOk` whether xmlPathToURI does. A document read from a named file
      gets that file as its URL. Any previous document is dropped. */
  function StartDocument(ctx: Ctxt, allocOk: bool, urlOk: bool): (r: Ctxt)
    ensures r == ctx.(myDoc := r.myDoc, status := r.status)
    ensures !allocOk ==> r.myDoc.None? && r.status == ErrMemory(ctx.status)
    ensures allocOk ==> r.myDoc.Some? && r.myDoc.value.(url := None) == NewDocument(ctx)
    ensures allocOk && ctx.io.input.Some? && ctx.io.input.value.filename.Some? ==>
              && (urlOk ==> r.myDoc.value.url == Some(PathUri(ctx.io.input.value.filename.value))
                            && r.status == ctx.status)
              && (!urlOk ==> r.myDoc.value.url.None? && r.status == ErrMemory(ctx.status))
    ensures allocOk && (ctx.io.input.None? || ctx.io.input.value.filename.None?) ==>
              r.myDoc.value.url.None? && r.status == ctx.status
  {
    if !allocOk then ctx.(myDoc := None, status := ErrMemory(ctx.status))
    else
      var doc := NewDocument(ctx);
      if ctx.io.input.Some? && ctx.io.input.value.filename.Some? then
        if urlOk then ctx.(myDoc := Some(doc.(url := Some(PathUri(ctx.io.input.value.filename.value)))))
        else ctx.(myDoc := Some(doc), status := ErrMemory(ctx.status))
      else ctx.(myDoc := Some(doc))
  }

  /** The encoding the document ends up with when it declared none: the
      one recorded in the context, else the one of the first input. */
  function DiscoveredEncoding(io: Inputs): (r: Option<string>)
    ensures io.encoding.Some? ==> r == io.encoding
  {
    if io.encoding.Some? then io.encoding
    else if io.inputNr > 0 && |io.inputTab| > 0 then io.inputTab[0].encoding
    else None
  }

  /** The document and input side after xmlSAX2EndDocument found a
      document. */
  function Finished(doc: Doc, io: Inputs): (r: (Doc, Inputs))
    ensures r.0 == doc.(encoding := r.0.encoding, charset := r.0.charset)
    ensures r.1 == io.(encoding := r.1.encoding)
    ensures doc.encoding.Some? ==> r.0.encoding == doc.encoding && r.1 == io
    ensures doc.encoding.None? ==> r.0.encoding == DiscoveredEncoding(io)
    ensures doc.encoding.None? && io.encoding.Some? ==> r.1.encoding.None?
    ensures doc.encoding.None? && io.encoding.None? ==> r.1 == io
    ensures doc.charset != CharEncodingNone ==> r.0.charset == doc.charset
    ensures doc.charset == CharEncodingNone ==> r.0.charset == io.charset
  {
    var (doc1, io1) := if io.encoding.Some? && doc.encoding.None? then
                         (doc.(encoding := io.encoding), io.(encoding := None))
                       else (doc, io);
    var doc2 := if io1.inputNr > 0 && |io1.inputTab| > 0 && io1.inputTab[0].encoding.Some? && doc1.encoding.None?
                then doc1.(encoding := io1.inputTab[0].encoding)
                else doc1;
    var doc3 := if io1.charset != CharEncodingNone && doc2.charset == CharEncodingNone
                then doc2.(charset := io1.charset)
                else doc2;
    (doc3, io1)
  }

  /** xmlSAX2EndDocument. A document without an encoding takes the one
      found while parsing; when that is the context's own string it is
      handed over and the context's field cleared. A document without a
      character set takes the input's. Nothing already on the document is
      overwritten, and nothing but those fields changes. */
  function EndDocument(ctx: Ctxt): (r: Ctxt)
    ensures ctx.myDoc.None? ==> r == ctx
    ensures ctx.myDoc.Some? ==>
              var f := Finished(ctx.myDoc.value, ctx.io);
              r == ctx.(myDoc := Some(f.0), io := f.1)
  {
    if ctx.myDoc.None? then ctx
    else
      var f := Finished(ctx.myDoc.value, ctx.io);
      ctx.(myDoc := Some(f.0), io := f.1)
  }

  /** Ending the document twice records nothing more. */
  lemma EndDocumentIdempotent(ctx: Ctxt)
    ensures EndDocument(EndDocument(ctx)).myDoc == EndDocument(ctx).myDoc
  {
  }

  /** A document started from a context whose XML declaration named an
      encoding keeps exactly that encoding at its end, whatever the inputs
      reported; the character set it was created with is kept too. */
  lemma DeclaredEncodingKept(ctx: Ctxt, urlOk: bool)
    requires ctx.io.encoding.Some?
    ensures var r := EndDocument(StartDocument(ctx, true, urlOk));
            r.myDoc.value.encoding == ctx.io.encoding && r.myDoc.value.charset == CharEncodingUtf8
            && r.io == ctx.io
  {
  }
}
