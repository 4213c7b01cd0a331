/** Shared vocabulary of the SAX2 tree-builder model: an Option type, the
    parser option and load-subset flags (C bit masks become sets of flags),
    the error codes the handlers report, and the fixed-width integer
    conversions the C code performs implicitly. */
module XmlBase {

  /** A possibly-NULL value. */
  datatype Option<+T> = None | Some(value: T)

  /** Parser options consulted by the handlers (`ctxt->options`). */
  datatype ParseOption = ParseHuge | ParseOld10 | ParseCompact

  /** Bits of `ctxt->loadsubset`. */
  datatype LoadFlag = DetectIds | CompleteAttrs | SkipIds

  /** The error numbers the handlers store in `ctxt->errNo`. */
  datatype ErrorCode =
    | NoError
    | ErrNoMemory
    | ErrInternalError
    | ErrEntityProcessing
    | ErrNotationProcessing
    | ErrNotStandalone
    | WarEntityRedefined
    | ErrNoDtd
    | DtdXmlIdType
    | NsErrUndefinedNamespace
    | OtherError(code: int)

  /** Largest text node accepted without XML_PARSE_HUGE. */
  const MaxTextLength: int := 10000000

  /** INT_MAX of the 32-bit C `int` that holds `nodelen` and `nodemem`. */
  const IntMax: int := 0x7fff_ffff

  /** SIZE_T_MAX on a 64-bit target. */
  const SizeMax: int := 0xffff_ffff_ffff_ffff

  /** XML_CHAR_ENCODING_NONE and XML_CHAR_ENCODING_UTF8. */
  const CharEncodingNone: int := 0
  const CharEncodingUtf8: int := 1

  /** XML_SAX2_MAGIC, stored in `initialized` by a SAX2 handler block. */
  const Sax2Magic: int := 0xDEEDBEAF

  /** The `(size_t)` cast of a C `int`: two's complement, modulo 2^64. */
  function SizeT(x: int): (r: int)
    ensures 0 <= r <= SizeMax
    ensures 0 <= x <= SizeMax ==> r == x
  {
    x % (SizeMax + 1)
  }

  /** Storing a wider value into a 32-bit `int` keeps the low 32 bits. */
  function Int32(x: int): (r: int)
    ensures -IntMax - 1 <= r <= IntMax
    ensures -IntMax - 1 <= x <= IntMax ==> r == x
    ensures (r - x) % 0x1_0000_0000 == 0
  {
    (x + IntMax + 1) % 0x1_0000_0000 - IntMax - 1
  }

  /** True when `s` starts with `c` (C's `s[0] == c`, false on ""). */
  predicate StartsWith(s: string, c: char) {
    |s| > 0 && s[0] == c
  }
}
