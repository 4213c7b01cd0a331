/** The error reporters of SAX2.c as transitions of the parser's status
    flags. Each reporter first checks whether the parse has already been
    stopped (`disableSAX` set while `instate` is EOF); the out-of-memory
    reporter does not, and is what stops it. */
module ParserErrors {
  import opened XmlBase

  /** The only parser state the handlers distinguish is XML_PARSER_EOF. */
  datatype InputState = Parsing | AtEof

  /** The flag part of the parser context touched by the reporters. */
  datatype Status = Status(
    errNo: ErrorCode,
    instate: InputState,
    disableSax: bool,
    wellFormed: bool,
    valid: bool,
    recovery: bool)

  /** The parse has been stopped: every reporter but ErrMemory is silent. */
  predicate Stopped(s: Status) {
    s.disableSax && s.instate == AtEof
  }

  /** xmlSAX2ErrMemory: latch the end-of-parse state. */
  function ErrMemory(s: Status): (r: Status)
    ensures Stopped(r)
    ensures r.errNo == ErrNoMemory
    ensures r.wellFormed == s.wellFormed && r.valid == s.valid && r.recovery == s.recovery
  {
    s.(errNo := ErrNoMemory, instate := AtEof, disableSax := true)
  }

  /** SAXxmlErrValid: a validity error clears `valid` and nothing else. */
  function ErrValid(s: Status, code: ErrorCode): (r: Status)
    ensures Stopped(s) ==> r == s
    ensures !Stopped(s) ==> r.errNo == code && !r.valid
    ensures r.wellFormed == s.wellFormed && r.disableSax == s.disableSax && r.instate == s.instate
    ensures r.recovery == s.recovery
  {
    if Stopped(s) then s else s.(errNo := code, valid := false)
  }

  /** SAXxmlFatalErrMsg: a well-formedness error clears `wellFormed` and
      `valid`, and stops delivery of events unless recovery is on. */
  function FatalErr(s: Status, code: ErrorCode): (r: Status)
    ensures Stopped(s) ==> r == s
    ensures !Stopped(s) ==> r.errNo == code && !r.wellFormed && !r.valid
    ensures !Stopped(s) ==> (r.disableSax <==> s.disableSax || !s.recovery)
    ensures r.instate == s.instate && r.recovery == s.recovery
  {
    if Stopped(s) then s
    else s.(errNo := code, wellFormed := false, valid := false,
            disableSax := if s.recovery then s.disableSax else true)
  }

  /** xmlWarnMsg: a warning only records its error number. */
  function WarnMsg(s: Status, code: ErrorCode): (r: Status)
    ensures Stopped(s) ==> r == s
    ensures !Stopped(s) ==> r.errNo == code
    ensures r.(errNo := s.errNo) == s
  {
    if Stopped(s) then s else s.(errNo := code)
  }

  /** xmlNsErrMsg: a namespace error records its number and changes no flag.
      It differs from xmlWarnMsg only in the domain and level it hands to
      the error callbacks, so on the flags it is that reporter. */
  function NsErrMsg(s: Status, code: ErrorCode): (r: Status)
    ensures Stopped(s) ==> r == s
    ensures !Stopped(s) ==> r.errNo == code
    ensures r.(errNo := s.errNo) == s
  {
    WarnMsg(s, code)
  }

  /** xmlNsWarnMsg: a namespace warning records its number and changes no flag.
      It differs from xmlWarnMsg only in the domain and level it hands to
      the error callbacks, so on the flags it is that reporter. */
  function NsWarnMsg(s: Status, code: ErrorCode): (r: Status)
    ensures Stopped(s) ==> r == s
    ensures !Stopped(s) ==> r.errNo == code
    ensures r.(errNo := s.errNo) == s
  {
    WarnMsg(s, code)
  }

  /** Once stopped, the parse stays stopped whatever is reported next, and
      only another out-of-memory report can change anything at all. */
  lemma StoppedIsAbsorbing(s: Status, code: ErrorCode)
    requires Stopped(s)
    ensures ErrValid(s, code) == s && FatalErr(s, code) == s && WarnMsg(s, code) == s
    ensures NsErrMsg(s, code) == s && NsWarnMsg(s, code) == s
    ensures Stopped(ErrMemory(s))
  {
  }

  /** No reporter can make a document well-formed or valid again. */
  lemma ReportersAreMonotone(s: Status, code: ErrorCode)
    ensures FatalErr(s, code).wellFormed ==> s.wellFormed
    ensures FatalErr(s, code).valid ==> s.valid
    ensures ErrValid(s, code).valid ==> s.valid
    ensures ErrValid(s, code).wellFormed == s.wellFormed
    ensures ErrMemory(s).valid == s.valid && ErrMemory(s).wellFormed == s.wellFormed
  {
  }
}
