// The request-line state machine of src/core/request.cpp, one byte at a time.
// `Step` is what one turn of the source's loop does to the request fields;
// `Run` is one call of the parser on the bytes received so far.
module RequestLine {
  import opened Bytes

  datatype LineState =
    | Start | Method | SpacesBeforeUri | Schema | SchemaSlash | SchemaSlashSlash
    | Host | Port | AfterSlashInUri | CheckUri | Uri | Http09
    | HttpH | HttpHT | HttpHTT | HttpHTTP
    | FirstMajorDigit | MajorDigit | FirstMinorDigit | MinorDigit
    | SpacesAfterDigit | AlmostDone

  // The request fields the parser writes, grouped by the part of the line they describe.
  datatype Line = Line(
    state: LineState,
    verb: int,
    requestStart: Offset, requestEnd: Offset, methodEnd: Offset,
    auth: Authority, uri: UriPart, version: Version)

  datatype Authority = Authority(
    schemaStart: Offset, schemaEnd: Offset, hostStart: Offset, hostEnd: Offset, portEnd: Offset)

  datatype UriPart = UriPart(
    start: Offset, end: Offset, ext: Offset, args: Offset,
    complex: bool, quoted: bool, plus: bool)

  datatype Version = Version(protocol: Offset, major: int, minor: int, number: int)

  // What `conn_init` leaves: everything zeroed.
  const FRESH: Line := Line(Start, 0, NIL, NIL, NIL, Authority(NIL, NIL, NIL, NIL, NIL),
                            UriPart(NIL, NIL, NIL, NIL, false, false, false), Version(NIL, 0, 0, 0))

  datatype Code = InvalidMethod | InvalidRequest | Invalid09Method

  const HTTP_GET: nat := 0x0002
  const HTTP_HEAD: nat := 0x0004
  const HTTP_POST: nat := 0x0008
  const HTTP_PUT: nat := 0x0010
  const HTTP_DELETE: nat := 0x0020
  const HTTP_MKCOL: nat := 0x0040
  const HTTP_COPY: nat := 0x0080
  const HTTP_MOVE: nat := 0x0100
  const HTTP_OPTIONS: nat := 0x0200
  const HTTP_PROPFIND: nat := 0x0400
  const HTTP_PROPPATCH: nat := 0x0800
  const HTTP_LOCK: nat := 0x1000
  const HTTP_UNLOCK: nat := 0x2000
  const HTTP_TRACE: nat := 0x4000

  datatype Named = Named(token: seq<byte>, verb: int)

  // The methods the parser knows, by the bytes of their names.
  const METHODS: seq<Named> := [
    Named([71, 69, 84], HTTP_GET),
    Named([80, 85, 84], HTTP_PUT),
    Named([80, 79, 83, 84], HTTP_POST),
    Named([67, 79, 80, 89], HTTP_COPY),
    Named([77, 79, 86, 69], HTTP_MOVE),
    Named([76, 79, 67, 75], HTTP_LOCK),
    Named([72, 69, 65, 68], HTTP_HEAD),
    Named([77, 75, 67, 79, 76], HTTP_MKCOL),
    Named([84, 82, 65, 67, 69], HTTP_TRACE),
    Named([68, 69, 76, 69, 84, 69], HTTP_DELETE),
    Named([85, 78, 76, 79, 67, 75], HTTP_UNLOCK),
    Named([79, 80, 84, 73, 79, 78, 83], HTTP_OPTIONS),
    Named([80, 82, 79, 80, 70, 73, 78, 68], HTTP_PROPFIND),
    Named([80, 82, 79, 80, 80, 65, 84, 67, 72], HTTP_PROPPATCH)]

  function Lookup(table: seq<Named>, token: seq<byte>, before: int): int {
    if table == [] then before
    else if table[0].token == token then table[0].verb
    else Lookup(table[1..], token, before)
  }

  // An unknown method name leaves the field as it was.
  function MethodOf(token: seq<byte>, before: int): int {
    Lookup(METHODS, token, before)
  }

  function Slice(buf: seq<byte>, i: int, j: int): seq<byte> {
    if 0 <= i <= j <= |buf| then buf[i..j] else []
  }

  // The bytes the `usual` bitmap marks: those without a meaning of their own in a URI.
  predicate Usual(ch: byte) {
    ch !in {NUL, LF, CR, SP, HASH, PERCENT, PLUS, DOT, SLASH, QUESTION}
  }

  predicate IsLetter(ch: byte) {
    Letter.Has(ch)
  }

  predicate IsDigit(ch: byte) {
    Digit.Has(ch)
  }

  // What one turn of the loop does: go on, jump to `done`, or return an error.
  datatype Turn = Go(line: Line) | Finish(line: Line) | Fail(code: Code, line: Line)

  function Expect(ch: byte, wanted: byte, s: Line, next: LineState): Turn {
    if ch == wanted then Go(s.(state := next)) else Fail(InvalidRequest, s)
  }

  function StepMethod(buf: seq<byte>, s: Line, p: nat): Turn
    requires p < |buf|
  {
    var ch := buf[p];
    if s.state == Start then
      var t := s.(requestStart := p);
      if ch == CR || ch == LF then Go(t)
      else if !Token.Has(ch) then Fail(InvalidMethod, t)
      else Go(t.(state := Method))
    else
      if ch == SP then
        Go(s.(methodEnd := p - 1, verb := MethodOf(Slice(buf, s.requestStart, p), s.verb),
              state := SpacesBeforeUri))
      else if !Token.Has(ch) then Fail(InvalidMethod, s)
      else Go(s)
  }

  // Without a path the "/" of "://" stands in for it.
  function BorrowSlash(s: Line): Line {
    s.(uri := s.uri.(start := s.auth.schemaEnd + 1, end := s.auth.schemaEnd + 2), state := Http09)
  }

  function BeginPath(s: Line, p: nat): Line {
    s.(uri := s.uri.(start := p), state := AfterSlashInUri)
  }

  function StepAuthority(s: Line, ch: byte, p: nat): Turn {
    match s.state
    case SpacesBeforeUri =>
      if ch == SLASH then Go(BeginPath(s, p))
      else if IsLetter(ch) then Go(s.(auth := s.auth.(schemaStart := p), state := Schema))
      else if ch == SP then Go(s)
      else Fail(InvalidRequest, s)
    case Schema =>
      if IsLetter(ch) then Go(s)
      else if ch == COLON then Go(s.(auth := s.auth.(schemaEnd := p), state := SchemaSlash))
      else Fail(InvalidRequest, s)
    case SchemaSlash => Expect(ch, SLASH, s, SchemaSlashSlash)
    case SchemaSlashSlash =>
      if ch == SLASH then Go(s.(auth := s.auth.(hostStart := p + 1), state := Host))
      else Fail(InvalidRequest, s)
    case Host =>
      if HostChar.Has(ch) then Go(s)
      else
        var t := s.(auth := s.auth.(hostEnd := p));
        if ch == COLON then Go(t.(state := Port))
        else if ch == SLASH then Go(BeginPath(t, p))
        else if ch == SP then Go(BorrowSlash(t))
        else Fail(InvalidRequest, t)
    case _ =>
      var t := s.(auth := s.auth.(portEnd := p));
      if IsDigit(ch) then Go(s)
      else if ch == SLASH then Go(BeginPath(t, p))
      else if ch == SP then Go(BorrowSlash(t))
      else Fail(InvalidRequest, s)
  }

  function SetUri(s: Line, u: UriPart, st: LineState): Turn {
    Go(s.(uri := u, state := st))
  }

  function SetMinor(s: Line, n: int): Line {
    s.(version := s.version.(minor := n))
  }

  function SetMajor(s: Line, n: int): Line {
    s.(version := s.version.(major := n))
  }

  function StepUri(s: Line, ch: byte, p: nat): Turn {
    var u := s.uri;
    if ch == SP then SetUri(s, u.(end := p), Http09)
    else if ch == CR then SetUri(SetMinor(s, 9), u.(end := p), AlmostDone)
    else if ch == LF then Finish(SetMinor(s, 9).(uri := u.(end := p)))
    else if ch == NUL then Fail(InvalidRequest, s)
    else if s.state == Uri then SetUri(s, u.(complex := u.complex || ch == HASH), Uri)
    else if ch == PERCENT then SetUri(s, u.(quoted := true), Uri)
    else if ch == QUESTION then SetUri(s, u.(args := p + 1), Uri)
    else if ch == HASH then SetUri(s, u.(complex := true), Uri)
    else if ch == PLUS then SetUri(s, u.(plus := true), s.state)
    else if s.state == AfterSlashInUri then
      if ch == DOT || ch == SLASH then SetUri(s, u.(complex := true), Uri)
      else SetUri(s, u, CheckUri)
    else
      if ch == SLASH then SetUri(s, u.(ext := NIL), AfterSlashInUri)
      else if ch == DOT then SetUri(s, u.(ext := p + 1), s.state)
      else Go(s)
  }

  function StepVersion(s: Line, ch: byte, p: nat): Turn {
    match s.state
    case Http09 =>
      if ch == SP then Go(s)
      else if ch == CR then Go(SetMinor(s, 9).(state := AlmostDone))
      else if ch == LF then Finish(SetMinor(s, 9))
      else if ch == 72 then Go(s.(version := s.version.(protocol := p), state := HttpH))
      else Fail(InvalidRequest, s)
    case HttpH => Expect(ch, 84, s, HttpHT)
    case HttpHT => Expect(ch, 84, s, HttpHTT)
    case HttpHTT => Expect(ch, 80, s, HttpHTTP)
    case HttpHTTP => Expect(ch, SLASH, s, FirstMajorDigit)
    case FirstMajorDigit =>
      if ch < 49 || ch > 57 then Fail(InvalidRequest, s)
      else Go(SetMajor(s, ch - 48).(state := MajorDigit))
    case MajorDigit =>
      if ch == DOT then Go(s.(state := FirstMinorDigit))
      else if !IsDigit(ch) then Fail(InvalidRequest, s)
      else Go(SetMajor(s, (s.version.major * 10 + ch - 48) % 0x1_0000))
    case FirstMinorDigit =>
      if !IsDigit(ch) then Fail(InvalidRequest, s)
      else Go(SetMinor(s, ch - 48).(state := MinorDigit))
    case MinorDigit =>
      if ch == CR then Go(s.(state := AlmostDone))
      else if ch == LF then Finish(s)
      else if ch == SP then Go(s.(state := SpacesAfterDigit))
      else if !IsDigit(ch) then Fail(InvalidRequest, s)
      else Go(SetMinor(s, (s.version.minor * 10 + ch - 48) % 0x1_0000))
    case SpacesAfterDigit =>
      if ch == SP then Go(s)
      else if ch == CR then Go(s.(state := AlmostDone))
      else if ch == LF then Finish(s)
      else Fail(InvalidRequest, s)
    case _ =>
      var t := s.(requestEnd := p - 1);
      if ch == LF then Finish(t) else Fail(InvalidRequest, t)
  }

  function Step(buf: seq<byte>, s: Line, p: nat): Turn
    requires p < |buf|
  {
    match s.state
    case Start | Method => StepMethod(buf, s, p)
    case SpacesBeforeUri | Schema | SchemaSlash | SchemaSlashSlash | Host | Port => StepAuthority(s, buf[p], p)
    case AfterSlashInUri | CheckUri | Uri => StepUri(s, buf[p], p)
    case _ => StepVersion(s, buf[p], p)
  }

  // What the code after the label `done` does at offset p.
  function Close(s: Line, p: nat): Line {
    s.(requestEnd := if s.requestEnd == NIL then p else s.requestEnd,
       version := s.version.(number := s.version.major * 1000 + s.version.minor),
       state := Start)
  }

  datatype Outcome =
    | Again(line: Line)                 // NGX_AGAIN: everything was consumed
    | Done(line: Line, pos: nat)        // NGX_OK: consumed up to pos
    | Failed(code: Code, line: Line)

  function Conclude(s: Line, p: nat): Outcome {
    var t := Close(s, p);
    if t.version.number == 9 && t.verb != HTTP_GET then Failed(Invalid09Method, t) else Done(t, p + 1)
  }

  // One call of the parser with `pos` at p and `last` at the end of buf.
  function Run(buf: seq<byte>, s: Line, p: nat): Outcome
    requires p <= |buf|
    decreases |buf| - p
  {
    if p == |buf| then Again(s)
    else
      match Step(buf, s, p)
      case Go(t) => Run(buf, t, p + 1)
      case Finish(t) => Conclude(t, p)
      case Fail(c, t) => Failed(c, t)
  }

  lemma RunOne(buf: seq<byte>, s: Line, p: nat, t: Line)
    requires p < |buf| && Step(buf, s, p) == Go(t)
    ensures Run(buf, s, p) == Run(buf, t, p + 1)
  {
  }

  // No turn refuses a method for HTTP/0.9; only the end of the line does.
  lemma StepCode(buf: seq<byte>, s: Line, p: nat)
    requires p < |buf|
    ensures Step(buf, s, p).Fail? ==> Step(buf, s, p).code != Invalid09Method
  {
  }

  // One turn looks at no byte beyond its own.
  lemma StepLocal(buf: seq<byte>, more: seq<byte>, s: Line, p: nat)
    requires p < |buf|
    ensures Step(buf + more, s, p) == Step(buf, s, p)
  {
    assert (buf + more)[p] == buf[p];
    if 0 <= s.requestStart <= p {
      assert (buf + more)[s.requestStart..p] == buf[s.requestStart..p];
    } else {
      assert Slice(buf + more, s.requestStart, p) == Slice(buf, s.requestStart, p);
    }
  }

  // The saved fields are all a later call needs: reading on after AGAIN gives
  // what reading everything at once gives, and any other answer is final.
  lemma {:induction false} RunResumes(buf: seq<byte>, more: seq<byte>, s: Line, p: nat)
    requires p <= |buf|
    ensures var o := Run(buf, s, p);
            Run(buf + more, s, p) == if o.Again? then Run(buf + more, o.line, |buf|) else o
    decreases |buf| - p
  {
    if p < |buf| {
      StepLocal(buf, more, s, p);
      match Step(buf, s, p)
      case Go(t) => RunResumes(buf, more, t, p + 1);
      case _ =>
    }
  }

  lemma {:induction false} RunBounds(buf: seq<byte>, s: Line, p: nat)
    requires p <= |buf|
    ensures Run(buf, s, p).Done? ==> p < Run(buf, s, p).pos <= |buf|
    decreases |buf| - p
  {
    if p < |buf| {
      match Step(buf, s, p)
      case Go(t) => RunBounds(buf, t, p + 1);
      case _ =>
    }
  }

  // Inside the method its first byte is known.
  predicate Started(s: Line, p: int) {
    s.state == Method ==> 0 <= s.requestStart <= p
  }

  lemma {:induction false} RunStarted(buf: seq<byte>, s: Line, p: nat)
    requires p <= |buf| && Started(s, p)
    ensures Run(buf, s, p).Again? ==> Started(Run(buf, s, p).line, |buf|)
    decreases |buf| - p
  {
    if p < |buf| {
      match Step(buf, s, p)
      case Go(t) => RunStarted(buf, t, p + 1);
      case _ =>
    }
  }

  // While the answer is AGAIN, request_end stays unset; once it is OK it is set.
  // So the reader may use it to tell which parser to call.
  lemma {:induction false} RequestEndMarksThePhase(buf: seq<byte>, s: Line, p: nat)
    requires p <= |buf| && s.requestEnd == NIL
    ensures match Run(buf, s, p) {
              case Again(t) => t.requestEnd == NIL
              case Done(t, q) => t.requestEnd != NIL && t.state == Start && p < q <= |buf|
              case Failed(_, _) => true
            }
    decreases |buf| - p
  {
    if p < |buf| {
      match Step(buf, s, p)
      case Go(t) => RequestEndMarksThePhase(buf, t, p + 1);
      case _ =>
    }
  }
}
