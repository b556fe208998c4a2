// The request object of src/core/connection.h and the parsers that update it in
// place: each method is proved to do what the functions of `RequestLine`,
// `HeaderLine` and `Head` say.
module Request {
  import opened Bytes
  import L = RequestLine
  import H = HeaderLine
  import Head
  import UriMeaning

  // The bitmap of bytes without a meaning of their own in a URI.
  const USUAL: seq<bv32> := [
    0xffffdbfe, 0x7fff37d6, 0xffffffff, 0xffffffff, 0xffffffff, 0xffffffff, 0xffffffff, 0xffffffff]

  // The bit of `usual` for a byte is set for all bytes but ten.
  predicate UsualBit(ch: byte)
    ensures UsualBit(ch) <==> L.Usual(ch)
  {
    USUAL[ch / 32] & ((1 as bv32) << (ch % 32)) != 0
  }

  function CountUp(n: nat, first: int): (s: seq<int>)
    ensures |s| == n && forall i :: 0 <= i < n ==> s[i] == first + i
  {
    seq(n, i => first + i)
  }

  function Zeros(n: nat): (s: seq<int>)
    ensures |s| == n && forall i :: 0 <= i < n ==> s[i] == 0
  {
    seq(n, _ => 0)
  }

  // The `lowcase` table, 32 entries a row.
  const LOWCASE: seq<seq<int>> := [
    Zeros(32),
    Zeros(13) + [DASH] + Zeros(2) + CountUp(10, 48) + Zeros(6),
    Zeros(1) + CountUp(26, 97) + Zeros(5),
    Zeros(1) + CountUp(26, 97) + Zeros(5),
    Zeros(32), Zeros(32), Zeros(32), Zeros(32)]

  // The table entry is the lower-case letter, the digit, the '-' or 0.
  function Lowcase(ch: byte): (c: byte)
    ensures c == H.LowcaseOf(ch)
  {
    LOWCASE[ch / 32][ch % 32]
  }

  // How a turn of a parser's loop ends.
  datatype Signal = Next | Done | Failed(code: L.Code)

  // How a turn of the header parser's loop ends, and what the parser answers.
  datatype HeaderSignal = HeaderNext | LineDone | BlockDone | HeaderBad

  datatype HeaderAnswer = HeaderAgain | HeaderOk | HeaderDone | HeaderInvalid

  ghost predicate DoesHeader(turn: H.Turn, after: H.Header, signal: HeaderSignal) {
    match turn
    case Go(t) => signal == HeaderNext && after == t
    case LineDone(t) => signal == LineDone && after == t
    case BlockDone(t) => signal == BlockDone && after == t
    case Bad(t) => signal == HeaderBad && after == t
  }

  // What the request-line parser answers.
  datatype Answer = LineOk | LineAgain | LineBad(code: L.Code)

  ghost predicate Does(turn: L.Turn, after: L.Line, signal: Signal) {
    match turn
    case Go(t) => signal == Next && after == t
    case Finish(t) => signal == Done && after == t
    case Fail(c, t) => signal == Failed(c) && after == t
  }

  // What one call of conn_read comes to.
  datatype ReadAnswer = ReadAgain | ReadBad | ReadComplete | ReadInvalid

  // The fields of the request that the request-line parser writes, and the parser.
  class LineParser {
    var lineState: L.LineState
    var verb: int
    var requestStart: Offset
    var requestEnd: Offset
    var methodEnd: Offset
    var schemaStart: Offset
    var schemaEnd: Offset
    var hostStart: Offset
    var hostEnd: Offset
    var portEnd: Offset
    var uriStart: Offset
    var uriEnd: Offset
    var uriExt: Offset
    var argsStart: Offset
    var complexUri: bool
    var quotedUri: bool
    var plusInUri: bool
    var protocol: Offset
    var httpMajor: int
    var httpMinor: int
    var httpVersion: int

    constructor ()
      ensures LineView() == L.FRESH
    {
      lineState, verb := L.Start, 0;
      requestStart, requestEnd, methodEnd := NIL, NIL, NIL;
      schemaStart, schemaEnd, hostStart, hostEnd, portEnd := NIL, NIL, NIL, NIL, NIL;
      uriStart, uriEnd, uriExt, argsStart := NIL, NIL, NIL, NIL;
      complexUri, quotedUri, plusInUri := false, false, false;
      protocol, httpMajor, httpMinor, httpVersion := NIL, 0, 0, 0;
    }

    ghost function LineView(): L.Line
      reads this
    {
      L.Line(lineState, verb, requestStart, requestEnd, methodEnd,
             L.Authority(schemaStart, schemaEnd, hostStart, hostEnd, portEnd),
             L.UriPart(uriStart, uriEnd, uriExt, argsStart, complexUri, quotedUri, plusInUri),
             L.Version(protocol, httpMajor, httpMinor, httpVersion))
    }

    ghost function LineIn(state: L.LineState): L.Line
      reads this
    {
      LineView().(state := state)
    }

    // The comparison with the known method names, by length.
    method RecogniseMethod(buf: seq<byte>, p: nat)
      requires 0 <= requestStart <= p <= |buf|
      modifies this`verb
      ensures verb == L.MethodOf(buf[requestStart..p], old(verb))
    {
      var m := buf[requestStart..p];
      MethodChain(m, verb);
      match p - requestStart {
        case 3 =>
          if m[0] == 71 && m[1] == 69 && m[2] == 84 {          // GET
            verb := L.HTTP_GET;
          } else if m[0] == 80 && m[1] == 85 && m[2] == 84 {   // PUT
            verb := L.HTTP_PUT;
          }
        case 4 =>
          if m[1] == 79 {                                      // .O..
            if m[0] == 80 && m[2] == 83 && m[3] == 84 {
              verb := L.HTTP_POST;
            } else if m[0] == 67 && m[2] == 80 && m[3] == 89 {
              verb := L.HTTP_COPY;
            } else if m[0] == 77 && m[2] == 86 && m[3] == 69 {
              verb := L.HTTP_MOVE;
            } else if m[0] == 76 && m[2] == 67 && m[3] == 75 {
              verb := L.HTTP_LOCK;
            }
          } else if m == [72, 69, 65, 68] {
            verb := L.HTTP_HEAD;
          }
        case 5 =>
          if m == [77, 75, 67, 79, 76] {
            verb := L.HTTP_MKCOL;
          }
          if m == [84, 82, 65, 67, 69] {
            verb := L.HTTP_TRACE;
          }
        case 6 =>
          if m == [68, 69, 76, 69, 84, 69] {
            verb := L.HTTP_DELETE;
          } else if m == [85, 78, 76, 79, 67, 75] {
            verb := L.HTTP_UNLOCK;
          }
        case 7 =>
          if m == [79, 80, 84, 73, 79, 78, 83] {
            verb := L.HTTP_OPTIONS;
          }
        case 8 =>
          if m == [80, 82, 79, 80, 70, 73, 78, 68] {
            verb := L.HTTP_PROPFIND;
          }
        case 9 =>
          if m == [80, 82, 79, 80, 80, 65, 84, 67, 72] {
            verb := L.HTTP_PROPPATCH;
          }
        case _ =>
      }
    }

    // The states up to the end of the method.
    method TurnMethod(buf: seq<byte>, state: L.LineState, p: nat) returns (next: L.LineState, signal: Signal)
      requires p < |buf| && state in {L.Start, L.Method}
      requires state == L.Method ==> 0 <= requestStart <= p
      modifies this`requestStart, this`methodEnd, this`verb
      ensures Does(L.Step(buf, old(LineIn(state)), p), LineIn(next), signal)
      ensures next == L.Method ==> 0 <= requestStart <= p
    {
      var ch := buf[p];
      next, signal := state, Next;
      match state {
        case Start =>
          requestStart := p;
          if ch == CR || ch == LF {
            return;
          }
          if (ch < 65 || ch > 90) && ch != UNDERSCORE {
            signal := Failed(L.InvalidMethod);
            return;
          }
          next := L.Method;
        case Method =>
          if ch == SP {
            methodEnd := p - 1;
            RecogniseMethod(buf, p);
            next := L.SpacesBeforeUri;
            return;
          }
          if (ch < 65 || ch > 90) && ch != UNDERSCORE {
            signal := Failed(L.InvalidMethod);
          }
      }
    }

    // The states from the spaces before the target to the slashes before the host.
    method TurnScheme(buf: seq<byte>, state: L.LineState, p: nat) returns (next: L.LineState, signal: Signal)
      requires p < |buf| && state in {L.SpacesBeforeUri, L.Schema, L.SchemaSlash, L.SchemaSlashSlash}
      modifies this`uriStart, this`schemaStart, this`schemaEnd, this`hostStart
      ensures Does(L.Step(buf, old(LineIn(state)), p), LineIn(next), signal)
      ensures next != L.Method
    {
      var ch := buf[p];
      next, signal := state, Next;
      match state {
        case SpacesBeforeUri =>
          if ch == SLASH {
            uriStart := p;
            next := L.AfterSlashInUri;
          } else if L.IsLetter(ch) {
            schemaStart := p;
            next := L.Schema;
          } else if ch != SP {
            signal := Failed(L.InvalidRequest);
          }
        case Schema =>
          if L.IsLetter(ch) {
            return;
          }
          if ch == COLON {
            schemaEnd := p;
            next := L.SchemaSlash;
          } else {
            signal := Failed(L.InvalidRequest);
          }
        case SchemaSlash =>
          if ch == SLASH {
            next := L.SchemaSlashSlash;
          } else {
            signal := Failed(L.InvalidRequest);
          }
        case SchemaSlashSlash =>
          if ch == SLASH {
            hostStart := p + 1;
            next := L.Host;
          } else {
            signal := Failed(L.InvalidRequest);
          }
      }
    }

    // The host and the port.
    method TurnHost(buf: seq<byte>, p: nat) returns (next: L.LineState, signal: Signal)
      requires p < |buf|
      modifies this`uriStart, this`uriEnd, this`hostEnd
      ensures Does(L.Step(buf, old(LineIn(L.Host)), p), LineIn(next), signal)
      ensures next != L.Method
    {
      var ch := buf[p];
      next, signal := L.Host, Next;
      if L.IsLetter(ch) || L.IsDigit(ch) || ch == DOT || ch == DASH {
        return;
      }
      hostEnd := p;
      if ch == COLON {
        next := L.Port;
      } else if ch == SLASH {
        uriStart := p;
        next := L.AfterSlashInUri;
      } else if ch == SP {
        uriStart := schemaEnd + 1;
        uriEnd := schemaEnd + 2;
        next := L.Http09;
      } else {
        signal := Failed(L.InvalidRequest);
      }
    }

    method TurnPort(buf: seq<byte>, p: nat) returns (next: L.LineState, signal: Signal)
      requires p < |buf|
      modifies this`uriStart, this`uriEnd, this`portEnd
      ensures Does(L.Step(buf, old(LineIn(L.Port)), p), LineIn(next), signal)
      ensures next != L.Method
    {
      var ch := buf[p];
      next, signal := L.Port, Next;
      if L.IsDigit(ch) {
        return;
      }
      if ch == SLASH {
        portEnd := p;
        uriStart := p;
        next := L.AfterSlashInUri;
      } else if ch == SP {
        portEnd := p;
        uriStart := schemaEnd + 1;
        uriEnd := schemaEnd + 2;
        next := L.Http09;
      } else {
        signal := Failed(L.InvalidRequest);
      }
    }

    // The byte that ends the URI, the same in all three URI states.
    method EndUri(buf: seq<byte>, state: L.LineState, p: nat) returns (next: L.LineState, signal: Signal)
      requires p < |buf| && buf[p] in {SP, CR, LF, NUL} && state in {L.AfterSlashInUri, L.CheckUri, L.Uri}
      modifies this`uriEnd, this`httpMinor
      ensures Does(L.Step(buf, old(LineIn(state)), p), LineIn(next), signal)
      ensures next != L.Method
    {
      var ch := buf[p];
      next, signal := state, Next;
      if ch == SP {
        uriEnd := p;
        next := L.Http09;
      } else if ch == CR {
        uriEnd := p;
        httpMinor := 9;
        next := L.AlmostDone;
      } else if ch == LF {
        uriEnd := p;
        httpMinor := 9;
        signal := Done;
      } else {
        signal := Failed(L.InvalidRequest);
      }
    }

    // The byte after a '/' of the path, or after a '+' there.
    method TurnAfterSlash(buf: seq<byte>, p: nat) returns (next: L.LineState)
      requires p < |buf| && buf[p] !in {SP, CR, LF, NUL}
      modifies this`argsStart, this`complexUri, this`quotedUri, this`plusInUri
      ensures L.StepUri(old(LineIn(L.AfterSlashInUri)), buf[p], p) == L.Go(LineIn(next))
    {
      var ch := buf[p];
      next := L.AfterSlashInUri;
      if UsualBit(ch) {
        next := L.CheckUri;
      } else if ch == DOT || ch == SLASH || ch == HASH {
        complexUri := true;
        next := L.Uri;
      } else if ch == PERCENT {
        quotedUri := true;
        next := L.Uri;
      } else if ch == QUESTION {
        argsStart := p + 1;
        next := L.Uri;
      } else {
        plusInUri := true;
      }
    }

    // Any other byte of the checked part of the path.
    method TurnCheckUri(buf: seq<byte>, p: nat) returns (next: L.LineState)
      requires p < |buf| && buf[p] !in {SP, CR, LF, NUL}
      modifies this`uriExt, this`argsStart, this`complexUri, this`quotedUri, this`plusInUri
      ensures L.StepUri(old(LineIn(L.CheckUri)), buf[p], p) == L.Go(LineIn(next))
    {
      var ch := buf[p];
      next := L.CheckUri;
      if UsualBit(ch) {
        return;
      }
      if ch == SLASH {
        uriExt := NIL;
        next := L.AfterSlashInUri;
      } else if ch == DOT {
        uriExt := p + 1;
      } else if ch == PERCENT {
        quotedUri := true;
        next := L.Uri;
      } else if ch == QUESTION {
        argsStart := p + 1;
        next := L.Uri;
      } else if ch == HASH {
        complexUri := true;
        next := L.Uri;
      } else {
        plusInUri := true;
      }
    }

    // The three URI states.
    method TurnUri(buf: seq<byte>, state: L.LineState, p: nat) returns (next: L.LineState, signal: Signal)
      requires p < |buf| && state in {L.AfterSlashInUri, L.CheckUri, L.Uri}
      modifies this`uriEnd, this`uriExt, this`argsStart, this`complexUri, this`quotedUri, this`plusInUri, this`httpMinor
      ensures Does(L.Step(buf, old(LineIn(state)), p), LineIn(next), signal)
      ensures next != L.Method
    {
      var ch := buf[p];
      next, signal := state, Next;
      if ch == SP || ch == CR || ch == LF || ch == NUL {
        next, signal := EndUri(buf, state, p);
      } else if state == L.AfterSlashInUri {
        next := TurnAfterSlash(buf, p);
      } else if state == L.CheckUri {
        next := TurnCheckUri(buf, p);
      } else if !UsualBit(ch) && ch == HASH {
        complexUri := true;
      }
    }

    // After the target, after the version, and after the CR.
    method TurnEnd(buf: seq<byte>, state: L.LineState, p: nat) returns (next: L.LineState, signal: Signal)
      requires p < |buf| && state in {L.Http09, L.SpacesAfterDigit, L.AlmostDone}
      modifies this`protocol, this`httpMinor, this`requestEnd
      ensures Does(L.Step(buf, old(LineIn(state)), p), LineIn(next), signal)
      ensures next != L.Method
    {
      var ch := buf[p];
      next, signal := state, Next;
      match state {
        case Http09 =>
          if ch == CR {
            httpMinor := 9;
            next := L.AlmostDone;
          } else if ch == LF {
            httpMinor := 9;
            signal := Done;
          } else if ch == 72 {
            protocol := p;
            next := L.HttpH;
          } else if ch != SP {
            signal := Failed(L.InvalidRequest);
          }
        case SpacesAfterDigit =>
          if ch == CR {
            next := L.AlmostDone;
          } else if ch == LF {
            signal := Done;
          } else if ch != SP {
            signal := Failed(L.InvalidRequest);
          }
        case AlmostDone =>
          requestEnd := p - 1;
          if ch == LF {
            signal := Done;
          } else {
            signal := Failed(L.InvalidRequest);
          }
      }
    }

    // The digits of the version.
    method TurnMajor(buf: seq<byte>, state: L.LineState, p: nat) returns (next: L.LineState, signal: Signal)
      requires p < |buf| && state in {L.FirstMajorDigit, L.MajorDigit}
      modifies this`httpMajor
      ensures Does(L.Step(buf, old(LineIn(state)), p), LineIn(next), signal)
      ensures next != L.Method
    {
      var ch := buf[p];
      next, signal := state, Next;
      if state == L.FirstMajorDigit {
        if ch < 49 || ch > 57 {
          signal := Failed(L.InvalidRequest);
        } else {
          httpMajor := ch - 48;
          next := L.MajorDigit;
        }
      } else if ch == DOT {
        next := L.FirstMinorDigit;
      } else if ch < 48 || ch > 57 {
        signal := Failed(L.InvalidRequest);
      } else {
        httpMajor := (httpMajor * 10 + ch - 48) % 0x1_0000;
      }
    }

    method TurnMinor(buf: seq<byte>, state: L.LineState, p: nat) returns (next: L.LineState, signal: Signal)
      requires p < |buf| && state in {L.FirstMinorDigit, L.MinorDigit}
      modifies this`httpMinor
      ensures Does(L.Step(buf, old(LineIn(state)), p), LineIn(next), signal)
      ensures next != L.Method
    {
      var ch := buf[p];
      next, signal := state, Next;
      if state == L.FirstMinorDigit {
        if ch < 48 || ch > 57 {
          signal := Failed(L.InvalidRequest);
        } else {
          httpMinor := ch - 48;
          next := L.MinorDigit;
        }
      } else if ch == CR {
        next := L.AlmostDone;
      } else if ch == LF {
        signal := Done;
      } else if ch == SP {
        next := L.SpacesAfterDigit;
      } else if ch < 48 || ch > 57 {
        signal := Failed(L.InvalidRequest);
      } else {
        httpMinor := (httpMinor * 10 + ch - 48) % 0x1_0000;
      }
    }

    // The four letters after 'H'.
    method TurnHttp(buf: seq<byte>, state: L.LineState, p: nat) returns (next: L.LineState, signal: Signal)
      requires p < |buf| && state in {L.HttpH, L.HttpHT, L.HttpHTT, L.HttpHTTP}
      ensures Does(L.Step(buf, LineIn(state), p), LineIn(next), signal)
      ensures next != L.Method
    {
      var ch := buf[p];
      next, signal := state, Next;
      if state == L.HttpH && ch == 84 {
        next := L.HttpHT;
      } else if state == L.HttpHT && ch == 84 {
        next := L.HttpHTT;
      } else if state == L.HttpHTT && ch == 80 {
        next := L.HttpHTTP;
      } else if state == L.HttpHTTP && ch == SLASH {
        next := L.FirstMajorDigit;
      } else {
        signal := Failed(L.InvalidRequest);
      }
    }

    // The loop: one turn a byte until the bytes run out or a turn does not go on.
    method ScanLine(buf: seq<byte>, pos: nat) returns (state: L.LineState, p: nat, signal: Signal)
      requires pos <= |buf| && L.Started(LineView(), pos)
      modifies this`verb, this`requestStart, this`requestEnd, this`methodEnd
      modifies this`schemaStart, this`schemaEnd, this`hostStart, this`hostEnd, this`portEnd
      modifies this`uriStart, this`uriEnd, this`uriExt, this`argsStart
      modifies this`complexUri, this`quotedUri, this`plusInUri
      modifies this`protocol, this`httpMajor, this`httpMinor
      ensures pos <= p <= |buf| && (p == |buf| <==> signal == Next)
      ensures Leaves(buf, L.Run(buf, old(LineView()), pos), p, LineIn(state), signal)
      ensures state == L.Method && signal == Next ==> 0 <= requestStart <= p
    {
      state, p, signal := lineState, pos, Next;
      ghost var run := L.Run(buf, LineView(), pos);
      while p < |buf| && signal == Next
        invariant pos <= p <= |buf| && (signal != Next ==> p < |buf|)
        invariant Leaves(buf, run, p, LineIn(state), signal)
        invariant state == L.Method && signal == Next ==> 0 <= requestStart <= p
        decreases |buf| - p, signal == Next
      {
        state, p, signal := Advance(buf, state, p, run);
      }
    }

    // One call of sp_parse_request_line.  Only AGAIN saves the state it stopped in; an
    // error leaves pos and state alone, unless the line was read to its end.
    method Parse(buf: seq<byte>, pos: nat) returns (o: Answer, next: nat)
      requires pos <= |buf| && L.Started(LineView(), pos)
      modifies this
      ensures match L.Run(buf, old(LineView()), pos) {
                case Again(s) => o == LineAgain && LineView() == s && next == |buf|
                case Done(s, q) => o == LineOk && LineView() == s && next == q
                case Failed(c, s) =>
                  && o == LineBad(c) && LineView() == s.(state := lineState)
                  && if c == L.Invalid09Method then lineState == L.Start && pos < next <= |buf|
                     else lineState == old(lineState) && next == pos
              }
    {
      var state, p, signal := ScanLine(buf, pos);
      match signal {
        case Next =>
          lineState := state;
          o, next := LineAgain, p;
        case Done =>
          o := CloseLine(state, p);
          next := p + 1;
        case Failed(c) =>
          o, next := LineBad(c), pos;
      }
    }

    // After the last turn at p, the rest of the run is this.
    static ghost predicate Leaves(buf: seq<byte>, run: L.Outcome, p: nat, s: L.Line, signal: Signal)
      requires p <= |buf|
    {
      match signal
      case Next => run == L.Run(buf, s, p)
      case Done => run == L.Conclude(s, p)
      case Failed(c) => run == L.Failed(c, s) && c != L.Invalid09Method
    }

    // A turn, and `p++` if it goes on.
    method Advance(buf: seq<byte>, state: L.LineState, p: nat, ghost run: L.Outcome)
      returns (next: L.LineState, q: nat, signal: Signal)
      requires p < |buf| && (state == L.Method ==> 0 <= requestStart <= p)
      requires run == L.Run(buf, LineIn(state), p)
      modifies this`verb, this`requestStart, this`requestEnd, this`methodEnd
      modifies this`schemaStart, this`schemaEnd, this`hostStart, this`hostEnd, this`portEnd
      modifies this`uriStart, this`uriEnd, this`uriExt, this`argsStart
      modifies this`complexUri, this`quotedUri, this`plusInUri
      modifies this`protocol, this`httpMajor, this`httpMinor
      ensures q == if signal == Next then p + 1 else p
      ensures Leaves(buf, run, q, LineIn(next), signal)
      ensures next == L.Method ==> 0 <= requestStart <= p
    {
      ghost var before := LineIn(state);
      next, signal := Turn(buf, state, p);
      RunAfterTurn(buf, before, p, LineIn(next), signal);
      L.StepCode(buf, before, p);
      q := if signal == Next then p + 1 else p;
    }

    method Turn(buf: seq<byte>, state: L.LineState, p: nat) returns (next: L.LineState, signal: Signal)
      requires p < |buf| && (state == L.Method ==> 0 <= requestStart <= p)
      modifies this`verb, this`requestStart, this`requestEnd, this`methodEnd
      modifies this`schemaStart, this`schemaEnd, this`hostStart, this`hostEnd, this`portEnd
      modifies this`uriStart, this`uriEnd, this`uriExt, this`argsStart
      modifies this`complexUri, this`quotedUri, this`plusInUri
      modifies this`protocol, this`httpMajor, this`httpMinor
      ensures Does(L.Step(buf, old(LineIn(state)), p), LineIn(next), signal)
      ensures next == L.Method ==> 0 <= requestStart <= p
    {
      match state {
        case Start | Method => next, signal := TurnMethod(buf, state, p);
        case SpacesBeforeUri | Schema | SchemaSlash | SchemaSlashSlash => next, signal := TurnScheme(buf, state, p);
        case Host => next, signal := TurnHost(buf, p);
        case Port => next, signal := TurnPort(buf, p);
        case AfterSlashInUri | CheckUri | Uri => next, signal := TurnUri(buf, state, p);
        case HttpH | HttpHT | HttpHTT | HttpHTTP => next, signal := TurnHttp(buf, state, p);
        case FirstMajorDigit | MajorDigit => next, signal := TurnMajor(buf, state, p);
        case FirstMinorDigit | MinorDigit => next, signal := TurnMinor(buf, state, p);
        case Http09 | SpacesAfterDigit | AlmostDone => next, signal := TurnEnd(buf, state, p);
      }
    }

    // The code after the label `done`.
    method CloseLine(state: L.LineState, p: nat) returns (o: Answer)
      modifies this`lineState, this`requestEnd, this`httpVersion
      ensures match L.Conclude(old(LineIn(state)), p) {
                case Done(s, q) => o == LineOk && LineView() == s && q == p + 1
                case Failed(c, s) => o == LineBad(c) && LineView() == s
                case Again(_) => false
              }
    {
      if requestEnd == NIL {
        requestEnd := p;
      }
      httpVersion := httpMajor * 1000 + httpMinor;
      lineState := L.Start;
      if httpVersion == 9 && verb != L.HTTP_GET {
        o := LineBad(L.Invalid09Method);
      } else {
        o := LineOk;
      }
    }
  }

  // The fields of the request that the header parser writes, and the parser.
  class HeaderParser {
    var headerState: H.HeaderState
    var headerNameStart: Offset
    var headerNameEnd: Offset
    var headerStart: Offset
    var headerEnd: Offset
    var invalidHeader: bool
    var lowcaseIndex: nat
    const lowcaseHeader: array<byte>

    constructor ()
      ensures HeaderView() == H.FRESH && fresh(lowcaseHeader)
    {
      headerState, headerNameStart, headerNameEnd := H.Start, NIL, NIL;
      headerStart, headerEnd, invalidHeader, lowcaseIndex := NIL, NIL, false, 0;
      lowcaseHeader := new byte[H.LC_HEADER_LEN](_ => 0);
      new;
      assert lowcaseHeader[..] == H.FRESH.low.bytes;
    }

    ghost function HeaderView(): H.Header
      reads this, lowcaseHeader
    {
      H.Header(headerState, headerNameStart, headerNameEnd, headerStart, headerEnd, invalidHeader,
               H.Lowcase(lowcaseHeader[..], lowcaseIndex))
    }

    ghost function HeaderIn(state: H.HeaderState, i: nat): H.Header
      reads this, lowcaseHeader
    {
      HeaderView().(state := state, low := H.Lowcase(lowcaseHeader[..], i))
    }

    // `r->lowcase_header[i++] = c; i &= 31`
    method PutLowcase(i: nat, c: byte) returns (j: nat)
      requires i < lowcaseHeader.Length == H.LC_HEADER_LEN
      modifies lowcaseHeader
      ensures j < H.LC_HEADER_LEN
      ensures H.Lowcase(lowcaseHeader[..], j) == H.Put(H.Lowcase(old(lowcaseHeader[..]), i), c)
    {
      lowcaseHeader[i] := c;
      j := (i + 1) % H.LC_HEADER_LEN;
    }

    method TurnFirst(buf: seq<byte>, i: nat, p: nat) returns (next: H.HeaderState, j: nat, signal: HeaderSignal)
      requires p < |buf| && i < lowcaseHeader.Length == H.LC_HEADER_LEN
      modifies this`headerNameStart, this`headerEnd, this`invalidHeader, lowcaseHeader
      ensures j < H.LC_HEADER_LEN
      ensures DoesHeader(H.StepStart(old(HeaderIn(H.Start, i)), buf[p], p), HeaderIn(next, j), signal)
    {
      var ch := buf[p];
      next, j, signal := H.Start, i, HeaderNext;
      headerNameStart := p;
      invalidHeader := false;
      if ch == CR {
        headerEnd := p;
        next := H.HeaderAlmostDone;
      } else if ch == LF {
        headerEnd := p;
        signal := BlockDone;
      } else {
        next := H.Name;
        var c := Lowcase(ch);
        if c != 0 {
          j := PutLowcase(0, c);
        } else {
          invalidHeader := true;
        }
      }
    }

    method TurnName(buf: seq<byte>, i: nat, p: nat, underscores: bool) returns (next: H.HeaderState, j: nat, signal: HeaderSignal)
      requires p < |buf| && i < lowcaseHeader.Length == H.LC_HEADER_LEN
      modifies this`headerNameEnd, this`headerStart, this`headerEnd, this`invalidHeader, lowcaseHeader
      ensures j < H.LC_HEADER_LEN
      ensures DoesHeader(H.StepName(buf, old(HeaderIn(H.Name, i)), buf[p], p, underscores), HeaderIn(next, j), signal)
    {
      var ch := buf[p];
      next, j, signal := H.Name, i, HeaderNext;
      var c := Lowcase(ch);
      if c != 0 {
        j := PutLowcase(i, c);
      } else if ch == UNDERSCORE {
        if underscores {
          j := PutLowcase(i, ch);
        } else {
          invalidHeader := true;
        }
      } else if ch == COLON {
        headerNameEnd := p;
        next := H.SpaceBeforeValue;
      } else if ch == CR {
        headerNameEnd := p;
        headerStart := p;
        headerEnd := p;
        next := H.AlmostDone;
      } else if ch == LF {
        headerNameEnd := p;
        headerStart := p;
        headerEnd := p;
        signal := LineDone;
      } else if ch == SLASH && p - headerNameStart == 4 && 0 <= headerNameStart && buf[headerNameStart..p] == H.HTTP {
        next := H.IgnoreLine;
      } else {
        invalidHeader := true;
      }
    }

    method TurnValue(buf: seq<byte>, state: H.HeaderState, p: nat) returns (next: H.HeaderState, signal: HeaderSignal)
      requires p < |buf| && state !in {H.Start, H.Name}
      modifies this`headerStart, this`headerEnd
      ensures forall i, u :: DoesHeader(H.Step(buf, old(HeaderIn(state, i)), p, u), HeaderIn(next, i), signal)
    {
      var ch := buf[p];
      next, signal := state, HeaderNext;
      match state {
        case SpaceBeforeValue =>
          if ch == SP {
            return;
          }
          headerStart := p;
          if ch == CR {
            headerEnd := p;
            next := H.AlmostDone;
          } else if ch == LF {
            headerEnd := p;
            signal := LineDone;
          } else {
            next := H.Value;
          }
        case Value =>
          if ch == SP {
            headerEnd := p;
            next := H.SpaceAfterValue;
          } else if ch == CR {
            headerEnd := p;
            next := H.AlmostDone;
          } else if ch == LF {
            headerEnd := p;
            signal := LineDone;
          }
        case SpaceAfterValue =>
          if ch == CR {
            next := H.AlmostDone;
          } else if ch == LF {
            signal := LineDone;
          } else if ch != SP {
            next := H.Value;
          }
        case IgnoreLine =>
          if ch == LF {
            next := H.Start;
          }
        case AlmostDone =>
          if ch == LF {
            signal := LineDone;
          } else if ch != CR {
            signal := HeaderBad;
          }
        case HeaderAlmostDone =>
          if ch == LF {
            signal := BlockDone;
          } else {
            signal := HeaderBad;
          }
      }
    }

    method TurnHeader(buf: seq<byte>, state: H.HeaderState, i: nat, p: nat, underscores: bool)
      returns (next: H.HeaderState, j: nat, signal: HeaderSignal)
      requires p < |buf| && i < lowcaseHeader.Length == H.LC_HEADER_LEN
      modifies this`headerNameStart, this`headerNameEnd, this`headerStart, this`headerEnd, this`invalidHeader
      modifies lowcaseHeader
      ensures j < H.LC_HEADER_LEN
      ensures DoesHeader(H.Step(buf, old(HeaderIn(state, i)), p, underscores), HeaderIn(next, j), signal)
    {
      match state {
        case Start =>
          next, j, signal := TurnFirst(buf, i, p);
        case Name =>
          next, j, signal := TurnName(buf, i, p, underscores);
        case SpaceBeforeValue | Value | SpaceAfterValue | IgnoreLine | AlmostDone | HeaderAlmostDone =>
          j := i;
          next, signal := TurnValue(buf, state, p);
      }
    }

    static ghost predicate LeavesHeader(buf: seq<byte>, run: H.Outcome, p: nat, h: H.Header, signal: HeaderSignal,
                                        underscores: bool)
      requires p <= |buf|
    {
      match signal
      case HeaderNext => run == H.Run(buf, h, p, underscores)
      case LineDone => run == H.Line(h.(state := H.Start), p + 1)
      case BlockDone => run == H.Block(h.(state := H.Start), p + 1)
      case HeaderBad => run == H.Invalid(h)
    }

    // The loop of sp_parse_header_line.
    method ScanHeader(buf: seq<byte>, pos: nat, underscores: bool) returns (state: H.HeaderState, i: nat, p: nat, signal: HeaderSignal)
      requires pos <= |buf| && lowcaseIndex < lowcaseHeader.Length == H.LC_HEADER_LEN
      modifies this`headerNameStart, this`headerNameEnd, this`headerStart, this`headerEnd, this`invalidHeader
      modifies lowcaseHeader
      ensures i < H.LC_HEADER_LEN && p <= |buf| && (p == |buf| <==> signal == HeaderNext)
      ensures LeavesHeader(buf, H.Run(buf, old(HeaderView()), pos, underscores), p, HeaderIn(state, i), signal, underscores)
    {
      state, i, p, signal := headerState, lowcaseIndex, pos, HeaderNext;
      ghost var run := H.Run(buf, HeaderView(), pos, underscores);
      while p < |buf| && signal == HeaderNext
        invariant i < H.LC_HEADER_LEN && p <= |buf| && (signal != HeaderNext ==> p < |buf|)
        invariant LeavesHeader(buf, run, p, HeaderIn(state, i), signal, underscores)
        decreases |buf| - p, signal == HeaderNext
      {
        state, i, signal := TurnHeader(buf, state, i, p, underscores);
        if signal == HeaderNext {
          p := p + 1;
        }
      }
    }

    // One call of sp_parse_header_line.  OK and AGAIN save the ring index; the end of the
    // block does not, and an invalid line saves neither the index nor pos nor the state.
    method Parse(buf: seq<byte>, pos: nat, underscores: bool) returns (o: HeaderAnswer, next: nat)
      requires pos <= |buf| && lowcaseIndex < lowcaseHeader.Length == H.LC_HEADER_LEN
      modifies this, lowcaseHeader
      ensures lowcaseIndex < H.LC_HEADER_LEN
      ensures match H.Run(buf, old(HeaderView()), pos, underscores) {
                case Again(g) => o == HeaderAgain && HeaderView() == g && next == |buf|
                case Line(g, q) => o == HeaderOk && HeaderView() == g && next == q
                case Block(g, q) =>
                  o == HeaderDone && HeaderView() == g.(low := g.low.(index := old(lowcaseIndex))) && next == q
                case Invalid(g) =>
                  && o == HeaderInvalid && next == pos
                  && HeaderView() == H.Retry(old(HeaderView()), g)
              }
    {
      var state, i, p, signal := ScanHeader(buf, pos, underscores);
      match signal {
        case HeaderNext =>
          headerState, lowcaseIndex := state, i;
          o, next := HeaderAgain, p;
        case LineDone =>
          headerState, lowcaseIndex := H.Start, i;
          o, next := HeaderOk, p + 1;
        case BlockDone =>
          headerState := H.Start;
          o, next := HeaderDone, p + 1;
        case HeaderBad =>
          o, next := HeaderInvalid, pos;
      }
    }
  }

  // The request of a connection.
  class Request {
    var buf: seq<byte>    // everything received; `last` is its end
    var pos: nat
    const line: LineParser
    const header: HeaderParser
    var headers: Head.Headers

    constructor ()
      ensures ReaderView() == Head.INIT && Valid() && fresh(line) && fresh(header) && fresh(header.lowcaseHeader)
    {
      buf, pos, headers := [], 0, map[];
      line := new LineParser();
      header := new HeaderParser();
    }

    ghost function ReaderView(): Head.Reader
      reads this, line, header, header.lowcaseHeader
    {
      Head.Reader(buf, pos, line.LineView(), header.HeaderView(), headers)
    }

    ghost predicate Valid()
      reads this, line, header, header.lowcaseHeader
    {
      Head.Inv(ReaderView()) && header.lowcaseIndex < header.lowcaseHeader.Length == H.LC_HEADER_LEN
    }

    // The scan of a complex URI for runs of '/' and '.'.
    method RejectsDots() returns (bad: bool)
      requires 0 <= line.uriStart && line.uriEnd <= |buf|
      ensures bad == UriMeaning.ScanRejects(buf, line.uriStart, line.uriEnd, 0)
    {
      var warn := 0;
      var cc := line.uriStart;
      while cc < line.uriEnd
        invariant 0 <= warn <= 2 && 0 <= cc
        invariant UriMeaning.ScanRejects(buf, line.uriStart, line.uriEnd, 0) ==
                  UriMeaning.ScanRejects(buf, cc, line.uriEnd, warn)
      {
        if buf[cc] == SLASH || buf[cc] == DOT {
          warn := warn + 1;
        } else if buf[cc] != BACKSLASH {
          warn := 0;
        }
        if warn > 2 {
          return true;
        }
        cc := cc + 1;
      }
      bad := false;
    }

    // The line goes into the map if both its parts fit the scratch buffers.
    method SaveHeader()
      modifies this`headers
      ensures headers == Head.Insert(old(headers), buf, header.HeaderView())
    {
      if header.headerNameEnd - header.headerNameStart < Head.SMALLBUF &&
         header.headerEnd - header.headerStart < Head.SMALLBUF {
        headers := headers[Head.CString(L.Slice(buf, header.headerNameStart, header.headerNameEnd)) :=
                           Head.CString(L.Slice(buf, header.headerStart, header.headerEnd))];
      }
    }

    // What the answer and the fields say of the progress made.
    ghost predicate Reports(a: ReadAnswer, p: Head.Progress)
      reads this, line, header, header.lowcaseHeader
    {
      match p
      case Waiting(r) => a == ReadAgain && ReaderView() == r
      case BadRequest => a == ReadBad
      case Complete(l, m, e, q) =>
        a == ReadComplete && line.LineView() == l && headers == m && header.headerEnd == e && pos == q
      case InvalidLine => a == ReadInvalid
    }

    // The request-line phase of conn_read: parse, then refuse suspicious paths.
    method ReadRequestLine() returns (proceed: bool, a: ReadAnswer)
      requires pos <= |buf| && L.Started(line.LineView(), pos) && line.requestEnd == NIL
      requires L.Run(buf, line.LineView(), pos) == L.Run(buf, L.FRESH, 0)
      modifies this`pos, this`headers, line
      ensures match Head.LinePhase(old(ReaderView())) {
                case Stop(p) => !proceed && Reports(a, p)
                case Proceed(r) => proceed && ReaderView() == r
              }
    {
      var o;
      o, pos := line.Parse(buf, pos);
      proceed, a := false, if o == LineAgain then ReadAgain else ReadBad;
      if o == LineOk {
        headers := map[];
        UriMeaning.OffsetsInOrder(buf, line.LineView(), pos);
        if line.complexUri {
          var bad := RejectsDots();
          if bad {
            return;
          }
        }
        proceed := true;
      }
    }

    // The header phase.  The loop is left at the end of the block, when bytes run out,
    // or here also at the first invalid line, where the source goes round again.
    method ReadHead() returns (a: ReadAnswer)
      requires pos <= |buf| && header.lowcaseIndex < header.lowcaseHeader.Length == H.LC_HEADER_LEN
      modifies this`pos, this`headers, header, header.lowcaseHeader
      ensures header.lowcaseIndex < H.LC_HEADER_LEN
      ensures Reports(a, Head.HeaderPhase(old(ReaderView())))
    {
      ghost var all := Head.ReadHeaders(buf, header.HeaderView(), pos, headers);
      while true
        invariant pos <= |buf| && header.lowcaseIndex < header.lowcaseHeader.Length == H.LC_HEADER_LEN
        invariant Head.ReadHeaders(buf, header.HeaderView(), pos, headers) == all
        decreases |buf| - pos
      {
        H.RunAdvances(buf, header.HeaderView(), pos, true);
        var o;
        o, pos := header.Parse(buf, pos, true);
        match o {
          case HeaderAgain => return ReadAgain;
          case HeaderDone => return ReadComplete;
          case HeaderInvalid => return ReadInvalid;
          case HeaderOk => SaveHeader();
        }
      }
    }

    // One call of conn_read: the piece is what read() delivered.
    method ConnRead(piece: seq<byte>) returns (a: ReadAnswer)
      requires Valid()
      modifies this, line, header, header.lowcaseHeader
      ensures a == ReadAgain ==> Valid()
      ensures Reports(a, Head.Feed(old(ReaderView()), piece))
    {
      ghost var r := ReaderView();
      Head.FeedKeepsInv(r, piece);
      L.RunBounds(r.buf + piece, r.line, r.pos);
      buf := buf + piece;
      if line.requestEnd == NIL {
        Head.LinePhaseContinues(r, piece);
        var proceed;
        proceed, a := ReadRequestLine();
        if !proceed {
          return;
        }
      }
      a := ReadHead();
    }
  }

  lemma RunAfterTurn(buf: seq<byte>, s: L.Line, p: nat, t: L.Line, signal: Signal)
    requires p < |buf| && Does(L.Step(buf, s, p), t, signal)
    ensures L.Run(buf, s, p) ==
            match signal {
              case Next => L.Run(buf, t, p + 1)
              case Done => L.Conclude(t, p)
              case Failed(c) => L.Failed(c, t)
            }
  {
  }

  // The known names one by one.
  lemma MethodChain(m: seq<byte>, before: int)
    ensures L.MethodOf(m, before) ==
      if m == [71, 69, 84] then L.HTTP_GET
      else if m == [80, 85, 84] then L.HTTP_PUT
      else if m == [80, 79, 83, 84] then L.HTTP_POST
      else if m == [67, 79, 80, 89] then L.HTTP_COPY
      else if m == [77, 79, 86, 69] then L.HTTP_MOVE
      else if m == [76, 79, 67, 75] then L.HTTP_LOCK
      else if m == [72, 69, 65, 68] then L.HTTP_HEAD
      else if m == [77, 75, 67, 79, 76] then L.HTTP_MKCOL
      else if m == [84, 82, 65, 67, 69] then L.HTTP_TRACE
      else if m == [68, 69, 76, 69, 84, 69] then L.HTTP_DELETE
      else if m == [85, 78, 76, 79, 67, 75] then L.HTTP_UNLOCK
      else if m == [79, 80, 84, 73, 79, 78, 83] then L.HTTP_OPTIONS
      else if m == [80, 82, 79, 80, 70, 73, 78, 68] then L.HTTP_PROPFIND
      else if m == [80, 82, 79, 80, 80, 65, 84, 67, 72] then L.HTTP_PROPPATCH
      else before
  {
    assert L.METHODS[0..] == L.METHODS;
    LookupAt(0, m, before);
    LookupAt(1, m, before);
    LookupAt(2, m, before);
    LookupAt(3, m, before);
    LookupAt(4, m, before);
    LookupAt(5, m, before);
    LookupAt(6, m, before);
    LaterMethods(m, before);
  }

  lemma LaterMethods(m: seq<byte>, before: int)
    ensures L.Lookup(L.METHODS[7..], m, before) ==
      if m == [77, 75, 67, 79, 76] then L.HTTP_MKCOL
      else if m == [84, 82, 65, 67, 69] then L.HTTP_TRACE
      else if m == [68, 69, 76, 69, 84, 69] then L.HTTP_DELETE
      else if m == [85, 78, 76, 79, 67, 75] then L.HTTP_UNLOCK
      else if m == [79, 80, 84, 73, 79, 78, 83] then L.HTTP_OPTIONS
      else if m == [80, 82, 79, 80, 70, 73, 78, 68] then L.HTTP_PROPFIND
      else if m == [80, 82, 79, 80, 80, 65, 84, 67, 72] then L.HTTP_PROPPATCH
      else before
  {
    assert L.METHODS[14..] == [];
    LookupAt(7, m, before);
    LookupAt(8, m, before);
    LookupAt(9, m, before);
    LookupAt(10, m, before);
    LookupAt(11, m, before);
    LookupAt(12, m, before);
    LookupAt(13, m, before);
  }

  lemma LookupAt(k: nat, m: seq<byte>, before: int)
    requires k < |L.METHODS|
    ensures L.Lookup(L.METHODS[k..], m, before) ==
            if L.METHODS[k].token == m then L.METHODS[k].verb else L.Lookup(L.METHODS[k + 1..], m, before)
  {
    assert L.METHODS[k..][1..] == L.METHODS[k + 1..];
  }

  predicate IsMethod(m: L.Named, text: string, code: nat) {
    IsText(m.token, text) && m.verb == code
  }

  // The table by its texts and codes.
  lemma ShortMethods()
    ensures IsMethod(L.METHODS[0], "GET", 0x0002) && IsMethod(L.METHODS[1], "PUT", 0x0010)
    ensures IsMethod(L.METHODS[2], "POST", 0x0008) && IsMethod(L.METHODS[3], "COPY", 0x0080)
    ensures IsMethod(L.METHODS[4], "MOVE", 0x0100) && IsMethod(L.METHODS[5], "LOCK", 0x1000)
    ensures IsMethod(L.METHODS[6], "HEAD", 0x0004)
  {
  }

  lemma LongMethods()
    ensures IsMethod(L.METHODS[7], "MKCOL", 0x0040) && IsMethod(L.METHODS[8], "TRACE", 0x4000)
    ensures IsMethod(L.METHODS[9], "DELETE", 0x0020) && IsMethod(L.METHODS[10], "UNLOCK", 0x2000)
    ensures IsMethod(L.METHODS[11], "OPTIONS", 0x0200) && IsMethod(L.METHODS[12], "PROPFIND", 0x0400)
    ensures IsMethod(L.METHODS[13], "PROPPATCH", 0x0800) && |L.METHODS| == 14
  {
  }
}
