// A request line read by longest runs instead of byte by byte, and the proof
// that the state machine of `RequestLine` gives the same answer and the same
// fields on every buffer.
module RequestReading {
  import opened Bytes
  import opened RequestLine
  import opened UriFacts

  const HTTP_SLASH: seq<byte> := [72, 84, 84, 80, 47]
  const COLON_SLASHES: seq<byte> := [58, 47, 47]

  datatype Reading = More | Reject(code: Code) | Accept(line: Line, pos: nat)

  // The decimal number in buf[i..j], kept in sixteen bits.
  ghost function Number(buf: seq<byte>, i: int, j: int): nat {
    if Span(buf, i, j, Digit) then Decimal(buf, i, j) % 0x1_0000 else 0
  }

  // Truncating after every digit or once at the end is the same.
  lemma TruncateEachDigit(n: nat, d: nat)
    ensures (n % 0x1_0000 * 10 + d) % 0x1_0000 == (10 * n + d) % 0x1_0000
  {
    var k := n / 0x1_0000;
    assert 10 * n + d == 0x1_0000 * (10 * k) + (n % 0x1_0000 * 10 + d);
    AddMultiple(n % 0x1_0000 * 10 + d, 10 * k);
  }

  lemma {:induction false} AddMultiple(x: nat, k: nat)
    ensures (0x1_0000 * k + x) % 0x1_0000 == x % 0x1_0000
  {
    if k > 0 {
      AddMultiple(x, k - 1);
      assert 0x1_0000 * k + x == (0x1_0000 * (k - 1) + x) + 0x1_0000;
    }
  }

  lemma NumberStep(buf: seq<byte>, i: int, p: int)
    requires i <= p && Span(buf, i, p + 1, Digit)
    ensures Number(buf, i, p + 1) == (Number(buf, i, p) * 10 + buf[p] - 48) % 0x1_0000
  {
    assert IsDigit(buf[p]);
    TruncateEachDigit(Decimal(buf, i, p), buf[p] - 48);
  }

  // The line ends with the LF at p.
  ghost function Settle(s: Line, p: nat): Reading {
    var n := s.version.major * 1000 + s.version.minor;
    var t := s.(version := s.version.(number := n), state := Start);
    if n == 9 && t.verb != HTTP_GET then Reject(Invalid09Method) else Accept(t, p + 1)
  }

  ghost function ReadEnd(buf: seq<byte>, s: Line, p: nat): Reading
    requires p <= |buf|
  {
    if p == |buf| then More
    else if buf[p] == LF then Settle(s.(requestEnd := p), p)
    else if buf[p] != CR then Reject(InvalidRequest)
    else if p + 1 == |buf| then More
    else if buf[p + 1] == LF then Settle(s.(requestEnd := p), p + 1)
    else Reject(InvalidRequest)
  }

  datatype Match = Yes | Short | No

  // Whether buf[p..] starts with w, or might once more bytes arrive.
  ghost function Literal(buf: seq<byte>, p: nat, w: seq<byte>): Match
    requires p <= |buf|
  {
    if Reads(buf, p, w) then Yes
    else if |buf| < p + |w| && Reads(buf, p, w[..|buf| - p]) then Short
    else No
  }

  lemma LiteralStep(buf: seq<byte>, p: nat, w: seq<byte>)
    requires p <= |buf| && w != []
    ensures Literal(buf, p, w) ==
            if p == |buf| then Short else if buf[p] != w[0] then No else Literal(buf, p + 1, w[1..])
  {
    if p < |buf| {
      ReadsStep(buf, p, w);
      if |buf| < p + |w| {
        var v := w[..|buf| - p];
        ReadsStep(buf, p, v);
        assert v[1..] == w[1..][..|buf| - (p + 1)];
      }
    }
  }

  lemma ReadsStep(buf: seq<byte>, p: nat, w: seq<byte>)
    requires p < |buf| && w != []
    ensures Reads(buf, p, w) <==> buf[p] == w[0] && Reads(buf, p + 1, w[1..])
  {
    if Reads(buf, p, w) {
      forall k | 0 <= k < |w[1..]| ensures buf[(p + 1) + k] == w[1..][k] {
        assert buf[p + (k + 1)] == w[k + 1];
      }
      assert buf[p + 0] == w[0];
    }
    if buf[p] == w[0] && Reads(buf, p + 1, w[1..]) {
      forall k | 0 <= k < |w| ensures buf[p + k] == w[k] {
        if k > 0 {
          assert buf[(p + 1) + (k - 1)] == w[1..][k - 1];
        }
      }
    }
  }

  ghost function ReadMinor(buf: seq<byte>, s: Line, m: nat): Reading
    requires m <= |buf|
  {
    if m == |buf| then More
    else if !IsDigit(buf[m]) then Reject(InvalidRequest)
    else
      var n := Skip(buf, m, Digit);
      ReadEnd(buf, SetMinor(s, Number(buf, m, n)), Skip(buf, n, Space))
  }

  ghost function ReadMajor(buf: seq<byte>, s: Line, d: nat): Reading
    requires d <= |buf|
  {
    if d == |buf| then More
    else if !IsDigit(buf[d]) || buf[d] == 48 then Reject(InvalidRequest)
    else
      var e := Skip(buf, d, Digit);
      if e == |buf| then More
      else if buf[e] != DOT then Reject(InvalidRequest)
      else ReadMinor(buf, SetMajor(s, Number(buf, d, e)), e + 1)
  }

  ghost function ReadProtocol(buf: seq<byte>, s: Line, v: nat): Reading
    requires v <= |buf|
  {
    match Literal(buf, v, HTTP_SLASH)
    case Short => More
    case No => Reject(InvalidRequest)
    case Yes => ReadMajor(buf, s.(version := s.version.(protocol := v)), v + 5)
  }

  ghost function ReadVersion(buf: seq<byte>, s: Line, p: nat): Reading
    requires p <= |buf|
  {
    var v := Skip(buf, p, Space);
    if v == |buf| || buf[v] != 72 then ReadEnd(buf, SetMinor(s, 9), v) else ReadProtocol(buf, s, v)
  }

  ghost function ReadPath(buf: seq<byte>, s: Line, us: nat): Reading
    requires us < |buf| && buf[us] == SLASH
  {
    var e := Skip(buf, us + 1, Target);
    if e == |buf| then More
    else
      ReadAfterPath(buf, PathRead(buf, s, us, e), e)
  }

  ghost function PathRead(buf: seq<byte>, s: Line, us: nat, e: nat): Line
    requires us < e <= |buf| && buf[us] == SLASH
  {
    WithPath(buf, s.(uri := s.uri.(start := us, end := e)), us, e).(state := Start)
  }

  // The byte that ends the path.
  ghost function ReadAfterPath(buf: seq<byte>, s: Line, e: nat): Reading
    requires e < |buf|
  {
    if buf[e] == NUL then Reject(InvalidRequest)
    else if buf[e] == SP then ReadVersion(buf, s, e + 1)
    else ReadEnd(buf, SetMinor(s, 9), e)
  }

  // Where the path of a target begins, once the authority before it has been read.
  datatype Place =
    | Later                               // more bytes are needed
    | Nowhere
    | PathAt(auth: Authority, us: nat)
    | SpaceAt(auth: Authority, e: nat)    // no path; the authority ends at e

  ghost predicate Fits(buf: seq<byte>, x: Place) {
    match x
    case PathAt(_, us) => us < |buf| && buf[us] == SLASH
    case SpaceAt(_, e) => e < |buf| && buf[e] == SP
    case _ => true
  }

  ghost function FindAfter(buf: seq<byte>, a: Authority, e: nat): (x: Place)
    requires e < |buf|
    ensures Fits(buf, x)
  {
    if buf[e] == SLASH then PathAt(a, e) else if buf[e] == SP then SpaceAt(a, e) else Nowhere
  }

  ghost function FindPort(buf: seq<byte>, a: Authority, p: nat): (x: Place)
    requires p <= |buf|
    ensures Fits(buf, x)
  {
    var q := Skip(buf, p, Digit);
    if q == |buf| then Later else FindAfter(buf, a.(portEnd := q), q)
  }

  ghost function FindHost(buf: seq<byte>, a: Authority, h: nat): (x: Place)
    requires h <= |buf|
    ensures Fits(buf, x)
  {
    var e := Skip(buf, h, HostChar);
    var b := a.(hostStart := h, hostEnd := e);
    if e == |buf| then Later
    else if buf[e] == COLON then FindPort(buf, b, e + 1)
    else FindAfter(buf, b, e)
  }

  ghost function FindPath(buf: seq<byte>, a: Authority, t: nat): (x: Place)
    requires t < |buf|
    ensures Fits(buf, x)
  {
    if buf[t] == SLASH then PathAt(a, t)
    else if !IsLetter(buf[t]) then Nowhere
    else
      var c := Skip(buf, t, Letter);
      match Literal(buf, c, COLON_SLASHES)
      case Short => Later
      case No => Nowhere
      case Yes => FindHost(buf, a.(schemaStart := t, schemaEnd := c), c + 3)
  }

  ghost function ReadAt(buf: seq<byte>, s: Line, x: Place): Reading
    requires Fits(buf, x)
  {
    match x
    case Later => More
    case Nowhere => Reject(InvalidRequest)
    case PathAt(a, us) => ReadPath(buf, s.(auth := a), us)
    case SpaceAt(a, e) => ReadVersion(buf, BorrowSlash(s.(auth := a)).(state := Start), e + 1)
  }

  ghost function ReadTarget(buf: seq<byte>, s: Line, t: nat): Reading
    requires t < |buf|
  {
    ReadAt(buf, s, FindPath(buf, s.auth, t))
  }

  ghost function ReadMethod(buf: seq<byte>, a: nat): Reading
    requires a < |buf|
  {
    if !Token.Has(buf[a]) then Reject(InvalidMethod)
    else
      var b := Skip(buf, a, Token);
      if b == |buf| then More
      else if buf[b] != SP then Reject(InvalidMethod)
      else
        var t := Skip(buf, b, Space);
        if t == |buf| then More
        else ReadTarget(buf, AfterToken(buf, a, b), t)
  }

  ghost function ReadLine(buf: seq<byte>): Reading {
    var a := Skip(buf, 0, Blank);
    if a == |buf| then More else ReadMethod(buf, a)
  }

  // ------------------------------------------------------------------
  // The state machine agrees, part by part from the end of the line.

  ghost predicate Same(o: Outcome, r: Reading) {
    match r
    case More => o.Again?
    case Reject(c) => o.Failed? && o.code == c
    case Accept(s, q) => o == Done(s, q)
  }

  // States in which a byte of the class changes nothing.
  predicate Idles(st: LineState, c: Class) {
    || (st == Method && c == Token)
    || (st in {SpacesBeforeUri, Http09, SpacesAfterDigit} && c == Space)
    || (st == Schema && c == Letter)
    || (st == Host && c == HostChar)
    || (st == Port && c == Digit)
  }

  lemma {:induction false} RunIdle(buf: seq<byte>, s: Line, p: nat, q: nat, c: Class)
    requires Idles(s.state, c) && Span(buf, p, q, c)
    ensures Run(buf, s, p) == Run(buf, s, q)
    decreases q - p
  {
    if p < q {
      assert c.Has(buf[p]);
      RunIdle(buf, s, p + 1, q, c);
    }
  }

  // In the lemmas below `s` carries the fields and the state is given apart,
  // as the readings do not use it.
  function In(s: Line, st: LineState): Line {
    s.(state := st)
  }

  // The CR or LF that ends the line, in any of the states that accept it.
  lemma RunEnd(buf: seq<byte>, s: Line, p: nat, st: LineState)
    requires p <= |buf| && s.state == Start && s.requestEnd == NIL
    requires st in {MinorDigit, SpacesAfterDigit, Http09}
    requires p < |buf| ==> buf[p] != SP && !(st == Http09 && buf[p] == 72) && !(st == MinorDigit && IsDigit(buf[p]))
    ensures Same(Run(buf, In(s, st), p), ReadEnd(buf, if st == Http09 then SetMinor(s, 9) else s, p))
  {
    if p + 1 < |buf| && buf[p] == CR {
      RunOne(buf, In(s, st), p, In(if st == Http09 then SetMinor(s, 9) else s, AlmostDone));
    }
  }

  lemma {:induction false} RunMinorDigits(buf: seq<byte>, s: Line, m: nat, p: nat, n: nat)
    requires m < p <= n && Span(buf, m, n, Digit)
    ensures Run(buf, In(SetMinor(s, Number(buf, m, p)), MinorDigit), p) ==
            Run(buf, In(SetMinor(s, Number(buf, m, n)), MinorDigit), n)
    decreases n - p
  {
    if p < n {
      NumberStep(buf, m, p);
      assert IsDigit(buf[p]);
      RunMinorDigits(buf, s, m, p + 1, n);
    }
  }

  lemma {:induction false} RunMajorDigits(buf: seq<byte>, s: Line, d: nat, p: nat, e: nat)
    requires d < p <= e && Span(buf, d, e, Digit)
    ensures Run(buf, In(SetMajor(s, Number(buf, d, p)), MajorDigit), p) ==
            Run(buf, In(SetMajor(s, Number(buf, d, e)), MajorDigit), e)
    decreases e - p
  {
    if p < e {
      NumberStep(buf, d, p);
      assert IsDigit(buf[p]);
      RunMajorDigits(buf, s, d, p + 1, e);
    }
  }

  // After the minor digits: SP*, then the end.
  lemma RunAfterMinor(buf: seq<byte>, s: Line, n: nat)
    requires n <= |buf| && s.state == Start && s.requestEnd == NIL
    requires n < |buf| ==> !IsDigit(buf[n])
    ensures Same(Run(buf, In(s, MinorDigit), n), ReadEnd(buf, s, Skip(buf, n, Space)))
  {
    var x := Skip(buf, n, Space);
    if n < x {
      RunOne(buf, In(s, MinorDigit), n, In(s, SpacesAfterDigit));
      RunIdle(buf, In(s, SpacesAfterDigit), n + 1, x, Space);
      RunEnd(buf, s, x, SpacesAfterDigit);
    } else {
      RunEnd(buf, s, n, MinorDigit);
    }
  }

  lemma RunMinor(buf: seq<byte>, s: Line, m: nat)
    requires m <= |buf| && s.state == Start && s.requestEnd == NIL
    ensures Same(Run(buf, In(s, FirstMinorDigit), m), ReadMinor(buf, s, m))
  {
    if m < |buf| && IsDigit(buf[m]) {
      var n := Skip(buf, m, Digit);
      NumberStep(buf, m, m);
      RunOne(buf, In(s, FirstMinorDigit), m, In(SetMinor(s, Number(buf, m, m + 1)), MinorDigit));
      RunMinorDigits(buf, s, m, m + 1, n);
      RunAfterMinor(buf, SetMinor(s, Number(buf, m, n)), n);
    }
  }

  lemma RunMajorNumber(buf: seq<byte>, s: Line, d: nat)
    requires d < |buf| && IsDigit(buf[d]) && buf[d] != 48
    ensures var e := Skip(buf, d, Digit);
            Run(buf, In(s, FirstMajorDigit), d) == Run(buf, In(SetMajor(s, Number(buf, d, e)), MajorDigit), e)
  {
    NumberStep(buf, d, d);
    RunOne(buf, In(s, FirstMajorDigit), d, In(SetMajor(s, Number(buf, d, d + 1)), MajorDigit));
    RunMajorDigits(buf, s, d, d + 1, Skip(buf, d, Digit));
  }

  lemma RunMajor(buf: seq<byte>, s: Line, d: nat)
    requires d <= |buf| && s.state == Start && s.requestEnd == NIL
    ensures Same(Run(buf, In(s, FirstMajorDigit), d), ReadMajor(buf, s, d))
  {
    if d < |buf| && IsDigit(buf[d]) && buf[d] != 48 {
      var e := Skip(buf, d, Digit);
      var u := SetMajor(s, Number(buf, d, e));
      RunMajorNumber(buf, s, d);
      RunAfterMajor(buf, u, e);
    }
  }

  lemma RunAfterMajor(buf: seq<byte>, u: Line, e: nat)
    requires e <= |buf| && u.state == Start && u.requestEnd == NIL && (e < |buf| ==> !IsDigit(buf[e]))
    ensures Same(Run(buf, In(u, MajorDigit), e),
                 if e == |buf| then More
                 else if buf[e] != DOT then Reject(InvalidRequest)
                 else ReadMinor(buf, u, e + 1))
  {
    if e < |buf| && buf[e] == DOT {
      RunOne(buf, In(u, MajorDigit), e, In(u, FirstMinorDigit));
      RunMinor(buf, u, e + 1);
    }
  }

  // The rest of the fixed word that each of these states waits for.
  function Wanted(st: LineState): seq<byte> {
    match st
    case HttpH => [84, 84, 80, 47]
    case HttpHT => [84, 80, 47]
    case HttpHTT => [80, 47]
    case HttpHTTP => [47]
    case SchemaSlash => [47, 47]
    case SchemaSlashSlash => [47]
    case _ => []
  }

  function After(st: LineState): LineState {
    match st
    case HttpH => HttpHT
    case HttpHT => HttpHTT
    case HttpHTT => HttpHTTP
    case HttpHTTP => FirstMajorDigit
    case _ => st
  }

  lemma {:induction false} RunHttp(buf: seq<byte>, s: Line, p: nat, st: LineState, w: seq<byte>)
    requires p <= |buf| && st in {HttpH, HttpHT, HttpHTT, HttpHTTP} && w == Wanted(st)
    ensures match Literal(buf, p, w)
            case Short => Run(buf, In(s, st), p).Again?
            case No => Run(buf, In(s, st), p).Failed? && Run(buf, In(s, st), p).code == InvalidRequest
            case Yes => Run(buf, In(s, st), p) == Run(buf, In(s, FirstMajorDigit), p + |w|)
    decreases |w|
  {
    RunLetter(buf, s, p, st, w[0]);
    LiteralStep(buf, p, w);
    WantedStep(st);
    if p < |buf| && buf[p] == w[0] && st != HttpHTTP {
      RunHttp(buf, s, p + 1, After(st), w[1..]);
    }
  }

  lemma WantedStep(st: LineState)
    requires st in {HttpH, HttpHT, HttpHTT, HttpHTTP}
    ensures Wanted(st)[1..] == if st == HttpHTTP then [] else Wanted(After(st))
    ensures |Wanted(st)| == 1 + |Wanted(st)[1..]|
  {
  }

  lemma RunLetter(buf: seq<byte>, s: Line, p: nat, st: LineState, b: byte)
    requires p <= |buf| && st in {HttpH, HttpHT, HttpHTT, HttpHTTP} && b == Wanted(st)[0]
    ensures p == |buf| ==> Run(buf, In(s, st), p).Again?
    ensures p < |buf| && buf[p] != b ==>
              Run(buf, In(s, st), p).Failed? && Run(buf, In(s, st), p).code == InvalidRequest
    ensures p < |buf| && buf[p] == b ==> Run(buf, In(s, st), p) == Run(buf, In(s, After(st)), p + 1)
  {
  }

  // From the 'H' that may begin a version.
  lemma RunProtocol(buf: seq<byte>, s: Line, v: nat)
    requires v < |buf| && buf[v] == 72 && s.state == Start && s.requestEnd == NIL
    ensures Same(Run(buf, In(s, Http09), v), ReadProtocol(buf, s, v))
  {
    var t := s.(version := s.version.(protocol := v));
    RunOne(buf, In(s, Http09), v, In(t, HttpH));
    assert HTTP_SLASH[1..] == Wanted(HttpH);
    LiteralStep(buf, v, HTTP_SLASH);
    RunHttp(buf, t, v + 1, HttpH, HTTP_SLASH[1..]);
    if Literal(buf, v, HTTP_SLASH) == Yes {
      RunMajor(buf, t, v + 5);
    }
  }

  lemma RunVersion(buf: seq<byte>, s: Line, p: nat)
    requires p <= |buf| && s.state == Start && s.requestEnd == NIL
    ensures Same(Run(buf, In(s, Http09), p), ReadVersion(buf, s, p))
  {
    var v := Skip(buf, p, Space);
    RunIdle(buf, In(s, Http09), p, v, Space);
    if v == |buf| || buf[v] != 72 {
      RunEnd(buf, s, v, Http09);
    } else {
      RunProtocol(buf, s, v);
    }
  }

  // The path, from the byte after its '/'.
  lemma RunPath(buf: seq<byte>, s: Line, us: nat)
    requires us < |buf| && buf[us] == SLASH && s.state == Start && s.requestEnd == NIL && NoPath(s)
    ensures Same(Run(buf, BeginPath(s, us), us + 1), ReadPath(buf, s, us))
  {
    var e := Skip(buf, us + 1, Target);
    var u := RunPathBytes(buf, s, us, e);
    if e < |buf| {
      RunPathEnd(buf, u, PathRead(buf, s, us, e), e);
    }
  }

  lemma RunPathBytes(buf: seq<byte>, s: Line, us: nat, e: nat) returns (u: Line)
    requires us < e <= |buf| && buf[us] == SLASH && Span(buf, us + 1, e, Target)
    requires s.state == Start && s.requestEnd == NIL && NoPath(s)
    ensures Run(buf, BeginPath(s, us), us + 1) == Run(buf, u, e)
    ensures u.requestEnd == NIL && u.state in {AfterSlashInUri, CheckUri, Uri}
    ensures PathRead(buf, s, us, e) == u.(uri := u.uri.(end := e), state := Start)
  {
    var t := s.(uri := s.uri.(start := us));
    assert BeginPath(s, us) == WithPath(buf, t, us, us + 1);
    PathRun(buf, t, us, us + 1, e);
    u := WithPath(buf, t, us, e);
  }

  // The byte that ends the path.
  lemma RunPathEnd(buf: seq<byte>, u: Line, v: Line, e: nat)
    requires e < |buf| && !Target.Has(buf[e]) && u.state in {AfterSlashInUri, CheckUri, Uri}
    requires u.requestEnd == NIL && v == u.(uri := u.uri.(end := e), state := Start)
    ensures Same(Run(buf, u, e), ReadAfterPath(buf, v, e))
  {
    if buf[e] == SP {
      RunOne(buf, u, e, In(v, Http09));
      RunVersion(buf, v, e + 1);
    } else if buf[e] == CR {
      RunOne(buf, u, e, In(SetMinor(v, 9), AlmostDone));
    }
  }

  // No field of the path has been written yet.
  predicate NoPath(s: Line) {
    s.uri == FRESH.uri
  }

  // What a run comes to that has the place x before it: at a path its '/' has been taken,
  // at a space the '/' of "://" stands in for it.
  ghost predicate Reaches(buf: seq<byte>, o: Outcome, s: Line, x: Place)
    requires Fits(buf, x)
  {
    match x
    case Later => o.Again?
    case Nowhere => o.Failed? && o.code == InvalidRequest
    case PathAt(a, us) => o == Run(buf, BeginPath(s.(auth := a), us), us + 1)
    case SpaceAt(a, e) => o == Run(buf, BorrowSlash(s.(auth := a)), e + 1)
  }

  lemma RunPort(buf: seq<byte>, s: Line, e: nat)
    requires e <= |buf|
    ensures Reaches(buf, Run(buf, In(s, Port), e), s, FindPort(buf, s.auth, e))
  {
    var q := Skip(buf, e, Digit);
    RunIdle(buf, In(s, Port), e, q, Digit);
    if q < |buf| {
      RunOutOfPort(buf, s, q);
    }
  }

  lemma RunOutOfPort(buf: seq<byte>, s: Line, q: nat)
    requires q < |buf| && !IsDigit(buf[q])
    ensures Reaches(buf, Run(buf, In(s, Port), q), s, FindAfter(buf, s.auth.(portEnd := q), q))
  {
    var t := s.(auth := s.auth.(portEnd := q));
    if buf[q] == SLASH {
      RunOne(buf, In(s, Port), q, BeginPath(t, q));
    } else if buf[q] == SP {
      RunOne(buf, In(s, Port), q, BorrowSlash(t));
    }
  }

  lemma RunHost(buf: seq<byte>, s: Line, h: nat)
    requires h <= |buf|
    ensures Reaches(buf, Run(buf, In(s.(auth := s.auth.(hostStart := h)), Host), h), s, FindHost(buf, s.auth, h))
  {
    var e := Skip(buf, h, HostChar);
    var t := s.(auth := s.auth.(hostStart := h));
    RunIdle(buf, In(t, Host), h, e, HostChar);
    if e < |buf| {
      RunAfterHost(buf, t, e);
    }
  }

  lemma RunAfterHost(buf: seq<byte>, t: Line, e: nat)
    requires e < |buf| && !HostChar.Has(buf[e])
    ensures var a := t.auth.(hostEnd := e);
            Reaches(buf, Run(buf, In(t, Host), e), t,
                    if buf[e] == COLON then FindPort(buf, a, e + 1) else FindAfter(buf, a, e))
  {
    if buf[e] == COLON {
      var u := t.(auth := t.auth.(hostEnd := e));
      RunOne(buf, In(t, Host), e, In(u, Port));
      RunPort(buf, u, e + 1);
    } else {
      RunOutOfHost(buf, t, e);
    }
  }

  lemma RunOutOfHost(buf: seq<byte>, t: Line, e: nat)
    requires e < |buf| && !HostChar.Has(buf[e]) && buf[e] != COLON
    ensures Reaches(buf, Run(buf, In(t, Host), e), t, FindAfter(buf, t.auth.(hostEnd := e), e))
  {
    var u := t.(auth := t.auth.(hostEnd := e));
    if buf[e] == SLASH {
      RunOne(buf, In(t, Host), e, BeginPath(u, e));
    } else if buf[e] == SP {
      RunOne(buf, In(t, Host), e, BorrowSlash(u));
    }
  }

  // "://" after a scheme that ends at c.
  lemma RunColonSlashes(buf: seq<byte>, s: Line, c: nat)
    requires c <= |buf| && (c < |buf| ==> !IsLetter(buf[c]))
    ensures var t := s.(auth := s.auth.(schemaEnd := c, hostStart := c + 3));
            match Literal(buf, c, COLON_SLASHES)
            case Short => Run(buf, In(s, Schema), c).Again?
            case No => Run(buf, In(s, Schema), c).Failed? && Run(buf, In(s, Schema), c).code == InvalidRequest
            case Yes => Run(buf, In(s, Schema), c) == Run(buf, In(t, Host), c + 3)
  {
    LiteralStep(buf, c, COLON_SLASHES);
    assert COLON_SLASHES[1..] == Wanted(SchemaSlash);
    if c < |buf| && buf[c] == COLON {
      var t := s.(auth := s.auth.(schemaEnd := c));
      RunOne(buf, In(s, Schema), c, In(t, SchemaSlash));
      RunSlashes(buf, t, c + 1);
    }
  }

  // "//" after the ':'.
  lemma RunSlashes(buf: seq<byte>, s: Line, p: nat)
    requires p <= |buf|
    ensures var t := s.(auth := s.auth.(hostStart := p + 2));
            match Literal(buf, p, Wanted(SchemaSlash))
            case Short => Run(buf, In(s, SchemaSlash), p).Again?
            case No => Run(buf, In(s, SchemaSlash), p).Failed? && Run(buf, In(s, SchemaSlash), p).code == InvalidRequest
            case Yes => Run(buf, In(s, SchemaSlash), p) == Run(buf, In(t, Host), p + 2)
  {
    var w, v := Wanted(SchemaSlash), Wanted(SchemaSlashSlash);
    LiteralStep(buf, p, w);
    assert w[1..] == v && v[1..] == [];
    if p < |buf| && buf[p] == SLASH {
      RunOne(buf, In(s, SchemaSlash), p, In(s, SchemaSlashSlash));
      LiteralStep(buf, p + 1, v);
    }
  }

  lemma RunScheme(buf: seq<byte>, s: Line, t: nat)
    requires t < |buf| && buf[t] != SP
    ensures Reaches(buf, Run(buf, In(s, SpacesBeforeUri), t), s, FindPath(buf, s.auth, t))
  {
    if buf[t] == SLASH {
      RunOne(buf, In(s, SpacesBeforeUri), t, BeginPath(s, t));
    } else if IsLetter(buf[t]) {
      var c := Skip(buf, t, Letter);
      RunLetters(buf, s, t, c);
      RunAuthority(buf, s.(auth := s.auth.(schemaStart := t)), c);
    }
  }

  // From the end of the scheme.
  lemma RunAuthority(buf: seq<byte>, s: Line, c: nat)
    requires c <= |buf| && (c < |buf| ==> !IsLetter(buf[c]))
    ensures Reaches(buf, Run(buf, In(s, Schema), c), s,
                    match Literal(buf, c, COLON_SLASHES)
                    case Short => Later
                    case No => Nowhere
                    case Yes => FindHost(buf, s.auth.(schemaEnd := c), c + 3))
  {
    RunColonSlashes(buf, s, c);
    if Literal(buf, c, COLON_SLASHES) == Yes {
      RunHost(buf, s.(auth := s.auth.(schemaEnd := c)), c + 3);
    }
  }

  lemma RunLetters(buf: seq<byte>, s: Line, t: nat, c: nat)
    requires t < c && Span(buf, t, c, Letter)
    ensures Run(buf, In(s, SpacesBeforeUri), t) == Run(buf, In(s.(auth := s.auth.(schemaStart := t)), Schema), c)
  {
    var u := s.(auth := s.auth.(schemaStart := t));
    assert IsLetter(buf[t]);
    RunOne(buf, In(s, SpacesBeforeUri), t, In(u, Schema));
    RunIdle(buf, In(u, Schema), t + 1, c, Letter);
  }

  lemma RunAt(buf: seq<byte>, o: Outcome, s: Line, x: Place)
    requires Fits(buf, x) && Reaches(buf, o, s, x) && s.state == Start && s.requestEnd == NIL && NoPath(s)
    ensures Same(o, ReadAt(buf, s, x))
  {
    if x.PathAt? {
      RunPath(buf, s.(auth := x.auth), x.us);
    } else if x.SpaceAt? {
      RunVersion(buf, In(BorrowSlash(s.(auth := x.auth)), Start), x.e + 1);
    }
  }

  lemma RunTarget(buf: seq<byte>, s: Line, t: nat)
    requires t < |buf| && buf[t] != SP && s.state == Start && s.requestEnd == NIL && NoPath(s)
    ensures Same(Run(buf, In(s, SpacesBeforeUri), t), ReadTarget(buf, s, t))
  {
    RunScheme(buf, s, t);
    RunAt(buf, Run(buf, In(s, SpacesBeforeUri), t), s, FindPath(buf, s.auth, t));
  }

  // The SP that ends the method.
  lemma RunTokenEnd(buf: seq<byte>, a: nat, b: nat)
    requires a < b < |buf| && buf[b] == SP
    ensures Run(buf, In(FRESH.(requestStart := a), Method), b) == Run(buf, In(AfterToken(buf, a, b), SpacesBeforeUri), b + 1)
  {
    assert Slice(buf, a, b) == buf[a..b];
    RunOne(buf, In(FRESH.(requestStart := a), Method), b, In(AfterToken(buf, a, b), SpacesBeforeUri));
  }

  ghost function AfterToken(buf: seq<byte>, a: nat, b: nat): Line
    requires a <= b <= |buf|
  {
    FRESH.(requestStart := a, methodEnd := b - 1, verb := MethodOf(buf[a..b], 0))
  }

  lemma RunMethod(buf: seq<byte>, s: Line, a: nat)
    requires a < |buf| && buf[a] != CR && buf[a] != LF && s == FRESH.(requestStart := s.requestStart)
    ensures Same(Run(buf, s, a), ReadMethod(buf, a))
  {
    if Token.Has(buf[a]) {
      var b := Skip(buf, a, Token);
      RunToken(buf, s, a, b);
      if b < |buf| && buf[b] == SP {
        var t := Skip(buf, b, Space);
        RunSpaces(buf, a, b, t);
        if t < |buf| {
          RunTarget(buf, AfterToken(buf, a, b), t);
        }
      }
    }
  }

  lemma RunToken(buf: seq<byte>, s: Line, a: nat, b: nat)
    requires a < b && Span(buf, a, b, Token) && s == FRESH.(requestStart := s.requestStart)
    ensures Run(buf, s, a) == Run(buf, In(FRESH.(requestStart := a), Method), b)
  {
    var m := In(FRESH.(requestStart := a), Method);
    assert Token.Has(buf[a]);
    RunOne(buf, s, a, m);
    RunIdle(buf, m, a + 1, b, Token);
  }

  lemma RunSpaces(buf: seq<byte>, a: nat, b: nat, t: nat)
    requires a < b < t && Span(buf, b, t, Space)
    ensures Run(buf, In(FRESH.(requestStart := a), Method), b) == Run(buf, In(AfterToken(buf, a, b), SpacesBeforeUri), t)
  {
    assert Space.Has(buf[b]);
    RunTokenEnd(buf, a, b);
    RunIdle(buf, In(AfterToken(buf, a, b), SpacesBeforeUri), b + 1, t, Space);
  }

  lemma {:induction false} RunBlank(buf: seq<byte>, s: Line, p: nat, a: nat) returns (t: Line)
    requires Span(buf, p, a, Blank) && s == FRESH.(requestStart := s.requestStart)
    ensures t == FRESH.(requestStart := t.requestStart)
    ensures Run(buf, s, p) == Run(buf, t, a)
    decreases a - p
  {
    t := s;
    if p < a {
      assert Blank.Has(buf[p]);
      t := RunBlank(buf, s.(requestStart := p), p + 1, a);
    }
  }

  // On every buffer, the state machine and the reading give the same answer,
  // and when it is OK the same fields and the same end.
  lemma MachineReadsLine(buf: seq<byte>)
    ensures Same(Run(buf, FRESH, 0), ReadLine(buf))
  {
    var a := Skip(buf, 0, Blank);
    var s := RunBlank(buf, FRESH, 0, a);
    if a < |buf| {
      RunMethod(buf, s, a);
    }
  }

  // The fixed words are these texts.
  lemma Texts()
    ensures IsText(HTTP_SLASH, "HTTP/") && IsText(COLON_SLASHES, "://")
  {
  }
}
