// Header lines read by longest runs, and the proof that the state machine of
// `HeaderLine` gives the same answer and the same fields on every buffer.
module HeaderReading {
  import opened Bytes
  import opened HeaderLine

  datatype Reading = More | LineAt(h: Header, pos: nat) | BlockAt(h: Header, pos: nat) | Wrong

  // Some byte of the name buf[p..n] is outside the parser's alphabet.  For the first
  // byte '_' does not count as inside.
  ghost predicate BadName(buf: seq<byte>, p: int, n: int, underscores: bool)
    requires 0 <= p < n <= |buf|
  {
    || LowcaseOf(buf[p]) == 0
    || exists k :: p < k < n && BadByte(buf[k], underscores)
  }

  predicate BadByte(b: byte, underscores: bool) {
    LowcaseOf(b) == 0 && !(b == UNDERSCORE && underscores)
  }

  // The lowercase ring after the name bytes buf[p..n].
  ghost function NameLow(buf: seq<byte>, low: Lowcase, p: int, n: int, underscores: bool): Lowcase
    requires 0 <= p < n <= |buf|
    decreases n
  {
    if n == p + 1 then
      if LowcaseOf(buf[p]) == 0 then low else Put(low.(index := 0), LowcaseOf(buf[p]))
    else
      var l := NameLow(buf, low, p, n - 1, underscores);
      var b := buf[n - 1];
      if LowcaseOf(b) != 0 then Put(l, LowcaseOf(b))
      else if b == UNDERSCORE && underscores then Put(l, b)
      else l
  }

  // The end of buf[s..e] without its trailing spaces; buf[s] is not one.
  ghost function Trim(buf: seq<byte>, s: int, e: int): (t: int)
    requires 0 <= s < e <= |buf| && buf[s] != SP
    ensures s < t <= e && buf[t - 1] != SP && Span(buf, t, e, Space)
    decreases e
  {
    if buf[e - 1] == SP then Trim(buf, s, e - 1) else e
  }

  // CR* LF
  ghost function ReadLineEnd(buf: seq<byte>, h: Header, e: nat): Reading
    requires e < |buf|
  {
    if buf[e] == LF then LineAt(h, e + 1)
    else
      var k := Skip(buf, e, Return);
      if k == |buf| then More
      else if buf[k] == LF then LineAt(h, k + 1)
      else Wrong
  }

  ghost function ReadValue(buf: seq<byte>, h: Header, v: nat): Reading
    requires v <= |buf|
  {
    var s := Skip(buf, v, Space);
    if s == |buf| then More
    else if Blank.Has(buf[s]) then ReadLineEnd(buf, h.(start := s, end := s), s)
    else
      var e := Skip(buf, s, LineByte);
      if e == |buf| then More else ReadLineEnd(buf, h.(start := s, end := Trim(buf, s, e)), e)
  }

  // The name starts at p; its first byte is taken whatever it is.
  ghost function ReadName(buf: seq<byte>, h: Header, p: nat, underscores: bool): Reading
    requires p < |buf|
  {
    var n := Skip(buf, p + 1, NameRest);
    if n == |buf| then More
    else
      ReadAfterName(buf, In(InName(buf, h, p, n, underscores), Start), n)
  }

  // A ':' or the end of the line at n ends the name.
  ghost function ReadAfterName(buf: seq<byte>, h: Header, n: nat): Reading
    requires n < |buf|
  {
    if buf[n] == COLON then ReadValue(buf, h.(nameEnd := n), n + 1)
    else ReadLineEnd(buf, h.(nameEnd := n, start := n, end := n), n)
  }

  // The fields inside a name that began at p, after buf[p..k].
  ghost function InName(buf: seq<byte>, h: Header, p: nat, k: nat, u: bool): Header
    requires p < k <= |buf|
  {
    h.(nameStart := p, invalid := BadName(buf, p, k, u), low := NameLow(buf, h.low, p, k, u), state := Name)
  }

  // As in the request line, `h` carries the fields and the state is given apart.
  function In(h: Header, st: HeaderState): Header {
    h.(state := st)
  }

  // The line that ends the block: LF or CR LF.
  ghost function ReadBlankLine(buf: seq<byte>, h: Header, p: nat): Reading
    requires p < |buf|
  {
    var g := h.(nameStart := p, end := p, invalid := false);
    if buf[p] == LF then BlockAt(g, p + 1)
    else if p + 1 == |buf| then More
    else if buf[p + 1] == LF then BlockAt(g, p + 2)
    else Wrong
  }

  // The place after the "HTTP/" lines that the parser passes over.
  ghost function AfterIgnored(buf: seq<byte>, p: nat): (q: nat)
    requires p <= |buf|
    ensures p <= q <= |buf| && !Reads(buf, q, HTTP_SLASH)
    decreases |buf| - p
  {
    if Reads(buf, p, HTTP_SLASH) then
      var e := Skip(buf, p + 5, NotLF);
      if e == |buf| then e else AfterIgnored(buf, e + 1)
    else p
  }

  // What these lines leave in the fields.
  ghost function PassIgnored(buf: seq<byte>, h: Header, p: nat, underscores: bool): Header
    requires p <= |buf|
    decreases |buf| - p
  {
    if Reads(buf, p, HTTP_SLASH) then
      var e := Skip(buf, p + 5, NotLF);
      if e == |buf| then h else PassIgnored(buf, Ignored(buf, h, p, underscores), e + 1, underscores)
    else h
  }

  ghost function ReadHeader(buf: seq<byte>, h: Header, p: nat, underscores: bool): Reading
    requires p <= |buf|
  {
    ReadHere(buf, PassIgnored(buf, h, p, underscores), AfterIgnored(buf, p), underscores)
  }

  // A line that is not ignored.
  ghost function ReadHere(buf: seq<byte>, h: Header, p: nat, underscores: bool): Reading
    requires p <= |buf|
  {
    if p == |buf| then More
    else if Blank.Has(buf[p]) then ReadBlankLine(buf, h, p)
    else ReadName(buf, h, p, underscores)
  }

  // What an ignored "HTTP/" line leaves.
  ghost function Ignored(buf: seq<byte>, h: Header, p: nat, underscores: bool): Header
    requires p + 4 <= |buf|
  {
    In(InName(buf, h, p, p + 4, underscores), Start)
  }

  // ------------------------------------------------------------------
  // The state machine agrees.

  ghost predicate Same(o: Outcome, r: Reading) {
    match r
    case More => o.Again?
    case LineAt(h, q) => o == Line(h, q)
    case BlockAt(h, q) => o == Block(h, q)
    case Wrong => o.Invalid?
  }

  lemma RunOne(buf: seq<byte>, h: Header, p: nat, u: bool, g: Header)
    requires p < |buf| && Step(buf, h, p, u) == Go(g)
    ensures Run(buf, h, p, u) == Run(buf, g, p + 1, u)
  {
  }

  predicate Idles(st: HeaderState, c: Class) {
    || (st == SpaceBeforeValue && c == Space)
    || (st == IgnoreLine && c == NotLF)
    || (st == AlmostDone && c == Return)
  }

  lemma {:induction false} RunIdle(buf: seq<byte>, h: Header, p: nat, q: nat, u: bool, c: Class)
    requires Idles(h.state, c) && Span(buf, p, q, c)
    ensures Run(buf, h, p, u) == Run(buf, h, q, u)
    decreases q - p
  {
    if p < q {
      assert c.Has(buf[p]);
      RunIdle(buf, h, p + 1, q, u, c);
    }
  }

  // After the CR that ends a line.
  lemma RunAlmostDone(buf: seq<byte>, h: Header, e: nat, u: bool)
    requires e < |buf| && buf[e] == CR && h.state == Start
    ensures Same(Run(buf, In(h, AlmostDone), e + 1, u), ReadLineEnd(buf, h, e))
  {
    var k := Skip(buf, e, Return);
    RunIdle(buf, In(h, AlmostDone), e + 1, k, u, Return);
  }

  // Inside a value: the bytes buf[s..p] have been read, the value ends at e.
  lemma {:induction false} RunValue(buf: seq<byte>, h: Header, s: nat, p: nat, e: nat, u: bool)
    requires s < p <= e <= |buf| && Span(buf, s, e, LineByte) && buf[s] != SP
    requires e < |buf| ==> Blank.Has(buf[e])
    requires h.state == if buf[p - 1] == SP then SpaceAfterValue else Value
    requires buf[p - 1] == SP ==> h.end == Trim(buf, s, p)
    ensures Same(Run(buf, h, p, u),
                 if e == |buf| then More else ReadLineEnd(buf, h.(state := Start, end := Trim(buf, s, e)), e))
    decreases e - p
  {
    if p < e {
      assert LineByte.Has(buf[p]);
      var g := if buf[p] == SP then h.(end := Trim(buf, s, p + 1), state := SpaceAfterValue) else In(h, Value);
      assert buf[p] == SP ==> Trim(buf, s, p + 1) == Trim(buf, s, p);
      assert buf[p - 1] != SP ==> Trim(buf, s, p) == p;
      RunOne(buf, h, p, u, g);
      RunValue(buf, g, s, p + 1, e, u);
    } else if e < |buf| && buf[e] == CR {
      var g := h.(state := Start, end := Trim(buf, s, e));
      RunOne(buf, h, e, u, In(g, AlmostDone));
      RunAlmostDone(buf, g, e, u);
    }
  }

  lemma RunBeforeValue(buf: seq<byte>, h: Header, v: nat, u: bool)
    requires v <= |buf| && h.state == Start
    ensures Same(Run(buf, In(h, SpaceBeforeValue), v, u), ReadValue(buf, h, v))
  {
    var s := Skip(buf, v, Space);
    RunIdle(buf, In(h, SpaceBeforeValue), v, s, u, Space);
    if s < |buf| {
      if buf[s] == CR {
        var g := h.(start := s, end := s);
        RunOne(buf, In(h, SpaceBeforeValue), s, u, In(g, AlmostDone));
        RunAlmostDone(buf, g, s, u);
      } else if buf[s] != LF {
        var g := In(h.(start := s), Value);
        RunOne(buf, In(h, SpaceBeforeValue), s, u, g);
        RunValue(buf, g, s, s + 1, Skip(buf, s, LineByte), u);
      }
    }
  }

  lemma NameStep(buf: seq<byte>, h: Header, p: nat, k: nat, u: bool)
    requires p < k < |buf| && NameRest.Has(buf[k]) && (k == p + 4 && buf[k] == SLASH ==> buf[p..k] != HTTP)
    ensures Step(buf, InName(buf, h, p, k, u), k, u) == Go(InName(buf, h, p, k + 1, u))
  {
    assert BadName(buf, p, k + 1, u) <==> BadName(buf, p, k, u) || BadByte(buf[k], u);
  }

  // Inside a name that began at p.
  lemma {:induction false} RunName(buf: seq<byte>, h: Header, p: nat, k: nat, n: nat, u: bool)
    requires p < k <= n && Span(buf, k, n, NameRest)
    requires k <= p + 4 < n ==> !Reads(buf, p, HTTP_SLASH)
    ensures Run(buf, InName(buf, h, p, k, u), k, u) == Run(buf, InName(buf, h, p, n, u), n, u)
    decreases n - k
  {
    if k < n {
      assert NameRest.Has(buf[k]);
      if k == p + 4 {
        ReadsSlice(buf, p, HTTP_SLASH);
        assert buf[p..p + 5] == buf[p..k] + [buf[k]];
      }
      NameStep(buf, h, p, k, u);
      RunOne(buf, InName(buf, h, p, k, u), k, u, InName(buf, h, p, k + 1, u));
      RunName(buf, h, p, k + 1, n, u);
    }
  }

  lemma RunFirst(buf: seq<byte>, h: Header, p: nat, u: bool)
    requires p < |buf| && !Blank.Has(buf[p]) && h.state == Start
    ensures Run(buf, h, p, u) == Run(buf, InName(buf, h, p, p + 1, u), p + 1, u)
  {
    RunOne(buf, h, p, u, InName(buf, h, p, p + 1, u));
  }

  // The byte that ends a name.
  lemma RunNameEnd(buf: seq<byte>, g: Header, n: nat, u: bool)
    requires n < |buf| && !NameRest.Has(buf[n]) && g.state == Name
    ensures Same(Run(buf, g, n, u), ReadAfterName(buf, In(g, Start), n))
  {
    var h := g.(nameEnd := n, state := Start);
    if buf[n] == COLON {
      RunOne(buf, g, n, u, In(h, SpaceBeforeValue));
      RunBeforeValue(buf, h, n + 1, u);
    } else if buf[n] == CR {
      var f := h.(start := n, end := n);
      RunOne(buf, g, n, u, In(f, AlmostDone));
      RunAlmostDone(buf, f, n, u);
    }
  }

  lemma RunWholeName(buf: seq<byte>, h: Header, p: nat, u: bool)
    requires p < |buf| && !Blank.Has(buf[p]) && h.state == Start && !Reads(buf, p, HTTP_SLASH)
    ensures Same(Run(buf, h, p, u), ReadName(buf, h, p, u))
  {
    var n := Skip(buf, p + 1, NameRest);
    RunFirst(buf, h, p, u);
    RunName(buf, h, p, p + 1, n, u);
    if n < |buf| {
      RunNameEnd(buf, InName(buf, h, p, n, u), n, u);
    }
  }

  lemma HttpBytes(buf: seq<byte>, p: nat)
    requires Reads(buf, p, HTTP_SLASH)
    ensures !Blank.Has(buf[p]) && Span(buf, p + 1, p + 4, NameRest)
    ensures buf[p + 4] == SLASH && buf[p..p + 4] == HTTP
  {
    ReadsSlice(buf, p, HTTP_SLASH);
    var w := buf[p..p + 5];
    assert w[0] == buf[p] && w[1] == buf[p + 1] && w[2] == buf[p + 2] && w[3] == buf[p + 3] && w[4] == buf[p + 4];
    assert buf[p..p + 4] == w[..4];
  }

  // "HTTP/" at the start of a line makes the machine skip the line.
  lemma RunIgnored(buf: seq<byte>, h: Header, p: nat, u: bool)
    requires p < |buf| && h.state == Start && Reads(buf, p, HTTP_SLASH)
    ensures var e := Skip(buf, p + 5, NotLF);
            if e == |buf| then Run(buf, h, p, u).Again?
            else Run(buf, h, p, u) == Run(buf, Ignored(buf, h, p, u), e + 1, u)
  {
    HttpBytes(buf, p);
    RunFirst(buf, h, p, u);
    RunName(buf, h, p, p + 1, p + 4, u);
    var g := In(Ignored(buf, h, p, u), IgnoreLine);
    RunOne(buf, InName(buf, h, p, p + 4, u), p + 4, u, g);
    var e := Skip(buf, p + 5, NotLF);
    RunIdle(buf, g, p + 5, e, u, NotLF);
    if e < |buf| {
      RunOne(buf, g, e, u, In(g, Start));
    }
  }

  lemma RunBlankLine(buf: seq<byte>, h: Header, p: nat, u: bool)
    requires p < |buf| && Blank.Has(buf[p]) && h.state == Start
    ensures Same(Run(buf, h, p, u), ReadBlankLine(buf, h, p))
  {
    if buf[p] == CR {
      RunOne(buf, h, p, u, In(h.(nameStart := p, end := p, invalid := false), HeaderAlmostDone));
    }
  }

  lemma MachineReadsHere(buf: seq<byte>, h: Header, p: nat, u: bool)
    requires p <= |buf| && h.state == Start && !Reads(buf, p, HTTP_SLASH)
    ensures Same(Run(buf, h, p, u), ReadHere(buf, h, p, u))
  {
    if p < |buf| {
      if Blank.Has(buf[p]) {
        RunBlankLine(buf, h, p, u);
      } else {
        RunWholeName(buf, h, p, u);
      }
    }
  }

  lemma {:induction false} RunPassesIgnored(buf: seq<byte>, h: Header, p: nat, u: bool)
    requires p <= |buf| && h.state == Start
    ensures var q := AfterIgnored(buf, p);
            if q == |buf| then Run(buf, h, p, u).Again?
            else Run(buf, h, p, u) == Run(buf, PassIgnored(buf, h, p, u), q, u)
    decreases |buf| - p
  {
    if Reads(buf, p, HTTP_SLASH) {
      var g, e := Ignored(buf, h, p, u), Skip(buf, p + 5, NotLF);
      RunIgnored(buf, h, p, u);
      if e < |buf| {
        RunPassesIgnored(buf, g, e + 1, u);
        assert AfterIgnored(buf, p) == AfterIgnored(buf, e + 1);
        assert PassIgnored(buf, h, p, u) == PassIgnored(buf, g, e + 1, u);
      }
    }
  }

  lemma {:induction false} PassIgnoredStarts(buf: seq<byte>, h: Header, p: nat, u: bool)
    requires p <= |buf| && h.state == Start
    ensures PassIgnored(buf, h, p, u).state == Start
    decreases |buf| - p
  {
    if Reads(buf, p, HTTP_SLASH) {
      var e := Skip(buf, p + 5, NotLF);
      if e < |buf| {
        PassIgnoredStarts(buf, Ignored(buf, h, p, u), e + 1, u);
      }
    }
  }

  // On every buffer, the state machine and the reading give the same answer and the
  // same fields.
  lemma MachineReadsHeader(buf: seq<byte>, h: Header, p: nat, u: bool)
    requires p <= |buf| && h.state == Start
    ensures Same(Run(buf, h, p, u), ReadHeader(buf, h, p, u))
  {
    RunPassesIgnored(buf, h, p, u);
    PassIgnoredStarts(buf, h, p, u);
    MachineReadsHere(buf, PassIgnored(buf, h, p, u), AfterIgnored(buf, p), u);
  }
}
