// Header lines, declaratively: where the name and the value of a line lie
// (section 4.2 of RFC 2616, as the source reads it), and that the state machine
// answers OK exactly on such lines, with exactly these slices.
module HeaderGrammar {
  import opened Bytes
  import opened HeaderLine
  import opened HeaderReading

  datatype Cut = Cut(
    nameStart: Offset, nameEnd: Offset,
    start: Offset, end: Offset,     // the value
    eol: Offset,                    // the first CR or LF
    pos: Offset)                    // the byte after the LF

  // The first byte belongs to the name whatever it is, even a ':'.
  ghost predicate MatchesName(buf: seq<byte>, c: Cut) {
    && 0 <= c.nameStart < c.nameEnd < |buf|
    && !Blank.Has(buf[c.nameStart]) && !Reads(buf, c.nameStart, HTTP_SLASH)
    && Span(buf, c.nameStart + 1, c.nameEnd, NameRest) && !NameRest.Has(buf[c.nameEnd])
  }

  // The value is what stands between the ':' and the end of the line, without the
  // spaces at either end; without a ':' it is empty.
  ghost predicate MatchesValue(buf: seq<byte>, c: Cut) {
    if 0 <= c.nameEnd < |buf| && buf[c.nameEnd] == COLON then
      && c.nameEnd < c.start <= c.end <= c.eol < |buf| && Blank.Has(buf[c.eol])
      && Span(buf, c.nameEnd + 1, c.start, Space)
      && Span(buf, c.start, c.end, LineByte) && Span(buf, c.end, c.eol, Space)
      && (c.start < c.end ==> buf[c.start] != SP && buf[c.end - 1] != SP)
      && (c.start == c.end ==> c.end == c.eol)
    else c.start == c.end == c.eol == c.nameEnd
  }

  // LF, or CR+ LF.
  ghost predicate MatchesEnd(buf: seq<byte>, c: Cut) {
    && 0 <= c.eol < c.pos <= |buf| && buf[c.pos - 1] == LF
    && Span(buf, c.eol, c.pos - 1, Return)
  }

  ghost predicate Matches(buf: seq<byte>, c: Cut) {
    MatchesName(buf, c) && MatchesValue(buf, c) && MatchesEnd(buf, c)
  }

  lemma EndIsRead(buf: seq<byte>, h: Header, c: Cut)
    requires MatchesEnd(buf, c)
    ensures ReadLineEnd(buf, h, c.eol) == LineAt(h, c.pos)
  {
    if c.eol < c.pos - 1 {
      assert Return.Has(buf[c.eol]);
      SkipIsMaximal(buf, c.eol, c.pos - 1, Return);
    }
  }

  lemma {:induction false} TrimIsUnique(buf: seq<byte>, s: int, t: int, e: int)
    requires 0 <= s < t <= e <= |buf| && buf[s] != SP && buf[t - 1] != SP && Span(buf, t, e, Space)
    ensures Trim(buf, s, e) == t
    decreases e
  {
    if t < e {
      assert Space.Has(buf[e - 1]);
      TrimIsUnique(buf, s, t, e - 1);
    }
  }

  lemma ValueIsRead(buf: seq<byte>, h: Header, c: Cut)
    requires 0 <= c.nameEnd < |buf| && buf[c.nameEnd] == COLON && MatchesValue(buf, c) && MatchesEnd(buf, c)
    ensures ReadValue(buf, h, c.nameEnd + 1) == LineAt(h.(start := c.start, end := c.end), c.pos)
  {
    SkipIsMaximal(buf, c.nameEnd + 1, c.start, Space);
    if c.start < c.end {
      assert LineByte.Has(buf[c.start]);
      forall k | c.start <= k < c.eol ensures LineByte.Has(buf[k]) {
        if k >= c.end {
          assert Space.Has(buf[k]);
        }
      }
      SkipIsMaximal(buf, c.start, c.eol, LineByte);
      TrimIsUnique(buf, c.start, c.end, c.eol);
    }
    EndIsRead(buf, h.(start := c.start, end := c.end), c);
  }

  // The fields that the cut determines.
  ghost predicate Cuts(buf: seq<byte>, c: Cut, g: Header, u: bool)
    requires 0 <= c.nameStart < c.nameEnd <= |buf|
  {
    && g.nameStart == c.nameStart && g.nameEnd == c.nameEnd && g.start == c.start && g.end == c.end
    && g.invalid == BadName(buf, c.nameStart, c.nameEnd, u)
  }

  lemma MatchIsRead(buf: seq<byte>, h: Header, c: Cut, u: bool) returns (g: Header)
    requires Matches(buf, c) && h.state == Start
    ensures ReadName(buf, h, c.nameStart, u) == LineAt(g, c.pos) && Cuts(buf, c, g, u)
    ensures g.low == NameLow(buf, h.low, c.nameStart, c.nameEnd, u)
  {
    SkipIsMaximal(buf, c.nameStart + 1, c.nameEnd, NameRest);
    g := AfterNameIsRead(buf, In(InName(buf, h, c.nameStart, c.nameEnd, u), Start), c);
  }

  lemma AfterNameIsRead(buf: seq<byte>, h: Header, c: Cut) returns (g: Header)
    requires 0 <= c.nameEnd < |buf| && MatchesValue(buf, c) && MatchesEnd(buf, c)
    ensures ReadAfterName(buf, h, c.nameEnd) == LineAt(g, c.pos)
    ensures g == h.(nameEnd := c.nameEnd, start := c.start, end := c.end)
  {
    g := h.(nameEnd := c.nameEnd, start := c.start, end := c.end);
    var i := h.(nameEnd := c.nameEnd);
    assert g == i.(start := c.start, end := c.end);
    if buf[c.nameEnd] == COLON {
      ValueIsRead(buf, i, c);
      assert ReadAfterName(buf, h, c.nameEnd) == ReadValue(buf, i, c.nameEnd + 1);
    } else {
      EndIsRead(buf, g, c);
      assert ReadAfterName(buf, h, c.nameEnd) == ReadLineEnd(buf, g, c.eol);
    }
  }

  lemma EndIsMatched(buf: seq<byte>, h: Header, e: nat, c: Cut) returns (d: Cut)
    requires e < |buf| && Blank.Has(buf[e]) && ReadLineEnd(buf, h, e).LineAt?
    ensures d == c.(eol := e, pos := ReadLineEnd(buf, h, e).pos) && MatchesEnd(buf, d)
    ensures ReadLineEnd(buf, h, e).h == h
  {
    d := c.(eol := e, pos := ReadLineEnd(buf, h, e).pos);
  }

  lemma ValueIsMatched(buf: seq<byte>, h: Header, c: Cut) returns (d: Cut)
    requires 0 <= c.nameEnd < |buf| && buf[c.nameEnd] == COLON && ReadValue(buf, h, c.nameEnd + 1).LineAt?
    ensures MatchesValue(buf, d) && MatchesEnd(buf, d) && d.nameStart == c.nameStart && d.nameEnd == c.nameEnd
    ensures ReadValue(buf, h, c.nameEnd + 1) == LineAt(h.(start := d.start, end := d.end), d.pos)
  {
    var s := Skip(buf, c.nameEnd + 1, Space);
    if Blank.Has(buf[s]) {
      d := EndIsMatched(buf, h.(start := s, end := s), s, c.(start := s, end := s));
    } else {
      var e := Skip(buf, s, LineByte);
      var t := Trim(buf, s, e);
      d := EndIsMatched(buf, h.(start := s, end := t), e, c.(start := s, end := t));
    }
  }

  lemma ReadIsMatched(buf: seq<byte>, h: Header, p: nat, u: bool) returns (c: Cut)
    requires p < |buf| && !Blank.Has(buf[p]) && !Reads(buf, p, HTTP_SLASH) && h.state == Start
    requires ReadName(buf, h, p, u).LineAt?
    ensures Matches(buf, c) && c.nameStart == p && c.pos == ReadName(buf, h, p, u).pos
  {
    var n := Skip(buf, p + 1, NameRest);
    c := AfterNameIsMatched(buf, In(InName(buf, h, p, n, u), Start), p, n);
  }

  lemma AfterNameIsMatched(buf: seq<byte>, i: Header, p: nat, n: nat) returns (c: Cut)
    requires p < n < |buf| && !NameRest.Has(buf[n]) && ReadAfterName(buf, i, n).LineAt?
    ensures MatchesValue(buf, c) && MatchesEnd(buf, c)
    ensures c.nameStart == p && c.nameEnd == n && c.pos == ReadAfterName(buf, i, n).pos
  {
    if buf[n] == COLON {
      c := ValueIsMatched(buf, i.(nameEnd := n), Cut(p, n, NIL, NIL, NIL, NIL));
    } else {
      c := EndIsMatched(buf, i.(nameEnd := n, start := n, end := n), n, Cut(p, n, n, n, NIL, NIL));
    }
  }

  lemma {:induction false} IgnoredLinesKeep(buf: seq<byte>, h: Header, p: nat, u: bool)
    requires p <= |buf| && h.state == Start
    ensures PassIgnored(buf, h, p, u).state == Start && |PassIgnored(buf, h, p, u).low.bytes| == |h.low.bytes|
    decreases |buf| - p
  {
    if Reads(buf, p, HTTP_SLASH) {
      var e := Skip(buf, p + 5, NotLF);
      if e < |buf| {
        NameLowLength(buf, h.low, p, p + 4, u);
        IgnoredLinesKeep(buf, Ignored(buf, h, p, u), e + 1, u);
      }
    }
  }

  lemma {:induction false} NameLowLength(buf: seq<byte>, low: Lowcase, p: int, n: int, u: bool)
    requires 0 <= p < n <= |buf|
    ensures |NameLow(buf, low, p, n, u).bytes| == |low.bytes|
    decreases n
  {
    if n > p + 1 {
      NameLowLength(buf, low, p, n - 1, u);
    }
  }

  // The ring after the name bytes buf[p..n]: byte j of the name is stored, in lower
  // case, at j mod 32, and the last min(k, 32) of the k bytes are there.
  ghost predicate Holds(r: Lowcase, buf: seq<byte>, p: int, n: int)
    requires 0 <= p <= n <= |buf|
  {
    && |r.bytes| == LC_HEADER_LEN && r.index == (n - p) % LC_HEADER_LEN
    && forall j :: p <= j < n && n - LC_HEADER_LEN <= j ==> At(r, j - p) == InLower(buf[j])
  }

  ghost function At(r: Lowcase, k: nat): byte
    requires |r.bytes| == LC_HEADER_LEN
  {
    r.bytes[k % LC_HEADER_LEN]
  }

  lemma PutHolds(r: Lowcase, buf: seq<byte>, p: int, n: int)
    requires 0 <= p <= n < |buf| && Holds(r, buf, p, n)
    ensures Holds(Put(r, InLower(buf[n])), buf, p, n + 1)
  {
    var k := n - p;
    assert (k % LC_HEADER_LEN + 1) % LC_HEADER_LEN == (k + 1) % LC_HEADER_LEN;
    var r' := Put(r, InLower(buf[n]));
    forall j | p <= j < n + 1 && n + 1 - LC_HEADER_LEN <= j ensures At(r', j - p) == InLower(buf[j]) {
      if j < n {
        ApartInRing(j - p, k);
        assert At(r, j - p) == InLower(buf[j]);
      }
    }
  }

  lemma ApartInRing(a: nat, b: nat)
    requires a < b < a + LC_HEADER_LEN
    ensures a % LC_HEADER_LEN != b % LC_HEADER_LEN
  {
  }

  lemma {:induction false} RingHoldsTheLastBytes(buf: seq<byte>, low: Lowcase, p: int, n: int, u: bool)
    requires 0 <= p < n <= |buf| && |low.bytes| == LC_HEADER_LEN && !BadName(buf, p, n, u)
    ensures Holds(NameLow(buf, low, p, n, u), buf, p, n)
    decreases n
  {
    if n > p + 1 {
      RingHoldsTheLastBytes(buf, low, p, n - 1, u);
      assert !BadByte(buf[n - 1], u);
      PutHolds(NameLow(buf, low, p, n - 1, u), buf, p, n - 1);
    } else {
      PutHolds(low.(index := 0), buf, p, p);
    }
  }

  function InLower(b: byte): byte {
    if b == UNDERSCORE then b else LowcaseOf(b)
  }

  ghost predicate Answers(buf: seq<byte>, h: Header, p: nat, u: bool, q: int)
    requires p <= |buf|
  {
    Run(buf, h, p, u).Line? && Run(buf, h, p, u).pos == q
  }

  // The parser answers OK exactly when, past the ignored lines, a header line stands;
  // it consumes exactly that line, strictly advancing, and the slices are its parts.
  lemma ExactHeaderLine(buf: seq<byte>, h: Header, p: nat, u: bool, q: nat)
    requires p <= |buf| && h.state == Start && |h.low.bytes| == LC_HEADER_LEN
    ensures Answers(buf, h, p, u, q) <==>
            exists c :: Matches(buf, c) && c.nameStart == AfterIgnored(buf, p) && c.pos == q
    ensures forall c :: Matches(buf, c) && c.nameStart == AfterIgnored(buf, p) && c.pos == q ==>
              Answers(buf, h, p, u, q) && Cuts(buf, c, Run(buf, h, p, u).h, u)
  {
    MachineReadsHeader(buf, h, p, u);
    IgnoredLinesKeep(buf, h, p, u);
    var g, a := PassIgnored(buf, h, p, u), AfterIgnored(buf, p);
    if Answers(buf, h, p, u, q) {
      var c := ReadIsMatched(buf, g, a, u);
    }
    forall c | Matches(buf, c) && c.nameStart == a && c.pos == q
      ensures Answers(buf, h, p, u, q) && Cuts(buf, c, Run(buf, h, p, u).h, u)
    {
      var f := MatchIsRead(buf, g, c, u);
    }
  }

  // When invalid_header is 0, lowcase_index and lowcase_header describe the name.
  lemma LowcaseDescribesTheName(buf: seq<byte>, h: Header, p: nat, u: bool, g: Header, q: nat)
    requires p <= |buf| && h.state == Start && |h.low.bytes| == LC_HEADER_LEN
    requires Run(buf, h, p, u) == Line(g, q) && !g.invalid
    ensures 0 <= g.nameStart < g.nameEnd <= |buf| && Holds(g.low, buf, g.nameStart, g.nameEnd)
  {
    MachineReadsHeader(buf, h, p, u);
    IgnoredLinesKeep(buf, h, p, u);
    NameOfLine(buf, PassIgnored(buf, h, p, u), AfterIgnored(buf, p), u, g, q);
  }

  lemma NameOfLine(buf: seq<byte>, h: Header, p: nat, u: bool, g: Header, q: nat)
    requires p <= |buf| && h.state == Start && |h.low.bytes| == LC_HEADER_LEN && !Reads(buf, p, HTTP_SLASH)
    requires ReadHere(buf, h, p, u) == LineAt(g, q) && !g.invalid
    ensures 0 <= g.nameStart < g.nameEnd <= |buf| && Holds(g.low, buf, g.nameStart, g.nameEnd)
  {
    var c := ReadIsMatched(buf, h, p, u);
    var f := MatchIsRead(buf, h, c, u);
    RingHoldsTheLastBytes(buf, h.low, c.nameStart, c.nameEnd, u);
  }
}
