// Whole request heads, declaratively: a request line, header lines and the blank line,
// and what `conn_read` makes of them: the fields of the line and the header map.
module HeadGrammar {
  import opened Bytes
  import opened Head
  import L = RequestLine
  import RG = RequestGrammar
  import U = UriMeaning
  import H = HeaderLine
  import HR = HeaderReading
  import HG = HeaderGrammar

  // The line that ends the head: LF or CR LF.
  predicate BlankLine(buf: seq<byte>, blank: nat, pos: nat) {
    && blank < |buf|
    && ((buf[blank] == LF && pos == blank + 1)
        || (blank + 1 < |buf| && buf[blank] == CR && buf[blank + 1] == LF && pos == blank + 2))
  }

  // From p on: header lines one after the other, and the blank line.  Lines that begin
  // with "HTTP/" are passed over.
  ghost predicate MatchesLines(buf: seq<byte>, p: nat, cuts: seq<HG.Cut>, blank: nat, pos: nat)
    requires p <= |buf|
    decreases |cuts|
  {
    if cuts == [] then blank == HR.AfterIgnored(buf, p) && BlankLine(buf, blank, pos)
    else
      && cuts[0].nameStart == HR.AfterIgnored(buf, p) && HG.Matches(buf, cuts[0])
      && MatchesLines(buf, cuts[0].pos, cuts[1..], blank, pos)
  }

  ghost predicate MatchesHead(buf: seq<byte>, l: RG.Layout, cuts: seq<HG.Cut>, blank: nat, pos: nat) {
    RG.Matches(buf, l) && MatchesLines(buf, l.lf + 1, cuts, blank, pos)
  }

  // buf[i..j] up to its first NUL is s.
  predicate Spells(buf: seq<byte>, i: int, j: int, s: seq<byte>) {
    && 0 <= i && i + |s| <= j <= |buf| && buf[i..i + |s|] == s && NUL !in s
    && (i + |s| < j ==> buf[i + |s|] == NUL)
  }

  // The line is kept, and its name is k.
  predicate Keeps(buf: seq<byte>, c: HG.Cut, k: seq<byte>) {
    c.nameEnd - c.nameStart < 1024 && c.end - c.start < 1024 && Spells(buf, c.nameStart, c.nameEnd, k)
  }

  // Of the lines kept under the name k, number i is the last.
  predicate IsLast(buf: seq<byte>, cuts: seq<HG.Cut>, i: nat, k: seq<byte>)
    requires i < |cuts|
  {
    Keeps(buf, cuts[i], k) && forall j :: i < j < |cuts| ==> !Keeps(buf, cuts[j], k)
  }

  // ------------------------------------------------------------------
  // One line.

  lemma {:induction false} CStringSpells(buf: seq<byte>, i: int, j: int)
    requires 0 <= i <= j <= |buf|
    ensures Spells(buf, i, j, CString(buf[i..j]))
    decreases j - i
  {
    if i < j && buf[i] != NUL {
      CStringSpells(buf, i + 1, j);
      assert buf[i..j][1..] == buf[i + 1..j];
      var s := CString(buf[i + 1..j]);
      assert buf[i..i + 1 + |s|] == [buf[i]] + buf[i + 1..i + 1 + |s|];
    }
  }

  lemma SpellsNoNul(buf: seq<byte>, i: int, j: int, s: seq<byte>)
    requires Spells(buf, i, j, s)
    ensures forall n :: i <= n < i + |s| ==> buf[n] == s[n - i] && buf[n] != NUL
  {
    forall n | i <= n < i + |s| ensures buf[n] == s[n - i] && buf[n] != NUL {
      assert buf[n] == buf[i..i + |s|][n - i];
    }
  }

  lemma SpellsOne(buf: seq<byte>, i: int, j: int, s: seq<byte>, t: seq<byte>)
    requires Spells(buf, i, j, s) && Spells(buf, i, j, t)
    ensures s == t
  {
    SpellsNoNul(buf, i, j, s);
    SpellsNoNul(buf, i, j, t);
  }

  ghost predicate Sound(buf: seq<byte>, c: HG.Cut) {
    0 <= c.nameStart <= c.nameEnd <= |buf| && 0 <= c.start <= c.end <= |buf|
  }

  lemma MatchIsSound(buf: seq<byte>, c: HG.Cut)
    requires HG.Matches(buf, c)
    ensures Sound(buf, c) && c.nameStart < c.pos <= |buf|
  {
  }

  // What one line does to the map.
  ghost function Enter(m: Headers, buf: seq<byte>, c: HG.Cut): Headers
    requires Sound(buf, c)
  {
    if c.nameEnd - c.nameStart < SMALLBUF && c.end - c.start < SMALLBUF then
      m[CString(buf[c.nameStart..c.nameEnd]) := CString(buf[c.start..c.end])]
    else m
  }

  lemma LineIsRead(buf: seq<byte>, h: H.Header, p: nat, c: HG.Cut, m: Headers) returns (g: H.Header)
    requires p <= |buf| && h.state == H.Start && c.nameStart == HR.AfterIgnored(buf, p) && HG.Matches(buf, c)
    ensures H.Run(buf, h, p, true) == H.Line(g, c.pos) && g.state == H.Start
    ensures Sound(buf, c) && Insert(m, buf, g) == Enter(m, buf, c)
  {
    var i := HR.PassIgnored(buf, h, p, true);
    HR.MachineReadsHeader(buf, h, p, true);
    HR.PassIgnoredStarts(buf, h, p, true);
    g := HG.MatchIsRead(buf, i, c, true);
    H.RunAdvances(buf, h, p, true);
    MatchIsSound(buf, c);
  }

  lemma BlankIsRead(buf: seq<byte>, h: H.Header, p: nat, blank: nat, pos: nat)
    requires p <= |buf| && h.state == H.Start && blank == HR.AfterIgnored(buf, p)
    requires BlankLine(buf, blank, pos)
    ensures var o := H.Run(buf, h, p, true);
      o.Block? && o.pos == pos && o.h.end == blank
  {
    HR.MachineReadsHeader(buf, h, p, true);
    HR.PassIgnoredStarts(buf, h, p, true);
  }

  // ------------------------------------------------------------------
  // All lines.

  ghost predicate AllSound(buf: seq<byte>, cuts: seq<HG.Cut>) {
    forall i :: 0 <= i < |cuts| ==> Sound(buf, cuts[i])
  }

  ghost function EnterAll(m: Headers, buf: seq<byte>, cuts: seq<HG.Cut>): Headers
    requires AllSound(buf, cuts)
    decreases |cuts|
  {
    if cuts == [] then m
    else
      assert Sound(buf, cuts[0]);
      EnterAll(Enter(m, buf, cuts[0]), buf, cuts[1..])
  }

  lemma {:induction false} LinesAreRead(buf: seq<byte>, h: H.Header, p: nat, m: Headers, cuts: seq<HG.Cut>, blank: nat, pos: nat)
    requires p <= |buf| && h.state == H.Start && MatchesLines(buf, p, cuts, blank, pos)
    ensures AllSound(buf, cuts)
    ensures var r := ReadHeaders(buf, h, p, m);
      r.Ended? && r.pos == pos && r.h.end == blank && r.headers == EnterAll(m, buf, cuts)
    decreases |cuts|
  {
    if cuts == [] {
      BlankIsRead(buf, h, p, blank, pos);
    } else {
      var g := LineIsRead(buf, h, p, cuts[0], m);
      H.RunAdvances(buf, h, p, true);
      LinesAreRead(buf, g, cuts[0].pos, Enter(m, buf, cuts[0]), cuts[1..], blank, pos);
      assert forall i :: 1 <= i < |cuts| ==> cuts[i] == cuts[1..][i - 1];
    }
  }

  lemma EnterKey(m: Headers, buf: seq<byte>, c: HG.Cut, k: seq<byte>)
    requires Sound(buf, c)
    ensures if Keeps(buf, c, k) then k in Enter(m, buf, c) && Spells(buf, c.start, c.end, Enter(m, buf, c)[k])
            else (k in Enter(m, buf, c) <==> k in m) && (k in m ==> Enter(m, buf, c)[k] == m[k])
  {
    var name := CString(buf[c.nameStart..c.nameEnd]);
    CStringSpells(buf, c.nameStart, c.nameEnd);
    CStringSpells(buf, c.start, c.end);
    if Spells(buf, c.nameStart, c.nameEnd, k) {
      SpellsOne(buf, c.nameStart, c.nameEnd, k, name);
    }
  }

  lemma {:induction false} OthersAreKept(m: Headers, buf: seq<byte>, cuts: seq<HG.Cut>, k: seq<byte>)
    requires AllSound(buf, cuts) && forall i :: 0 <= i < |cuts| ==> !Keeps(buf, cuts[i], k)
    ensures k in EnterAll(m, buf, cuts) <==> k in m
    ensures k in m ==> EnterAll(m, buf, cuts)[k] == m[k]
    decreases |cuts|
  {
    if cuts != [] {
      EnterKey(m, buf, cuts[0], k);
      OthersAreKept(Enter(m, buf, cuts[0]), buf, cuts[1..], k);
    }
  }

  lemma {:induction false} LastIsHeld(m: Headers, buf: seq<byte>, cuts: seq<HG.Cut>, i: nat, k: seq<byte>)
    requires AllSound(buf, cuts) && i < |cuts| && IsLast(buf, cuts, i, k)
    ensures k in EnterAll(m, buf, cuts) && Spells(buf, cuts[i].start, cuts[i].end, EnterAll(m, buf, cuts)[k])
    decreases |cuts|
  {
    var rest, n := cuts[1..], Enter(m, buf, cuts[0]);
    assert forall j :: 0 <= j < |rest| ==> rest[j] == cuts[j + 1];
    EnterKey(m, buf, cuts[0], k);
    if i == 0 {
      OthersAreKept(n, buf, rest, k);
    } else {
      assert IsLast(buf, rest, i - 1, k);
      LastIsHeld(n, buf, rest, i - 1, k);
    }
  }

  lemma {:induction false} LastLine(buf: seq<byte>, cuts: seq<HG.Cut>, i: nat, k: seq<byte>) returns (j: nat)
    requires i < |cuts| && Keeps(buf, cuts[i], k)
    ensures j < |cuts| && IsLast(buf, cuts, j, k)
    decreases |cuts| - i
  {
    j := i;
    if !IsLast(buf, cuts, i, k) {
      var n :| i < n < |cuts| && Keeps(buf, cuts[n], k);
      j := LastLine(buf, cuts, n, k);
    }
  }

  // The map holds exactly the names of the lines that are kept, and for each the value of
  // the last such line.
  ghost predicate Holds(headers: Headers, buf: seq<byte>, cuts: seq<HG.Cut>) {
    && (forall k :: k in headers <==> exists i :: 0 <= i < |cuts| && Keeps(buf, cuts[i], k))
    && forall i, k :: 0 <= i < |cuts| && IsLast(buf, cuts, i, k) ==>
         k in headers && Spells(buf, cuts[i].start, cuts[i].end, headers[k])
  }

  lemma EnterAllHolds(buf: seq<byte>, cuts: seq<HG.Cut>)
    requires AllSound(buf, cuts)
    ensures Holds(EnterAll(map[], buf, cuts), buf, cuts)
  {
    var m := EnterAll(map[], buf, cuts);
    forall k: seq<byte>
      ensures k in m <==> exists i :: 0 <= i < |cuts| && Keeps(buf, cuts[i], k)
    {
      if i :| 0 <= i < |cuts| && Keeps(buf, cuts[i], k) {
        var j := LastLine(buf, cuts, i, k);
        LastIsHeld(map[], buf, cuts, j, k);
      } else {
        OthersAreKept(map[], buf, cuts, k);
      }
    }
    forall i, k | 0 <= i < |cuts| && IsLast(buf, cuts, i, k)
      ensures k in m && Spells(buf, cuts[i].start, cuts[i].end, m[k])
    {
      LastIsHeld(map[], buf, cuts, i, k);
    }
  }

  // ------------------------------------------------------------------
  // Heads.

  // The two phases of one read on a new connection.
  lemma TwoPhases(buf: seq<byte>, s: L.Line, q: nat)
    requires L.Run(buf, L.FRESH, 0) == L.Done(s, q)
    ensures q <= |buf|
    ensures Feed(INIT, buf) ==
      if U.Refused(buf, s.uri) then BadRequest
      else HeaderPhase(INIT.(buf := buf, line := s, pos := q))
  {
    L.RunBounds(buf, L.FRESH, 0);
    assert INIT.buf + buf == buf;
  }

  // Every head that matches is passed on, unless its path is refused: with the fields of
  // its request line, with its header map, and with `pos` right after the blank line.
  lemma HeadIsRead(buf: seq<byte>, l: RG.Layout, cuts: seq<HG.Cut>, blank: nat, pos: nat)
    requires MatchesHead(buf, l, cuts, blank, pos)
    ensures var r := Feed(INIT, buf);
      if U.Refused(buf, RG.Fields(buf, l).uri) then r == BadRequest
      else r.Complete? && r.line == RG.Fields(buf, l) && r.pos == pos && r.headerEnd == blank
           && Holds(r.headers, buf, cuts)
  {
    LineOfHead(buf, l);
    TwoPhases(buf, RG.Fields(buf, l), l.lf + 1);
    LinesAreRead(buf, INIT.header, l.lf + 1, map[], cuts, blank, pos);
    EnterAllHolds(buf, cuts);
  }

  lemma LineOfHead(buf: seq<byte>, l: RG.Layout)
    requires RG.Matches(buf, l)
    ensures 0 <= l.lf && L.Run(buf, L.FRESH, 0) == L.Done(RG.Fields(buf, l), l.lf + 1)
  {
    RG.ExactLanguage(buf, RG.Fields(buf, l), l.lf + 1);
  }

  // However the head arrives.
  lemma HeadInPiecesIsRead(pieces: seq<seq<byte>>, l: RG.Layout, cuts: seq<HG.Cut>, blank: nat, pos: nat)
    requires MatchesHead(Concat(pieces), l, cuts, blank, pos)
    ensures var buf, r := Concat(pieces), FeedAll(INIT, pieces);
      if U.Refused(buf, RG.Fields(buf, l).uri) then r == BadRequest
      else r.Complete? && r.line == RG.Fields(buf, l) && r.pos == pos && r.headerEnd == blank
           && Holds(r.headers, buf, cuts)
  {
    HeadIsRead(Concat(pieces), l, cuts, blank, pos);
    FragmentationIndependence(INIT, pieces);
  }

  // Every line that is read is one that matches.
  lemma LineIsMatched(buf: seq<byte>, h: H.Header, p: nat) returns (c: HG.Cut)
    requires p <= |buf| && h.state == H.Start && H.Run(buf, h, p, true).Line?
    ensures HG.Matches(buf, c) && c.nameStart == HR.AfterIgnored(buf, p) && c.pos == H.Run(buf, h, p, true).pos
  {
    HR.MachineReadsHeader(buf, h, p, true);
    HR.PassIgnoredStarts(buf, h, p, true);
    c := HG.ReadIsMatched(buf, HR.PassIgnored(buf, h, p, true), HR.AfterIgnored(buf, p), true);
  }

  lemma BlankIsMatched(buf: seq<byte>, h: H.Header, p: nat) returns (blank: nat)
    requires p <= |buf| && h.state == H.Start && H.Run(buf, h, p, true).Block?
    ensures blank == HR.AfterIgnored(buf, p) && BlankLine(buf, blank, H.Run(buf, h, p, true).pos)
  {
    HR.MachineReadsHeader(buf, h, p, true);
    HR.PassIgnoredStarts(buf, h, p, true);
    blank := HR.AfterIgnored(buf, p);
  }

  lemma {:induction false} LinesAreMatched(buf: seq<byte>, h: H.Header, p: nat, m: Headers)
    returns (cuts: seq<HG.Cut>, blank: nat)
    requires p <= |buf| && h.state == H.Start && ReadHeaders(buf, h, p, m).Ended?
    ensures MatchesLines(buf, p, cuts, blank, ReadHeaders(buf, h, p, m).pos)
    decreases |buf| - p
  {
    H.RunAdvances(buf, h, p, true);
    match H.Run(buf, h, p, true)
    case Line(g, q) =>
      var c := LineIsMatched(buf, h, p);
      cuts, blank := LinesAreMatched(buf, g, q, Insert(m, buf, g));
      assert ([c] + cuts)[1..] == cuts;
      cuts := [c] + cuts;
    case Block(_, _) =>
      cuts := [];
      blank := BlankIsMatched(buf, h, p);
  }

  // And every head that is passed on matches.
  lemma HeadIsMatched(buf: seq<byte>) returns (l: RG.Layout, cuts: seq<HG.Cut>, blank: nat)
    requires Feed(INIT, buf).Complete?
    ensures MatchesHead(buf, l, cuts, blank, Feed(INIT, buf).pos)
    ensures !U.Refused(buf, RG.Fields(buf, l).uri)
  {
    var s, q := CompleteLine(buf);
    l := LayoutOf(buf, s, q);
    TwoPhases(buf, s, q);
    cuts, blank := LinesAreMatched(buf, INIT.header, q, map[]);
  }

  lemma LayoutOf(buf: seq<byte>, s: L.Line, q: nat) returns (l: RG.Layout)
    requires L.Run(buf, L.FRESH, 0) == L.Done(s, q)
    ensures RG.Matches(buf, l) && q == l.lf + 1 && s == RG.Fields(buf, l)
  {
    RG.ExactLanguage(buf, s, q);
    l :| RG.Matches(buf, l) && q == l.lf + 1 && s == RG.Fields(buf, l);
  }

  // A new connection is refused exactly for its request line or the path in it, and stops
  // at an invalid header line exactly when the line was accepted and the loop meets one.
  lemma RefusedExactly(buf: seq<byte>)
    ensures Feed(INIT, buf) == BadRequest <==>
            var o := L.Run(buf, L.FRESH, 0);
            o.Failed? || (o.Done? && U.Refused(buf, o.line.uri))
    ensures L.Run(buf, L.FRESH, 0).Again? ==> Feed(INIT, buf).Waiting?
    ensures Feed(INIT, buf) == InvalidLine <==>
            var o := L.Run(buf, L.FRESH, 0);
            o.Done? && !U.Refused(buf, o.line.uri) && o.pos <= |buf| && ReadHeaders(buf, INIT.header, o.pos, map[]).Stuck?
  {
    L.RunBounds(buf, L.FRESH, 0);
    assert INIT.buf + buf == buf;
  }
}
