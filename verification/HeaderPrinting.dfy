// The header block that `conn_compile_resp` prints, and the proof that the header
// loop of `conn_read` reads it back.
module HeaderPrinting {
  import opened Bytes
  import opened Head
  import H = HeaderLine
  import HR = HeaderReading
  import HG = HeaderGrammar
  import L = RequestLine

  const COLON_SPACE: seq<byte> := [58, 32]
  const CRLF: seq<byte> := [13, 10]
  // "Content-Type" and "; charset=utf8"
  const CONTENT_TYPE: seq<byte> := [67, 111, 110, 116, 101, 110, 116, 45, 84, 121, 112, 101]
  const CHARSET: seq<byte> := [59, 32, 99, 104, 97, 114, 115, 101, 116, 61, 117, 116, 102, 56]

  // The map that is printed: Content-Type, if present, gets the charset.
  function WithCharset(m: Headers): Headers {
    if CONTENT_TYPE in m then m[CONTENT_TYPE := m[CONTENT_TYPE] + CHARSET] else m
  }

  // Names and values are printed as C strings, up to their first NUL.
  function PrintEntry(k: seq<byte>, v: seq<byte>): seq<byte> {
    CString(k) + COLON_SPACE + CString(v) + CRLF
  }

  lemma EntryJoins(c: seq<byte>, x: seq<byte>, v: seq<byte>)
    ensures c + x + COLON_SPACE + v + CRLF == c + (x + COLON_SPACE + v + CRLF)
  {
  }

  // The entries of m for the names ks, in that order.
  function PrintEntries(ks: seq<seq<byte>>, m: Headers): seq<byte>
    requires forall k :: k in ks ==> k in m
  {
    if ks == [] then [] else PrintEntry(ks[0], m[ks[0]]) + PrintEntries(ks[1..], m)
  }

  lemma {:induction false} PrintAppends(ks: seq<seq<byte>>, k: seq<byte>, m: Headers)
    requires (forall x :: x in ks ==> x in m) && k in m
    ensures PrintEntries(ks + [k], m) == PrintEntries(ks, m) + PrintEntry(k, m[k])
    decreases |ks|
  {
    if ks == [] {
      assert ks + [k] == [k];
    } else {
      assert (ks + [k])[1..] == ks[1..] + [k];
      PrintAppends(ks[1..], k, m);
    }
  }

  // ks lists the names of m, as walking the source's map does.
  ghost predicate Lists(ks: seq<seq<byte>>, m: Headers) {
    forall k :: k in ks <==> k in m
  }

  predicate GoodName(k: seq<byte>) {
    && 0 < |k| < SMALLBUF && !(H.HTTP_SLASH <= k)
    && forall i :: 0 <= i < |k| ==> NameRest.Has(k[i]) && k[i] != NUL
  }

  predicate GoodValue(v: seq<byte>) {
    && |v| < SMALLBUF
    && (forall i :: 0 <= i < |v| ==> LineByte.Has(v[i]) && v[i] != NUL)
    && (|v| > 0 ==> v[0] != SP && v[|v| - 1] != SP)
  }

  // All names and values of the map can be read back.
  ghost predicate Good(m: Headers) {
    forall k :: k in m ==> GoodName(k) && GoodValue(m[k])
  }

  lemma {:induction false} CStringOfGood(s: seq<byte>)
    requires forall i :: 0 <= i < |s| ==> s[i] != NUL
    ensures CString(s) == s
  {
    if s != [] {
      CStringOfGood(s[1..]);
    }
  }

  lemma GoodEntry(k: seq<byte>, v: seq<byte>)
    requires GoodName(k) && GoodValue(v)
    ensures PrintEntry(k, v) == k + COLON_SPACE + v + CRLF
  {
    CStringOfGood(k);
    CStringOfGood(v);
  }

  // The bytes of one entry printed at p.
  lemma EntryBytes(buf: seq<byte>, p: nat, k: seq<byte>, v: seq<byte>)
    requires Reads(buf, p, PrintEntry(k, v)) && GoodName(k) && GoodValue(v)
    ensures var n, s := p + |k|, p + |k| + 2;
            && s + |v| + 2 <= |buf| && |PrintEntry(k, v)| == |k| + |v| + 4
            && Reads(buf, p, k) && buf[n] == COLON && buf[n + 1] == SP
            && Reads(buf, s, v) && buf[s + |v|] == CR && buf[s + |v| + 1] == LF
  {
    var n, s := p + |k|, p + |k| + 2;
    GoodEntry(k, v);
    ReadsParts(buf, p, k + COLON_SPACE + v, CRLF);
    ReadsParts(buf, p, k + COLON_SPACE, v);
    ReadsParts(buf, p, k, COLON_SPACE);
    assert buf[n + 0] == COLON_SPACE[0] && buf[n + 1] == COLON_SPACE[1];
    assert buf[s + |v| + 0] == CRLF[0] && buf[s + |v| + 1] == CRLF[1];
  }

  lemma EntryMatches(buf: seq<byte>, p: nat, k: seq<byte>, v: seq<byte>) returns (c: HG.Cut)
    requires Reads(buf, p, PrintEntry(k, v)) && GoodName(k) && GoodValue(v)
    ensures HG.Matches(buf, c) && c.nameStart == p && c.pos == p + |PrintEntry(k, v)|
    ensures buf[p..c.nameEnd] == k && c.start <= c.end <= |buf| && buf[c.start..c.end] == v
  {
    EntryBytes(buf, p, k, v);
    var n, s := p + |k|, p + |k| + 2;
    c := HG.Cut(p, n, s, s + |v|, s + |v|, s + |v| + 2);
    NameMatches(buf, p, k, c);
    ValueMatches(buf, s, v, c);
    ReadsSlice(buf, p, k);
    ReadsSlice(buf, s, v);
  }

  lemma NameMatches(buf: seq<byte>, p: nat, k: seq<byte>, c: HG.Cut)
    requires Reads(buf, p, k) && p + |k| < |buf| && buf[p + |k|] == COLON && GoodName(k)
    requires c.nameStart == p && c.nameEnd == p + |k|
    ensures HG.MatchesName(buf, c)
  {
    NotIgnored(buf, p, k);
    SameClass(buf, p, k, NameRest);
    assert buf[p + 0] == k[0];
  }

  lemma ValueMatches(buf: seq<byte>, s: nat, v: seq<byte>, c: HG.Cut)
    requires Reads(buf, s, v) && s + |v| + 1 < |buf| && buf[s + |v|] == CR && buf[s + |v| + 1] == LF && GoodValue(v)
    requires 0 <= c.nameEnd == s - 2 && buf[s - 2] == COLON && buf[s - 1] == SP
    requires c.start == s && c.end == c.eol == s + |v| && c.pos == s + |v| + 2
    ensures HG.MatchesValue(buf, c) && HG.MatchesEnd(buf, c)
  {
    SameClass(buf, s, v, LineByte);
    if v != [] {
      assert buf[s + 0] == v[0] && buf[s + (|v| - 1)] == v[|v| - 1];
      assert buf[s] != SP && buf[s + |v| - 1] != SP;
    }
  }

  lemma SameClass(buf: seq<byte>, p: nat, w: seq<byte>, c: Class)
    requires Reads(buf, p, w) && forall i :: 0 <= i < |w| ==> c.Has(w[i])
    ensures Span(buf, p, p + |w|, c)
  {
    forall i | p <= i < p + |w| ensures c.Has(buf[i]) {
      assert buf[p + (i - p)] == w[i - p];
    }
  }

  lemma NotIgnored(buf: seq<byte>, p: nat, k: seq<byte>)
    requires p + |k| < |buf| && Reads(buf, p, k) && buf[p + |k|] == COLON
    requires !(H.HTTP_SLASH <= k)
    ensures !Reads(buf, p, H.HTTP_SLASH)
  {
    ReadsSlice(buf, p, k);
    ReadsSlice(buf, p, H.HTTP_SLASH);
    if p + 5 <= |buf| {
      var w := buf[p..p + 5];
      if |k| < 5 {
        assert w[|k|] == buf[p + |k|];
      } else {
        assert k[..5] == buf[p..p + |k|][..5] == w;
      }
    }
  }

  lemma EntryIsRead(buf: seq<byte>, h: H.Header, p: nat, k: seq<byte>, v: seq<byte>, m: Headers) returns (g: H.Header)
    requires Reads(buf, p, PrintEntry(k, v)) && GoodName(k) && GoodValue(v) && h.state == H.Start
    ensures g.state == H.Start
    ensures ReadHeaders(buf, h, p, m) == ReadHeaders(buf, g, p + |PrintEntry(k, v)|, m[k := v])
  {
    g := EntryRun(buf, h, p, k, v);
    CStringOfGood(k);
    CStringOfGood(v);
    assert Insert(m, buf, g) == m[k := v];
  }

  lemma EntryRun(buf: seq<byte>, h: H.Header, p: nat, k: seq<byte>, v: seq<byte>) returns (g: H.Header)
    requires Reads(buf, p, PrintEntry(k, v)) && GoodName(k) && GoodValue(v) && h.state == H.Start
    ensures H.Run(buf, h, p, true) == H.Line(g, p + |PrintEntry(k, v)|) && g.state == H.Start
    ensures L.Slice(buf, g.nameStart, g.nameEnd) == k && L.Slice(buf, g.start, g.end) == v
    ensures g.nameEnd - g.nameStart == |k| && g.end - g.start == |v|
  {
    var c := EntryMatches(buf, p, k, v);
    g := HG.MatchIsRead(buf, h, c, true);
    HR.MachineReadsHeader(buf, h, p, true);
    H.RunAdvances(buf, h, p, true);
  }

  lemma ReadsParts(buf: seq<byte>, p: nat, a: seq<byte>, b: seq<byte>)
    requires Reads(buf, p, a + b)
    ensures Reads(buf, p, a) && Reads(buf, p + |a|, b)
  {
    forall k | 0 <= k < |a| ensures buf[p + k] == a[k] {
      assert (a + b)[k] == a[k];
    }
    forall k | 0 <= k < |b| ensures buf[(p + |a|) + k] == b[k] {
      assert buf[p + (|a| + k)] == (a + b)[|a| + k] == b[k];
    }
  }

  // What the loop has put into the map after the entries ks.
  function Collect(m: Headers, ks: seq<seq<byte>>, out: Headers): Headers
    requires forall k :: k in ks ==> k in out
    decreases |ks|
  {
    if ks == [] then m else Collect(m[ks[0] := out[ks[0]]], ks[1..], out)
  }

  lemma {:induction false} Collected(m: Headers, ks: seq<seq<byte>>, out: Headers)
    requires forall k :: k in ks ==> k in out
    ensures forall k :: k in Collect(m, ks, out) <==> k in m || k in ks
    ensures forall k :: k in Collect(m, ks, out) ==>
              Collect(m, ks, out)[k] == if k in ks then out[k] else m[k]
    decreases |ks|
  {
    if ks != [] {
      Collected(m[ks[0] := out[ks[0]]], ks[1..], out);
    }
  }

  lemma {:induction false} EntriesAreRead(buf: seq<byte>, h: H.Header, p: nat, ks: seq<seq<byte>>, out: Headers, m: Headers)
    returns (g: H.Header)
    requires Good(out) && (forall k :: k in ks ==> k in out) && h.state == H.Start
    requires Reads(buf, p, PrintEntries(ks, out))
    ensures g.state == H.Start
    ensures ReadHeaders(buf, h, p, m) == ReadHeaders(buf, g, p + |PrintEntries(ks, out)|, Collect(m, ks, out))
    decreases |ks|
  {
    g := h;
    if ks != [] {
      var e, rest := PrintEntry(ks[0], out[ks[0]]), PrintEntries(ks[1..], out);
      ReadsParts(buf, p, e, rest);
      g := EntryIsRead(buf, h, p, ks[0], out[ks[0]], m);
      g := EntriesAreRead(buf, g, p + |e|, ks[1..], out, m[ks[0] := out[ks[0]]]);
    }
  }

  // The blank line ends the block.
  lemma BlankLineIsRead(buf: seq<byte>, h: H.Header, p: nat, m: Headers)
    requires Reads(buf, p, CRLF) && h.state == H.Start
    ensures var r := ReadHeaders(buf, h, p, m);
            r.Ended? && r.headers == m && r.pos == p + 2
  {
    assert buf[p + 0] == CRLF[0] && buf[p + 1] == CRLF[1];
    assert buf[p + 0] != H.HTTP_SLASH[0];
    HR.MachineReadsHeader(buf, h, p, true);
  }

  // A status line "HTTP/..." LF is passed over.
  lemma StatusLineIsSkipped(buf: seq<byte>, h: H.Header, p: nat, e: nat, m: Headers) returns (g: H.Header)
    requires Reads(buf, p, H.HTTP_SLASH) && h.state == H.Start
    requires p + 5 <= e < |buf| && Span(buf, p + 5, e, NotLF) && buf[e] == LF
    ensures g.state == H.Start
    ensures ReadHeaders(buf, h, p, m) == ReadHeaders(buf, g, e + 1, m)
  {
    SkipIsMaximal(buf, p + 5, e, NotLF);
    HR.RunIgnored(buf, h, p, true);
    g := HR.Ignored(buf, h, p, true);
  }

  predicate IsStatusLine(s: seq<byte>) {
    && H.HTTP_SLASH <= s && |s| > 5 && s[|s| - 1] == LF
    && forall i :: 0 <= i < |s| - 1 ==> s[i] != LF
  }

  // Printing and reading back: the header loop, run on a printed response, passes over
  // the status line, returns exactly the map that was printed and stops right after
  // the blank line, whatever follows.
  lemma PrintedHeadersAreRead(status: seq<byte>, ks: seq<seq<byte>>, out: Headers, rest: seq<byte>, h: H.Header)
    requires IsStatusLine(status) && Good(out) && Lists(ks, out) && h.state == H.Start
    ensures var text := status + PrintEntries(ks, out) + CRLF;
            && ReadHeaders(text + rest, h, 0, map[]).Ended?
            && ReadHeaders(text + rest, h, 0, map[]).headers == out
            && ReadHeaders(text + rest, h, 0, map[]).pos == |text|
  {
    var es := PrintEntries(ks, out);
    var buf := status + es + CRLF + rest;
    var e := |status| - 1;
    Parts(status, es, rest);
    var g := StatusLineIsSkipped(buf, h, 0, e, map[]);
    BlockIsRead(buf, g, e + 1, ks, out);
  }

  // The same from the map before the charset is added to its Content-Type.
  lemma ResponseIsRead(status: seq<byte>, ks: seq<seq<byte>>, out: Headers, rest: seq<byte>, h: H.Header)
    requires IsStatusLine(status) && Good(out) && Lists(ks, WithCharset(out)) && h.state == H.Start
    requires CONTENT_TYPE in out ==> |out[CONTENT_TYPE]| + |CHARSET| < SMALLBUF
    ensures var text := status + PrintEntries(ks, WithCharset(out)) + CRLF;
            var r := ReadHeaders(text + rest, h, 0, map[]);
            && r.Ended? && r.pos == |text| && r.headers.Keys == out.Keys
            && forall k :: k in out ==>
                 r.headers[k] == if k == CONTENT_TYPE then out[k] + CHARSET else out[k]
  {
    if CONTENT_TYPE in out {
      var v := out[CONTENT_TYPE];
      assert GoodValue(v);
      assert CHARSET[0] != SP && CHARSET[|CHARSET| - 1] != SP;
      assert (v + CHARSET)[|v + CHARSET| - 1] == CHARSET[|CHARSET| - 1];
      assert forall i :: 0 <= i < |CHARSET| ==> LineByte.Has(CHARSET[i]) && CHARSET[i] != NUL;
      assert GoodValue(v + CHARSET);
    }
    assert Good(WithCharset(out));
    PrintedHeadersAreRead(status, ks, WithCharset(out), rest, h);
  }

  lemma Parts(status: seq<byte>, es: seq<byte>, rest: seq<byte>)
    requires IsStatusLine(status)
    ensures var buf, e := status + es + CRLF + rest, |status| - 1;
            && Reads(buf, 0, H.HTTP_SLASH) && Span(buf, 5, e, NotLF) && buf[e] == LF
            && Reads(buf, e + 1, es) && Reads(buf, e + 1 + |es|, CRLF)
  {
    var buf, e := status + es + CRLF + rest, |status| - 1;
    assert buf[..|status|] == status;
    assert buf[0..5] == status[..5];
    assert buf[e + 1..e + 1 + |es + CRLF|] == es + CRLF;
    ReadsSlice(buf, e + 1, es + CRLF);
    ReadsParts(buf, e + 1, es, CRLF);
  }

  lemma BlockIsRead(buf: seq<byte>, h: H.Header, p: nat, ks: seq<seq<byte>>, out: Headers)
    requires Good(out) && Lists(ks, out) && h.state == H.Start
    requires Reads(buf, p, PrintEntries(ks, out)) && Reads(buf, p + |PrintEntries(ks, out)|, CRLF)
    ensures var r := ReadHeaders(buf, h, p, map[]);
            r.Ended? && r.headers == out && r.pos == p + |PrintEntries(ks, out)| + 2
  {
    var g := EntriesAreRead(buf, h, p, ks, out, map[]);
    Collected(map[], ks, out);
    assert Collect(map[], ks, out) == out;
    BlankLineIsRead(buf, g, p + |PrintEntries(ks, out)|, out);
  }

  // The constants are these texts.
  lemma Texts()
    ensures IsText(CONTENT_TYPE, "Content-Type") && IsText(CHARSET, "; charset=utf8")
    ensures IsText(COLON_SPACE, ": ") && IsText(CRLF, "\r\n")
    ensures IsText(H.HTTP_SLASH, "HTTP/") && IsText(H.HTTP, "HTTP")
  {
  }
}
