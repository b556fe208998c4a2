// What happens after NGX_HTTP_PARSE_INVALID_HEADER: `pos`, `state` and `lowcase_index`
// are as before the call, the other fields as the call left them, and the reader calls
// the parser again.  The main result says exactly when that never ends.
module HeaderRetry {
  import opened Bytes
  import opened HeaderLine
  import opened HeaderReading

  // What every saved state satisfies: inside a name its first byte is known, and the
  // bytes received of it are not "HTTP/".
  ghost predicate Begun(buf: seq<byte>, h: Header, p: int) {
    h.state == Name ==>
      && 0 <= h.nameStart < p <= |buf| && !Blank.Has(buf[h.nameStart])
      && Span(buf, h.nameStart + 1, p, NameRest)
      && (h.nameStart + 5 <= p ==> !Reads(buf, h.nameStart, HTTP_SLASH))
  }

  lemma {:induction false} RunKeepsBegun(buf: seq<byte>, h: Header, p: nat, u: bool)
    requires p <= |buf| && Begun(buf, h, p)
    ensures Run(buf, h, p, u).Again? ==> Begun(buf, Run(buf, h, p, u).h, |buf|)
    decreases |buf| - p
  {
    if p < |buf| {
      match Step(buf, h, p, u)
      case Go(g) =>
        StepKeepsBegun(buf, h, p, u);
        RunKeepsBegun(buf, g, p + 1, u);
      case _ =>
    }
  }

  lemma StepKeepsBegun(buf: seq<byte>, h: Header, p: nat, u: bool)
    requires p < |buf| && Begun(buf, h, p) && Step(buf, h, p, u).Go?
    ensures Begun(buf, Step(buf, h, p, u).h, p + 1)
  {
    var g := Step(buf, h, p, u).h;
    if h.state == Name && g.state == Name && p == h.nameStart + 4 {
      ReadsSlice(buf, h.nameStart, HTTP_SLASH);
      assert buf[h.nameStart..p + 1][..4] == buf[h.nameStart..p];
    }
  }

  // With more bytes in the buffer the saved state is as good.
  lemma BegunLocal(buf: seq<byte>, more: seq<byte>, h: Header, p: int)
    requires Begun(buf, h, p) && p <= |buf|
    ensures Begun(buf + more, h, p)
  {
    if h.state == Name && h.nameStart + 5 <= p {
      assert (buf + more)[h.nameStart..h.nameStart + 5] == buf[h.nameStart..h.nameStart + 5];
    }
  }

  // ------------------------------------------------------------------
  // Whether a call answers INVALID_HEADER depends on little.

  ghost predicate Alike(h: Header, g: Header) {
    h.state == g.state && (h.state == Name ==> h.nameStart == g.nameStart)
  }

  lemma {:induction false} AlikeAnswers(buf: seq<byte>, h: Header, g: Header, p: nat, u: bool)
    requires p <= |buf| && Alike(h, g)
    ensures Run(buf, h, p, u).Invalid? <==> Run(buf, g, p, u).Invalid?
    decreases |buf| - p
  {
    if p < |buf| && Step(buf, h, p, u).Go? {
      AlikeSteps(buf, h, g, p, u);
      AlikeAnswers(buf, Step(buf, h, p, u).h, Step(buf, g, p, u).h, p + 1, u);
    } else if p < |buf| {
      AlikeSteps(buf, h, g, p, u);
    }
  }

  lemma AlikeSteps(buf: seq<byte>, h: Header, g: Header, p: nat, u: bool)
    requires p < |buf| && Alike(h, g)
    ensures Step(buf, h, p, u).Go? <==> Step(buf, g, p, u).Go?
    ensures Step(buf, h, p, u).Bad? <==> Step(buf, g, p, u).Bad?
    ensures Step(buf, h, p, u).Go? ==> Alike(Step(buf, h, p, u).h, Step(buf, g, p, u).h)
  {
  }

  // The rest of the name completes "HTTP/" at the known start.
  ghost predicate Completes(buf: seq<byte>, h: Header, p: nat)
    requires p <= |buf|
  {
    h.state == Name && p <= h.nameStart + 4 < Skip(buf, p, NameRest) && Reads(buf, h.nameStart, HTTP_SLASH)
  }

  predicate InLine(st: HeaderState) {
    st in {Name, SpaceBeforeValue, Value, SpaceAfterValue, AlmostDone}
  }

  // Without that the line that was begun is the one that is answered.
  lemma {:induction false} NameStartStays(buf: seq<byte>, h: Header, p: nat, u: bool)
    requires p <= |buf| && InLine(h.state) && !Completes(buf, h, p)
    ensures Run(buf, h, p, u).Invalid? ==> Run(buf, h, p, u).h.nameStart == h.nameStart
    decreases |buf| - p
  {
    if p < |buf| && Step(buf, h, p, u).Go? {
      StaysOneStep(buf, h, p, u);
      NameStartStays(buf, Step(buf, h, p, u).h, p + 1, u);
    }
  }

  lemma StaysOneStep(buf: seq<byte>, h: Header, p: nat, u: bool)
    requires p < |buf| && InLine(h.state) && !Completes(buf, h, p) && Step(buf, h, p, u).Go?
    ensures var g := Step(buf, h, p, u).h;
      InLine(g.state) && g.nameStart == h.nameStart && !Completes(buf, g, p + 1)
  {
  }

  // A name that begins later is found at or after q.
  lemma {:induction false} NameStartMoves(buf: seq<byte>, h: Header, q: nat, p: nat, u: bool)
    requires q <= p <= |buf| && (h.state == Start || h.nameStart >= q)
    ensures Run(buf, h, p, u).Invalid? ==> Run(buf, h, p, u).h.nameStart >= q
    decreases |buf| - p
  {
    if p < |buf| && Step(buf, h, p, u).Go? {
      NameStartMoves(buf, Step(buf, h, p, u).h, q, p + 1, u);
    }
  }

  // ------------------------------------------------------------------
  // Repeated calls.

  lemma RepeatsWhenPlain(buf: seq<byte>, h: Header, p: nat, u: bool)
    requires p <= |buf| && Run(buf, h, p, u).Invalid? && !Completes(buf, h, p)
    ensures var g := Retry(h, Run(buf, h, p, u).h);
      Run(buf, g, p, u).Invalid? && !Completes(buf, g, p)
  {
    if h.state == Name {
      NameStartStays(buf, h, p, u);
    }
    AlikeAnswers(buf, h, Retry(h, Run(buf, h, p, u).h), p, u);
  }

  lemma SkipStops(buf: seq<byte>, p: int, e: int, c: Class)
    requires 0 <= p <= e < |buf| && !c.Has(buf[e])
    ensures Skip(buf, p, c) <= e
  {
  }

  // The rest of the line, from p on, taken as the rest of a header line.
  ghost predicate Ordinary(buf: seq<byte>, h: Header, p: nat)
    requires p <= |buf|
  {
    var n := Skip(buf, p, NameRest);
    n < |buf| && ReadAfterName(buf, h, n).LineAt?
  }

  // A line with an LF in it is complete: it is a header line or wrong, by its bytes only.
  lemma CompleteLine(buf: seq<byte>, h: Header, g: Header, n: nat, e: nat)
    requires n <= e < |buf| && buf[e] == LF
    ensures !ReadAfterName(buf, h, n).More? && !ReadAfterName(buf, h, n).BlockAt?
    ensures ReadAfterName(buf, h, n).LineAt? <==> ReadAfterName(buf, g, n).LineAt?
    ensures ReadAfterName(buf, h, n).LineAt? ==>
      ReadAfterName(buf, h, n).h.nameEnd == n && ReadAfterName(buf, h, n).h.nameStart == h.nameStart
  {
    if buf[n] == COLON {
      SkipStops(buf, n + 1, e, Space);
      var s := Skip(buf, n + 1, Space);
      SkipStops(buf, s, e, LineByte);
      var t := Skip(buf, s, LineByte);
      SkipStops(buf, t, e, Return);
    } else {
      SkipStops(buf, n, e, Return);
    }
  }

  // From inside "HTTP/" to the '/'.
  lemma {:induction false} RunToSlash(buf: seq<byte>, h: Header, p: nat, u: bool) returns (g: Header)
    requires h.state == Name && h.nameStart < p <= h.nameStart + 4 && Reads(buf, h.nameStart, HTTP_SLASH)
    ensures g.state == Name && g.nameStart == h.nameStart
    ensures Run(buf, h, p, u) == Run(buf, g, h.nameStart + 4, u)
    decreases h.nameStart + 4 - p
  {
    g := h;
    if p < h.nameStart + 4 {
      HttpBytes(buf, h.nameStart);
      assert HTTP[p - h.nameStart] == buf[h.nameStart..h.nameStart + 4][p - h.nameStart] == buf[p];
      RunOne(buf, h, p, u, h.(low := Put(h.low, LowcaseOf(buf[p]))));
      g := RunToSlash(buf, h.(low := Put(h.low, LowcaseOf(buf[p]))), p + 1, u);
    }
  }

  // A resumed "HTTP/" line is passed over up to its LF at e.
  lemma RunPassesRest(buf: seq<byte>, h: Header, p: nat, u: bool) returns (g: Header, e: nat)
    requires h.state == Name && 0 <= h.nameStart < p <= h.nameStart + 4 && Reads(buf, h.nameStart, HTTP_SLASH)
    requires Run(buf, h, p, u).Invalid?
    ensures p < e < |buf| && buf[e] == LF && g.state == Start
    ensures Run(buf, h, p, u) == Run(buf, g, e + 1, u)
  {
    var q := h.nameStart + 4;
    g := RunToSlash(buf, h, p, u);
    HttpBytes(buf, h.nameStart);
    RunOne(buf, g, q, u, In(g, IgnoreLine));
    e := Skip(buf, q + 1, NotLF);
    RunIdle(buf, In(g, IgnoreLine), q + 1, e, u, NotLF);
    RunOne(buf, In(g, IgnoreLine), e, u, In(g, Start));
    g := In(g, Start);
  }

  // A name whose start lies behind its end is never taken for "HTTP/".
  lemma {:induction false} RunPlainName(buf: seq<byte>, h: Header, p: nat, n: nat, u: bool) returns (g: Header)
    requires h.state == Name && p <= n <= h.nameStart && Span(buf, p, n, NameRest)
    ensures g.state == Name && g.nameStart == h.nameStart
    ensures Run(buf, h, p, u) == Run(buf, g, n, u)
    decreases n - p
  {
    g := h;
    if p < n {
      assert NameRest.Has(buf[p]);
      RunOne(buf, h, p, u, Step(buf, h, p, u).h);
      g := RunPlainName(buf, Step(buf, h, p, u).h, p + 1, n, u);
    }
  }

  // After a resumed "HTTP/" line was passed over, the next call takes the rest of it for
  // a name that ends before it starts.
  lemma SecondCall(buf: seq<byte>, h: Header, p: nat, u: bool)
    requires p <= |buf| && Begun(buf, h, p) && Run(buf, h, p, u).Invalid?
    requires h.state == Name && Reads(buf, h.nameStart, HTTP_SLASH)
    ensures var g := Retry(h, Run(buf, h, p, u).h);
      var o := Run(buf, g, p, u);
      && (if Ordinary(buf, h, p) then o.Line? && o.h.nameEnd < o.h.nameStart else o.Invalid?)
      && !Completes(buf, g, p)
  {
    var f, e := RunPassesRest(buf, h, p, u);
    NameStartMoves(buf, f, e + 1, e + 1, u);
    var g := Retry(h, Run(buf, h, p, u).h);
    SkipStops(buf, p, e, NameRest);
    var n := Skip(buf, p, NameRest);
    var i := RunPlainName(buf, g, p, n, u);
    RunNameEnd(buf, i, n, u);
    CompleteLine(buf, In(i, Start), h, n, e);
  }

  // The fields before the call that follows k calls.
  function Retried(buf: seq<byte>, h: Header, p: nat, u: bool, k: nat): Header
    requires p <= |buf|
  {
    if k == 0 then h
    else
      var r := Retried(buf, h, p, u, k - 1);
      if Run(buf, r, p, u).Invalid? then Retry(r, Run(buf, r, p, u).h) else r
  }

  // The exception: the line was begun with part of "HTTP/" in an earlier read, is passed
  // over, and its rest reads as a header line.
  ghost predicate Excepted(buf: seq<byte>, h: Header, p: nat)
    requires p <= |buf|
  {
    h.state == Name && Reads(buf, h.nameStart, HTTP_SLASH) && Ordinary(buf, h, p)
  }

  // The next call answers the same exactly when the exception does not apply.
  lemma NextCall(buf: seq<byte>, h: Header, p: nat, u: bool)
    requires p <= |buf| && Begun(buf, h, p) && Run(buf, h, p, u).Invalid?
    ensures var g := Retry(h, Run(buf, h, p, u).h);
      (Run(buf, g, p, u).Invalid? <==> !Excepted(buf, h, p)) && !Completes(buf, g, p)
  {
    if h.state == Name && Reads(buf, h.nameStart, HTTP_SLASH) {
      SecondCall(buf, h, p, u);
    } else {
      RepeatsWhenPlain(buf, h, p, u);
    }
  }

  // After INVALID_HEADER every further call answers the same, however many there are,
  // exactly when the exception does not apply.
  lemma InvalidRepeatsExactly(buf: seq<byte>, h: Header, p: nat, u: bool)
    requires p <= |buf| && Begun(buf, h, p) && Run(buf, h, p, u).Invalid?
    ensures (forall k: nat :: Run(buf, Retried(buf, h, p, u, k), p, u).Invalid?) <==> !Excepted(buf, h, p)
  {
    NextCall(buf, h, p, u);
    assert Retried(buf, h, p, u, 1) == Retry(h, Run(buf, h, p, u).h);
    if Excepted(buf, h, p) {
      assert !Run(buf, Retried(buf, h, p, u, 1), p, u).Invalid?;
    } else {
      forall k: nat
        ensures Run(buf, Retried(buf, h, p, u, k), p, u).Invalid?
      {
        if k > 0 {
          AllLaterCalls(buf, h, p, u, k);
        }
      }
    }
  }

  lemma {:induction false} AllLaterCalls(buf: seq<byte>, h: Header, p: nat, u: bool, k: nat)
    requires p <= |buf| && k > 0
    requires var g := Retried(buf, h, p, u, 1); Run(buf, g, p, u).Invalid? && !Completes(buf, g, p)
    ensures var g := Retried(buf, h, p, u, k); Run(buf, g, p, u).Invalid? && !Completes(buf, g, p)
  {
    if k > 1 {
      AllLaterCalls(buf, h, p, u, k - 1);
      RepeatsWhenPlain(buf, Retried(buf, h, p, u, k - 1), p, u);
    }
  }

  const PASSED: seq<byte> := [72, 84, 84, 80, 47, 120, 10, 88, 13, 90]

  // "HTTP/x" LF "X" CR "Z", of which "HTT" came in an earlier read: the line is passed
  // over, the next is invalid, and the second call answers OK for "P/x".
  lemma ExceptionHappens(f: Header, u: bool)
    requires f.state == Start
    ensures var h := Run(PASSED[..3], f, 0, u).h;
      && Run(PASSED[..3], f, 0, u).Again? && Begun(PASSED, h, 3) && Excepted(PASSED, h, 3)
      && Run(PASSED, h, 3, u).Invalid?
      && var o := Run(PASSED, Retry(h, Run(PASSED, h, 3, u).h), 3, u);
         o.Line? && o.h.nameEnd < o.h.nameStart
  {
    var h := RunThree(f, u);
    var g := In(h, IgnoreLine);
    RunOne(PASSED, h, 3, u, h.(low := Put(h.low, 112)));
    g := In(h.(low := Put(h.low, 112)), IgnoreLine);
    assert PASSED[0..4] == HTTP;
    RunOne(PASSED, h.(low := Put(h.low, 112)), 4, u, g);
    RunOne(PASSED, g, 5, u, g);
    RunOne(PASSED, g, 6, u, In(g, Start));
    var i := Step(PASSED, In(g, Start), 7, u).h;
    RunOne(PASSED, In(g, Start), 7, u, i);
    RunOne(PASSED, i, 8, u, Step(PASSED, i, 8, u).h);
    assert PASSED[0..5] == HTTP_SLASH;
    SkipIsMaximal(PASSED, 3, 6, NameRest);
    SecondCall(PASSED, h, 3, u);
  }

  lemma RunThree(f: Header, u: bool) returns (h: Header)
    requires f.state == Start
    ensures Run(PASSED[..3], f, 0, u) == Again(h) && h.state == Name && h.nameStart == 0
  {
    var buf := PASSED[..3];
    h := Step(buf, f, 0, u).h;
    RunOne(buf, f, 0, u, h);
    RunOne(buf, h, 1, u, Step(buf, h, 1, u).h);
    h := Step(buf, h, 1, u).h;
    RunOne(buf, h, 2, u, Step(buf, h, 2, u).h);
    h := Step(buf, h, 2, u).h;
  }
}
