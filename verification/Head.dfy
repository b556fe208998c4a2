// The head phases of `conn_read`: bytes arrive in pieces, the request line is parsed,
// then the header lines go into a map until the blank line.  The main result is that
// the pieces do not matter.
module Head {
  import opened Bytes
  import opened UriMeaning
  import L = RequestLine
  import H = HeaderLine
  import Retry = HeaderRetry

  const SMALLBUF: nat := 1024

  type Headers = map<seq<byte>, seq<byte>>

  // What a connection keeps between two reads.
  datatype Reader = Reader(buf: seq<byte>, pos: nat, line: L.Line, header: H.Header, headers: Headers)

  const INIT: Reader := Reader([], 0, L.FRESH, H.FRESH, map[])

  datatype Progress =
    | Waiting(r: Reader)                        // goto again
    | BadRequest                                // status 400, then the response
    | Complete(line: L.Line, headers: Headers, headerEnd: Offset, pos: nat)
    | InvalidLine                               // the header parser answered INVALID_HEADER

  // A name or value is copied through a C string, so it ends at its first NUL.
  function CString(s: seq<byte>): seq<byte> {
    if s == [] || s[0] == NUL then [] else [s[0]] + CString(s[1..])
  }

  // Lines with a name or a value that does not fit are dropped.
  function Insert(m: Headers, buf: seq<byte>, h: H.Header): Headers {
    if h.nameEnd - h.nameStart < SMALLBUF && h.end - h.start < SMALLBUF then
      m[CString(L.Slice(buf, h.nameStart, h.nameEnd)) := CString(L.Slice(buf, h.start, h.end))]
    else m
  }

  datatype Block =
    | More(h: H.Header, headers: Headers)
    | Ended(h: H.Header, headers: Headers, pos: nat)
    | Stuck    // an invalid header line; the source calls the parser again

  // The header loop, from offset p.
  function ReadHeaders(buf: seq<byte>, h: H.Header, p: nat, m: Headers): Block
    requires p <= |buf|
    decreases |buf| - p
  {
    H.RunAdvances(buf, h, p, true);
    match H.Run(buf, h, p, true)
    case Again(g) => More(g, m)
    case Line(g, q) => ReadHeaders(buf, g, q, Insert(m, buf, g))
    case Block(g, q) => Ended(g, m, q)
    case Invalid(_) => Stuck
  }

  function HeaderPhase(r: Reader): Progress
    requires r.pos <= |r.buf|
  {
    match ReadHeaders(r.buf, r.header, r.pos, r.headers)
    case More(g, m) => Waiting(r.(header := g, headers := m, pos := |r.buf|))
    case Ended(g, m, q) => Complete(r.line, m, g.end, q)
    case Stuck => InvalidLine
  }

  // Before the header phase: the request line, unless an earlier read completed it, and
  // the scan for dot segments.
  datatype Stage = Stop(progress: Progress) | Proceed(r: Reader)

  function LinePhase(r: Reader): Stage
    requires r.pos <= |r.buf|
  {
    if r.line.requestEnd != NIL then Proceed(r)
    else
      match L.Run(r.buf, r.line, r.pos)
      case Again(s) => Stop(Waiting(r.(line := s, pos := |r.buf|)))
      case Failed(_, _) => Stop(BadRequest)
      case Done(s, q) =>
        if Refused(r.buf, s.uri) then Stop(BadRequest) else Proceed(r.(line := s, pos := q, headers := map[]))
  }

  // One call of conn_read in which read() delivers the piece.
  function Feed(r: Reader, piece: seq<byte>): Progress
    requires r.pos <= |r.buf|
  {
    var t := r.(buf := r.buf + piece);
    L.RunBounds(t.buf, r.line, r.pos);
    match LinePhase(t)
    case Stop(p) => p
    case Proceed(u) => HeaderPhase(u)
  }

  // A connection between two reads has consumed all it received, and its request
  // line is what a single parse of everything so far would have left.
  ghost predicate Inv(r: Reader) {
    && r.pos == |r.buf|
    && (r.line.requestEnd == NIL ==> L.Run(r.buf, L.FRESH, 0) == L.Again(r.line))
    && (r.line.requestEnd != NIL ==>
          exists q :: L.Run(r.buf, L.FRESH, 0) == L.Done(r.line, q))
    && (r.line.requestEnd == NIL ==> r.header.state == H.Start)
    && H.Inside(r.header, r.pos) && Retry.Begun(r.buf, r.header, r.pos)
  }

  // Successive reads, until the head is complete or refused.
  ghost function FeedAll(r: Reader, pieces: seq<seq<byte>>): Progress
    requires Inv(r)
    decreases |pieces|
  {
    if pieces == [] then Waiting(r)
    else
      FeedKeepsInv(r, pieces[0]);
      match Feed(r, pieces[0])
      case Waiting(t) => FeedAll(t, pieces[1..])
      case other => other
  }

  // In the request-line phase a read continues the one parse of everything received,
  // and the parser may be called in the saved state.
  lemma LinePhaseContinues(r: Reader, piece: seq<byte>)
    requires Inv(r) && r.line.requestEnd == NIL
    ensures L.Run(r.buf + piece, r.line, r.pos) == L.Run(r.buf + piece, L.FRESH, 0)
    ensures L.Started(r.line, r.pos)
  {
    L.RunStarted(r.buf, L.FRESH, 0);
    L.RunResumes(r.buf, piece, L.FRESH, 0);
  }

  lemma InitInv()
    ensures Inv(INIT)
  {
  }

  lemma FeedKeepsInv(r: Reader, piece: seq<byte>)
    requires Inv(r)
    ensures Feed(r, piece).Waiting? ==> Inv(Feed(r, piece).r) && Feed(r, piece).r.buf == r.buf + piece
  {
    var buf := r.buf + piece;
    L.RunResumes(r.buf, piece, L.FRESH, 0);
    if r.line.requestEnd == NIL {
      L.RequestEndMarksThePhase(buf, L.FRESH, 0);
      match L.Run(buf, r.line, r.pos)
      case Done(s, q) =>
        assert L.Run(buf, L.FRESH, 0) == L.Done(s, q);
        L.RunBounds(buf, r.line, r.pos);
        ReadStaysInside(buf, r.header, q, map[]);
      case _ =>
    } else {
      Retry.BegunLocal(r.buf, piece, r.header, r.pos);
      ReadStaysInside(buf, r.header, r.pos, r.headers);
    }
  }

  lemma {:induction false} ReadStaysInside(buf: seq<byte>, h: H.Header, p: nat, m: Headers)
    requires p <= |buf| && H.Inside(h, p) && Retry.Begun(buf, h, p)
    ensures ReadHeaders(buf, h, p, m).More? ==>
      var g := ReadHeaders(buf, h, p, m).h;
      H.Inside(g, |buf|) && Retry.Begun(buf, g, |buf|)
    decreases |buf| - p
  {
    Retry.RunKeepsBegun(buf, h, p, true);
    H.RunAdvances(buf, h, p, true);
    H.RunStaysInside(buf, h, p, true);
    match H.Run(buf, h, p, true)
    case Line(g, q) => ReadStaysInside(buf, g, q, Insert(m, buf, g));
    case _ =>
  }

  // ------------------------------------------------------------------
  // The pieces do not matter.

  lemma InsertLocal(m: Headers, buf: seq<byte>, more: seq<byte>, h: H.Header)
    requires H.Inside(h, |buf|)
    ensures Insert(m, buf + more, h) == Insert(m, buf, h)
  {
    assert L.Slice(buf + more, h.nameStart, h.nameEnd) == L.Slice(buf, h.nameStart, h.nameEnd);
    assert L.Slice(buf + more, h.start, h.end) == L.Slice(buf, h.start, h.end);
  }

  lemma {:induction false} HeadersResume(buf: seq<byte>, more: seq<byte>, h: H.Header, p: nat, m: Headers)
    requires p <= |buf| && H.Inside(h, p)
    ensures var r := ReadHeaders(buf, h, p, m);
            ReadHeaders(buf + more, h, p, m) == if r.More? then ReadHeaders(buf + more, r.h, |buf|, r.headers) else r
    decreases |buf| - p
  {
    H.RunResumes(buf, more, h, p, true);
    H.RunAdvances(buf, h, p, true);
    H.RunStaysInside(buf, h, p, true);
    match H.Run(buf, h, p, true)
    case Line(g, q) =>
      InsertLocal(m, buf, more, g);
      HeadersResume(buf, more, g, q, Insert(m, buf, g));
    case _ =>
  }

  lemma {:induction false} ScanLocal(buf: seq<byte>, more: seq<byte>, p: nat, e: int, warn: nat)
    requires e <= |buf|
    ensures ScanRejects(buf + more, p, e, warn) == ScanRejects(buf, p, e, warn)
    decreases e - p
  {
    if p < e {
      ScanLocal(buf, more, p + 1, e, Warn(warn, buf[p]));
    }
  }

  lemma RefusedLocal(buf: seq<byte>, more: seq<byte>, u: L.UriPart)
    requires 0 <= u.start && u.end <= |buf|
    ensures Refused(buf + more, u) == Refused(buf, u)
  {
    ScanLocal(buf, more, u.start, u.end, 0);
  }

  // Two pieces in two reads are as good as one.
  lemma FeedSplit(r: Reader, a: seq<byte>, b: seq<byte>)
    requires Inv(r)
    ensures Feed(r, a + b) == if Feed(r, a).Waiting? then Feed(Feed(r, a).r, b) else Feed(r, a)
  {
    var buf := r.buf + a;
    assert r.buf + (a + b) == buf + b;
    if r.line.requestEnd != NIL {
      HeadersResume(buf, b, r.header, r.pos, r.headers);
    } else {
      L.RunResumes(buf, b, r.line, r.pos);
      L.RunBounds(buf, r.line, r.pos);
      L.RunResumes(r.buf, a, L.FRESH, 0);
      L.RequestEndMarksThePhase(buf, L.FRESH, 0);
      match L.Run(buf, r.line, r.pos)
      case Done(s, q) =>
        OffsetsInOrder(buf, s, q);
        RefusedLocal(buf, b, s.uri);
        HeadersResume(buf, b, r.header, q, map[]);
      case _ =>
    }
  }

  function Concat(pieces: seq<seq<byte>>): seq<byte> {
    if pieces == [] then [] else pieces[0] + Concat(pieces[1..])
  }

  // Fragmentation independence: reading in pieces ends exactly as one read of all the
  // bytes does, with the same answer, fields, offsets and header map.
  lemma {:induction false} FragmentationIndependence(r: Reader, pieces: seq<seq<byte>>)
    requires Inv(r)
    ensures FeedAll(r, pieces) == Feed(r, Concat(pieces))
    decreases |pieces|
  {
    if pieces == [] {
      FeedNothing(r);
    } else {
      FeedKeepsInv(r, pieces[0]);
      FeedSplit(r, pieces[0], Concat(pieces[1..]));
      if Feed(r, pieces[0]).Waiting? {
        FragmentationIndependence(Feed(r, pieces[0]).r, pieces[1..]);
      }
    }
  }

  lemma FeedNothing(r: Reader)
    requires Inv(r)
    ensures Feed(r, []) == Waiting(r)
  {
    assert r.buf + [] == r.buf;
  }

  // In particular from the beginning: two ways of cutting the same bytes end alike.
  lemma CutsDoNotMatter(pieces: seq<seq<byte>>, others: seq<seq<byte>>)
    requires Concat(pieces) == Concat(others)
    ensures Inv(INIT) && FeedAll(INIT, pieces) == Feed(INIT, Concat(pieces)) == FeedAll(INIT, others)
  {
    InitInv();
    FragmentationIndependence(INIT, pieces);
    FragmentationIndependence(INIT, others);
  }

  // However it arrived, a request that is passed on with `quoted_uri` unset has no "/.." before its query.
  lemma NoDotSegmentsAreRead(pieces: seq<seq<byte>>, k: nat)
    requires FeedAll(INIT, pieces).Complete? && !FeedAll(INIT, pieces).line.uri.quoted
    requires FeedAll(INIT, pieces).line.uri.start <= k && k + 2 < PathEnd(FeedAll(INIT, pieces).line.uri)
    ensures var buf := Concat(pieces);
      k + 2 < |buf| && !(buf[k] == SLASH && buf[k + 1] == DOT && buf[k + 2] == DOT)
  {
    var buf := Concat(pieces);
    FragmentationIndependence(INIT, pieces);
    var s, q := CompleteLine(buf);
    OffsetsInOrder(buf, s, q);
    NoDotSegmentsPass(buf, s.uri, k);
  }

  // The request line of a complete head was accepted, and its path was not refused.
  lemma CompleteLine(buf: seq<byte>) returns (s: L.Line, q: nat)
    requires Feed(INIT, buf).Complete?
    ensures L.Run(buf, L.FRESH, 0) == L.Done(s, q) && Feed(INIT, buf).line == s && !Refused(buf, s.uri)
  {
    assert INIT.buf + buf == buf;
    s, q := L.Run(buf, L.FRESH, 0).line, L.Run(buf, L.FRESH, 0).pos;
  }

  // ------------------------------------------------------------------
  // Invalid header lines.

  // The call of the header parser that answered INVALID_HEADER.
  datatype Call = Call(h: H.Header, p: nat)

  function StuckAt(buf: seq<byte>, h: H.Header, p: nat): Call
    requires p <= |buf|
    decreases |buf| - p
  {
    H.RunAdvances(buf, h, p, true);
    match H.Run(buf, h, p, true)
    case Line(g, q) => StuckAt(buf, g, q)
    case _ => Call(h, p)
  }

  lemma {:induction false} StuckCall(buf: seq<byte>, h: H.Header, p: nat, m: Headers)
    requires p <= |buf| && Retry.Begun(buf, h, p) && ReadHeaders(buf, h, p, m).Stuck?
    ensures var c := StuckAt(buf, h, p);
      c.p <= |buf| && H.Run(buf, c.h, c.p, true).Invalid? && Retry.Begun(buf, c.h, c.p)
    decreases |buf| - p
  {
    H.RunAdvances(buf, h, p, true);
    match H.Run(buf, h, p, true)
    case Line(g, q) => StuckCall(buf, g, q, Insert(m, buf, g));
    case _ =>
  }

  // The source then calls the parser again.  In every state a connection can be in, all
  // further calls answer INVALID_HEADER exactly when the line is not the exception: one
  // that began with part of "HTTP/" in an earlier read.
  lemma InvalidHeaderRepeats(r: Reader, piece: seq<byte>)
    requires Inv(r) && Feed(r, piece).InvalidLine?
    ensures LinePhase(r.(buf := r.buf + piece)).Proceed?
    ensures var u := LinePhase(r.(buf := r.buf + piece)).r;
      u.pos <= |u.buf| && u.buf == r.buf + piece && u.header == r.header
    ensures var u := LinePhase(r.(buf := r.buf + piece)).r;
      var c := StuckAt(u.buf, u.header, u.pos);
      && c.p <= |u.buf| && H.Run(u.buf, c.h, c.p, true).Invalid?
      && ((forall k: nat :: H.Run(u.buf, Retry.Retried(u.buf, c.h, c.p, true, k), c.p, true).Invalid?)
          <==> !Retry.Excepted(u.buf, c.h, c.p))
  {
    var t := r.(buf := r.buf + piece);
    L.RunBounds(t.buf, r.line, r.pos);
    var u := LinePhase(t).r;
    Retry.BegunLocal(r.buf, piece, r.header, r.pos);
    if r.line.requestEnd == NIL {
      assert r.header.state == H.Start;
    }
    StuckCall(u.buf, u.header, u.pos, u.headers);
    var c := StuckAt(u.buf, u.header, u.pos);
    Retry.InvalidRepeatsExactly(u.buf, c.h, c.p, true);
  }
}
