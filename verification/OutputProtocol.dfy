// The fill/drain/refill protocol by which a file is sent: `sp_responce_senfile` fills
// the response buffer, `conn_respond` drains it, and they take turns.  A run is a
// sequence of the events that the operating system decides: how much each read and
// each write moves.
module OutputProtocol {

  datatype Phase = Filling | Draining | Finished | Aborted

  // The buffer holds stream[base..base + len], where the stream is the header block
  // followed by the file; `written` is the sum of the counts write() returned.
  datatype State = State(
    phase: Phase, size: nat, base: nat, len: nat, sent: nat,
    fsize: nat, fread: nat, needRefill: bool, written: nat)

  // A response whose header block is in the buffer, about to be filled.
  function Begin(size: nat, header: nat, fsize: nat): State {
    State(Filling, size, 0, header, 0, fsize, 0, true, 0)
  }

  datatype Event =
    | Read(n: nat)     // read() from the file returned n bytes
    | ReadFails
    | Write(n: nat)    // write() to the socket returned n bytes
    | WriteFails
    | Drained          // conn_respond finds everything sent

  // What the reader asks for: what fits, and no more than the file still has.
  function Wanted(s: State): int {
    if s.size - s.len > s.fsize - s.fread then s.fsize - s.fread else s.size - s.len
  }

  predicate Enabled(s: State, e: Event) {
    match e
    case Read(n) => s.phase == Filling && n <= Wanted(s)
    case ReadFails => s.phase == Filling
    case Write(n) => s.phase == Draining && s.len != s.sent && 1 <= n <= s.len - s.sent
    case WriteFails => s.phase == Draining && s.len != s.sent
    case Drained => s.phase == Draining && s.len == s.sent
  }

  function Step(s: State, e: Event): State {
    match e
    case Read(n) =>
      var t := s.(fread := s.fread + n, len := s.len + n);
      var all := t.fread == t.fsize;
      t.(needRefill := t.needRefill && !all, phase := if all || t.size == t.len then Draining else Filling)
    case ReadFails => s.(phase := Aborted)
    case Write(n) => s.(sent := s.sent + n, written := s.written + n)
    case WriteFails => s.(phase := Aborted)
    case Drained =>
      if s.needRefill then s.(base := s.base + s.len, len := 0, sent := 0, phase := Filling)
      else s.(phase := Finished)
  }

  // The events are possible one after the other.
  predicate Possible(s: State, es: seq<Event>)
    decreases |es|
  {
    es == [] || (Enabled(s, es[0]) && Possible(Step(s, es[0]), es[1..]))
  }

  function Run(s: State, es: seq<Event>): State
    decreases |es|
  {
    if es == [] then s else Run(Step(s, es[0]), es[1..])
  }

  // What every step keeps: the offsets are in order, nothing is read past the end, no
  // byte is lost or counted twice, and a refill is only called off at the end of the file.
  predicate Inv(s: State, header: nat) {
    && s.sent <= s.len <= s.size && s.fread <= s.fsize
    && s.base + s.len == header + s.fread
    && s.written == s.base + s.sent
    && (s.phase == Filling ==> s.needRefill && s.sent == 0)
    && (s.phase in {Draining, Finished} ==> (s.needRefill <==> s.fread < s.fsize))
    && (s.phase == Finished ==> s.sent == s.len && !s.needRefill)
  }

  lemma BeginInv(size: nat, header: nat, fsize: nat)
    requires header <= size
    ensures Inv(Begin(size, header, fsize), header)
  {
  }

  lemma StepKeepsInv(s: State, e: Event, header: nat)
    requires Inv(s, header) && Enabled(s, e)
    ensures Inv(Step(s, e), header)
    ensures Step(s, e).size == s.size && Step(s, e).fsize == s.fsize
  {
  }

  lemma {:induction false} RunKeepsInv(s: State, es: seq<Event>, header: nat)
    requires Inv(s, header) && Possible(s, es)
    ensures Inv(Run(s, es), header)
    ensures Run(s, es).size == s.size && Run(s, es).fsize == s.fsize
    decreases |es|
  {
    if es != [] {
      StepKeepsInv(s, es[0], header);
      RunKeepsInv(Step(s, es[0]), es[1..], header);
    }
  }

  // Over every run the offsets are in order; and the connection closes normally only
  // when the bytes counted as written are the header block and the whole file.
  lemma SafeRuns(size: nat, header: nat, fsize: nat, es: seq<Event>)
    requires header <= size && Possible(Begin(size, header, fsize), es)
    ensures var t := Run(Begin(size, header, fsize), es);
            && t.sent <= t.len <= t.size && t.fread <= t.fsize
            && t.written <= header + t.fread
            && (t.phase == Finished ==> t.written == header + fsize)
  {
    BeginInv(size, header, fsize);
    RunKeepsInv(Begin(size, header, fsize), es, header);
  }

  // One more event at the end of a run.
  lemma {:induction false} RunAppend<T>(s: State, es: seq<Event>, e: Event, stream: seq<T>)
    requires Possible(s, es) && Enabled(Run(s, es), e)
    ensures Possible(s, es + [e]) && Run(s, es + [e]) == Step(Run(s, es), e)
    ensures Delivered(s, es + [e], stream) == Delivered(s, es, stream) + Delivered(Run(s, es), [e], stream)
    decreases |es|
  {
    if es == [] {
      assert es + [e] == [e];
    } else {
      var t, rest := Step(s, es[0]), es[1..];
      assert (es + [e])[1..] == rest + [e];
      RunAppend(t, rest, e, stream);
      var a, b, c := Handed(s, es[0], stream), Delivered(t, rest, stream), Delivered(Run(s, es), [e], stream);
      assert (a + b) + c == a + (b + c);
    }
  }

  // From s the events es lead to t, and what they deliver turns d into d'.
  ghost predicate Leads<T>(s: State, es: seq<Event>, t: State, stream: seq<T>, d: seq<T>, d': seq<T>) {
    Possible(s, es) && Run(s, es) == t && d' == d + Delivered(s, es, stream)
  }

  lemma LeadsByOne<T>(s: State, e: Event, stream: seq<T>, d: seq<T>)
    requires Enabled(s, e)
    ensures Leads(s, [e], Step(s, e), stream, d, d + Handed(s, e, stream))
  {
    assert [e][1..] == [];
    assert Delivered(s, [e], stream) == Handed(s, e, stream);
  }

  lemma Associates<T>(a: seq<T>, b: seq<T>, c: seq<T>)
    ensures (a + b) + c == a + (b + c)
  {
  }

  lemma LeadsFurther<T>(s: State, es: seq<Event>, t: State, e: Event, u: State, stream: seq<T>,
                        d: seq<T>, d': seq<T>, d'': seq<T>)
    requires Leads(s, es, t, stream, d, d') && Leads(t, [e], u, stream, d', d'')
    ensures Leads(s, es + [e], u, stream, d, d'') && u == Step(t, e)
  {
    assert [e][1..] == [];
    assert Run(t, [e]) == Step(t, e);
    RunAppend(s, es, e, stream);
    Associates(d, Delivered(s, es, stream), Delivered(t, [e], stream));
  }

  // ------------------------------------------------------------------
  // What the system calls answer decides what happens.

  // What a call of read() or write() comes to.
  datatype Moved = Count(n: nat) | Error

  function Least(a: int, b: int): int {
    if a < b then a else b
  }

  // No call moves more than it was asked to; a write of nothing counts as a failure.
  function Arrived(s: State, a: Moved): Event {
    if a.Error? || Wanted(s) < 0 then ReadFails else Read(Least(a.n, Wanted(s)))
  }

  function Answered(s: State, a: Moved): Event {
    if a.Error? || a.n == 0 || s.len < s.sent then WriteFails else Write(Least(a.n, s.len - s.sent))
  }

  // The events of one call of sp_responce_senfile: a read for every answer, until the
  // buffer has to be drained or the connection is closed.
  function FillEvents(s: State, answers: seq<Moved>): seq<Event>
    decreases |answers|
  {
    if s.phase != Filling || answers == [] then []
    else [Arrived(s, answers[0])] + FillEvents(Step(s, Arrived(s, answers[0])), answers[1..])
  }

  // The events of one call of conn_respond: a write for every answer, until everything is
  // sent or the connection is closed.
  function DrainEvents(s: State, answers: seq<Moved>): seq<Event>
    decreases |answers|
  {
    if s.phase != Draining then []
    else if s.len == s.sent then [Drained]
    else if answers == [] then []
    else [Answered(s, answers[0])] + DrainEvents(Step(s, Answered(s, answers[0])), answers[1..])
  }

  lemma OneMore(es: seq<Event>, e: Event, rest: seq<Event>)
    ensures es + ([e] + rest) == (es + [e]) + rest
  {
  }

  predicate AllCount(answers: seq<Moved>, least: nat) {
    forall i :: 0 <= i < |answers| ==> answers[i].Count? && answers[i].n >= least
  }

  function Total(answers: seq<Moved>): nat {
    if answers == [] then 0 else (if answers[0].Count? then answers[0].n else 0) + Total(answers[1..])
  }

  // When every write sends something, as much is sent as they say together, but not more
  // than there is; and the call ends by handing over exactly when that is everything.
  lemma {:induction false} WritesAddUp(s: State, answers: seq<Moved>)
    requires s.phase == Draining && s.sent <= s.len && AllCount(answers, 1)
    ensures var t := Run(s, DrainEvents(s, answers));
      && t.written == s.written + Least(Total(answers), s.len - s.sent)
      && (t.phase == Draining <==> Total(answers) < s.len - s.sent)
      && (t.phase == Draining ==> t.sent == s.sent + Total(answers) && t.len == s.len)
      && t.phase != Aborted
    decreases |answers|
  {
    if s.sent < s.len && answers != [] {
      WritesAddUp(Step(s, Answered(s, answers[0])), answers[1..]);
    }
  }

  // The first write that fails or sends nothing closes the connection, unless everything
  // was sent before; what was sent before it stays counted.
  lemma {:induction false} FailedWriteCloses(s: State, before: seq<Moved>, failed: Moved, after: seq<Moved>)
    requires s.phase == Draining && s.sent <= s.len && AllCount(before, 1) && (failed.Error? || failed.n == 0)
    requires Total(before) < s.len - s.sent
    ensures var t := Run(s, DrainEvents(s, before + ([failed] + after)));
      t.phase == Aborted && t.written == s.written + Total(before)
    decreases |before|
  {
    var all := before + ([failed] + after);
    if before == [] {
      assert all[0] == failed;
    } else {
      assert all[1..] == before[1..] + ([failed] + after) && all[0] == before[0];
      FailedWriteCloses(Step(s, Answered(s, all[0])), before[1..], failed, after);
    }
  }

  // The same for reading: as much is read as the answers say together, but not more than
  // fits and than the file still has; exactly then the buffer is drained.
  lemma {:induction false} ReadsAddUp(s: State, answers: seq<Moved>)
    requires s.phase == Filling && s.len <= s.size && s.fread <= s.fsize && AllCount(answers, 0)
    ensures var t := Run(s, FillEvents(s, answers));
      && t.fread == s.fread + Least(Total(answers), Wanted(s)) && t.len == s.len + (t.fread - s.fread)
      && (t.phase == Draining <==> answers != [] && Total(answers) >= Wanted(s))
      && t.phase != Aborted
    decreases |answers|
  {
    if answers != [] {
      var t := Step(s, Arrived(s, answers[0]));
      if t.phase == Filling {
        ReadsAddUp(t, answers[1..]);
      }
    }
  }

  // A read that fails closes the connection, if the buffer was not full before.
  lemma {:induction false} FailedReadCloses(s: State, before: seq<Moved>, after: seq<Moved>)
    requires s.phase == Filling && s.len <= s.size && s.fread <= s.fsize && AllCount(before, 0)
    requires before == [] || Total(before) < Wanted(s)
    ensures Run(s, FillEvents(s, before + ([Error] + after))).phase == Aborted
    decreases |before|
  {
    var all := before + ([Error] + after);
    if before == [] {
      assert all[0] == Error;
    } else {
      assert all[1..] == before[1..] + ([Error] + after) && all[0] == before[0];
      FailedReadCloses(Step(s, Arrived(s, all[0])), before[1..], after);
    }
  }

  // ------------------------------------------------------------------
  // It finishes.

  // Every read that asks for something gets something: the file has not shrunk.
  predicate Productive(s: State, es: seq<Event>)
    decreases |es|
  {
    es == [] || ((es[0].Read? && Wanted(s) > 0 ==> es[0].n > 0) && Productive(Step(s, es[0]), es[1..]))
  }

  function Rank(s: State): nat {
    match s.phase
    case Filling => if Wanted(s) == 0 then 2 else 0
    case Draining => 1
    case _ => 0
  }

  function Measure(s: State): int {
    3 * (s.fsize - s.fread) + (s.len - s.sent) + Rank(s)
  }

  // A closed connection has no more events.
  lemma NothingFollows(s: State, es: seq<Event>)
    requires s.phase in {Finished, Aborted} && Possible(s, es)
    ensures es == [] && Run(s, es) == s
  {
  }

  lemma {:induction false} ProductiveRunsEnd(s: State, es: seq<Event>, header: nat)
    requires Inv(s, header) && Possible(s, es) && Productive(s, es)
    requires s.size > 0
    ensures |es| <= Measure(s) + 1
    decreases |es|
  {
    if es != [] {
      var t := Step(s, es[0]);
      StepKeepsInv(s, es[0], header);
      if t.phase in {Finished, Aborted} {
        NothingFollows(t, es[1..]);
      } else {
        assert Measure(t) < Measure(s);
        ProductiveRunsEnd(t, es[1..], header);
      }
    }
  }

  // Until it has closed, the protocol can always go on, and with a productive read.
  lemma NeverStuck(s: State, header: nat) returns (e: Event)
    requires Inv(s, header) && s.phase in {Filling, Draining}
    ensures Enabled(s, e) && Productive(s, [e]) && e !in {ReadFails, WriteFails}
  {
    if s.phase == Filling {
      e := Read(Wanted(s));
    } else if s.len == s.sent {
      e := Drained;
    } else {
      e := Write(s.len - s.sent);
    }
  }

  // A read of nothing into a buffer with room leaves everything as it was: if the file
  // has shrunk, the loop spins.
  lemma EmptyReadSpins(s: State, header: nat)
    requires Inv(s, header) && s.phase == Filling && s.len < s.size && s.fread < s.fsize
    ensures Enabled(s, Read(0)) && Step(s, Read(0)) == s
  {
  }

  // ------------------------------------------------------------------
  // What the peer receives.

  // The source hands write() the start of the buffer every time, also when part of the
  // buffer has been sent.
  function Delivered<T>(s: State, es: seq<Event>, stream: seq<T>): seq<T>
    decreases |es|
  {
    if es == [] then [] else Handed(s, es[0], stream) + Delivered(Step(s, es[0]), es[1..], stream)
  }

  function Handed<T>(s: State, e: Event, stream: seq<T>): seq<T> {
    if e.Write? && s.base + e.n <= |stream| then stream[s.base..s.base + e.n] else []
  }

  // No write is short: each sends the whole buffer.
  predicate WholeWrites(s: State, es: seq<Event>)
    decreases |es|
  {
    es == [] || ((es[0].Write? ==> s.sent == 0 && es[0].n == s.len) && WholeWrites(Step(s, es[0]), es[1..]))
  }

  // With whole writes only, the peer gets the stream.
  lemma {:induction false} WholeWritesDeliver<T>(s: State, es: seq<Event>, header: nat, stream: seq<T>)
    requires Inv(s, header) && Possible(s, es) && Run(s, es).phase == Finished && WholeWrites(s, es)
    requires |stream| == header + s.fsize
    ensures s.base + s.sent <= |stream| && Delivered(s, es, stream) == stream[s.base + s.sent..]
    decreases |es|
  {
    if es != [] {
      var t := Step(s, es[0]);
      StepKeepsInv(s, es[0], header);
      WholeWritesDeliver(t, es[1..], header, stream);
      if es[0].Write? {
        assert stream[s.base..s.base + es[0].n] + stream[s.base + es[0].n..] == stream[s.base..];
      }
    }
  }

  // After a short write the next byte delivered is the first of the buffer again.
  lemma AfterShortWrite(s: State, es: seq<Event>, header: nat, stream: seq<int>)
    requires Inv(s, header) && Possible(s, es) && Run(s, es).phase == Finished
    requires s.phase == Draining && s.sent < s.len && |stream| == header + s.fsize
    ensures s.base < |stream| && Delivered(s, es, stream) != [] && Delivered(s, es, stream)[0] == stream[s.base]
  {
    assert es != [];
    if es[0] == WriteFails {
      NothingFollows(Step(s, es[0]), es[1..]);
    }
  }

  // A stream that shows where the first short write was: 1 at k, 0 elsewhere.
  function Marked(n: nat, k: nat): seq<int> {
    seq(n, i => if i == k then 1 else 0)
  }

  lemma {:induction false} ShortWriteShows(s: State, es: seq<Event>, header: nat) returns (stream: seq<int>)
    requires Inv(s, header) && Possible(s, es) && Run(s, es).phase == Finished && !WholeWrites(s, es)
    requires s.sent == 0 || s.sent == s.len
    ensures |stream| == header + s.fsize && s.base + s.sent <= |stream|
    ensures Delivered(s, es, stream) != stream[s.base + s.sent..]
    decreases |es|
  {
    var t := Step(s, es[0]);
    StepKeepsInv(s, es[0], header);
    if es[0].Write? && es[0].n < s.len {
      stream := Marked(header + s.fsize, s.base);
      ShortWriteNow(s, es, header, stream);
    } else {
      stream := ShortWriteShows(t, es[1..], header);
      if es[0].Write? {
        assert Handed(s, es[0], stream) == stream[s.base..s.base + s.len];
        DroppedPrefix(Handed(s, es[0], stream), Delivered(t, es[1..], stream), stream[s.base..], s.len);
      }
    }
  }

  lemma DroppedPrefix(a: seq<int>, b: seq<int>, c: seq<int>, n: nat)
    requires n == |a| <= |c| && b != c[n..]
    ensures a + b != c
  {
    assert (a + b)[n..] == b;
  }

  lemma ShortWriteNow(s: State, es: seq<Event>, header: nat, stream: seq<int>)
    requires Inv(s, header) && Possible(s, es) && Run(s, es).phase == Finished
    requires s.sent == 0 && es != [] && es[0].Write? && es[0].n < s.len
    requires s.base <= header + s.fsize && stream == Marked(header + s.fsize, s.base)
    ensures Delivered(s, es, stream) != stream[s.base..]
  {
    var k := es[0].n;
    StepKeepsInv(s, es[0], header);
    AfterShortWrite(Step(s, es[0]), es[1..], header, stream);
    assert stream[s.base..][k] == 0;
    assert Delivered(s, es, stream)[k] == Delivered(Step(s, es[0]), es[1..], stream)[0];
  }

  // Exactly when the peer gets the right bytes: a run that ends normally delivers header
  // and file, whatever they contain, if and only if no write in it was short.
  lemma FaithfulDelivery(size: nat, header: nat, fsize: nat, es: seq<Event>)
    requires header <= size && Possible(Begin(size, header, fsize), es)
    requires Run(Begin(size, header, fsize), es).phase == Finished
    ensures (forall stream: seq<int> | |stream| == header + fsize ::
               Delivered(Begin(size, header, fsize), es, stream) == stream)
            <==> WholeWrites(Begin(size, header, fsize), es)
  {
    var s := Begin(size, header, fsize);
    BeginInv(size, header, fsize);
    if WholeWrites(s, es) {
      forall stream: seq<int> | |stream| == header + fsize ensures Delivered(s, es, stream) == stream {
        WholeWritesDeliver(s, es, header, stream);
      }
    } else {
      var stream := ShortWriteShows(s, es, header);
      assert stream[0..] == stream;
    }
  }
}
