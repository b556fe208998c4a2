// A reading of the path part of a URI that does not go byte by byte through
// states: where the careful checks stop, which flags that sets, and where the
// extension begins.  `PathRun` shows that the three URI states of the parser
// compute exactly this.
module UriFacts {
  import opened Bytes
  import opened RequestLine

  // The byte before j is a '/', possibly with '+' signs in between.
  ghost predicate AfterSlash(buf: seq<byte>, us: nat, j: int)
    requires us < j <= |buf|
    decreases j
  {
    buf[j - 1] == SLASH || (buf[j - 1] == PLUS && us < j - 1 && AfterSlash(buf, us, j - 1))
  }

  // At j the parser gives up looking for path segments.
  ghost predicate Stops(buf: seq<byte>, us: nat, j: int)
    requires us < j < |buf|
  {
    || buf[j] == PERCENT || buf[j] == QUESTION || buf[j] == HASH
    || ((buf[j] == DOT || buf[j] == SLASH) && AfterSlash(buf, us, j))
  }

  // The first such place in buf[us + 1..p], or p.
  ghost function FirstStop(buf: seq<byte>, us: nat, p: int): (q: int)
    requires us < p <= |buf|
    ensures us < q <= p
    ensures q < p ==> Stops(buf, us, q)
    ensures forall j :: us < j < q ==> !Stops(buf, us, j)
    decreases p
  {
    if p == us + 1 then p
    else
      var q := FirstStop(buf, us, p - 1);
      if q < p - 1 then q
      else if Stops(buf, us, p - 1) then p - 1
      else p
  }

  // The byte after the last '.' of the last segment of buf[us..q], or NIL.
  ghost function Extension(buf: seq<byte>, us: nat, q: int): (e: Offset)
    requires us < q <= |buf| && buf[us] == SLASH
    ensures e != NIL ==>
              && us + 1 < e <= q && buf[e - 1] == DOT
              && forall j :: e <= j < q ==> buf[j] != DOT && buf[j] != SLASH
    ensures e == NIL ==>
              exists k :: us <= k < q && buf[k] == SLASH && Clear(buf, k + 1, q)
    decreases q
  {
    if buf[q - 1] == SLASH then
      assert Clear(buf, q, q);
      NIL
    else if buf[q - 1] == DOT then q
    else
      var e := Extension(buf, us, q - 1);
      assert e == NIL ==>
          var k :| us <= k < q - 1 && buf[k] == SLASH && Clear(buf, k + 1, q - 1);
          Clear(buf, k + 1, q);
      e
  }

  // Neither '.' nor '/' in buf[i..j].
  ghost predicate Clear(buf: seq<byte>, i: int, j: int)
    requires 0 <= i && j <= |buf|
  {
    forall k :: i <= k < j ==> buf[k] != DOT && buf[k] != SLASH
  }

  // The state and the flags after the path bytes buf[us..p].
  ghost function PathState(buf: seq<byte>, us: nat, p: int): LineState
    requires us < p <= |buf|
  {
    if FirstStop(buf, us, p) < p then Uri
    else if AfterSlash(buf, us, p) then AfterSlashInUri
    else CheckUri
  }

  ghost predicate Complex(buf: seq<byte>, us: nat, p: int)
    requires us < p <= |buf|
  {
    var q := FirstStop(buf, us, p);
    q < p && (buf[q] == DOT || buf[q] == SLASH || Occurs(buf, q, p, HASH))
  }

  ghost predicate Quoted(buf: seq<byte>, us: nat, p: int)
    requires us < p <= |buf|
  {
    var q := FirstStop(buf, us, p);
    q < p && buf[q] == PERCENT
  }

  ghost function ArgsStart(buf: seq<byte>, us: nat, p: int): Offset
    requires us < p <= |buf|
  {
    var q := FirstStop(buf, us, p);
    if q < p && buf[q] == QUESTION then q + 1 else NIL
  }

  ghost function WithPath(buf: seq<byte>, s: Line, us: nat, p: int): Line
    requires us < p <= |buf| && buf[us] == SLASH
  {
    var q := FirstStop(buf, us, p);
    s.(state := PathState(buf, us, p),
       uri := s.uri.(complex := Complex(buf, us, p), quoted := Quoted(buf, us, p),
                     plus := Occurs(buf, us, q, PLUS),
                     args := ArgsStart(buf, us, p), ext := Extension(buf, us, q)))
  }

  lemma OccursStep(buf: seq<byte>, i: nat, j: nat, b: byte)
    requires i <= j < |buf|
    ensures Occurs(buf, i, j + 1, b) <==> Occurs(buf, i, j, b) || buf[j] == b
  {
  }

  // Past the stop only a '#' is noticed.
  lemma StepStopped(buf: seq<byte>, s: Line, us: nat, p: int)
    requires us < p < |buf| && buf[us] == SLASH && Target.Has(buf[p]) && FirstStop(buf, us, p) < p
    ensures Step(buf, WithPath(buf, s, us, p), p) == Go(WithPath(buf, s, us, p + 1))
  {
    var q := FirstStop(buf, us, p);
    assert FirstStop(buf, us, p + 1) == q;
    OccursStep(buf, q, p, HASH);
  }

  // The byte that stops the careful checks.
  lemma StepStops(buf: seq<byte>, s: Line, us: nat, p: int)
    requires us < p < |buf| && buf[us] == SLASH && Target.Has(buf[p]) && FirstStop(buf, us, p) == p
    requires Stops(buf, us, p)
    ensures Step(buf, WithPath(buf, s, us, p), p) == Go(WithPath(buf, s, us, p + 1))
  {
    assert FirstStop(buf, us, p + 1) == p;
    OccursStep(buf, p, p, HASH);
  }

  lemma StepGoesOn(buf: seq<byte>, s: Line, us: nat, p: int)
    requires us < p < |buf| && buf[us] == SLASH && Target.Has(buf[p]) && FirstStop(buf, us, p) == p
    requires !Stops(buf, us, p)
    ensures Step(buf, WithPath(buf, s, us, p), p) == Go(WithPath(buf, s, us, p + 1))
  {
    assert FirstStop(buf, us, p + 1) == p + 1;
    OccursStep(buf, us, p, PLUS);
  }

  lemma PathStep(buf: seq<byte>, s: Line, us: nat, p: int)
    requires us < p < |buf| && buf[us] == SLASH && Target.Has(buf[p])
    ensures Run(buf, WithPath(buf, s, us, p), p) == Run(buf, WithPath(buf, s, us, p + 1), p + 1)
  {
    if FirstStop(buf, us, p) < p {
      StepStopped(buf, s, us, p);
    } else if Stops(buf, us, p) {
      StepStops(buf, s, us, p);
    } else {
      StepGoesOn(buf, s, us, p);
    }
    RunOne(buf, WithPath(buf, s, us, p), p, WithPath(buf, s, us, p + 1));
  }

  // The URI states read a path up to its end.
  lemma {:induction false} PathRun(buf: seq<byte>, s: Line, us: nat, p: int, e: int)
    requires us < p <= e <= |buf| && buf[us] == SLASH && Span(buf, p, e, Target)
    ensures Run(buf, WithPath(buf, s, us, p), p) == Run(buf, WithPath(buf, s, us, e), e)
    decreases e - p
  {
    if p < e {
      assert Target.Has(buf[p]);
      PathStep(buf, s, us, p);
      PathRun(buf, s, us, p + 1, e);
    }
  }
}
