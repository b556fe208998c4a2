// What the offsets and flags of a parsed request line say about its URI, and why
// the one bit `complex_uri` is enough for the reader's check of dot segments.
module UriMeaning {
  import opened Bytes
  import opened RequestLine
  import opened UriFacts
  import opened RequestReading
  import opened RequestGrammar

  // The path ends at the query or at the end of the URI.
  function PathEnd(u: UriPart): Offset {
    if u.args != NIL then u.args - 1 else u.end
  }

  // buf[k] is a '.' of the last segment of the path that ends at e.
  ghost predicate DotInLastSegment(buf: seq<byte>, k: int, i: int, e: int)
    requires 0 <= i && e <= |buf|
  {
    i < k < e && buf[k] == DOT && !Occurs(buf, k + 1, e, SLASH)
  }

  // The URI begins with a '/', and its flags and offsets are those of that path.
  ghost predicate Shaped(buf: seq<byte>, u: UriPart) {
    && 0 <= u.start < u.end <= |buf| && buf[u.start] == SLASH
    && u.ext == Extension(buf, u.start, FirstStop(buf, u.start, u.end))
    && u.args == ArgsStart(buf, u.start, u.end)
    && u.complex == Complex(buf, u.start, u.end)
    && u.quoted == Quoted(buf, u.start, u.end)
  }

  lemma LayoutIsShaped(buf: seq<byte>, l: Layout)
    requires MatchesTarget(buf, l) && 0 <= l.target
    ensures Shaped(buf, UriOf(buf, l))
    ensures l.target <= UriOf(buf, l).start && UriOf(buf, l).end <= l.targetEnd
  {
    if l.path == NIL {
      assert COLON_SLASHES[1] == buf[l.colon + 1] == SLASH;
    }
  }

  // In an accepted line the offsets are in order and the URI is so shaped, from
  // whichever of the four places it was taken.
  lemma OffsetsInOrder(buf: seq<byte>, s: Line, q: nat)
    requires Run(buf, FRESH, 0) == Done(s, q)
    ensures 0 <= s.requestStart <= s.methodEnd < s.uri.start < s.uri.end <= s.requestEnd < q <= |buf|
    ensures Shaped(buf, s.uri)
  {
    ExactLanguage(buf, s, q);
    var l :| Matches(buf, l) && q == l.lf + 1 && s == Fields(buf, l);
    LayoutIsShaped(buf, l);
    LandmarksInOrder(buf, l);
  }

  lemma LandmarksInOrder(buf: seq<byte>, l: Layout)
    requires Matches(buf, l)
    ensures 0 <= l.start < l.tokenEnd < l.target < l.targetEnd <= l.eol <= l.lf < |buf|
  {
  }

  // When args_start is set it is one past the first '?' of the URI; and unless a flag
  // is set, it is set whenever there is a '?'.
  lemma ArgsFollowTheFirstQuestionMark(buf: seq<byte>, u: UriPart)
    requires Shaped(buf, u)
    ensures u.args != NIL ==>
              && u.start < u.args - 1 < u.end && buf[u.args - 1] == QUESTION
              && !Occurs(buf, u.start, u.args - 1, QUESTION)
    ensures !u.complex && !u.quoted ==> (u.args != NIL <==> Occurs(buf, u.start, u.end, QUESTION))
  {
    var stop := FirstStop(buf, u.start, u.end);
    forall k | u.start < k < u.end && buf[k] == QUESTION ensures stop <= k {
      assert Stops(buf, u.start, k);
    }
    OnlyAQueryStops(buf, u);
  }

  // Unless a flag is set, only a query ends the part of the path that is checked.
  lemma OnlyAQueryStops(buf: seq<byte>, u: UriPart)
    requires Shaped(buf, u)
    ensures !u.complex && !u.quoted ==> PathEnd(u) == FirstStop(buf, u.start, u.end)
  {
    var stop := FirstStop(buf, u.start, u.end);
    if stop < u.end && buf[stop] == HASH {
      assert Occurs(buf, stop, u.end, HASH);
    }
  }

  // Unless a flag is set, uri_ext is set exactly when the last path segment has a
  // '.', and then it is the byte after the last one.
  lemma ExtensionFollowsTheLastDot(buf: seq<byte>, u: UriPart)
    requires Shaped(buf, u) && !u.complex && !u.quoted
    ensures u.start < PathEnd(u) <= u.end
    ensures u.ext != NIL <==> exists k :: DotInLastSegment(buf, k, u.start, PathEnd(u))
    ensures u.ext != NIL ==>
              && DotInLastSegment(buf, u.ext - 1, u.start, PathEnd(u))
              && !Occurs(buf, u.ext, PathEnd(u), DOT)
  {
    OnlyAQueryStops(buf, u);
    var e := PathEnd(u);
    if u.ext == NIL {
      var k :| u.start <= k < e && buf[k] == SLASH && Clear(buf, k + 1, e);
      forall d | u.start < d < k && buf[d] == DOT ensures Occurs(buf, d + 1, e, SLASH) {
        assert buf[k] == SLASH;
      }
    } else {
      assert DotInLastSegment(buf, u.ext - 1, u.start, e);
    }
  }

  // A path with "/." in it, or "//", sets a flag.
  lemma SlashDotSetsAFlag(buf: seq<byte>, u: UriPart, k: int)
    requires Shaped(buf, u) && !u.complex && !u.quoted
    requires u.start <= k && k + 1 < PathEnd(u) && buf[k] == SLASH
    ensures k + 1 < |buf| && buf[k + 1] != DOT && buf[k + 1] != SLASH
  {
    OnlyAQueryStops(buf, u);
    assert AfterSlash(buf, u.start, k + 1);
    assert !Stops(buf, u.start, k + 1);
  }

  // ------------------------------------------------------------------
  // The reader's scan for runs of '/' and '.'.

  // How far a run of '/' and '.' has come; a backslash neither adds nor ends it.
  function Warn(warn: nat, b: byte): nat {
    if b == SLASH || b == DOT then warn + 1 else if b == BACKSLASH then warn else 0
  }

  // Whether the scan of buf[p..e] rejects, from a run of length warn.
  function ScanRejects(buf: seq<byte>, p: nat, e: int, warn: nat): bool
    requires e <= |buf|
    decreases e - p
  {
    if p >= e then false
    else
      var w := Warn(warn, buf[p]);
      w > 2 || ScanRejects(buf, p + 1, e, w)
  }

  // The number of '/' and '.' in buf[i..j].
  ghost function Count(buf: seq<byte>, i: nat, j: nat): nat
    requires i <= j <= |buf|
  {
    if i == j then 0 else Count(buf, i, j - 1) + if buf[j - 1] == 47 || buf[j - 1] == 46 then 1 else 0
  }

  // buf[i..j] holds '/', '.' and backslashes only.
  ghost predicate Stretch(buf: seq<byte>, i: nat, j: nat) {
    i <= j <= |buf| && forall k :: i <= k < j ==> buf[k] == 47 || buf[k] == 46 || buf[k] == 92
  }

  ghost predicate Loaded(buf: seq<byte>, i: nat, j: nat) {
    Stretch(buf, i, j) && Count(buf, i, j) > 2
  }

  lemma {:induction false} CountMonotone(buf: seq<byte>, r: nat, i: nat, j: nat)
    requires r <= i <= j <= |buf|
    ensures Count(buf, i, j) <= Count(buf, r, j)
    decreases j
  {
    if i < j {
      CountMonotone(buf, r, i, j - 1);
    }
  }

  // The scan rejects exactly when some stretch holds more than two such bytes.
  // Here the scan has come to p and its current stretch began at r.
  lemma {:induction false} ScanFrom(buf: seq<byte>, lo: nat, r: nat, p: nat, e: nat)
    requires lo <= r <= p <= e <= |buf| && Stretch(buf, r, p) && Count(buf, r, p) <= 2
    requires r > lo ==> !Stretch(buf, r - 1, r)
    requires forall i: nat, j: nat :: lo <= i && j <= p ==> !Loaded(buf, i, j)
    ensures ScanRejects(buf, p, e, Count(buf, r, p)) <==> exists i: nat, j: nat :: lo <= i && j <= e && Loaded(buf, i, j)
    decreases e - p
  {
    if p < e {
      var w := Warn(Count(buf, r, p), buf[p]);
      var r' := if Stretch(buf, p, p + 1) then r else p + 1;
      assert Stretch(buf, r', p + 1) && w == Count(buf, r', p + 1);
      if w > 2 {
        assert Loaded(buf, r', p + 1);
      } else {
        var n := p + 1;
        forall i: nat | lo <= i <= n ensures !Loaded(buf, i, n) {
          if r' <= i {
            CountMonotone(buf, r', i, n);
          }
        }
        ScanFrom(buf, lo, r', n, e);
      }
    }
  }

  lemma ScanFindsLoadedStretches(buf: seq<byte>, lo: nat, e: nat)
    requires lo <= e <= |buf|
    ensures ScanRejects(buf, lo, e, 0) <==> exists i: nat, j: nat :: lo <= i && j <= e && Loaded(buf, i, j)
  {
    forall i: nat, j: nat | lo <= i && j <= lo ensures !Loaded(buf, i, j) {
      if i == j {
        assert Count(buf, i, j) == 0;
      }
    }
    ScanFrom(buf, lo, lo, lo, e);
  }

  // The reader refuses the request.
  predicate Refused(buf: seq<byte>, u: UriPart) {
    u.complex && 0 <= u.start && u.end <= |buf| && ScanRejects(buf, u.start, u.end, 0)
  }

  // If a request without '%' in the checked part of its path is not refused, then no
  // "/.." stands anywhere before its query.
  lemma NoDotSegmentsPass(buf: seq<byte>, u: UriPart, k: nat)
    requires Shaped(buf, u) && !u.quoted && !Refused(buf, u)
    requires u.start <= k && k + 2 < PathEnd(u)
    ensures PathEnd(u) <= u.end && !(buf[k] == SLASH && buf[k + 1] == DOT && buf[k + 2] == DOT)
  {
    ArgsFollowTheFirstQuestionMark(buf, u);
    if buf[k] == SLASH && buf[k + 1] == DOT && buf[k + 2] == DOT {
      if u.complex {
        assert Count(buf, k, k + 1) == 1;
        assert Count(buf, k, k + 2) == 2;
        assert Loaded(buf, k, k + 3);
        ScanFindsLoadedStretches(buf, u.start, u.end);
      } else {
        SlashDotSetsAFlag(buf, u, k);
      }
    }
  }

  // The flags by the bytes of the URI, '#' being 35, '%' 37, '?' 63, '/' 47, '.' 46 and
  // '+' 43.  Any '#' makes it complex; it is quoted only by a '%' before every '?' and
  // '#', and by the first '%' unless it is complex.
  lemma FlagsByBytes(buf: seq<byte>, u: UriPart, k: nat)
    requires Shaped(buf, u) && u.start < k < u.end
    ensures buf[k] == 35 ==> u.complex
    ensures buf[k] == 37 && !Occurs(buf, u.start, k, 63) && !u.complex ==> u.quoted
  {
    var q := FirstStop(buf, u.start, u.end);
    if q > k {
      assert !Stops(buf, u.start, k);
    } else if buf[k] == 35 {
      assert Occurs(buf, q, u.end, HASH);
    }
  }

  ghost predicate PercentFirst(buf: seq<byte>, u: UriPart, k: nat)
    requires Shaped(buf, u)
  {
    u.start < k < u.end && buf[k] == 37 && !Occurs(buf, u.start, k, 63) && !Occurs(buf, u.start, k, 35)
  }

  ghost predicate DotAfterSlash(buf: seq<byte>, u: UriPart, k: nat)
    requires Shaped(buf, u)
  {
    u.start < k < u.end && (buf[k] == 46 || buf[k] == 47) && AfterSlash(buf, u.start, k)
  }

  // Why a URI is complex or quoted.
  lemma FlagsHaveReasons(buf: seq<byte>, u: UriPart)
    requires Shaped(buf, u)
    ensures u.quoted ==> exists k: nat :: PercentFirst(buf, u, k)
    ensures u.complex ==> Occurs(buf, u.start, u.end, 35) || exists k: nat :: DotAfterSlash(buf, u, k)
    ensures !(u.complex && u.quoted) || Occurs(buf, u.start, u.end, 35)
  {
    var q := FirstStop(buf, u.start, u.end);
    forall j | u.start < j < q ensures buf[j] != 63 && buf[j] != 35 {
      assert !Stops(buf, u.start, j);
    }
    assert u.quoted ==> PercentFirst(buf, u, q);
    assert u.complex && !Occurs(buf, u.start, u.end, 35) ==> DotAfterSlash(buf, u, q);
  }
}
