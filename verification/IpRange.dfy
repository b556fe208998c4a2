// The address range loop of src/modules/mgr/mgr_ip.cpp: an odometer of four components
// that counts from one address until no component is below that of another.
module IpRange {

  type Address = s: seq<int> | forall i :: 0 <= i < |s| ==> 0 <= s[i] <= 255

  // An address as a number in base 256.
  function Value(s: Address): (v: nat) {
    if s == [] then 0 else 256 * Value(s[..|s| - 1]) + s[|s| - 1]
  }

  predicate Full(s: Address) {
    forall i :: 0 <= i < |s| ==> s[i] == 255
  }

  // The address after `s`, with the carry going left; after the last one come zeros.
  function Next(s: Address): (t: Address)
    ensures |t| == |s|
  {
    var n := |s| - 1;
    if s == [] then [] else if s[n] < 255 then s[..n] + [s[n] + 1] else Next(s[..n]) + [0]
  }

  // No component of `s` is below that of `e`: the loop's exit test.
  predicate Dominates(s: Address, e: Address)
    requires |s| == |e|
  {
    forall i :: 0 <= i < |s| ==> s[i] >= e[i]
  }

  // The first component of `s` that is below that of `e`.
  function FirstBelow(s: Address, e: Address): (k: nat)
    requires |s| == |e|
    ensures k <= |s| && (k < |s| ==> s[k] < e[k])
    ensures forall i :: 0 <= i < k ==> s[i] >= e[i]
  {
    if s == [] then 0
    else
      var n := |s| - 1;
      var k := FirstBelow(s[..n], e[..n]);
      assert forall i :: 0 <= i < k ==> s[i] == s[..n][i] && e[i] == e[..n][i];
      if k < n || s[n] < e[n] then k else |s|
  }

  // Where counting from `s` towards `e` stops: the first component that is too low, and
  // all after it, come from `e`.
  function Stop(s: Address, e: Address): (t: Address)
    requires |s| == |e|
    ensures |t| == |s| && Dominates(t, e)
  {
    s[..FirstBelow(s, e)] + e[FirstBelow(s, e)..]
  }

  lemma {:induction false} NextIsOneMore(s: Address)
    ensures Value(Next(s)) == if Full(s) then 0 else Value(s) + 1
  {
    if s != [] {
      var n := |s| - 1;
      var front := s[..n];
      NextIsOneMore(front);
      assert Full(s) <==> Full(front) && s[n] == 255 by {
        assert Full(front) && s[n] == 255 ==> forall i :: 0 <= i < |s| ==> s[i] == if i < n then front[i] else 255;
      }
      assert Next(s)[..n] == if s[n] < 255 then front else Next(front);
    }
  }

  lemma {:induction false} ValueIsInjective(s: Address, t: Address)
    requires |s| == |t|
    ensures Value(s) == Value(t) <==> s == t
  {
    if s != [] {
      var n := |s| - 1;
      ValueIsInjective(s[..n], t[..n]);
      assert s == s[..n] + [s[n]] && t == t[..n] + [t[n]];
    }
  }

  lemma {:induction false} DominatingIsNotLess(s: Address, e: Address)
    requires |s| == |e| && Dominates(s, e)
    ensures Value(s) >= Value(e)
  {
    if s != [] {
      DominatingIsNotLess(s[..|s| - 1], e[..|s| - 1]);
    }
  }

  lemma FullIsHighest(s: Address, t: Address)
    requires |s| == |t| && Full(s)
    ensures Value(t) <= Value(s)
  {
    DominatingIsNotLess(s, t);
  }

  // `Stop` is the least address from `s` on that passes the exit test.
  lemma {:induction false} StopIsLeast(s: Address, e: Address, v: Address)
    requires |s| == |e| == |v| && Value(s) <= Value(v) && Dominates(v, e)
    ensures Value(s) <= Value(Stop(s, e)) <= Value(v)
  {
    if s != [] {
      var n := |s| - 1;
      StopIsLeast(s[..n], e[..n], v[..n]);
      StopByLast(s, e);
      ValueIsInjective(Stop(s[..n], e[..n]), s[..n]);
    }
  }

  // `Stop`, one component at a time from the right.
  lemma StopByLast(s: Address, e: Address)
    requires |s| == |e| && s != []
    ensures var n := |s| - 1;
      var front := Stop(s[..n], e[..n]);
      && Stop(s, e)[..n] == front
      && Stop(s, e)[n] == if front == s[..n] && s[n] >= e[n] then s[n] else e[n]
  {
    var n := |s| - 1;
    var k := FirstBelow(s[..n], e[..n]);
    var front := Stop(s[..n], e[..n]);
    if k < n {
      assert front[k] == e[k] > s[k] == s[..n][k];
    } else {
      assert front == s[..n];
    }
  }

  // The loop ends on `e` itself exactly when it did not start above it.
  lemma EndsOnTheEnd(s: Address, e: Address)
    requires |s| == |e|
    ensures Stop(s, e) == e <==> Value(s) <= Value(e)
  {
    StopIsNotBefore(s, e);
    if Value(s) <= Value(e) {
      StopIsLeast(s, e, e);
      DominatingIsNotLess(Stop(s, e), e);
      ValueIsInjective(Stop(s, e), e);
    }
  }

  lemma StopIsNotBefore(s: Address, e: Address)
    requires |s| == |e|
    ensures Value(s) <= Value(Stop(s, e))
  {
    var top: Address := seq(|s|, _ => 255);
    FullIsHighest(top, s);
    StopIsLeast(s, e, top);
  }

  // The addresses that counting from `s` to `t` goes through, without `s`.
  predicate CountsFrom(s: Address, t: Address, list: seq<Address>) {
    && (forall k :: 0 <= k < |list| ==> |list[k]| == |s| && Value(list[k]) == Value(s) + 1 + k)
    && (if list == [] then t == s else t == list[|list| - 1])
  }

  // There is only one such list: its length is the distance, and each address above `s`
  // and up to `t` is in it, once.
  lemma CountIsExact(s: Address, t: Address, list: seq<Address>, a: Address)
    requires CountsFrom(s, t, list) && |a| == |s|
    ensures |list| == Value(t) - Value(s)
    ensures a in list <==> Value(s) < Value(a) <= Value(t)
    ensures forall j, k :: 0 <= j < k < |list| ==> list[j] != list[k]
  {
    if Value(s) < Value(a) <= Value(t) {
      ValueIsInjective(a, list[Value(a) - Value(s) - 1]);
    }
  }

  // One step of the odometer.
  method Increment(cip: array<int>)
    requires forall i :: 0 <= i < cip.Length ==> 0 <= cip[i] <= 255
    modifies cip
    ensures cip[..] == Next(old(cip[..]))
  {
    ghost var was := cip[..];
    var ic := cip.Length - 1;
    assert was[..ic + 1] == was;
    while ic >= 0
      invariant -1 <= ic < cip.Length
      invariant cip[..ic + 1] == was[..ic + 1]
      invariant forall i :: ic < i < cip.Length ==> was[i] == 255 && cip[i] == 0
      invariant Next(was) == Next(was[..ic + 1]) + cip[ic + 1..]
    {
      ghost var left := was[..ic + 1];
      assert left[..ic] == was[..ic];
      if cip[ic] < 255 {
        cip[ic] := cip[ic] + 1;
        break;
      } else {
        cip[ic] := 0;
        ic := ic - 1;
      }
    }
  }

  method Below(cip1: array<int>, cip2: array<int>) returns (below: bool)
    requires cip1.Length == cip2.Length == 4
    requires forall i :: 0 <= i < 4 ==> 0 <= cip1[i] <= 255 && 0 <= cip2[i] <= 255
    ensures below == !Dominates(cip1[..], cip2[..])
  {
    assert forall i :: 0 <= i < 4 ==> cip1[..][i] == cip1[i] && cip2[..][i] == cip2[i];
    below := cip1[0] < cip2[0] || cip1[1] < cip2[1] || cip1[2] < cip2[2] || cip1[3] < cip2[3];
  }

  // The loop, for any two addresses.  The odometer stops at `Stop`, so it never wraps, and
  // every address after the first, up to there, is stored once and in order.
  method CountUp(cip1: array<int>, cip2: array<int>) returns (stored: seq<Address>)
    requires cip1.Length == cip2.Length == 4 && cip1 != cip2
    requires forall i :: 0 <= i < 4 ==> 0 <= cip1[i] <= 255 && 0 <= cip2[i] <= 255
    modifies cip1
    ensures cip1[..] == Stop(old(cip1[..]), cip2[..])
    ensures CountsFrom(old(cip1[..]), cip1[..], stored)
  {
    ghost var start: Address, end: Address := cip1[..], cip2[..];
    ghost var stop := Stop(start, end);
    StopIsNotBefore(start, end);
    stored := [];
    var below := Below(cip1, cip2);
    while below
      invariant forall i :: 0 <= i < 4 ==> 0 <= cip1[i] <= 255
      invariant cip2[..] == end
      invariant below == !Dominates(cip1[..], end)
      invariant CountsFrom(start, cip1[..], stored)
      invariant Value(start) <= Value(cip1[..]) <= Value(stop)
      decreases Value(stop) - Value(cip1[..])
    {
      ghost var now: Address := cip1[..];
      if Full(now) {
        assert false;
      }
      ValueIsInjective(now, stop);
      NextIsOneMore(now);
      Increment(cip1);
      ghost var next: Address := cip1[..];
      assert forall i :: 0 <= i < 4 ==> cip1[i] == next[i];
      stored := stored + [cip1[..]];
      below := Below(cip1, cip2);
    }
    StopIsLeast(start, end, cip1[..]);
    ValueIsInjective(stop, cip1[..]);
  }

  // The handler's second step: the components of both fields, already turned into
  // numbers.  It answers whether the form is accepted, and what was stored.
  method AddRange(ip1: seq<int>, ip2: seq<int>) returns (accepted: bool, stored: seq<Address>)
    ensures accepted <==> |ip1| == |ip2| == 4 && forall i :: 0 <= i < 4 ==> 0 <= ip1[i] <= 255 && 0 <= ip2[i] <= 255
    ensures if accepted then CountsFrom(ip1, Stop(ip1, ip2), stored) else stored == []
  {
    stored := [];
    if |ip1| != 4 || |ip2| != 4 {
      return false, stored;
    }
    var cip1, cip2 := new int[4], new int[4];
    for ic := 0 to 4
      invariant forall i :: 0 <= i < ic ==> cip1[i] == ip1[i] && cip2[i] == ip2[i]
      invariant forall i :: 0 <= i < ic ==> 0 <= ip1[i] <= 255 && 0 <= ip2[i] <= 255
    {
      cip1[ic], cip2[ic] := ip1[ic], ip2[ic];
      if cip1[ic] < 0 || cip1[ic] > 255 || cip2[ic] < 0 || cip2[ic] > 255 {
        return false, stored;
      }
    }
    assert cip1[..] == ip1 && cip2[..] == ip2;
    accepted := true;
    stored := CountUp(cip1, cip2);
  }
}
