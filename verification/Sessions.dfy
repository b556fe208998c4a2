// The session store of src/core/sp_session.cpp: registering, checking and killing
// sessions, and the hexadecimal session ids that travel in a cookie.
module Sessions {
  import opened Bytes
  import Cookies

  // "SPSID"
  const SPSID: seq<byte> := [83, 80, 83, 73, 68]

  class Session {
    const id: nat
    var userId: nat
    var userVnId: nat
    var started: nat
    var lastUse: nat

    constructor (id: nat, uid: nat, vnid: nat, now: nat)
      ensures this.id == id && userId == uid && userVnId == vnid && started == now && lastUse == now
    {
      this.id := id;
      userId, userVnId, started, lastUse := uid, vnid, now, now;
    }
  }

  // `sessionMap`: a looked-up key without a session has a null entry.
  type Table = map<nat, Session?>

  predicate IsLive(t: Table, id: nat) {
    id in t && t[id] != null
  }

  // Every session is stored under its own id.
  ghost predicate OwnIds(t: Table) {
    forall k :: k in t && t[k] != null ==> t[k].id == k
  }

  ghost predicate SameLive(t: Table, u: Table) {
    forall k :: (IsLive(t, k) <==> IsLive(u, k)) && (IsLive(t, k) ==> t[k] == u[k])
  }

  // ------------------------------------------------------------------
  // Hexadecimal ids.

  // What "%x" prints: lower case, without leading zeros.
  function Hex(n: nat): (s: seq<byte>)
    ensures |s| > 0
  {
    var d := HexDigit(n % 16, false);
    if n < 16 then [d] else Hex(n / 16) + [d]
  }

  // "%x" takes 32 bits of the id.
  function Printed(id: nat): seq<byte> {
    Hex(id % 0x1_0000_0000)
  }

  predicate AllHex(s: seq<byte>) {
    forall i :: 0 <= i < |s| ==> HexValue(s[i]) >= 0
  }

  // The number that hexadecimal digits spell.
  ghost function HexNumber(s: seq<byte>): nat
    requires AllHex(s)
  {
    if s == [] then 0 else 16 * HexNumber(s[..|s| - 1]) + HexValue(s[|s| - 1])
  }

  lemma {:induction false} HexUndone(n: nat)
    ensures AllHex(Hex(n)) && HexNumber(Hex(n)) == n
  {
    var s := Hex(n);
    HexValueExactly(HexDigit(n % 16, false), n % 16);
    if n < 16 {
      assert s[..0] == [];
    } else {
      HexUndone(n / 16);
      assert s[..|s| - 1] == Hex(n / 16);
    }
  }

  // The ids of at most 32 bits that print with an even number of digits.
  predicate EvenDigits(n: nat) {
    0x10 <= n < 0x100 || 0x1000 <= n < 0x1_0000 || 0x10_0000 <= n < 0x100_0000 || 0x1000_0000 <= n < 0x1_0000_0000
  }

  lemma HexLength(n: nat)
    requires n < 0x1_0000_0000
    ensures |Hex(n)| <= 8 && (|Hex(n)| % 2 == 0 <==> EvenDigits(n))
  {
    HexSize(n);
  }

  lemma {:induction false} HexSize(n: nat)
    ensures n < 0x10 ==> |Hex(n)| == 1
    ensures 0x10 <= n < 0x100 ==> |Hex(n)| == 2
    ensures 0x100 <= n < 0x1000 ==> |Hex(n)| == 3
    ensures 0x1000 <= n < 0x1_0000 ==> |Hex(n)| == 4
    ensures 0x1_0000 <= n < 0x10_0000 ==> |Hex(n)| == 5
    ensures 0x10_0000 <= n < 0x100_0000 ==> |Hex(n)| == 6
    ensures 0x100_0000 <= n < 0x1000_0000 ==> |Hex(n)| == 7
    ensures 0x1000_0000 <= n < 0x1_0000_0000 ==> |Hex(n)| == 8
    decreases n
  {
    if n >= 16 {
      HexSize(n / 16);
    }
  }

  // A cookie value that the check can turn into an id.
  predicate Readable(sid: seq<byte>) {
    2 <= |sid| <= 8 && |sid| % 2 == 0 && AllHex(sid)
  }

  // The byte counter wraps and the source shifts out of range.
  predicate Wraps(sid: seq<byte>) {
    |sid| >= 512 && |sid| % 2 == 0 && |sid| / 2 % 256 <= 4
  }

  // 1 << (8 * k)
  function Shifted(k: nat): nat {
    if k == 0 then 1 else 256 * Shifted(k - 1)
  }

  datatype Id = Some(id: nat) | None

  // The loop of sessionCheck over pairs of digits.
  method ParseId(sid: seq<byte>) returns (r: Id)
    requires sid != [] && !Wraps(sid)
    ensures r.Some? <==> Readable(sid)
    ensures r.Some? ==> r.id == HexNumber(sid)
  {
    if |sid| % 2 != 0 {
      return None;
    }
    var cpos := |sid| / 2 % 256;
    if cpos > 4 {
      return None;
    }
    var lsid, p := 0, 0;
    while p < |sid|
      invariant p <= |sid| && p % 2 == 0 && 2 * cpos == |sid| - p
      invariant AllHex(sid[..p]) && lsid == HexNumber(sid[..p]) * Shifted(cpos)
    {
      var hi, lo := HexValue(sid[p]), HexValue(sid[p + 1]);
      if hi < 0 {
        return None;
      }
      if lo < 0 {
        return None;
      }
      var i := hi * 16 + lo;
      cpos := cpos - 1;
      PairShifts(sid, p, cpos, i);
      lsid := lsid + i * Shifted(cpos);
      p := p + 2;
    }
    assert sid[..p] == sid;
    r := Some(lsid);
  }

  lemma PairShifts(sid: seq<byte>, p: nat, cpos: nat, i: nat)
    requires p + 2 <= |sid| && AllHex(sid[..p]) && HexValue(sid[p]) >= 0 && HexValue(sid[p + 1]) >= 0
    requires i == HexValue(sid[p]) * 16 + HexValue(sid[p + 1])
    ensures AllHex(sid[..p + 2])
    ensures HexNumber(sid[..p]) * Shifted(cpos + 1) + i * Shifted(cpos) == HexNumber(sid[..p + 2]) * Shifted(cpos)
  {
    var s, a := sid[..p + 2], HexNumber(sid[..p]);
    assert s[..|s| - 1] == sid[..p + 1] && sid[..p + 1][..p] == sid[..p];
    assert HexNumber(s) == 256 * a + i;
    var sh := Shifted(cpos);
    assert a * (256 * sh) + i * sh == (256 * a + i) * sh;
  }

  // ------------------------------------------------------------------
  // The store.

  // The first drawn id without a live session.
  function FirstFree(t: Table, draws: seq<nat>): Id {
    if draws == [] then None
    else if IsLive(t, draws[0]) then FirstFree(t, draws[1..])
    else Some(draws[0])
  }

  // A check looks its id up, which puts a null entry where there was none.
  ghost function Looked(t: Table, sid: seq<byte>): Table {
    if Readable(sid) && HexNumber(sid) !in t then t[HexNumber(sid) := null] else t
  }

  class Sessions {
    var sessionMap: Table

    constructor ()
      ensures sessionMap == map[]
    {
      sessionMap := map[];
    }

    // The draws are the random ids that are tried in turn; one of them is free.
    method SessionRegister(draws: seq<nat>, uid: nat, vnid: nat, now: nat)
      returns (s: Session, setCookie: seq<byte>)
      requires OwnIds(sessionMap) && FirstFree(sessionMap, draws).Some?
      modifies this
      ensures fresh(s) && Some(s.id) == FirstFree(old(sessionMap), draws)
      ensures s.userId == uid && s.userVnId == vnid && s.started == now && s.lastUse == now
      ensures sessionMap == old(sessionMap)[s.id := s]
      ensures OwnIds(sessionMap) && !IsLive(old(sessionMap), s.id)
      ensures setCookie == Cookies.SetText(SPSID, Printed(s.id))
    {
      var i := 0;
      while IsLive(sessionMap, draws[i])
        invariant i < |draws| && sessionMap == old(sessionMap)
        invariant FirstFree(sessionMap, draws[i..]) == FirstFree(sessionMap, draws)
        decreases |draws| - i
      {
        assert draws[i..][1..] == draws[i + 1..];
        i := i + 1;
      }
      var id := draws[i];
      if id !in sessionMap {
        sessionMap := sessionMap[id := null];
      }
      s := new Session(id, uid, vnid, now);
      sessionMap := sessionMap[id := s];
      setCookie := Cookies.SetText(SPSID, Printed(id));
    }

    // The session the cookie names, or null; del says whether cookieDel is called.
    method SessionCheck(cookies: Cookies.CookieMap, now: nat) returns (s: Session?, del: bool)
      requires OwnIds(sessionMap) && !Wraps(Cookies.CookieGet(cookies, SPSID))
      modifies this, set k | k in sessionMap && sessionMap[k] != null :: sessionMap[k]
      ensures var sid := Cookies.CookieGet(cookies, SPSID);
              && (s != null <==> Readable(sid) && IsLive(old(sessionMap), HexNumber(sid)))
              && (s != null ==> s == old(sessionMap)[HexNumber(sid)] && s.lastUse == now)
              && sessionMap == Looked(old(sessionMap), sid)
              && (del <==> sid != [] && s == null)
      ensures SameLive(sessionMap, old(sessionMap)) && OwnIds(sessionMap)
      ensures forall k :: IsLive(sessionMap, k) && sessionMap[k] != s ==> unchanged(sessionMap[k])
    {
      var sid := Cookies.CookieGet(cookies, SPSID);
      if sid == [] {
        return null, false;
      }
      var id := ParseId(sid);
      if id == None {
        return null, true;
      }
      if id.id !in sessionMap {
        sessionMap := sessionMap[id.id := null];
      }
      s := sessionMap[id.id];
      if s == null {
        return null, true;
      }
      s.lastUse := now;
      del := false;
    }

    method SessionKill(id: nat)
      requires OwnIds(sessionMap)
      modifies this
      ensures sessionMap == old(sessionMap) - {id} && OwnIds(sessionMap) && !IsLive(sessionMap, id)
    {
      sessionMap := sessionMap - {id};
    }
  }

  // ------------------------------------------------------------------
  // Runs.

  datatype Op = Register(draws: seq<nat>, s: Session) | Check(sid: seq<byte>) | Kill(id: nat)

  predicate Possible(t: Table, op: Op) {
    op.Register? ==> FirstFree(t, op.draws) == Some(op.s.id)
  }

  ghost function Apply(t: Table, op: Op): Table {
    match op
    case Register(_, s) => t[s.id := s]
    case Check(sid) => Looked(t, sid)
    case Kill(id) => t - {id}
  }

  // The table after the operations, the last of them applied last.
  ghost function After(ops: seq<Op>): Table {
    if ops == [] then map[] else Apply(After(ops[..|ops| - 1]), ops[|ops| - 1])
  }

  ghost predicate AllPossible(ops: seq<Op>) {
    ops == [] ||
    (AllPossible(ops[..|ops| - 1]) && Possible(After(ops[..|ops| - 1]), ops[|ops| - 1]))
  }

  // The session that was registered under k and not killed since, if any.
  ghost function Holder(ops: seq<Op>, k: nat): Session? {
    if ops == [] then null
    else
      var before := Holder(ops[..|ops| - 1], k);
      match ops[|ops| - 1]
      case Register(_, s) => if s.id == k then s else before
      case Check(_) => before
      case Kill(id) => if id == k then null else before
  }

  lemma FirstFreeIsFree(t: Table, draws: seq<nat>)
    ensures FirstFree(t, draws).Some? ==> !IsLive(t, FirstFree(t, draws).id)
  {
  }

  // Over every run, every session is stored under its own id, and what is live under an
  // id is exactly what was registered there and not killed since: lookups change
  // nothing, and no registration replaces a live session.
  lemma {:induction false} LiveIsRegisteredAndNotKilled(ops: seq<Op>)
    requires AllPossible(ops)
    ensures OwnIds(After(ops))
    ensures forall k: nat :: if IsLive(After(ops), k) then After(ops)[k] == Holder(ops, k) else Holder(ops, k) == null
  {
    if ops != [] {
      LiveIsRegisteredAndNotKilled(ops[..|ops| - 1]);
    }
  }

  lemma {:induction false} RegistrationsNeverReplace(ops: seq<Op>)
    requires AllPossible(ops) && ops != [] && ops[|ops| - 1].Register?
    ensures Holder(ops[..|ops| - 1], ops[|ops| - 1].s.id) == null
  {
    var before, op := ops[..|ops| - 1], ops[|ops| - 1];
    LiveIsRegisteredAndNotKilled(before);
    FirstFreeIsFree(After(before), op.draws);
  }

  // ------------------------------------------------------------------
  // From the session to its cookie and back.

  // The check, given this cookie value, finds the session s.
  ghost predicate Finds(t: Table, sid: seq<byte>, s: Session) {
    Readable(sid) && IsLive(t, HexNumber(sid)) && t[HexNumber(sid)] == s
  }

  // Printing the id of a live session, setting the cookie, decoding it, and checking it
  // gives the session back if and only if the id fits 32 bits and prints with an even
  // number of digits.
  lemma SessionIdentity(t: Table, s: Session)
    requires OwnIds(t) && IsLive(t, s.id) && t[s.id] == s
    ensures var sid := Cookies.CookieGet(Cookies.Decode(Cookies.SetText(SPSID, Printed(s.id))), SPSID);
            Finds(t, sid, s) <==> s.id < 0x1_0000_0000 && EvenDigits(s.id)
  {
    var sid := Printed(s.id);
    PrintedIsRead(s.id);
    Cookies.SetIsDecoded(SPSID, sid);
  }

  lemma PrintedIsRead(id: nat)
    ensures AllHex(Printed(id)) && Printed(id) != [] && Cookies.Free(Printed(id), Cookies.SEMICOLON)
    ensures Readable(Printed(id)) && HexNumber(Printed(id)) == id <==> id < 0x1_0000_0000 && EvenDigits(id)
  {
    var n := id % 0x1_0000_0000;
    assert n == id <==> id < 0x1_0000_0000;
    HexUndone(n);
    HexLength(n);
    assert Cookies.Free(Printed(id), Cookies.SEMICOLON);
  }

  // The same holds for the bare pair that a browser sends back.
  lemma SessionIdentityFromBrowser(t: Table, s: Session)
    requires OwnIds(t) && IsLive(t, s.id) && t[s.id] == s
    ensures var text := SPSID + [Cookies.EQUALS] + Printed(s.id);
            Finds(t, Cookies.CookieGet(Cookies.Decode(text), SPSID), s) <==>
            s.id < 0x1_0000_0000 && EvenDigits(s.id)
  {
    SessionIdentity(t, s);
    PrintedIsRead(s.id);
    Cookies.SetIsDecoded(SPSID, Printed(s.id));
    Cookies.PairIsDecoded(SPSID, Printed(s.id));
  }

  lemma Texts()
    ensures IsText(SPSID, "SPSID")
  {
  }
}
