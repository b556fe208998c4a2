// `sp_read_http_values`: the decoder of urlencoded pairs (section 17.13.4.1 of HTML
// 4.01), what it makes of every encoding of a list of pairs, and exactly when that is
// the list.
module Forms {
  import opened Bytes

  const AMP: byte := 38
  const EQUALS: byte := 61

  type Values = map<seq<byte>, seq<byte>>

  datatype FormState = Name | Equal | Amp | Value | Percent | Percent2

  // The locals K, V, h and state, and the map.
  datatype Form = Form(state: FormState, k: seq<byte>, v: seq<byte>, h: byte, m: Values)

  predicate Stops(c: byte) {
    c == CR || c == LF || c == SP
  }

  function Commit(f: Form): Form {
    f.(m := f.m[f.k := f.v], k := [], v := [], state := Amp)
  }

  // One turn of the loop.
  function Step(f: Form, c: byte): Form {
    match f.state
    case Name =>
      if c == EQUALS then f.(state := Equal)
      else if c == AMP then f.(m := if f.k != [] then f.m[f.k := []] else f.m, state := Amp)
      else if c == PLUS then f.(k := f.k + [SP])
      else f.(k := f.k + [c])
    case Value =>
      if c == PERCENT then f.(state := Percent)
      else if c == AMP then Commit(f)
      else if c == PLUS then f.(v := f.v + [SP])
      else f.(v := f.v + [c])
    case Percent =>
      if HexValue(c) >= 0 then f.(h := HexValue(c) * 16, state := Percent2)
      else
        var g := f.(v := f.v + [PERCENT]);
        if c == EQUALS then g.(state := Equal)
        else if c == AMP then Commit(g)
        else if c == PERCENT then g
        else g.(v := g.v + [c])
    case Percent2 =>
      if HexValue(c) >= 0 then
        var b := (f.h + HexValue(c)) % 256;
        f.(v := f.v + [b], h := b, state := Value)
      else if c == EQUALS then f.(state := Equal)
      else if c == AMP then Commit(f)
      else if c == PERCENT then f.(state := Percent)
      else f.(v := f.v + [c])
    case Equal =>
      if c == AMP then f.(m := f.m[f.k := []], k := [], state := Name)
      else if c == PERCENT then f.(state := Percent)
      else f.(v := [c], state := Value)
    case Amp =>
      if c == AMP then f
      else if c == EQUALS then f.(state := Equal)
      else f.(k := [c], state := Name)
  }

  // The loop, which a CR, LF or SP ends early.
  function Feed(f: Form, text: seq<byte>): Form
    decreases |text|
  {
    if text == [] || Stops(text[0]) then f else Feed(Step(f, text[0]), text[1..])
  }

  function Close(f: Form): Values {
    if f.state in {Value, Name, Equal} && f.k != [] then f.m[f.k := f.v] else f.m
  }

  function Decode(text: seq<byte>, m: Values): Values {
    Close(Feed(Form(Name, [], [], 0, m), text))
  }

  method ReadHttpValues(text: seq<byte>, into: Values) returns (m: Values)
    ensures m == Decode(text, into)
  {
    m := into;
    var k: seq<byte>, v: seq<byte>, h: byte, state := [], [], 0, Name;
    var p := 0;
    while p < |text| && !Stops(text[p])
      invariant p <= |text|
      invariant Feed(Form(state, k, v, h, m), text[p..]) == Feed(Form(Name, [], [], 0, into), text)
    {
      var c := text[p];
      assert text[p..][1..] == text[p + 1..];
      match state {
        case Name =>
          if c == EQUALS {
            state := Equal;
          } else if c == AMP {
            if k != [] {
              m := m[k := []];
            }
            state := Amp;
          } else {
            k := k + [if c == PLUS then SP else c];
          }
        case Value =>
          if c == PERCENT {
            state := Percent;
          } else if c == AMP {
            m, k, v, state := m[k := v], [], [], Amp;
          } else {
            v := v + [if c == PLUS then SP else c];
          }
        case Percent =>
          var d := HexValue(c);
          if d >= 0 {
            h, state := d * 16, Percent2;
          } else {
            v := v + [PERCENT];
            if c == EQUALS {
              state := Equal;
            } else if c == AMP {
              m, k, v, state := m[k := v], [], [], Amp;
            } else if c != PERCENT {
              v := v + [c];
            }
          }
        case Percent2 =>
          var d := HexValue(c);
          if d >= 0 {
            h := (h + d) % 256;
            v, state := v + [h], Value;
          } else if c == EQUALS {
            state := Equal;
          } else if c == AMP {
            m, k, v, state := m[k := v], [], [], Amp;
          } else if c == PERCENT {
            state := Percent;
          } else {
            v := v + [c];
          }
        case Equal =>
          if c == AMP {
            m, k, state := m[k := []], [], Name;
          } else if c == PERCENT {
            state := Percent;
          } else {
            v, state := [c], Value;
          }
        case Amp =>
          if c == EQUALS {
            state := Equal;
          } else if c != AMP {
            k, state := [c], Name;
          }
      }
      p := p + 1;
    }
    if (state == Value || state == Name || state == Equal) && k != [] {
      m := m[k := v];
    }
  }

  // ------------------------------------------------------------------
  // Encodings.

  // A byte of a value as it may be written: itself, '%' and two hexadecimal digits, each
  // in upper case or not, or '+' for a space.
  datatype Sign = Plain(b: byte) | Escaped(b: byte, first: bool, second: bool) | Plus

  // An item between two '&': a key with a value, a key without '=', or nothing.
  datatype Pair = Pair(key: seq<byte>, value: seq<Sign>) | Bare(key: seq<byte>) | Nothing

  predicate GoodSign(s: Sign) {
    match s
    case Plain(b) => b !in {PERCENT, AMP, PLUS} && !Stops(b)
    case Escaped(_, _, _) => true
    case Plus => true
  }

  // The bytes of a key stand for themselves, but for the space, which is written as '+'
  // and cannot come first.
  predicate GoodKeyByte(b: byte) {
    b !in {EQUALS, AMP, PLUS, CR, LF}
  }

  predicate GoodKey(key: seq<byte>) {
    key != [] && key[0] != SP && forall i :: 0 <= i < |key| ==> GoodKeyByte(key[i])
  }

  predicate GoodPair(p: Pair) {
    match p
    case Pair(key, value) => GoodKey(key) && forall i :: 0 <= i < |value| ==> GoodSign(value[i])
    case Bare(key) => GoodKey(key)
    case Nothing => true
  }

  // The key of an item; nothing has none.
  function KeyOf(p: Pair): seq<byte> {
    if p.Nothing? then [] else p.key
  }

  function Written(s: Sign): seq<byte> {
    match s
    case Plain(b) => [b]
    case Escaped(b, first, second) => [PERCENT, HexDigit(b / 16, first), HexDigit(b % 16, second)]
    case Plus => [PLUS]
  }

  // The byte a sign stands for.
  function Meant(s: Sign): byte
    requires GoodSign(s)
  {
    match s
    case Plain(b) => b
    case Escaped(b, _, _) => b
    case Plus => SP
  }

  function WriteValue(v: seq<Sign>): seq<byte> {
    if v == [] then [] else Written(v[0]) + WriteValue(v[1..])
  }

  function MeantValue(v: seq<Sign>): seq<byte>
    requires forall i :: 0 <= i < |v| ==> GoodSign(v[i])
  {
    if v == [] then [] else [Meant(v[0])] + MeantValue(v[1..])
  }

  function WriteKey(key: seq<byte>): seq<byte> {
    if key == [] then [] else [if key[0] == SP then PLUS else key[0]] + WriteKey(key[1..])
  }

  function WritePair(p: Pair): seq<byte> {
    match p
    case Pair(key, value) => WriteKey(key) + [EQUALS] + WriteValue(value)
    case Bare(key) => WriteKey(key)
    case Nothing => []
  }

  // The items joined with '&'.
  function WritePairs(ps: seq<Pair>): seq<byte> {
    if ps == [] then []
    else if |ps| == 1 then WritePair(ps[0])
    else WritePair(ps[0]) + [AMP] + WritePairs(ps[1..])
  }

  predicate LeadingPlus(v: seq<Sign>) {
    v != [] && v[0].Plus?
  }

  // What the decoder takes in: a '+' in the first place stands for itself.
  function TakenValue(v: seq<Sign>): seq<byte>
    requires forall i :: 0 <= i < |v| ==> GoodSign(v[i])
  {
    if LeadingPlus(v) then [PLUS] + MeantValue(v[1..]) else MeantValue(v)
  }

  predicate GoodPairs(ps: seq<Pair>) {
    forall i :: 0 <= i < |ps| ==> GoodPair(ps[i])
  }

  // A key without '=' has an empty value.
  function ValueOf(p: Pair, taken: bool): seq<byte>
    requires GoodPair(p)
  {
    if !p.Pair? then [] else if taken then TakenValue(p.value) else MeantValue(p.value)
  }

  function Enter(m: Values, p: Pair, taken: bool): Values
    requires GoodPair(p)
  {
    if p.Nothing? then m else m[p.key := ValueOf(p, taken)]
  }

  // The map of the items, the values as they are meant or as they are taken; a later item
  // with the same key wins.
  function LastWins(ps: seq<Pair>, m: Values, taken: bool): Values
    requires GoodPairs(ps)
    decreases |ps|
  {
    if ps == [] then m
    else
      assert GoodPair(ps[0]);
      LastWins(ps[1..], Enter(m, ps[0], taken), taken)
  }

  // Item i has a key, and no later item has it.
  predicate IsLast(ps: seq<Pair>, i: nat)
    requires i < |ps|
  {
    !ps[i].Nothing? && forall j :: i < j < |ps| ==> KeyOf(ps[j]) != KeyOf(ps[i])
  }

  // The item is written with a '+' in the first place of its value.
  predicate Distorted(p: Pair) {
    p.Pair? && LeadingPlus(p.value)
  }

  // ------------------------------------------------------------------
  // The round trip.

  predicate Runs(text: seq<byte>) {
    forall i :: 0 <= i < |text| ==> !Stops(text[i])
  }

  lemma {:induction false} FeedAppend(f: Form, a: seq<byte>, b: seq<byte>)
    requires Runs(a)
    ensures Feed(f, a + b) == Feed(Feed(f, a), b)
    decreases |a|
  {
    if a == [] {
      assert a + b == b;
    } else {
      assert (a + b)[1..] == a[1..] + b;
      FeedAppend(Step(f, a[0]), a[1..], b);
    }
  }

  lemma RunsAppend(a: seq<byte>, b: seq<byte>)
    requires Runs(a) && Runs(b)
    ensures Runs(a + b)
  {
  }

  lemma FeedOne(f: Form, c: byte)
    requires !Stops(c)
    ensures Feed(f, [c]) == Step(f, c)
  {
    assert [c][1..] == [];
  }

  // Before a pair: nothing of it has been read.
  predicate Ready(f: Form) {
    f.v == [] && (f.state == Amp || (f.state == Name && f.k == []))
  }

  lemma {:induction false} FeedKey(f: Form, key: seq<byte>)
    requires f.state == Name && forall i :: 0 <= i < |key| ==> GoodKeyByte(key[i])
    ensures Feed(f, WriteKey(key)) == f.(k := f.k + key) && Runs(WriteKey(key))
    decreases |key|
  {
    if key == [] {
      assert f.k + key == f.k;
    } else {
      var w := WriteKey(key);
      assert w[1..] == WriteKey(key[1..]) && GoodKeyByte(key[0]);
      FeedKey(Step(f, w[0]), key[1..]);
      assert f.k + [key[0]] + key[1..] == f.k + key;
      assert Runs([w[0]] + w[1..]);
    }
  }

  lemma FeedWholeKey(f: Form, key: seq<byte>)
    requires Ready(f) && GoodKey(key)
    ensures Feed(f, WriteKey(key)) == f.(k := key, state := Name) && Runs(WriteKey(key))
  {
    var w := WriteKey(key);
    assert w[1..] == WriteKey(key[1..]) && GoodKeyByte(key[0]);
    FeedKey(Step(f, w[0]), key[1..]);
    assert [key[0]] + key[1..] == key;
    assert Runs([w[0]] + w[1..]);
  }

  // Inside a value: something has been read of it, or nothing.
  predicate InValue(f: Form) {
    f.state == if f.v == [] then Equal else Value
  }

  // A '+' that is the first byte of a value is taken literally.
  function Taken(f: Form, s: Sign): byte
    requires GoodSign(s)
  {
    if s.Plus? && f.v == [] then PLUS else Meant(s)
  }

  lemma FeedEscape(f: Form, b: byte, hi: byte, lo: byte)
    requires InValue(f) && HexValue(hi) == b / 16 && HexValue(lo) == b % 16
    ensures Feed(f, [PERCENT, hi, lo]) == f.(v := f.v + [b], state := Value, h := b) && Runs([PERCENT, hi, lo])
  {
    var f1 := f.(state := Percent);
    var f2 := f.(state := Percent2, h := b / 16 * 16);
    FeedOne(f, PERCENT);
    FeedOne(f1, hi);
    EscapeEnds(f, b, lo);
    assert [PERCENT] + [hi] == [PERCENT, hi] && [PERCENT, hi] + [lo] == [PERCENT, hi, lo];
    FeedAppend(f, [PERCENT], [hi]);
    FeedAppend(f, [PERCENT, hi], [lo]);
  }

  // The second digit.
  lemma EscapeEnds(f: Form, b: byte, lo: byte)
    requires HexValue(lo) == b % 16
    ensures Feed(f.(state := Percent2, h := b / 16 * 16), [lo]) == f.(v := f.v + [b], state := Value, h := b)
  {
    FeedOne(f.(state := Percent2, h := b / 16 * 16), lo);
    assert (b / 16 * 16 + b % 16) % 256 == b;
  }

  lemma FeedPlain(f: Form, b: byte, taken: byte)
    requires InValue(f) && b !in {PERCENT, AMP} && !Stops(b)
    requires taken == if b == PLUS && f.v != [] then SP else b
    ensures Feed(f, [b]) == f.(v := f.v + [taken], state := Value) && Runs([b])
  {
    FeedOne(f, b);
    assert f.v == [] ==> f.v + [taken] == [taken];
  }

  lemma FeedSign(f: Form, s: Sign)
    requires InValue(f) && GoodSign(s)
    ensures var g := Feed(f, Written(s));
            g == f.(v := f.v + [Taken(f, s)], state := Value, h := g.h) && Runs(Written(s))
  {
    match s
    case Plain(b) => FeedPlain(f, b, b);
    case Plus => FeedPlain(f, PLUS, Taken(f, s));
    case Escaped(b, first, second) =>
      var hi, lo := HexDigit(b / 16, first), HexDigit(b % 16, second);
      HexValueExactly(hi, b / 16);
      HexValueExactly(lo, b % 16);
      FeedEscape(f, b, hi, lo);
  }

  lemma {:induction false} FeedValue(f: Form, v: seq<Sign>)
    requires InValue(f) && forall i :: 0 <= i < |v| ==> GoodSign(v[i])
    ensures var g := Feed(f, WriteValue(v));
            && InValue(g) && Runs(WriteValue(v))
            && g == f.(v := f.v + (if f.v == [] then TakenValue(v) else MeantValue(v)), state := g.state, h := g.h)
    decreases |v|
  {
    if v == [] {
      assert f.v + MeantValue(v) == f.v;
    } else {
      var w, rest := Written(v[0]), WriteValue(v[1..]);
      var g := Feed(f, w);
      FeedSign(f, v[0]);
      FeedValue(g, v[1..]);
      FeedAppend(f, w, rest);
      RunsAppend(w, rest);
      assert f.v + [Taken(f, v[0])] + MeantValue(v[1..]) == f.v + ([Taken(f, v[0])] + MeantValue(v[1..]));
    }
  }

  lemma FeedPair(f: Form, p: Pair)
    requires Ready(f) && GoodPair(p) && p.Pair?
    ensures var g := Feed(f, WritePair(p));
            && InValue(g) && Runs(WritePair(p))
            && g == f.(k := p.key, v := TakenValue(p.value), state := g.state, h := g.h)
  {
    var w := WriteKey(p.key);
    var f1 := Feed(f, w);
    FeedWholeKey(f, p.key);
    var f2 := Feed(f1, [EQUALS]);
    FeedOne(f1, EQUALS);
    FeedValue(f2, p.value);
    FeedAppend(f, w, [EQUALS]);
    FeedAppend(f, w + [EQUALS], WriteValue(p.value));
    assert [] + TakenValue(p.value) == TakenValue(p.value);
  }

  // Any item: what the map is if the text ends here, and if a '&' follows.
  lemma FeedItem(f: Form, p: Pair)
    requires Ready(f) && GoodPair(p)
    ensures var g := Feed(f, WritePair(p));
            && Runs(WritePair(p)) && Close(g) == Enter(f.m, p, true)
            && Ready(Step(g, AMP)) && Step(g, AMP).m == Enter(f.m, p, true)
  {
    match p
    case Pair(_, _) => FeedPair(f, p);
    case Bare(key) => FeedWholeKey(f, key);
    case Nothing =>
  }

  // From any place where an item may begin, the decoder takes in the items in order.
  lemma {:induction false} FeedPairs(f: Form, ps: seq<Pair>)
    requires Ready(f) && ps != [] && GoodPairs(ps)
    ensures Close(Feed(f, WritePairs(ps))) == LastWins(ps, f.m, true)
    decreases |ps|
  {
    var p := ps[0];
    var g := Feed(f, WritePair(p));
    FeedItem(f, p);
    if |ps| == 1 {
      assert ps[1..] == [];
    } else {
      FeedNext(f, p, WritePairs(ps[1..]));
      FeedPairs(Step(g, AMP), ps[1..]);
    }
  }

  lemma FeedNext(f: Form, p: Pair, rest: seq<byte>)
    requires Ready(f) && GoodPair(p)
    ensures Feed(f, WritePair(p) + [AMP] + rest) == Feed(Step(Feed(f, WritePair(p)), AMP), rest)
  {
    FeedItem(f, p);
    FeedOne(Feed(f, WritePair(p)), AMP);
    FeedAppend(f, WritePair(p), [AMP]);
    FeedAppend(f, WritePair(p) + [AMP], rest);
  }

  lemma DecodeTakes(ps: seq<Pair>, m: Values)
    requires GoodPairs(ps)
    ensures Decode(WritePairs(ps), m) == LastWins(ps, m, true)
  {
    if ps != [] {
      FeedPairs(Form(Name, [], [], 0, m), ps);
    }
  }

  // A key that does not occur keeps what the map held.
  lemma {:induction false} OthersAreKept(ps: seq<Pair>, m: Values, taken: bool, k: seq<byte>)
    requires GoodPairs(ps) && forall i :: 0 <= i < |ps| ==> ps[i].Nothing? || KeyOf(ps[i]) != k
    ensures k in LastWins(ps, m, taken) <==> k in m
    ensures k in m ==> LastWins(ps, m, taken)[k] == m[k]
    decreases |ps|
  {
    if ps != [] {
      OthersAreKept(ps[1..], Enter(m, ps[0], taken), taken, k);
    }
  }

  // A key that occurs gets the value of its last item.
  lemma {:induction false} LastIsHeld(ps: seq<Pair>, m: Values, taken: bool, i: nat)
    requires GoodPairs(ps) && i < |ps| && IsLast(ps, i)
    ensures GoodPair(ps[i]) && KeyOf(ps[i]) in LastWins(ps, m, taken)
    ensures LastWins(ps, m, taken)[KeyOf(ps[i])] == ValueOf(ps[i], taken)
    decreases |ps|
  {
    var rest, n := ps[1..], Enter(m, ps[0], taken);
    assert forall j :: 0 <= j < |rest| ==> rest[j] == ps[j + 1];
    if i == 0 {
      OthersAreKept(rest, n, taken, KeyOf(ps[0]));
    } else {
      assert IsLast(rest, i - 1);
      LastIsHeld(rest, n, taken, i - 1);
    }
  }

  // A key that occurs has a last item.
  lemma {:induction false} LastPair(ps: seq<Pair>, i: nat) returns (j: nat)
    requires i < |ps| && !ps[i].Nothing? && GoodPairs(ps)
    ensures i <= j < |ps| && KeyOf(ps[j]) == KeyOf(ps[i]) && IsLast(ps, j)
    decreases |ps| - i
  {
    j := i;
    if !IsLast(ps, i) {
      var n :| i < n < |ps| && KeyOf(ps[n]) == KeyOf(ps[i]);
      assert GoodPair(ps[i]);
      j := LastPair(ps, n);
    }
  }

  // However the bytes of the values were written, decoding the joined pairs gives the
  // last value of every key, if and only if none of these last values is written with a
  // '+' in the first place.
  lemma DecodeUndoesEncoding(ps: seq<Pair>, m: Values)
    requires GoodPairs(ps)
    ensures Decode(WritePairs(ps), m) == LastWins(ps, m, false) <==>
            forall i :: 0 <= i < |ps| && IsLast(ps, i) ==> !Distorted(ps[i])
  {
    DecodeTakes(ps, m);
    if forall i :: 0 <= i < |ps| && IsLast(ps, i) ==> !Distorted(ps[i]) {
      SameMaps(ps, m);
    } else {
      var i :| 0 <= i < |ps| && IsLast(ps, i) && Distorted(ps[i]);
      LastIsHeld(ps, m, true, i);
      LastIsHeld(ps, m, false, i);
      assert TakenValue(ps[i].value)[0] == PLUS && MeantValue(ps[i].value)[0] == SP;
    }
  }

  lemma SameMaps(ps: seq<Pair>, m: Values)
    requires GoodPairs(ps) && forall i :: 0 <= i < |ps| && IsLast(ps, i) ==> !Distorted(ps[i])
    ensures LastWins(ps, m, true) == LastWins(ps, m, false)
  {
    var a, b := LastWins(ps, m, true), LastWins(ps, m, false);
    forall k: seq<byte>
      ensures (k in a <==> k in b) && (k in a ==> a[k] == b[k])
    {
      if i :| 0 <= i < |ps| && !ps[i].Nothing? && KeyOf(ps[i]) == k {
        var j := LastPair(ps, i);
        LastIsHeld(ps, m, true, j);
        LastIsHeld(ps, m, false, j);
      } else {
        OthersAreKept(ps, m, true, k);
        OthersAreKept(ps, m, false, k);
      }
    }
  }

  // ------------------------------------------------------------------
  // Texts that are not quite right.

  // A CR, LF or space ends the text, whatever follows.
  lemma {:induction false} FeedStopsAt(f: Form, text: seq<byte>, b: byte, rest: seq<byte>)
    requires Stops(b)
    ensures Feed(f, text + ([b] + rest)) == Feed(f, text)
    decreases |text|
  {
    if text == [] {
      assert text + ([b] + rest) == [b] + rest;
    } else if !Stops(text[0]) {
      assert (text + ([b] + rest))[1..] == text[1..] + ([b] + rest);
      FeedStopsAt(Step(f, text[0]), text[1..], b, rest);
    }
  }

  lemma DecodeStopsAt(text: seq<byte>, b: byte, rest: seq<byte>, m: Values)
    requires b == 13 || b == 10 || b == 32
    ensures Decode(text + ([b] + rest), m) == Decode(text, m)
  {
    FeedStopsAt(Form(Name, [], [], 0, m), text, b, rest);
  }

  // Up to the end of a last item with a value.
  lemma {:induction false} FeedUpTo(f: Form, ps: seq<Pair>, p: Pair)
    requires Ready(f) && GoodPairs(ps) && GoodPair(p) && p.Pair?
    ensures GoodPairs(ps + [p]) && Runs(WritePairs(ps + [p]))
    ensures var g := Feed(f, WritePairs(ps + [p]));
      InValue(g) && g.k == p.key && g.v == TakenValue(p.value) && g.m == LastWins(ps, f.m, true)
    decreases |ps|
  {
    var all := ps + [p];
    if ps == [] {
      FeedPair(f, p);
    } else {
      var q := ps[0];
      assert GoodPair(q) && all[1..] == ps[1..] + [p];
      FeedItem(f, q);
      FeedNext(f, q, WritePairs(all[1..]));
      FeedUpTo(Step(Feed(f, WritePair(q)), AMP), ps[1..], p);
      RunsAppend(WritePair(q), [AMP]);
      RunsAppend(WritePair(q) + [AMP], WritePairs(all[1..]));
    }
  }

  // If the text ends within an escape, the last item is lost.
  lemma UnfinishedEscapeLosesTheItem(ps: seq<Pair>, p: Pair, d: nat, upper: bool, m: Values)
    requires GoodPairs(ps) && GoodPair(p) && p.Pair? && d < 16
    ensures Decode(WritePairs(ps + [p]) + [PERCENT], m) == LastWins(ps, m, true)
    ensures Decode(WritePairs(ps + [p]) + [PERCENT, HexDigit(d, upper)], m) == LastWins(ps, m, true)
  {
    var f, text, x := Form(Name, [], [], 0, m), WritePairs(ps + [p]), HexDigit(d, upper);
    FeedUpTo(f, ps, p);
    var g := Feed(f, text);
    FeedOne(g, PERCENT);
    FeedAppend(f, text, [PERCENT]);
    FeedHalf(g, d, upper);
    FeedAppend(f, text, [PERCENT, x]);
  }

  // A byte that is no hexadecimal digit and means nothing else.
  predicate Odd(c: byte) {
    HexValue(c) < 0 && c !in {EQUALS, AMP, PERCENT} && !Stops(c)
  }

  // '%' before every byte.
  function Sprinkled(s: seq<byte>): seq<byte> {
    if s == [] then [] else [PERCENT, s[0]] + Sprinkled(s[1..])
  }

  lemma {:induction false} FeedOdd(f: Form, s: seq<byte>)
    requires f.state == Percent && forall i :: 0 <= i < |s| ==> Odd(s[i])
    ensures Feed(f, s) == f.(v := f.v + Sprinkled(s)) && Runs(s)
    decreases |s|
  {
    if s == [] {
      assert f.v + Sprinkled(s) == f.v;
    } else {
      assert Odd(s[0]);
      FeedOdd(Step(f, s[0]), s[1..]);
      assert f.v + [PERCENT] + [s[0]] + Sprinkled(s[1..]) == f.v + Sprinkled(s);
    }
  }

  lemma {:induction false} FeedOddAfterDigit(f: Form, s: seq<byte>)
    requires f.state == Percent2 && forall i :: 0 <= i < |s| ==> Odd(s[i])
    ensures Feed(f, s) == f.(v := f.v + s) && Runs(s)
    decreases |s|
  {
    if s == [] {
      assert f.v + s == f.v;
    } else {
      assert Odd(s[0]);
      FeedOddAfterDigit(Step(f, s[0]), s[1..]);
      assert f.v + [s[0]] + s[1..] == f.v + s;
    }
  }

  lemma FeedThrough(f: Form, a: seq<byte>, s: seq<byte>)
    requires Runs(a) && Runs(s)
    ensures Feed(f, a + s + [AMP]) == Step(Feed(Feed(f, a), s), AMP)
  {
    FeedAppend(f, a, s);
    RunsAppend(a, s);
    FeedAppend(f, a + s, [AMP]);
    FeedOne(Feed(f, a + s), AMP);
  }

  // A '%' that no digit follows is kept, and put before every byte up to and including the
  // next '&'.
  lemma BrokenEscape(ps: seq<Pair>, p: Pair, s: seq<byte>, m: Values)
    requires GoodPairs(ps) && GoodPair(p) && p.Pair? && forall i :: 0 <= i < |s| ==> Odd(s[i])
    ensures Decode(WritePairs(ps + [p]) + ([PERCENT] + s + [AMP]), m) ==
            LastWins(ps, m, true)[p.key := TakenValue(p.value) + Sprinkled(s) + [PERCENT]]
  {
    var f, text := Form(Name, [], [], 0, m), WritePairs(ps + [p]);
    FeedUpTo(f, ps, p);
    var g := Feed(f, text);
    FeedOne(g, PERCENT);
    FeedOdd(Feed(g, [PERCENT]), s);
    FeedThrough(g, [PERCENT], s);
    FeedAppend(f, text, [PERCENT] + s + [AMP]);
  }

  lemma FeedHalf(g: Form, d: nat, upper: bool)
    requires InValue(g) && d < 16
    ensures var x := HexDigit(d, upper);
      Feed(g, [PERCENT, x]) == g.(state := Percent2, h := d * 16) && Runs([PERCENT, x])
  {
    var x := HexDigit(d, upper);
    HexValueExactly(x, d);
    assert [PERCENT, x][1..] == [x];
    FeedOne(Step(g, PERCENT), x);
  }

  // A '%' and one digit are left out.
  lemma HalfEscape(ps: seq<Pair>, p: Pair, s: seq<byte>, d: nat, upper: bool, m: Values)
    requires GoodPairs(ps) && GoodPair(p) && p.Pair? && d < 16 && forall i :: 0 <= i < |s| ==> Odd(s[i])
    ensures Decode(WritePairs(ps + [p]) + ([PERCENT, HexDigit(d, upper)] + s + [AMP]), m) ==
            LastWins(ps, m, true)[p.key := TakenValue(p.value) + s]
  {
    var f, text, a := Form(Name, [], [], 0, m), WritePairs(ps + [p]), [PERCENT, HexDigit(d, upper)];
    FeedUpTo(f, ps, p);
    var g := Feed(f, text);
    FeedHalf(g, d, upper);
    FeedOddAfterDigit(Feed(g, a), s);
    FeedThrough(g, a, s);
    FeedAppend(f, text, a + s + [AMP]);
  }

  // All bytes of a text, escaped.
  function EscapeAll(v: seq<byte>, first: bool, second: bool): (s: seq<Sign>)
    ensures |s| == |v| && forall i :: 0 <= i < |s| ==> s[i] == Escaped(v[i], first, second)
  {
    seq(|v|, i requires 0 <= i < |v| => Escaped(v[i], first, second))
  }

  // Any bytes at all can be sent, if every one is escaped.
  lemma EscapedBytesComeBack(key: seq<byte>, v: seq<byte>, first: bool, second: bool, m: Values)
    requires GoodKey(key)
    ensures Decode(WriteKey(key) + [EQUALS] + WriteValue(EscapeAll(v, first, second)), m) == m[key := v]
  {
    var p := Pair(key, EscapeAll(v, first, second));
    assert GoodPair(p);
    DecodeTakes([p], m);
    assert [p][1..] == [] && WritePairs([p]) == WritePair(p);
    assert LastWins([p], m, true) == LastWins([], m[key := TakenValue(p.value)], true);
    EscapesMean(v, first, second);
  }

  lemma {:induction false} EscapesMean(v: seq<byte>, first: bool, second: bool)
    ensures MeantValue(EscapeAll(v, first, second)) == v && !LeadingPlus(EscapeAll(v, first, second))
    decreases |v|
  {
    if v != [] {
      assert EscapeAll(v, first, second)[1..] == EscapeAll(v[1..], first, second);
      EscapesMean(v[1..], first, second);
    }
  }

  lemma Texts()
    ensures IsText([AMP, EQUALS, PLUS, PERCENT, SP], "&=+% ")
  {
  }

  // "k=%2F" is decoded to "/".
  lemma SlashIsDecoded(m: Values)
    ensures IsText([107, 61, 37, 50, 70], "k=%2F")
    ensures Decode([107, 61, 37, 50, 70], m) == m[[107] := [47]]
  {
    var key, s := [107], EscapeAll([47], true, true);
    EscapedBytesComeBack(key, [47], true, true, m);
    DigitRanges(2);
    DigitRanges(15);
    assert key[1..] == [] && WriteKey(key) == key + WriteKey([]);
    assert s == [Escaped(47, true, true)] && s[1..] == [];
    assert Written(s[0]) == [37, 50, 70];
    assert WriteValue(s) == Written(s[0]) + WriteValue(s[1..]) == [37, 50, 70];
    assert WriteKey(key) + [EQUALS] + WriteValue(s) == [107, 61, 37, 50, 70];
  }

  // "k=+" is decoded to "+" instead of a space.
  lemma PlusIsKept(m: Values)
    ensures Decode([107, EQUALS, PLUS], m) == m[[107] := [PLUS]]
    ensures LastWins([Pair([107], [Plus])], m, false) == m[[107] := [SP]]
  {
    var p := Pair([107], [Plus]);
    assert GoodPair(p) && [p][1..] == [] && [Plus][1..] == [];
    assert WritePairs([p]) == [107, EQUALS, PLUS];
    DecodeTakes([p], m);
    LastIsHeld([p], m, true, 0);
    LastIsHeld([p], m, false, 0);
    assert TakenValue([Plus]) == [PLUS] && MeantValue([Plus]) == [SP];
    assert LastWins([p], m, true) == LastWins([], m[[107] := [PLUS]], true);
    assert LastWins([p], m, false) == LastWins([], m[[107] := [SP]], false);
  }
}
