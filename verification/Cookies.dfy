// `sp_decode_cookies`, `cookieSet`, `cookieDel` and `cookieGet`: the decoder of a Cookie
// header as a state machine, the printers of Set-Cookie texts, and what the decoder
// makes of a printed text.
module Cookies {
  import opened Bytes

  const EQUALS: byte := 61
  const SEMICOLON: byte := 59

  // "expires", "path", "domain"
  const EXPIRES: seq<byte> := [101, 120, 112, 105, 114, 101, 115]
  const PATH: seq<byte> := [112, 97, 116, 104]
  const DOMAIN: seq<byte> := [100, 111, 109, 97, 105, 110]
  // "Mon, 01-Jan-2001 00:00:00 GMT"
  const LONG_AGO: seq<byte> := [77, 111, 110, 44, 32, 48, 49, 45, 74, 97, 110, 45, 50, 48, 48, 49,
                                32, 48, 48, 58, 48, 48, 58, 48, 48, 32, 71, 77, 84]

  datatype Cookie = Cookie(value: seq<byte>, expires: seq<byte>, domain: seq<byte>, path: seq<byte>)

  type CookieMap = map<seq<byte>, Cookie>

  datatype CookieState = Start | Name | Equal | Value | Semicolon | Param | PEqual | PValue | PSemicolon | Err

  // Where the pointer O points.
  datatype Pointer = Nowhere | ToExpires | ToPath | ToDomain

  // The locals of the decoder.
  datatype Locals = Locals(
    state: CookieState, k: seq<byte>, n: seq<byte>, v: seq<byte>,
    e: seq<byte>, p: seq<byte>, d: seq<byte>, o: Pointer)

  const INIT: Locals := Locals(Start, [], [], [], [], [], [], Nowhere)

  // `*O = x`; through an unassigned pointer nothing is modelled.
  function Store(c: Locals, x: seq<byte>): Locals {
    match c.o
    case Nowhere => c
    case ToExpires => c.(e := x)
    case ToPath => c.(p := x)
    case ToDomain => c.(d := x)
  }

  function Load(c: Locals): seq<byte> {
    match c.o
    case Nowhere => []
    case ToExpires => c.e
    case ToPath => c.p
    case ToDomain => c.d
  }

  // A turn goes on, leaves the loop, or returns from the decoder.
  datatype Turn = Go(c: Locals) | Leave(c: Locals) | Quit

  function StepName(c: Locals, b: byte): Turn {
    if b == EQUALS then Go(c.(state := Equal))
    else if b == SEMICOLON then Quit
    else Go(c.(n := c.n + [b]))
  }

  // The '=' after a parameter name; an unknown name begins a new cookie.
  function StepParamEnd(c: Locals): Locals {
    if c.k == EXPIRES then c.(state := PEqual, o := ToExpires)
    else if c.k == PATH then c.(state := PEqual, o := ToPath)
    else if c.k == DOMAIN then c.(state := PEqual, o := ToDomain)
    else c.(state := Equal, n := c.k, v := [])
  }

  function Step(c: Locals, b: byte): Turn {
    match c.state
    case Start => StepName(c.(state := Name, k := [], n := [], v := [], e := [], p := [], d := []), b)
    case Name => StepName(c, b)
    case Value => Go(if b == SEMICOLON then c.(state := Semicolon) else c.(v := c.v + [b]))
    case Equal => Go(if b == SEMICOLON then c.(state := Err) else c.(v := [b], state := Value))
    case Semicolon =>
      Go(if b == SEMICOLON then c else if b == EQUALS then c.(state := Equal) else c.(k := [], state := Param))
    case Param =>
      if b == EQUALS then Go(StepParamEnd(c))
      else if b == SEMICOLON then Quit
      else Go(c.(k := c.k + [b]))
    case PEqual => Go(if b == SEMICOLON then c.(state := Err) else Store(c, [b]).(state := PValue))
    case PValue => Go(if b == SEMICOLON then c.(state := PSemicolon) else Store(c, Load(c) + [b]))
    case PSemicolon =>
      Go(if b == SEMICOLON then c else if b == EQUALS then c.(state := PEqual) else c.(k := [], state := Param))
    case Err => Leave(c)
  }

  function Feed(c: Locals, text: seq<byte>): Turn
    decreases |text|
  {
    if text == [] then Go(c)
    else
      match Step(c, text[0])
      case Go(d) => Feed(d, text[1..])
      case other => other
  }

  // The one cookie that is kept from the text.
  function Keep(c: Locals): CookieMap {
    if c.n != [] && c.v != [] then map[c.n := Cookie(c.v, c.e, c.d, c.p)] else map[]
  }

  function Decode(text: seq<byte>): CookieMap {
    match Feed(INIT, text)
    case Go(c) => Keep(c)
    case Leave(c) => Keep(c)
    case Quit => map[]
  }

  method DecodeCookies(text: seq<byte>) returns (cookies: CookieMap)
    ensures cookies == Decode(text)
  {
    cookies := map[];
    var state := Start;
    var k: seq<byte>, n: seq<byte>, v: seq<byte> := [], [], [];
    var e: seq<byte>, p: seq<byte>, d: seq<byte>, o := [], [], [], Nowhere;
    var i := 0;
    while i < |text|
      invariant i <= |text| && cookies == map[]
      invariant Feed(Locals(state, k, n, v, e, p, d, o), text[i..]) == Feed(INIT, text)
    {
      var c := text[i];
      assert text[i..][1..] == text[i + 1..];
      if state == Start {
        k, v, n, e, p, d := [], [], [], [], [], [];
        state := Name;
      }
      match state {
        case Name =>
          if c == EQUALS {
            state := Equal;
          } else if c == SEMICOLON {
            return;
          } else {
            n := n + [c];
          }
        case Value =>
          if c == SEMICOLON {
            state := Semicolon;
          } else {
            v := v + [c];
          }
        case Equal =>
          if c == SEMICOLON {
            state := Err;
          } else {
            v, state := [c], Value;
          }
        case Semicolon =>
          if c == EQUALS {
            state := Equal;
          } else if c != SEMICOLON {
            k, state := [], Param;
          }
        case Param =>
          if c == EQUALS {
            state := PEqual;
            if k == EXPIRES {
              o := ToExpires;
            } else if k == PATH {
              o := ToPath;
            } else if k == DOMAIN {
              o := ToDomain;
            } else {
              state, n, v := Equal, k, [];
            }
          } else if c == SEMICOLON {
            return;
          } else {
            k := k + [c];
          }
        case PEqual =>
          if c == SEMICOLON {
            state := Err;
          } else {
            match o {
              case ToExpires => e := [c];
              case ToPath => p := [c];
              case ToDomain => d := [c];
              case Nowhere =>
            }
            state := PValue;
          }
        case PValue =>
          if c == SEMICOLON {
            state := PSemicolon;
          } else {
            match o {
              case ToExpires => e := e + [c];
              case ToPath => p := p + [c];
              case ToDomain => d := d + [c];
              case Nowhere =>
            }
          }
        case PSemicolon =>
          if c == EQUALS {
            state := PEqual;
          } else if c != SEMICOLON {
            k, state := [], Param;
          }
        case Err =>
          break;
      }
      i := i + 1;
    }
    if n != [] && v != [] {
      cookies := cookies[n := Cookie(v, e, d, p)];
    }
  }

  function CookieGet(cookies: CookieMap, name: seq<byte>): seq<byte> {
    if name in cookies then cookies[name].value else []
  }

  // name "=" sid "; expires=0; path=/;"
  function SetText(name: seq<byte>, sid: seq<byte>): seq<byte> {
    name + [EQUALS] + sid + [SEMICOLON] + Attribute(EXPIRES, [48]) + [SEMICOLON] + Attribute(PATH, [SLASH]) + [SEMICOLON]
  }

  // " " key "=" value
  function Attribute(key: seq<byte>, value: seq<byte>): seq<byte> {
    [SP] + key + [EQUALS] + value
  }

  // name "=; expires=Mon, 01-Jan-2001 00:00:00 GMT; path=/;" and the domain, if the host is known
  function DelText(name: seq<byte>, host: seq<byte>): seq<byte> {
    name + [EQUALS] + [SEMICOLON] + Attribute(EXPIRES, LONG_AGO) + [SEMICOLON] + Attribute(PATH, [SLASH]) + [SEMICOLON]
    + if host != [] then Attribute(DOMAIN, host) else []
  }

  predicate Free(s: seq<byte>, b: byte) {
    forall i :: 0 <= i < |s| ==> s[i] != b
  }

  predicate GoodName(name: seq<byte>) {
    name != [] && Free(name, EQUALS) && Free(name, SEMICOLON)
  }

  // ------------------------------------------------------------------
  // Decoding what was printed.

  lemma {:induction false} FeedAppend(c: Locals, a: seq<byte>, b: seq<byte>)
    ensures Feed(c, a + b) == if Feed(c, a).Go? then Feed(Feed(c, a).c, b) else Feed(c, a)
    decreases |a|
  {
    if a == [] {
      assert a + b == b;
    } else {
      assert (a + b)[1..] == a[1..] + b;
      match Step(c, a[0])
      case Go(d) => FeedAppend(d, a[1..], b);
      case _ =>
    }
  }

  // From c the bytes a lead to d.
  predicate Leads(c: Locals, a: seq<byte>, d: Locals) {
    Feed(c, a) == Go(d)
  }

  lemma LeadsOn(c: Locals, a: seq<byte>, d: Locals, b: seq<byte>, e: Locals)
    requires Leads(c, a, d) && Leads(d, b, e)
    ensures Leads(c, a + b, e)
  {
    FeedAppend(c, a, b);
  }

  lemma LeadsByOne(c: Locals, b: byte, d: Locals)
    requires Step(c, b) == Go(d)
    ensures Leads(c, [b], d)
  {
    assert [b][1..] == [];
  }

  lemma {:induction false} FeedName(c: Locals, s: seq<byte>)
    requires c.state == Name && Free(s, EQUALS) && Free(s, SEMICOLON)
    ensures Leads(c, s, c.(n := c.n + s))
    decreases |s|
  {
    if s == [] {
      assert c.n + s == c.n;
    } else {
      FeedName(c.(n := c.n + [s[0]]), s[1..]);
      assert c.n + [s[0]] + s[1..] == c.n + s;
    }
  }

  lemma {:induction false} FeedValue(c: Locals, s: seq<byte>)
    requires c.state == Value && Free(s, SEMICOLON)
    ensures Leads(c, s, c.(v := c.v + s))
    decreases |s|
  {
    if s == [] {
      assert c.v + s == c.v;
    } else {
      FeedValue(c.(v := c.v + [s[0]]), s[1..]);
      assert c.v + [s[0]] + s[1..] == c.v + s;
    }
  }

  lemma {:induction false} FeedParam(c: Locals, s: seq<byte>)
    requires c.state == Param && Free(s, EQUALS) && Free(s, SEMICOLON)
    ensures Leads(c, s, c.(k := c.k + s))
    decreases |s|
  {
    if s == [] {
      assert c.k + s == c.k;
    } else {
      FeedParam(c.(k := c.k + [s[0]]), s[1..]);
      assert c.k + [s[0]] + s[1..] == c.k + s;
    }
  }

  // The name and the '=' at the beginning.
  lemma FeedStart(name: seq<byte>)
    requires GoodName(name)
    ensures Leads(INIT, name + [EQUALS], INIT.(n := name, state := Equal))
  {
    var c := INIT.(n := [name[0]], state := Name);
    assert name[0] != EQUALS && name[0] != SEMICOLON;
    LeadsByOne(INIT, name[0], c);
    FeedName(c, name[1..]);
    LeadsOn(INIT, [name[0]], c, name[1..], c.(n := [name[0]] + name[1..]));
    assert [name[0]] + name[1..] == name;
    LeadsByOne(INIT.(n := name, state := Name), EQUALS, INIT.(n := name, state := Equal));
    LeadsOn(INIT, name, INIT.(n := name, state := Name), [EQUALS], INIT.(n := name, state := Equal));
  }

  // name "=" value
  lemma FeedPair(name: seq<byte>, value: seq<byte>)
    requires GoodName(name) && value != [] && Free(value, SEMICOLON)
    ensures Leads(INIT, name + [EQUALS] + value, INIT.(n := name, v := value, state := Value))
  {
    var c := INIT.(n := name, state := Equal);
    var d := c.(v := [value[0]], state := Value);
    FeedStart(name);
    assert value[0] != SEMICOLON;
    LeadsByOne(c, value[0], d);
    FeedValue(d, value[1..]);
    assert [value[0]] + value[1..] == value;
    LeadsOn(c, [value[0]], d, value[1..], d.(v := value));
    LeadsOn(INIT, name + [EQUALS], c, value, d.(v := value));
  }

  function PointerTo(key: seq<byte>): Pointer {
    if key == EXPIRES then ToExpires else if key == PATH then ToPath else if key == DOMAIN then ToDomain else Nowhere
  }

  // ";" " " key "=" b, for a known attribute.
  lemma FeedAttribute(c: Locals, key: seq<byte>, b: byte)
    requires c.state in {Value, PValue} && key in {EXPIRES, PATH} && b != SEMICOLON
    ensures Leads(c, [SEMICOLON] + Attribute(key, [b]),
                  Store(c.(k := key, o := PointerTo(key)), [b]).(state := PValue))
  {
    var d := c.(k := key, o := PointerTo(key), state := PEqual);
    FeedAttributeName(c, key);
    LeadsByOne(d, b, Store(d, [b]).(state := PValue));
    LeadsOn(c, [SEMICOLON] + [SP] + key + [EQUALS], d, [b], Store(d, [b]).(state := PValue));
    assert [SEMICOLON] + Attribute(key, [b]) == [SEMICOLON] + [SP] + key + [EQUALS] + [b];
  }

  lemma FeedAttributeName(c: Locals, key: seq<byte>)
    requires c.state in {Value, PValue} && key in {EXPIRES, PATH}
    ensures Leads(c, [SEMICOLON] + [SP] + key + [EQUALS], c.(k := key, o := PointerTo(key), state := PEqual))
  {
    var c1 := c.(state := if c.state == Value then Semicolon else PSemicolon);
    var c2 := c1.(k := [], state := Param);
    var c3 := c2.(k := key);
    LeadsByOne(c, SEMICOLON, c1);
    LeadsByOne(c1, SP, c2);
    LeadsOn(c, [SEMICOLON], c1, [SP], c2);
    assert [] + key == key;
    FeedParam(c2, key);
    LeadsOn(c, [SEMICOLON] + [SP], c2, key, c3);
    LeadsByOne(c3, EQUALS, c3.(o := PointerTo(key), state := PEqual));
    LeadsOn(c, [SEMICOLON] + [SP] + key, c3, [EQUALS], c3.(o := PointerTo(key), state := PEqual));
  }

  // The text that cookieSet prints is read as that cookie, with its attributes.
  lemma SetIsDecoded(name: seq<byte>, value: seq<byte>)
    requires GoodName(name) && value != [] && Free(value, SEMICOLON)
    ensures Decode(SetText(name, value)) == map[name := Cookie(value, [48], [], [SLASH])]
  {
    var c := INIT.(n := name, v := value, state := Value);
    FeedPair(name, value);
    FeedAttribute(c, EXPIRES, 48);
    var d := c.(k := EXPIRES, o := ToExpires, e := [48], state := PValue);
    var a := [SEMICOLON] + Attribute(EXPIRES, [48]);
    LeadsOn(INIT, name + [EQUALS] + value, c, a, d);
    FeedAttribute(d, PATH, SLASH);
    var e := d.(k := PATH, o := ToPath, p := [SLASH]);
    var b := [SEMICOLON] + Attribute(PATH, [SLASH]);
    LeadsOn(INIT, name + [EQUALS] + value + a, d, b, e);
    LeadsByOne(e, SEMICOLON, e.(state := PSemicolon));
    LeadsOn(INIT, name + [EQUALS] + value + a + b, e, [SEMICOLON], e.(state := PSemicolon));
    assert SetText(name, value) == name + [EQUALS] + value + a + b + [SEMICOLON];
  }

  // What a browser sends back is read as the cookie without attributes.
  lemma PairIsDecoded(name: seq<byte>, value: seq<byte>)
    requires GoodName(name) && value != [] && Free(value, SEMICOLON)
    ensures Decode(name + [EQUALS] + value) == map[name := Cookie(value, [], [], [])]
  {
    FeedPair(name, value);
  }

  // With no value, whatever follows the ';' is not looked at and no cookie is kept.
  lemma EmptyValueIsDropped(name: seq<byte>, b: byte, rest: seq<byte>)
    requires GoodName(name)
    ensures Decode(name + [EQUALS] + [SEMICOLON] + ([b] + rest)) == map[]
  {
    var c := INIT.(n := name, state := Equal);
    FeedStart(name);
    LeadsByOne(c, SEMICOLON, c.(state := Err));
    LeadsOn(INIT, name + [EQUALS], c, [SEMICOLON], c.(state := Err));
    FeedAppend(INIT, name + [EQUALS] + [SEMICOLON], [b] + rest);
  }

  // The texts of cookieDel, and of cookieSet with an empty value, are read as no cookie.
  lemma DelIsDecodedAsNothing(name: seq<byte>, host: seq<byte>)
    requires GoodName(name)
    ensures Decode(DelText(name, host)) == map[] && Decode(SetText(name, [])) == map[]
  {
    var del := EXPIRES + [EQUALS] + LONG_AGO + [SEMICOLON] + Attribute(PATH, [SLASH]) + [SEMICOLON]
      + if host != [] then Attribute(DOMAIN, host) else [];
    EmptyValueIsDropped(name, SP, del);
    assert DelText(name, host) == name + [EQUALS] + [SEMICOLON] + ([SP] + del);
    EmptySetIsDecodedAsNothing(name);
  }

  lemma EmptySetIsDecodedAsNothing(name: seq<byte>)
    requires GoodName(name)
    ensures Decode(SetText(name, [])) == map[]
  {
    var set0 := EXPIRES + [EQUALS] + [48] + [SEMICOLON] + Attribute(PATH, [SLASH]) + [SEMICOLON];
    EmptyValueIsDropped(name, SP, set0);
    assert SetText(name, []) == name + [EQUALS] + [SEMICOLON] + ([SP] + set0);
  }

  // ------------------------------------------------------------------
  // Longer texts: attributes in any order, and several cookies.

  // ";", more semicolons, a byte that is dropped, key "=" value.
  datatype Item = Item(more: nat, dropped: byte, key: seq<byte>, value: seq<byte>)

  predicate GoodItem(x: Item) {
    && x.dropped != EQUALS && x.dropped != SEMICOLON
    && Free(x.key, EQUALS) && Free(x.key, SEMICOLON) && x.value != [] && Free(x.value, SEMICOLON)
  }

  predicate IsAttribute(key: seq<byte>) {
    key == EXPIRES || key == PATH || key == DOMAIN
  }

  function Semicolons(n: nat): seq<byte> {
    if n == 0 then [] else Semicolons(n - 1) + [SEMICOLON]
  }

  function ItemText(x: Item): seq<byte> {
    Semicolons(1 + x.more) + [x.dropped] + x.key + [EQUALS] + x.value
  }

  // name "=" value, and then the items.
  function ItemsText(name: seq<byte>, value: seq<byte>, items: seq<Item>): seq<byte> {
    if items == [] then name + [EQUALS] + value
    else
      var n := |items| - 1;
      ItemsText(name, value, items[..n]) + ItemText(items[n])
  }

  // The value of the last item with this key, or nothing.
  function LastValue(items: seq<Item>, key: seq<byte>): seq<byte> {
    if items == [] then []
    else if items[|items| - 1].key == key then items[|items| - 1].value
    else LastValue(items[..|items| - 1], key)
  }

  // The last item that is no attribute, or the cookie in front.
  function LastCookie(name: seq<byte>, value: seq<byte>, items: seq<Item>): Item {
    if items == [] then Item(0, SP, name, value)
    else if !IsAttribute(items[|items| - 1].key) then items[|items| - 1]
    else LastCookie(name, value, items[..|items| - 1])
  }

  // What has been read of such a text.
  predicate HasRead(c: Locals, name: seq<byte>, value: seq<byte>, items: seq<Item>) {
    && c.state in {Value, PValue}
    && c.n == LastCookie(name, value, items).key && c.v == LastCookie(name, value, items).value
    && c.e == LastValue(items, EXPIRES) && c.p == LastValue(items, PATH) && c.d == LastValue(items, DOMAIN)
  }

  // After one or more semicolons.
  function Separated(c: Locals): Locals {
    c.(state := if c.state == Value then Semicolon else PSemicolon)
  }

  lemma {:induction false} FeedSemicolons(c: Locals, n: nat)
    requires c.state in {Value, PValue}
    ensures Leads(c, Semicolons(1 + n), Separated(c))
  {
    LeadsByOne(c, SEMICOLON, Separated(c));
    if n == 0 {
      assert Semicolons(1) == Semicolons(0) + [SEMICOLON] == [SEMICOLON];
    } else {
      FeedSemicolons(c, n - 1);
      LeadsByOne(Separated(c), SEMICOLON, Separated(c));
      LeadsOn(c, Semicolons(n), Separated(c), [SEMICOLON], Separated(c));
    }
  }

  lemma FeedItemStart(c: Locals, more: nat, b: byte, key: seq<byte>)
    requires c.state in {Value, PValue} && b != EQUALS && b != SEMICOLON
    requires Free(key, EQUALS) && Free(key, SEMICOLON)
    ensures Leads(c, Semicolons(1 + more) + [b] + key, c.(k := key, state := Param))
  {
    var c2 := c.(k := [], state := Param);
    FeedSemicolons(c, more);
    LeadsByOne(Separated(c), b, c2);
    LeadsOn(c, Semicolons(1 + more), Separated(c), [b], c2);
    assert [] + key == key;
    FeedParam(c2, key);
    LeadsOn(c, Semicolons(1 + more) + [b], c2, key, c.(k := key, state := Param));
  }

  lemma FeedItemKey(c: Locals, key: seq<byte>)
    requires c.state in {Value, PValue} && Free(key, EQUALS) && Free(key, SEMICOLON)
    ensures Leads(c, [SEMICOLON] + [SP] + key, c.(k := key, state := Param))
  {
    FeedItemStart(c, 0, SP, key);
    assert Semicolons(1) == Semicolons(0) + [SEMICOLON] == [SEMICOLON];
  }

  lemma {:induction false} FeedAttributeValue(c: Locals, s: seq<byte>)
    requires c.state == PValue && c.o != Nowhere && Free(s, SEMICOLON)
    ensures Leads(c, s, Store(c, Load(c) + s))
    decreases |s|
  {
    if s == [] {
      assert Load(c) + s == Load(c);
    } else {
      FeedAttributeValue(Store(c, Load(c) + [s[0]]), s[1..]);
      assert Load(c) + [s[0]] + s[1..] == Load(c) + s;
    }
  }

  lemma FeedItemValue(c: Locals, value: seq<byte>) returns (d: Locals)
    requires c.state == Param && value != [] && Free(value, SEMICOLON)
    ensures Leads(c, [EQUALS] + value, d)
    ensures if IsAttribute(c.k) then
              d == Store(c.(o := PointerTo(c.k), state := PValue), value)
            else d == c.(n := c.k, v := value, state := Value)
  {
    var p, b, rest := StepParamEnd(c), value[0], value[1..];
    assert b != SEMICOLON && [b] + rest == value;
    LeadsByOne(c, EQUALS, p);
    if IsAttribute(c.k) {
      var q := Store(p, [b]).(state := PValue);
      LeadsByOne(p, b, q);
      FeedAttributeValue(q, rest);
      d := Store(q, value);
      LeadsOn(p, [b], q, rest, d);
    } else {
      var q := p.(v := [b], state := Value);
      LeadsByOne(p, b, q);
      FeedValue(q, rest);
      d := q.(v := value);
      LeadsOn(p, [b], q, rest, d);
    }
    LeadsOn(c, [EQUALS], p, value, d);
  }

  // What is being read belongs to this key.
  predicate Under(c: Locals, key: seq<byte>) {
    if IsAttribute(key) then c.state == PValue && c.o == PointerTo(key) else c.state == Value && c.n == key
  }

  // One more item.
  lemma FeedItem(b: Locals, x: Item, name: seq<byte>, value: seq<byte>, items: seq<Item>) returns (c: Locals)
    requires HasRead(b, name, value, items) && GoodItem(x)
    ensures Leads(b, ItemText(x), c) && HasRead(c, name, value, items + [x]) && Under(c, x.key)
  {
    var d := b.(k := x.key, state := Param);
    FeedItemStart(b, x.more, x.dropped, x.key);
    c := FeedItemValue(d, x.value);
    LeadsOn(b, Semicolons(1 + x.more) + [x.dropped] + x.key, d, [EQUALS] + x.value, c);
    assert ItemText(x) == Semicolons(1 + x.more) + [x.dropped] + x.key + ([EQUALS] + x.value);
    assert (items + [x])[..|items|] == items;
  }

  lemma {:induction false} FeedItems(name: seq<byte>, value: seq<byte>, items: seq<Item>) returns (c: Locals)
    requires GoodName(name) && value != [] && Free(value, SEMICOLON)
    requires forall i :: 0 <= i < |items| ==> GoodItem(items[i])
    ensures Leads(INIT, ItemsText(name, value, items), c) && HasRead(c, name, value, items)
    decreases |items|
  {
    if items == [] {
      FeedPair(name, value);
      c := INIT.(n := name, v := value, state := Value);
    } else {
      var n := |items| - 1;
      var x := items[n];
      assert GoodItem(x);
      var b := FeedItems(name, value, items[..n]);
      c := FeedItem(b, x, name, value, items[..n]);
      assert items == items[..n] + [x];
      LeadsOn(INIT, ItemsText(name, value, items[..n]), b, ItemText(x), c);
    }
  }

  // The one cookie that is built from such a text.
  function Built(name: seq<byte>, value: seq<byte>, items: seq<Item>): CookieMap {
    var x := LastCookie(name, value, items);
    if x.key == [] then map[]
    else map[x.key := Cookie(x.value, LastValue(items, EXPIRES), LastValue(items, DOMAIN), LastValue(items, PATH))]
  }

  lemma {:induction false} LastCookieHasValue(name: seq<byte>, value: seq<byte>, items: seq<Item>)
    requires value != [] && forall i :: 0 <= i < |items| ==> GoodItem(items[i])
    ensures LastCookie(name, value, items).value != []
  {
    if items != [] {
      assert GoodItem(items[|items| - 1]);
      LastCookieHasValue(name, value, items[..|items| - 1]);
    }
  }

  // Of several cookies in a text the last one is kept, with the last of each attribute in
  // the whole text; more semicolons at the end and an item without '=' there do not matter.
  lemma LastCookieIsKept(name: seq<byte>, value: seq<byte>, items: seq<Item>, key: seq<byte>)
    requires GoodName(name) && value != [] && Free(value, SEMICOLON)
    requires forall i :: 0 <= i < |items| ==> GoodItem(items[i])
    requires Free(key, EQUALS) && Free(key, SEMICOLON)
    ensures var text := ItemsText(name, value, items);
      && Decode(text) == Built(name, value, items)
      && Decode(text + [SEMICOLON]) == Built(name, value, items)
      && Decode(text + ([SEMICOLON] + [SP] + key)) == Built(name, value, items)
  {
    var text := ItemsText(name, value, items);
    var c := FeedItems(name, value, items);
    LastCookieHasValue(name, value, items);
    var s := c.(state := if c.state == Value then Semicolon else PSemicolon);
    LeadsByOne(c, SEMICOLON, s);
    LeadsOn(INIT, text, c, [SEMICOLON], s);
    FeedItemKey(c, key);
    LeadsOn(INIT, text, c, [SEMICOLON] + [SP] + key, c.(k := key, state := Param));
  }

  // An item without '=' before the end makes the decoder give up the whole text.
  lemma FlagDropsAll(name: seq<byte>, value: seq<byte>, items: seq<Item>, key: seq<byte>, rest: seq<byte>)
    requires GoodName(name) && value != [] && Free(value, SEMICOLON)
    requires forall i :: 0 <= i < |items| ==> GoodItem(items[i])
    requires Free(key, EQUALS) && Free(key, SEMICOLON)
    ensures Decode(ItemsText(name, value, items) + ([SEMICOLON] + [SP] + key) + ([SEMICOLON] + rest)) == map[]
  {
    var text := ItemsText(name, value, items) + ([SEMICOLON] + [SP] + key);
    var c := FeedItems(name, value, items);
    var d := c.(k := key, state := Param);
    FeedItemKey(c, key);
    LeadsOn(INIT, ItemsText(name, value, items), c, [SEMICOLON] + [SP] + key, d);
    FeedAppend(INIT, text, [SEMICOLON] + rest);
  }

  // So does a first name without '='.
  lemma NameAloneDropsAll(name: seq<byte>, rest: seq<byte>)
    requires Free(name, EQUALS) && Free(name, SEMICOLON)
    ensures Decode(name + ([SEMICOLON] + rest)) == map[]
  {
    if name == [] {
      assert name + ([SEMICOLON] + rest) == [SEMICOLON] + rest;
    } else {
      var c := INIT.(n := [name[0]], state := Name);
      assert name[0] != EQUALS && name[0] != SEMICOLON;
      LeadsByOne(INIT, name[0], c);
      FeedName(c, name[1..]);
      LeadsOn(INIT, [name[0]], c, name[1..], c.(n := [name[0]] + name[1..]));
      assert [name[0]] + name[1..] == name;
      FeedAppend(INIT, name, [SEMICOLON] + rest);
    }
  }

  // An attribute with an empty value ends the decoding with what was read before it.
  lemma EmptyAttributeEnds(name: seq<byte>, value: seq<byte>, items: seq<Item>, key: seq<byte>, b: byte, rest: seq<byte>)
    requires GoodName(name) && value != [] && Free(value, SEMICOLON)
    requires forall i :: 0 <= i < |items| ==> GoodItem(items[i])
    requires IsAttribute(key)
    ensures Decode(ItemsText(name, value, items) + ([SEMICOLON] + Attribute(key, []) + [SEMICOLON]) + ([b] + rest)) ==
            Built(name, value, items)
  {
    var text := ItemsText(name, value, items);
    var more := [SEMICOLON] + Attribute(key, []) + [SEMICOLON];
    var c := FeedItems(name, value, items);
    LastCookieHasValue(name, value, items);
    var e := c.(k := key, o := PointerTo(key), state := Err);
    FeedEmptyAttribute(c, key);
    LeadsOn(INIT, text, c, more, e);
    FeedAppend(INIT, text + more, [b] + rest);
  }

  lemma FeedEmptyAttribute(c: Locals, key: seq<byte>)
    requires c.state in {Value, PValue} && IsAttribute(key)
    ensures Leads(c, [SEMICOLON] + Attribute(key, []) + [SEMICOLON], c.(k := key, o := PointerTo(key), state := Err))
  {
    var d := c.(k := key, state := Param);
    var e := d.(o := PointerTo(key), state := PEqual);
    FeedItemKey(c, key);
    LeadsByOne(d, EQUALS, e);
    LeadsOn(c, [SEMICOLON] + [SP] + key, d, [EQUALS], e);
    LeadsByOne(e, SEMICOLON, e.(state := Err));
    LeadsOn(c, [SEMICOLON] + [SP] + key + [EQUALS], e, [SEMICOLON], e.(state := Err));
    assert [SEMICOLON] + Attribute(key, []) + [SEMICOLON] == [SEMICOLON] + [SP] + key + [EQUALS] + [SEMICOLON];
  }

  // A later cookie without a value leaves nothing, not even the cookie before it.
  lemma EmptyCookieDropsAll(name: seq<byte>, value: seq<byte>, items: seq<Item>, key: seq<byte>)
    requires GoodName(name) && value != [] && Free(value, SEMICOLON)
    requires forall i :: 0 <= i < |items| ==> GoodItem(items[i])
    requires Free(key, EQUALS) && Free(key, SEMICOLON) && !IsAttribute(key)
    ensures Decode(ItemsText(name, value, items) + ([SEMICOLON] + [SP] + key + [EQUALS])) == map[]
  {
    var c := FeedItems(name, value, items);
    var d := c.(k := key, state := Param);
    FeedItemKey(c, key);
    LeadsByOne(d, EQUALS, d.(state := Equal, n := key, v := []));
    LeadsOn(c, [SEMICOLON] + [SP] + key, d, [EQUALS], d.(state := Equal, n := key, v := []));
    LeadsOn(INIT, ItemsText(name, value, items), c, [SEMICOLON] + [SP] + key + [EQUALS],
            d.(state := Equal, n := key, v := []));
  }

  // An '=' right after a ';' repeats the key before it.
  lemma EqualsRepeatsTheKey(name: seq<byte>, value: seq<byte>, items: seq<Item>, x: Item, again: seq<byte>)
    requires GoodName(name) && value != [] && Free(value, SEMICOLON) && again != [] && Free(again, SEMICOLON)
    requires GoodItem(x) && forall i :: 0 <= i < |items| ==> GoodItem(items[i])
    ensures Decode(ItemsText(name, value, items + [x]) + ([SEMICOLON] + [EQUALS] + again)) ==
            Built(name, value, items + [x] + [x.(value := again)])
  {
    var b := FeedItems(name, value, items);
    var c := FeedItem(b, x, name, value, items);
    var d := FeedAgain(c, x.key, again);
    var all := items + [x];
    assert all[..|items|] == items;
    LeadsOn(INIT, ItemsText(name, value, items), b, ItemText(x), c);
    LeadsOn(INIT, ItemsText(name, value, all), c, [SEMICOLON] + [EQUALS] + again, d);
    AgainIsRead(c, d, x, name, value, all, again);
    assert forall i :: 0 <= i < |all| ==> GoodItem(all[i]);
    ReadIsBuilt(d, name, value, all + [x.(value := again)]);
  }

  lemma AgainIsRead(c: Locals, d: Locals, x: Item, name: seq<byte>, value: seq<byte>, items: seq<Item>, again: seq<byte>)
    requires HasRead(c, name, value, items) && Under(c, x.key)
    requires d == if IsAttribute(x.key) then Store(c, again) else c.(v := again)
    ensures HasRead(d, name, value, items + [x.(value := again)])
  {
    assert (items + [x.(value := again)])[..|items|] == items;
  }

  lemma FeedAgain(c: Locals, key: seq<byte>, again: seq<byte>) returns (d: Locals)
    requires Under(c, key) && again != [] && Free(again, SEMICOLON)
    ensures Leads(c, [SEMICOLON] + [EQUALS] + again, d)
    ensures d == if IsAttribute(key) then Store(c, again) else c.(v := again)
  {
    var e := c.(state := if c.state == Value then Equal else PEqual);
    var b, rest := again[0], again[1..];
    assert b != SEMICOLON && [b] + rest == again;
    LeadsByOne(c, SEMICOLON, Separated(c));
    LeadsByOne(Separated(c), EQUALS, e);
    LeadsOn(c, [SEMICOLON], Separated(c), [EQUALS], e);
    var f := if c.state == Value then e.(v := [b], state := Value) else Store(e, [b]).(state := PValue);
    LeadsByOne(e, b, f);
    if c.state == Value {
      FeedValue(f, rest);
      d := f.(v := again);
    } else {
      FeedAttributeValue(f, rest);
      d := Store(f, again);
    }
    LeadsOn(e, [b], f, rest, d);
    LeadsOn(c, [SEMICOLON] + [EQUALS], e, again, d);
  }

  lemma ReadIsBuilt(c: Locals, name: seq<byte>, value: seq<byte>, items: seq<Item>)
    requires HasRead(c, name, value, items) && value != [] && forall i :: 0 <= i < |items| ==> GoodItem(items[i])
    ensures Keep(c) == Built(name, value, items)
  {
    LastCookieHasValue(name, value, items);
  }

  // What cookieSet and cookieDel print, literally.
  lemma SetTextIs(name: seq<byte>, sid: seq<byte>) returns (tail: seq<byte>)
    ensures IsText(tail, "; expires=" + "0" + "; path=/;") && SetText(name, sid) == name + [EQUALS] + sid + tail
  {
    var a := ExpiresIs([48], "0");
    var b := PathIs();
    tail := a + b;
    TextsJoin(a, b, "; expires=" + "0", "; path=/;");
    var front := name + [EQUALS] + sid;
    assert front + [SEMICOLON] + Attribute(EXPIRES, [48]) == front + a;
    assert SetText(name, sid) == front + a + b;
  }

  lemma DelTextIs(name: seq<byte>, host: seq<byte>) returns (tail: seq<byte>, domain: seq<byte>)
    ensures IsText(tail, "; expires=" + "Mon, 01-Jan-2001 00:00:00 GMT" + "; path=/;") && IsText(domain, " domain=")
    ensures DelText(name, host) == name + [EQUALS] + tail + if host != [] then domain + host else []
  {
    Texts();
    var a := ExpiresIs(LONG_AGO, "Mon, 01-Jan-2001 00:00:00 GMT");
    var b := PathIs();
    tail := a + b;
    TextsJoin(a, b, "; expires=" + "Mon, 01-Jan-2001 00:00:00 GMT", "; path=/;");
    domain := DomainIs();
    DelTextJoins(name + [EQUALS], a, b, host);
    assert host != [] ==> Attribute(DOMAIN, host) == domain + host;
  }

  lemma DelTextJoins(front: seq<byte>, a: seq<byte>, b: seq<byte>, host: seq<byte>)
    requires a == [SEMICOLON] + Attribute(EXPIRES, LONG_AGO) && b == [SEMICOLON] + Attribute(PATH, [SLASH]) + [SEMICOLON]
    ensures front + [SEMICOLON] + Attribute(EXPIRES, LONG_AGO) + [SEMICOLON] + Attribute(PATH, [SLASH]) + [SEMICOLON]
            + (if host != [] then Attribute(DOMAIN, host) else []) ==
            front + (a + b) + if host != [] then Attribute(DOMAIN, host) else []
  {
    var x, p := Attribute(EXPIRES, LONG_AGO), Attribute(PATH, [SLASH]);
    assert front + [SEMICOLON] + x == front + a;
    assert (front + a) + [SEMICOLON] + p + [SEMICOLON] == front + a + b;
    assert front + a + b == front + (a + b);
  }

  lemma ExpiresIs(when: seq<byte>, text: string) returns (a: seq<byte>)
    requires IsText(when, text)
    ensures a == [SEMICOLON] + Attribute(EXPIRES, when) && IsText(a, "; expires=" + text)
  {
    var front := [SEMICOLON] + [SP] + EXPIRES + [EQUALS];
    assert front == [59, 32, 101, 120, 112, 105, 114, 101, 115, 61];
    TextsJoin(front, when, "; expires=", text);
    a := front + when;
  }

  lemma PathIs() returns (b: seq<byte>)
    ensures b == [SEMICOLON] + Attribute(PATH, [SLASH]) + [SEMICOLON] && IsText(b, "; path=/;")
  {
    b := [SEMICOLON] + Attribute(PATH, [SLASH]) + [SEMICOLON];
    assert b == [59, 32, 112, 97, 116, 104, 61, 47, 59];
  }

  lemma DomainIs() returns (d: seq<byte>)
    ensures d == [SP] + DOMAIN + [EQUALS] && IsText(d, " domain=")
  {
    d := [SP] + DOMAIN + [EQUALS];
    assert d == [32, 100, 111, 109, 97, 105, 110, 61];
  }

  lemma TextsJoin(a: seq<byte>, b: seq<byte>, s: string, t: string)
    requires IsText(a, s) && IsText(b, t)
    ensures IsText(a + b, s + t)
  {
  }

  // The constants are these texts.
  lemma Texts()
    ensures IsText(EXPIRES, "expires") && IsText(PATH, "path") && IsText(DOMAIN, "domain")
    ensures IsText(LONG_AGO, "Mon, 01-Jan-2001 00:00:00 GMT")
    ensures IsText([EQUALS, SEMICOLON, SP, SLASH, 48], "=; /0")
  {
  }

  // In every state that writes through the pointer, or comes back to one that does, the
  // pointer has been assigned.
  predicate Pointed(c: Locals) {
    c.state in {PEqual, PValue, PSemicolon} ==> c.o != Nowhere
  }

  lemma {:induction false} PointerIsAssigned(c: Locals, text: seq<byte>)
    requires Pointed(c)
    ensures Feed(c, text).Go? ==> Pointed(Feed(c, text).c)
    decreases |text|
  {
    if text != [] {
      match Step(c, text[0])
      case Go(d) => PointerIsAssigned(d, text[1..]);
      case _ =>
    }
  }
}
