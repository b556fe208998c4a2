// The base64 encoder and decoder of src/core/base64.cpp (section 4 of RFC 4648), with
// their byte-level staging buffers, and the credentials that travel through them.
module Base64 {

  type octets = seq<bv8>

  const PAD: bv8 := 61
  // What find() answers for a byte outside the alphabet, cut to eight bits.
  const NPOS: bv8 := 255

  predicate IsBase64(c: bv8) {
    48 <= c <= 57 || 65 <= c <= 90 || 97 <= c <= 122 || c == 43 || c == 47
  }

  // `base64_chars[i]`
  function Char(i: bv8): (c: bv8)
    requires i < 64
    ensures IsBase64(c) && Find(c) == i
  {
    if i < 26 then 65 + i else if i < 52 then 71 + i else if i < 62 then i - 4 else if i == 62 then 43 else 47
  }

  // `base64_chars.find(c)`
  function Find(c: bv8): (i: bv8)
    ensures if IsBase64(c) then i < 64 else i == NPOS
  {
    if 65 <= c <= 90 then c - 65
    else if 97 <= c <= 122 then c - 71
    else if 48 <= c <= 57 then c + 4
    else if c == 43 then 62
    else if c == 47 then 63
    else NPOS
  }

  lemma CharOfFind(c: bv8)
    requires IsBase64(c)
    ensures Char(Find(c)) == c
  {
  }

  // Three bytes as four six-bit values.
  function E0(a: bv8): (w: bv8)
    ensures w < 64
  {
    (a & 0xfc) >> 2
  }

  function E1(a: bv8, b: bv8): (x: bv8)
    ensures x < 64
  {
    ((a & 0x03) << 4) + ((b & 0xf0) >> 4)
  }

  function E2(b: bv8, c: bv8): (y: bv8)
    ensures y < 64
  {
    ((b & 0x0f) << 2) + ((c & 0xc0) >> 6)
  }

  function E3(c: bv8): (z: bv8)
    ensures z < 64
  {
    c & 0x3f
  }

  // Four six-bit values as three bytes.
  function D0(w: bv8, x: bv8): bv8 {
    (w << 2) + ((x & 0x30) >> 4)
  }

  function D1(x: bv8, y: bv8): bv8 {
    ((x & 0x0f) << 4) + ((y & 0x3c) >> 2)
  }

  function D2(y: bv8, z: bv8): bv8 {
    ((y & 0x03) << 6) + z
  }

  lemma BlockDecodes(a: bv8, b: bv8, c: bv8)
    ensures D0(E0(a), E1(a, b)) == a && D1(E1(a, b), E2(b, c)) == b && D2(E2(b, c), E3(c)) == c
  {
  }

  lemma BlockEncodes(w: bv8, x: bv8, y: bv8, z: bv8)
    requires w < 64 && x < 64 && y < 64 && z < 64
    ensures E0(D0(w, x)) == w && E1(D0(w, x), D1(x, y)) == x && E2(D1(x, y), D2(y, z)) == y && E3(D2(y, z)) == z
  {
  }

  lemma TailEncodes(w: bv8, x: bv8, y: bv8)
    requires w < 64 && x < 64 && y < 64
    ensures E1(D0(w, x), 0) == x <==> x & 0x0f == 0
    ensures E2(D1(x, y), 0) == y <==> y & 0x03 == 0
  {
  }

  function Block(a: bv8, b: bv8, c: bv8): (s: octets)
    ensures |s| == 4 && forall i :: 0 <= i < 4 ==> IsBase64(s[i])
  {
    [Char(E0(a)), Char(E1(a, b)), Char(E2(b, c)), Char(E3(c))]
  }

  // The encoding of a byte string, three bytes at a time.
  function Encode(b: octets): octets {
    if |b| < 3 then EncodeLast(b) else Block(b[0], b[1], b[2]) + Encode(b[3..])
  }

  // The bytes of a group that is not full, padded.
  function EncodeLast(b: octets): octets
    requires |b| < 3
  {
    if |b| == 0 then []
    else if |b| == 1 then Block(b[0], 0, 0)[..2] + [PAD, PAD]
    else Block(b[0], b[1], 0)[..3] + [PAD]
  }

  function Unblock(s: octets): (b: octets)
    requires |s| == 4
    ensures |b| == 3
  {
    [D0(Find(s[0]), Find(s[1])), D1(Find(s[1]), Find(s[2])), D2(Find(s[2]), Find(s[3]))]
  }

  // The bytes that a string of alphabet characters stands for, four at a time.
  function DecodeClean(s: octets): octets {
    if |s| < 2 then []
    else if |s| == 2 then Unblock(s + [0, 0])[..1]
    else if |s| == 3 then Unblock(s + [0])[..2]
    else Unblock(s[..4]) + DecodeClean(s[4..])
  }

  // The length of the longest prefix of alphabet characters.
  function Clean(s: octets): (n: nat)
    ensures n <= |s| && (forall i :: 0 <= i < n ==> IsBase64(s[i])) && (n < |s| ==> !IsBase64(s[n]))
  {
    if s == [] || !IsBase64(s[0]) then 0
    else
      var n := Clean(s[1..]);
      assert forall i :: 1 <= i < n + 1 ==> s[i] == s[1..][i - 1];
      n + 1
  }

  function Decode(s: octets): octets {
    DecodeClean(s[..Clean(s)])
  }

  // ------------------------------------------------------------------
  // The loops.

  method FillFour(three: array<bv8>, four: array<bv8>)
    requires three.Length == 3 && four.Length == 4 && three != four
    modifies four
    ensures four[0] == E0(three[0]) && four[1] == E1(three[0], three[1])
    ensures four[2] == E2(three[1], three[2]) && four[3] == E3(three[2])
  {
    four[0] := (three[0] & 0xfc) >> 2;
    four[1] := ((three[0] & 0x03) << 4) + ((three[1] & 0xf0) >> 4);
    four[2] := ((three[1] & 0x0f) << 2) + ((three[2] & 0xc0) >> 6);
    four[3] := three[2] & 0x3f;
  }

  // The four characters for the three staged bytes.
  method Emit(three: array<bv8>, four: array<bv8>) returns (block: octets)
    requires three.Length == 3 && four.Length == 4 && three != four
    modifies four
    ensures block == Block(three[0], three[1], three[2])
  {
    FillFour(three, four);
    ghost var all := Block(three[0], three[1], three[2]);
    assert forall k :: 0 <= k < 4 ==> four[k] < 64 && all[k] == Char(four[k]);
    block := [];
    for i := 0 to 4
      invariant block == all[..i]
    {
      block := block + [Char(four[i])];
    }
  }

  // Put a byte into a staging buffer.
  method Stage(buffer: array<bv8>, i: nat, c: bv8)
    requires i < buffer.Length
    modifies buffer
    ensures buffer[..i + 1] == old(buffer[..i]) + [c]
  {
    buffer[i] := c;
  }

  // One more group of three bytes adds one block.
  lemma EncodeGrows(bytes: octets, p: nat)
    requires 3 <= p <= |bytes| && (p - 3) % 3 == 0
    ensures Encode(bytes[..p]) == Encode(bytes[..p - 3]) + Block(bytes[p - 3], bytes[p - 2], bytes[p - 1])
  {
    var g := bytes[p - 3..p];
    assert bytes[..p] == bytes[..p - 3] + g;
    EncodeAppend(bytes[..p - 3], g);
    assert g[3..] == [];
  }

  // The last one or two bytes, padded.
  method EncodeTail(three: array<bv8>, four: array<bv8>, n: nat) returns (ret: octets)
    requires three.Length == 3 && four.Length == 4 && three != four && 1 <= n <= 2
    modifies three, four
    ensures ret == Encode(old(three[..n]))
  {
    ghost var tail := three[..n];
    for j := n to 3
      invariant three[..n] == tail && forall k :: n <= k < j ==> three[k] == 0
    {
      three[j] := 0;
    }
    FillFour(three, four);
    ghost var block := Block(three[0], three[1], three[2]);
    assert three[0] == tail[0];
    ret := [];
    for j := 0 to n + 1
      invariant ret == block[..j]
    {
      ret := ret + [Char(four[j])];
    }
    var i := n;
    while i < 3
      invariant n <= i <= 3 && ret == block[..n + 1] + seq(i - n, _ => PAD)
    {
      ret := ret + [PAD];
      i := i + 1;
    }
  }

  // The staged bytes of a full group, encoded.
  method EncodeGroup(ret: octets, three: array<bv8>, four: array<bv8>, ghost bytes: octets, ghost n: nat)
    returns (longer: octets)
    requires three.Length == 3 && four.Length == 4 && three != four && n % 3 == 0
    requires n + 3 <= |bytes| && three[..3] == bytes[n..n + 3] && ret == Encode(bytes[..n])
    modifies four
    ensures longer == Encode(bytes[..n + 3])
  {
    var block := Emit(three, four);
    EncodeGrows(bytes, n + 3);
    assert three[..3][0] == three[0] && three[..3][1] == three[1] && three[..3][2] == three[2];
    longer := ret + block;
  }

  // What is left over when the bytes end.
  lemma EncodeEnds(bytes: octets, front: octets, rest: octets)
    requires bytes == front + rest && |front| % 3 == 0
    ensures Encode(bytes) == Encode(front) + Encode(rest)
  {
    EncodeAppend(front, rest);
  }

  // The loop over the bytes: whole groups are encoded, i bytes are left in the buffer.
  method EncodeGroups(bytes: octets, three: array<bv8>, four: array<bv8>) returns (ret: octets, i: nat)
    requires three.Length == 3 && four.Length == 4 && three != four
    modifies three, four
    ensures i < 3 && i <= |bytes| && (|bytes| - i) % 3 == 0
    ensures three[..i] == bytes[|bytes| - i..] && ret == Encode(bytes[..|bytes| - i])
  {
    ret, i := [], 0;
    var p := 0;
    ghost var n: nat := 0;
    while p < |bytes|
      invariant 0 <= i < 3 && n + i == p <= |bytes| && n % 3 == 0
      invariant three[..i] == bytes[n..p]
      invariant ret == Encode(bytes[..n])
    {
      Stage(three, i, bytes[p]);
      assert bytes[n..p + 1] == bytes[n..p] + [bytes[p]];
      i, p := i + 1, p + 1;
      if i == 3 {
        ret := EncodeGroup(ret, three, four, bytes, n);
        i, n := 0, p;
      }
    }
  }

  method Base64Encode(bytes: octets) returns (ret: octets)
    ensures ret == Encode(bytes) && EncodesTo(bytes, ret)
  {
    var three := new bv8[3];
    var four := new bv8[4];
    var i;
    ret, i := EncodeGroups(bytes, three, four);
    EncodeEnds(bytes, bytes[..|bytes| - i], bytes[|bytes| - i..]);
    if i != 0 {
      var tail := EncodeTail(three, four, i);
      ret := ret + tail;
    }
    EncodesByPosition(bytes);
  }

  // One more group of four clean characters adds three bytes.
  lemma DecodeGrows(s: octets, p: nat)
    requires 4 <= p <= |s| && (p - 4) % 4 == 0
    ensures DecodeClean(s[..p]) == DecodeClean(s[..p - 4]) + Unblock(s[p - 4..p])
  {
    var g := s[p - 4..p];
    assert s[..p] == s[..p - 4] + g;
    DecodeCleanAppend(s[..p - 4], g);
    assert g[..4] == g && g[4..] == [];
  }

  method FillThree(four: array<bv8>, three: array<bv8>)
    requires three.Length == 3 && four.Length == 4 && three != four
    modifies three
    ensures three[0] == D0(four[0], four[1]) && three[1] == D1(four[1], four[2]) && three[2] == D2(four[2], four[3])
  {
    three[0] := (four[0] << 2) + ((four[1] & 0x30) >> 4);
    three[1] := ((four[1] & 0x0f) << 4) + ((four[2] & 0x3c) >> 2);
    three[2] := ((four[2] & 0x03) << 6) + four[3];
  }

  // Replace the characters by their values.
  method FindAll(four: array<bv8>)
    requires four.Length == 4
    modifies four
    ensures forall k :: 0 <= k < 4 ==> four[k] == Find(old(four[k]))
  {
    for j := 0 to 4
      invariant forall k :: 0 <= k < 4 ==> four[k] == if k < j then Find(old(four[k])) else old(four[k])
    {
      four[j] := Find(four[j]);
    }
  }

  method ClearRest(buffer: array<bv8>, n: nat)
    requires n <= buffer.Length
    modifies buffer
    ensures buffer[..n] == old(buffer[..n])
  {
    ghost var front := buffer[..n];
    for j := n to buffer.Length
      invariant buffer[..n] == front
    {
      buffer[j] := 0;
    }
  }

  // No byte that is kept depends on the places after the last character.
  lemma DecodesShort(tail: octets, all: octets, three: octets)
    requires 1 <= |tail| <= 3 && |three| == 3 && all == three[..|tail| - 1]
    requires |tail| > 1 ==> three[0] == D0(Find(tail[0]), Find(tail[1]))
    requires |tail| > 2 ==> three[1] == D1(Find(tail[1]), Find(tail[2]))
    ensures DecodeClean(tail) == all
  {
    if |tail| > 1 {
      ShortClean(tail);
    }
  }

  // The last characters.  The unused places hold NUL and so become NPOS; no byte that
  // is kept depends on them.
  method DecodeTail(four: array<bv8>, three: array<bv8>, n: nat) returns (ret: octets)
    requires three.Length == 3 && four.Length == 4 && three != four && 1 <= n <= 3
    modifies three, four
    ensures ret == DecodeClean(old(four[..n]))
  {
    ghost var tail := four[..n];
    ClearRest(four, n);
    assert forall k :: 0 <= k < n ==> four[k] == tail[k];
    FindAll(four);
    assert forall k :: 0 <= k < n ==> four[k] == Find(tail[k]);
    FillThree(four, three);
    ghost var all := three[..n - 1];
    DecodesShort(tail, all, three[..]);
    ret := [];
    for j := 0 to n - 1
      invariant ret == all[..j]
    {
      ret := ret + [three[j]];
    }
  }

  // The staged characters of a full group, decoded.
  method DecodeGroup(four: array<bv8>, three: array<bv8>, ghost s: octets, ghost p: nat) returns (group: octets)
    requires three.Length == 3 && four.Length == 4 && three != four
    requires 4 <= p <= |s| && (p - 4) % 4 == 0 && four[..4] == s[p - 4..p]
    modifies three, four
    ensures DecodeClean(s[..p]) == DecodeClean(s[..p - 4]) + group
  {
    ghost var g := four[..4];
    assert g[0] == four[0] && g[1] == four[1] && g[2] == four[2] && g[3] == four[3];
    FindAll(four);
    FillThree(four, three);
    group := [];
    for i := 0 to 3
      invariant group == three[..i]
    {
      group := group + [three[i]];
    }
    assert group == Unblock(g);
    DecodeGrows(s, p);
  }

  // What is left over when the clean characters end.
  lemma DecodeEnds(s: octets, n: nat, p: nat)
    requires n <= p <= |s| && n % 4 == 0
    ensures DecodeClean(s[..p]) == DecodeClean(s[..n]) + DecodeClean(s[n..p])
  {
    assert s[..p] == s[..n] + s[n..p];
    DecodeCleanAppend(s[..n], s[n..p]);
  }

  method Base64Decode(s: octets) returns (ret: octets)
    ensures ret == Decode(s) && forall n: nat :: LettersEnd(s, n) ==> DecodesTo(s[..n], ret)
  {
    ret := [];
    var i, p := 0, 0;
    var four := new bv8[4];
    var three := new bv8[3];
    ghost var n: nat := 0;
    while p < |s| && s[p] != PAD && IsBase64(s[p])
      invariant 0 <= i < 4 && n + i == p <= Clean(s) && n % 4 == 0
      invariant four[..i] == s[n..p]
      invariant ret == DecodeClean(s[..n])
    {
      Stage(four, i, s[p]);
      assert s[n..p + 1] == s[n..p] + [s[p]];
      i, p := i + 1, p + 1;
      if i == 4 {
        var group := DecodeGroup(four, three, s, p);
        ret := ret + group;
        i, n := 0, p;
      }
    }
    assert !IsBase64(PAD);
    assert p == Clean(s);
    DecodeEnds(s, n, p);
    DecodesByLetters(s);
    if i != 0 {
      var tail := DecodeTail(four, three, i);
      ret := ret + tail;
    }
  }

  // ------------------------------------------------------------------
  // Structure.

  lemma {:induction false} EncodeAppend(a: octets, b: octets)
    requires |a| % 3 == 0
    ensures Encode(a + b) == Encode(a) + Encode(b)
    decreases |a|
  {
    if a == [] {
      assert a + b == b;
    } else {
      assert (a + b)[3..] == a[3..] + b;
      EncodeAppend(a[3..], b);
      EncodeStep(a + b);
      EncodeStep(a);
      Regroup(Block(a[0], a[1], a[2]), Encode(a[3..]), Encode(b));
    }
  }

  lemma {:induction false} EncodeLength(b: octets)
    ensures |Encode(b)| == 4 * ((|b| + 2) / 3)
    decreases |b|
  {
    if |b| >= 3 {
      EncodeLength(b[3..]);
    }
  }

  lemma {:induction false} DecodeCleanAppend(a: octets, b: octets)
    requires |a| % 4 == 0
    ensures DecodeClean(a + b) == DecodeClean(a) + DecodeClean(b)
    decreases |a|
  {
    if a == [] {
      assert a + b == b;
    } else {
      DecodeCleanAppend(a[4..], b);
      assert (a + b)[..4] == a[..4] && (a + b)[4..] == a[4..] + b;
      var x, y, z := Unblock(a[..4]), DecodeClean(a[4..]), DecodeClean(b);
      assert (x + y) + z == x + (y + z);
    }
  }

  lemma {:induction false} DecodeCleanLength(s: octets)
    ensures |DecodeClean(s)| == 3 * |s| / 4
    decreases |s|
  {
    if |s| >= 4 {
      DecodeCleanLength(s[4..]);
    }
  }

  // The length of what is decoded depends on the clean prefix only, and so does the rest.
  lemma DecodeReadsTheCleanPrefix(s: octets, other: octets)
    ensures |Decode(s)| == 3 * Clean(s) / 4
    ensures (other == [] || !IsBase64(other[0])) ==> Decode(s[..Clean(s)] + other) == Decode(s)
  {
    DecodeCleanLength(s[..Clean(s)]);
    if other == [] || !IsBase64(other[0]) {
      CleanOf(s[..Clean(s)], other);
      assert (s[..Clean(s)] + other)[..Clean(s)] == s[..Clean(s)];
    }
  }

  lemma {:induction false} CleanOf(a: octets, b: octets)
    requires (forall i :: 0 <= i < |a| ==> IsBase64(a[i])) && (b == [] || !IsBase64(b[0]))
    ensures Clean(a + b) == |a|
    decreases |a|
  {
    if a == [] {
      assert a + b == b;
    } else {
      assert (a + b)[1..] == a[1..] + b;
      CleanOf(a[1..], b);
    }
  }

  // ------------------------------------------------------------------
  // The standard, by the printed alphabet and by position.

  const ALPHABET: string := "ABCDEFGHIJKLMNOPQRSTUVWXYZ" + "abcdefghijklmnopqrstuvwxyz" + "0123456789+/"

  // Character k of the alphabet is c.
  predicate Stands(k: nat, c: bv8) {
    k < |ALPHABET| && ALPHABET[k] as int == c as int
  }

  ghost predicate InAlphabet(c: bv8) {
    exists k: nat :: Stands(k, c)
  }

  // Where c stands in the alphabet.
  ghost function Position(c: bv8): (k: nat)
    ensures InAlphabet(c) ==> Stands(k, c)
  {
    if InAlphabet(c) then
      var k: nat :| Stands(k, c);
      k
    else 0
  }

  ghost predicate AllIn(s: octets) {
    forall i :: 0 <= i < |s| ==> InAlphabet(s[i])
  }

  // The characters of s are in the alphabet up to n and no further.
  ghost predicate LettersEnd(s: octets, n: nat) {
    n <= |s| && AllIn(s[..n]) && (n < |s| ==> !InAlphabet(s[n]))
  }

  // The number that alphabet characters spell in base 64, and bytes in base 256.
  ghost function Value64(s: octets): nat {
    if s == [] then 0 else 64 * Value64(s[..|s| - 1]) + Position(s[|s| - 1])
  }

  function Value256(b: octets): nat {
    if b == [] then 0 else 256 * Value256(b[..|b| - 1]) + (b[|b| - 1] as int)
  }

  // s encodes b as section 4 of RFC 4648 says: every three bytes are four characters with
  // the same value; two or one at the end are padded with zero bits and with '='.
  ghost predicate EncodesTo(b: octets, s: octets)
    decreases |b|
  {
    if |b| == 0 then s == []
    else if |b| == 1 then
      |s| == 4 && AllIn(s[..2]) && Value64(s[..2]) == 16 * Value256(b) && s[2..] == [PAD, PAD]
    else if |b| == 2 then
      |s| == 4 && AllIn(s[..3]) && Value64(s[..3]) == 4 * Value256(b) && s[3..] == [PAD]
    else
      |s| >= 4 && AllIn(s[..4]) && Value64(s[..4]) == Value256(b[..3]) && EncodesTo(b[3..], s[4..])
  }

  // b is what s stands for: every four characters are three bytes with the same value,
  // and of three or two at the end the bits that fill no byte are dropped; so is one.
  ghost predicate DecodesTo(s: octets, b: octets)
    decreases |s|
  {
    if |s| < 2 then b == []
    else if |s| == 2 then |b| == 1 && Value256(b) == Value64(s) / 16
    else if |s| == 3 then |b| == 2 && Value256(b) == Value64(s) / 4
    else |b| >= 3 && Value256(b[..3]) == Value64(s[..4]) && DecodesTo(s[4..], b[3..])
  }

  lemma AlphabetRanges(k: nat)
    requires k < 64
    ensures |ALPHABET| == 64
    ensures ALPHABET[k] as int ==
            if k < 26 then 65 + k else if k < 52 then 71 + k else if k < 62 then k - 4 else if k == 62 then 43 else 47
  {
    var upper, lower, rest := "ABCDEFGHIJKLMNOPQRSTUVWXYZ", "abcdefghijklmnopqrstuvwxyz", "0123456789+/";
    if k < 26 {
      assert ALPHABET[k] == upper[k];
    } else if k < 52 {
      assert ALPHABET[k] == lower[k - 26];
    } else {
      assert ALPHABET[k] == rest[k - 52];
    }
  }

  // The tests and the search of the source are about this alphabet.
  lemma FindIsPosition(c: bv8)
    ensures IsBase64(c) <==> InAlphabet(c)
    ensures IsBase64(c) ==> Position(c) == Find(c) as int
    ensures InAlphabet(c) ==> Position(c) < 64
  {
    AlphabetRanges(0);
    if InAlphabet(c) {
      AlphabetRanges(Position(c));
    }
    if IsBase64(c) {
      AlphabetRanges(Find(c) as int);
      assert Stands(Find(c) as int, c);
    }
  }

  lemma LastDigit(s: octets, c: bv8, t: octets)
    requires t == s + [c]
    ensures Value64(t) == 64 * Value64(s) + Position(c)
  {
    assert t[..|s|] == s;
  }

  // The value of up to four characters.
  lemma Values(a: bv8, b: bv8, c: bv8, d: bv8)
    ensures Value64([a, b]) == 64 * Position(a) + Position(b)
    ensures Value64([a, b, c]) == 64 * Value64([a, b]) + Position(c)
    ensures Value64([a, b, c, d]) == 64 * Value64([a, b, c]) + Position(d)
  {
    LastDigit([], a, [a]);
    LastDigit([a], b, [a, b]);
    LastDigit([a, b], c, [a, b, c]);
    LastDigit([a, b, c], d, [a, b, c, d]);
  }

  lemma FindAll4(g: octets)
    requires |g| == 4 && forall i :: 0 <= i < 4 ==> IsBase64(g[i])
    ensures AllIn(g) && forall i :: 0 <= i < 4 ==> Position(g[i]) == Find(g[i]) as int
  {
    forall i | 0 <= i < 4
      ensures InAlphabet(g[i]) && Position(g[i]) == Find(g[i]) as int
    {
      FindIsPosition(g[i]);
    }
  }

  lemma BytesValue(b: octets)
    requires 1 <= |b| <= 3
    ensures Value256(b) ==
            if |b| == 1 then b[0] as int
            else if |b| == 2 then b[0] as int * 256 + b[1] as int
            else (b[0] as int * 256 + b[1] as int) * 256 + b[2] as int
    decreases |b|
  {
    if |b| > 1 {
      BytesValue(b[..|b| - 1]);
    }
  }

  lemma MovedBits(w: bv8, x: bv8, y: bv8, z: bv8)
    requires w < 64 && x < 64 && y < 64 && z < 64
    ensures ((w as int * 64 + x as int) * 64 + y as int) * 64 + z as int ==
            (((w << 2) + ((x & 0x30) >> 4)) as int * 256 + (((x & 0x0f) << 4) + ((y & 0x3c) >> 2)) as int) * 256
            + (((y & 0x03) << 6) + z) as int
  {
  }

  // The shifts and masks of the decoder only move the value from base 64 to base 256.
  lemma SameValue(w: bv8, x: bv8, y: bv8, z: bv8)
    requires w < 64 && x < 64 && y < 64 && z < 64
    ensures ((w as int * 64 + x as int) * 64 + y as int) * 64 + z as int ==
            (D0(w, x) as int * 256 + D1(x, y) as int) * 256 + D2(y, z) as int
  {
    MovedBits(w, x, y, z);
  }

  lemma GroupValue(a: bv8, b: bv8, c: bv8, d: bv8)
    requires IsBase64(a) && IsBase64(b) && IsBase64(c) && IsBase64(d)
    ensures Value64([a, b, c, d]) == ((Find(a) as int * 64 + Find(b) as int) * 64 + Find(c) as int) * 64 + Find(d) as int
  {
    Values(a, b, c, d);
    FindIsPosition(a);
    FindIsPosition(b);
    FindIsPosition(c);
    FindIsPosition(d);
  }

  lemma UnblockValue(g: octets)
    requires |g| == 4 && forall i :: 0 <= i < 4 ==> IsBase64(g[i])
    ensures AllIn(g) && Value64(g) == Value256(Unblock(g))
  {
    FindAll4(g);
    GroupValue(g[0], g[1], g[2], g[3]);
    assert g == [g[0], g[1], g[2], g[3]];
    BytesValue(Unblock(g));
    SameValue(Find(g[0]), Find(g[1]), Find(g[2]), Find(g[3]));
  }

  lemma BlockValue(a: bv8, b: bv8, c: bv8)
    ensures AllIn(Block(a, b, c)) && Value64(Block(a, b, c)) == Value256([a, b, c])
  {
    var k := Block(a, b, c);
    BlockDecodes(a, b, c);
    UnblockValue(k);
    assert Unblock(k) == [a, b, c];
  }

  // Taking the last digit away, when it is zero.
  lemma WithoutLast(k: octets)
    requires |k| == 4 && AllIn(k)
    ensures AllIn(k[..3]) && AllIn(k[..2])
    ensures Value64(k) == 64 * Value64(k[..3]) + Position(k[3])
    ensures Value64(k[..3]) == 64 * Value64(k[..2]) + Position(k[2])
  {
    assert k[..3][..2] == k[..2];
  }

  lemma ZeroBits()
    ensures E3(0) == 0 && E2(0, 0) == 0
    ensures Position(Char(0)) == 0
  {
    FindIsPosition(Char(0));
  }

  lemma TailTwo(a: bv8, b: bv8)
    ensures var s := Block(a, b, 0)[..3];
      AllIn(s) && Value64(s) == 4 * Value256([a, b])
  {
    BlockValue(a, b, 0);
    WithoutLast(Block(a, b, 0));
    ZeroBits();
    BytesValue([a, b, 0]);
    BytesValue([a, b]);
  }

  lemma TailOne(a: bv8)
    ensures var s := Block(a, 0, 0)[..2];
      AllIn(s) && Value64(s) == 16 * Value256([a])
  {
    TailTwo(a, 0);
    WithoutLast(Block(a, 0, 0));
    ZeroBits();
    BytesValue([a, 0]);
    BytesValue([a]);
  }

  lemma {:induction false} EncodesByPosition(b: octets)
    ensures EncodesTo(b, Encode(b))
    decreases |b|
  {
    if |b| == 1 {
      TailOne(b[0]);
      assert b == [b[0]];
    } else if |b| == 2 {
      TailTwo(b[0], b[1]);
      assert b == [b[0], b[1]];
    } else if |b| >= 3 {
      EncodeStep(b);
      FirstGroup(b[0], b[1], b[2], Encode(b[3..]), Encode(b));
      assert b[..3] == [b[0], b[1], b[2]];
      EncodesByPosition(b[3..]);
    }
  }

  lemma FirstGroup(a: bv8, b: bv8, c: bv8, r: octets, s: octets)
    requires s == Block(a, b, c) + r
    ensures |s| >= 4 && AllIn(s[..4]) && Value64(s[..4]) == Value256([a, b, c]) && s[4..] == r
  {
    BlockValue(a, b, c);
    assert s[..4] == Block(a, b, c);
  }

  lemma PositionInjective(c: bv8, d: bv8)
    requires IsBase64(c) && IsBase64(d)
    ensures Position(c) < 64 && Position(d) < 64
    ensures Position(c) == Position(d) ==> c == d
  {
    FindIsPosition(c);
    FindIsPosition(d);
    CharOfFind(c);
    CharOfFind(d);
  }

  lemma SameDigits(a: nat, p: nat, b: nat, q: nat)
    requires p < 64 && q < 64 && 64 * a + p == 64 * b + q
    ensures a == b && p == q
  {
  }

  lemma LastLetter(s: octets)
    requires s != [] && AllIn(s)
    ensures AllIn(s[..|s| - 1]) && IsBase64(s[|s| - 1])
  {
    FindIsPosition(s[|s| - 1]);
  }

  lemma LastDigitsAgree(a: nat, c: bv8, b: nat, d: bv8)
    requires IsBase64(c) && IsBase64(d) && 64 * a + Position(c) == 64 * b + Position(d)
    ensures a == b && c == d
  {
    PositionInjective(c, d);
    SameDigits(a, Position(c), b, Position(d));
  }

  lemma Reassembled(s: octets, t: octets)
    requires |s| == |t| > 0 && s[..|s| - 1] == t[..|s| - 1] && s[|s| - 1] == t[|s| - 1]
    ensures s == t
  {
    assert s == s[..|s| - 1] + [s[|s| - 1]];
  }

  lemma {:induction false} Value64Injective(s: octets, t: octets)
    requires |s| == |t| && AllIn(s) && AllIn(t) && Value64(s) == Value64(t)
    ensures s == t
  {
    if s != [] {
      var n := |s| - 1;
      LastLetter(s);
      LastLetter(t);
      LastDigitsAgree(Value64(s[..n]), s[n], Value64(t[..n]), t[n]);
      Value64Injective(s[..n], t[..n]);
      Reassembled(s, t);
    }
  }

  lemma {:induction false} Value256Injective(a: octets, b: octets)
    requires |a| == |b| && Value256(a) == Value256(b)
    ensures a == b
  {
    if a != [] {
      Value256Injective(a[..|a| - 1], b[..|a| - 1]);
      Reassembled(a, b);
    }
  }

  // `Encode` is exactly the standard's encoding.
  lemma {:induction false} EncodeIsStandard(b: octets, s: octets)
    ensures EncodesTo(b, s) <==> s == Encode(b)
    decreases |b|
  {
    EncodesByPosition(b);
    var t := Encode(b);
    if EncodesTo(b, s) && b != [] {
      var n := if |b| == 1 then 2 else if |b| == 2 then 3 else 4;
      Value64Injective(s[..n], t[..n]);
      if |b| >= 3 {
        EncodeIsStandard(b[3..], s[4..]);
        EncodeIsStandard(b[3..], t[4..]);
      }
      assert s == s[..n] + s[n..] && t == t[..n] + t[n..];
    }
  }

  lemma DropsFour(w: bv8, x: bv8)
    requires w < 64 && x < 64
    ensures D0(w, x) as int == (w as int * 64 + x as int) / 16
  {
    MovedBits(w, x, 0, 0);
    assert D1(x, 0) as int < 256;
  }

  lemma DropsTwo(w: bv8, x: bv8, y: bv8)
    requires w < 64 && x < 64 && y < 64
    ensures D0(w, x) as int * 256 + D1(x, y) as int == ((w as int * 64 + x as int) * 64 + y as int) / 4
  {
    MovedBits(w, x, y, 0);
    assert D2(y, 0) as int < 256;
  }

  lemma DropsOfTwo(a: bv8, b: bv8)
    requires IsBase64(a) && IsBase64(b)
    ensures Value256([D0(Find(a), Find(b))]) == Value64([a, b]) / 16
  {
    BytesValue([D0(Find(a), Find(b))]);
    Values(a, b, a, a);
    FindIsPosition(a);
    FindIsPosition(b);
    DropsFour(Find(a), Find(b));
  }

  lemma DropsOfThree(a: bv8, b: bv8, c: bv8)
    requires IsBase64(a) && IsBase64(b) && IsBase64(c)
    ensures Value256([D0(Find(a), Find(b)), D1(Find(b), Find(c))]) == Value64([a, b, c]) / 4
  {
    var w, x, y := Find(a), Find(b), Find(c);
    BytesValue([D0(w, x), D1(x, y)]);
    Values(a, b, c, c);
    FindIsPosition(a);
    FindIsPosition(b);
    FindIsPosition(c);
    DropsTwo(w, x, y);
  }

  lemma ShortClean(s: octets)
    requires 2 <= |s| <= 3
    ensures |s| == 2 ==> DecodeClean(s) == [D0(Find(s[0]), Find(s[1]))]
    ensures |s| == 3 ==> DecodeClean(s) == [D0(Find(s[0]), Find(s[1])), D1(Find(s[1]), Find(s[2]))]
  {
  }

  lemma {:induction false} DecodesByPosition(s: octets)
    requires forall i :: 0 <= i < |s| ==> IsBase64(s[i])
    ensures DecodesTo(s, DecodeClean(s))
    decreases |s|
  {
    if 2 <= |s| <= 3 {
      ShortClean(s);
      if |s| == 2 {
        DropsOfTwo(s[0], s[1]);
        assert s == [s[0], s[1]];
      } else {
        DropsOfThree(s[0], s[1], s[2]);
        assert s == [s[0], s[1], s[2]];
      }
    } else if |s| >= 4 {
      UnblockValue(s[..4]);
      assert DecodeClean(s)[..3] == Unblock(s[..4]) && DecodeClean(s)[3..] == DecodeClean(s[4..]);
      DecodesByPosition(s[4..]);
    }
  }

  lemma {:induction false} DecodesToOne(s: octets, a: octets, b: octets)
    requires DecodesTo(s, a) && DecodesTo(s, b)
    ensures a == b
    decreases |s|
  {
    if 2 <= |s| <= 3 {
      Value256Injective(a, b);
    } else if |s| >= 4 {
      Value256Injective(a[..3], b[..3]);
      DecodesToOne(s[4..], a[3..], b[3..]);
      assert a == a[..3] + a[3..] && b == b[..3] + b[3..];
    }
  }

  // `Decode` is exactly what the characters before the first one outside the alphabet
  // stand for.
  lemma DecodeIsStandard(s: octets, n: nat, b: octets)
    requires LettersEnd(s, n)
    ensures DecodesTo(s[..n], b) <==> b == Decode(s)
  {
    LettersAreClean(s, n);
    DecodesByPosition(s[..n]);
    if DecodesTo(s[..n], b) {
      DecodesToOne(s[..n], b, Decode(s));
    }
  }

  lemma LettersAreClean(s: octets, n: nat)
    requires LettersEnd(s, n)
    ensures Clean(s) == n && forall i :: 0 <= i < n ==> IsBase64(s[..n][i])
  {
    forall i | 0 <= i < n ensures IsBase64(s[i]) {
      assert InAlphabet(s[..n][i]);
      FindIsPosition(s[i]);
    }
    if n < |s| {
      FindIsPosition(s[n]);
    }
    CleanOf(s[..n], s[n..]);
    assert s == s[..n] + s[n..];
  }

  lemma DecodesByLetters(s: octets)
    ensures forall n: nat :: LettersEnd(s, n) ==> DecodesTo(s[..n], Decode(s))
  {
    forall n: nat | LettersEnd(s, n)
      ensures DecodesTo(s[..n], Decode(s))
    {
      DecodeIsStandard(s, n, Decode(s));
    }
  }

  // "Man" is encoded as "TWFu".
  lemma ManIsEncoded()
    ensures Encode([77, 97, 110]) == [84, 87, 70, 117]
  {
    assert Encode([77, 97, 110]) == Block(77, 97, 110) + Encode([77, 97, 110][3..]);
    assert [77, 97, 110][3..] == [];
  }

  // ------------------------------------------------------------------
  // Round trips.

  // What is decoded of an encoding that follows whole clean blocks.
  lemma {:induction false} DecodeAfter(a: octets, b: octets)
    requires |a| % 4 == 0 && forall i :: 0 <= i < |a| ==> IsBase64(a[i])
    ensures Decode(a + Encode(b)) == DecodeClean(a) + b
    decreases |b|
  {
    if |b| >= 3 {
      var k := Block(b[0], b[1], b[2]);
      DecodeBlock(b[0], b[1], b[2]);
      EncodePeels(a, b, k);
      DecodeAfter(a + k, b[3..]);
      DecodeCleanAppend(a, k);
      Rejoin(DecodeClean(a), b);
    } else {
      DecodeShort(a, b);
    }
  }

  lemma Regroup(a: octets, b: octets, c: octets)
    ensures a + (b + c) == (a + b) + c
  {
  }

  lemma EncodeStep(b: octets)
    requires |b| >= 3
    ensures Encode(b) == Block(b[0], b[1], b[2]) + Encode(b[3..])
  {
  }

  lemma EncodePeels(a: octets, b: octets, k: octets)
    requires |b| >= 3 && k == Block(b[0], b[1], b[2])
    ensures a + Encode(b) == (a + k) + Encode(b[3..])
  {
    EncodeStep(b);
    Regroup(a, k, Encode(b[3..]));
  }

  lemma Rejoin(a: octets, b: octets)
    requires |b| >= 3
    ensures a + [b[0], b[1], b[2]] + b[3..] == a + b
  {
  }

  lemma DecodeBlock(a: bv8, b: bv8, c: bv8)
    ensures DecodeClean(Block(a, b, c)) == [a, b, c]
  {
    var k := Block(a, b, c);
    BlockDecodes(a, b, c);
    assert k[..4] == k && k[4..] == [];
  }

  // Whole clean blocks, a last clean piece and what does not belong to the alphabet.
  lemma DecodeStub(a: octets, k: octets, pads: octets)
    requires |a| % 4 == 0 && (forall i :: 0 <= i < |a| ==> IsBase64(a[i]))
    requires (forall i :: 0 <= i < |k| ==> IsBase64(k[i])) && (pads == [] || !IsBase64(pads[0]))
    ensures Decode(a + (k + pads)) == DecodeClean(a) + DecodeClean(k)
  {
    assert a + (k + pads) == (a + k) + pads;
    CleanOf(a + k, pads);
    assert ((a + k) + pads)[..|a + k|] == a + k;
    DecodeCleanAppend(a, k);
  }

  lemma DecodeShort(a: octets, b: octets)
    requires |a| % 4 == 0 && |b| < 3 && forall i :: 0 <= i < |a| ==> IsBase64(a[i])
    ensures Decode(a + Encode(b)) == DecodeClean(a) + b
  {
    if |b| == 0 {
      DecodeStub(a, [], []);
    } else {
      StubDecodes(b);
      DecodeStub(a, Encode(b)[..|b| + 1], Encode(b)[|b| + 1..]);
      assert Encode(b) == Encode(b)[..|b| + 1] + Encode(b)[|b| + 1..];
    }
  }

  // The last piece of an encoding: its characters stand for the bytes, and '=' follows.
  lemma StubDecodes(b: octets)
    requires 1 <= |b| <= 2
    ensures var k, pads := Encode(b)[..|b| + 1], Encode(b)[|b| + 1..];
      && (forall i :: 0 <= i < |k| ==> IsBase64(k[i])) && pads != [] && !IsBase64(pads[0])
      && DecodeClean(k) == b
  {
    BlockDecodes(b[0], if |b| == 1 then 0 else b[1], 0);
  }

  // Decoding undoes encoding.
  lemma RoundTrip(b: octets)
    ensures Decode(Encode(b)) == b
  {
    DecodeAfter([], b);
    assert [] + Encode(b) == Encode(b);
  }

  // Encodings can be joined at multiples of three bytes.
  lemma JoinedEncodings(a: octets, b: octets)
    requires |a| % 3 == 0
    ensures Decode(Encode(a) + Encode(b)) == a + b
  {
    EncodeAppend(a, b);
    RoundTrip(a + b);
  }

  // Padded to whole blocks, with unused bits zero.
  predicate Canonical(s: octets) {
    if s == [] then true
    else
      && |s| >= 4 && IsBase64(s[0]) && IsBase64(s[1])
      && if |s| == 4 && s[3] == PAD then
           if s[2] == PAD then Find(s[1]) & 0x0f == 0
           else IsBase64(s[2]) && Find(s[2]) & 0x03 == 0
         else IsBase64(s[2]) && IsBase64(s[3]) && Canonical(s[4..])
  }

  lemma {:induction false} EncodeIsCanonical(b: octets)
    ensures Canonical(Encode(b))
    decreases |b|
  {
    if |b| >= 3 {
      EncodeIsCanonical(b[3..]);
      assert Encode(b)[4..] == Encode(b[3..]);
      assert Encode(b)[3] == Block(b[0], b[1], b[2])[3];
    } else if |b| == 2 {
      BlockDecodes(b[0], b[1], 0);
    }
  }

  lemma {:induction false} CanonicalIsEncoded(s: octets)
    requires Canonical(s)
    ensures Encode(Decode(s)) == s
    decreases |s|
  {
    if s == [] {
    } else if |s| == 4 && s[3] == PAD {
      CanonicalTail(s);
    } else {
      DecodePeels(s);
      CanonicalIsEncoded(s[4..]);
      var b := Unblock(s[..4]);
      UnblockIsUndone(s[..4]);
      EncodeAppend(b, Decode(s[4..]));
      assert Encode(b) == s[..4] by {
        assert b[3..] == [];
      }
    }
  }

  lemma UnblockIsUndone(g: octets)
    requires |g| == 4 && forall i :: 0 <= i < 4 ==> IsBase64(g[i])
    ensures var b := Unblock(g);
      Block(b[0], b[1], b[2]) == g
  {
    BlockEncodes(Find(g[0]), Find(g[1]), Find(g[2]), Find(g[3]));
    CharOfFind(g[0]);
    CharOfFind(g[1]);
    CharOfFind(g[2]);
    CharOfFind(g[3]);
  }

  lemma DecodePeels(s: octets)
    requires |s| >= 4 && forall i :: 0 <= i < 4 ==> IsBase64(s[i])
    ensures Decode(s) == Unblock(s[..4]) + Decode(s[4..])
  {
    var n := Clean(s[4..]);
    CleanOf(s[..4] + s[4..][..n], s[4..][n..]);
    assert s == (s[..4] + s[4..][..n]) + s[4..][n..];
    assert s[..n + 4][..4] == s[..4] && s[..n + 4][4..] == s[4..][..n];
  }

  lemma CanonicalTail(s: octets)
    requires Canonical(s) && |s| == 4 && s[3] == PAD
    ensures Encode(Decode(s)) == s
  {
    if s[2] == PAD {
      CanonicalPair(s);
    } else {
      CanonicalTriple(s);
    }
  }

  lemma CanonicalPair(s: octets)
    requires Canonical(s) && |s| == 4 && s[3] == PAD && s[2] == PAD
    ensures Encode(Decode(s)) == s
  {
    CharOfFind(s[0]);
    CharOfFind(s[1]);
    CleanOf(s[..2], [PAD, PAD]);
    assert s == s[..2] + [PAD, PAD];
    TailEncodes(Find(s[0]), Find(s[1]), 0);
    BlockEncodes(Find(s[0]), Find(s[1]), 0, 0);
  }

  lemma CanonicalTriple(s: octets)
    requires Canonical(s) && |s| == 4 && s[3] == PAD && s[2] != PAD
    ensures Encode(Decode(s)) == s
  {
    CharOfFind(s[0]);
    CharOfFind(s[1]);
    CharOfFind(s[2]);
    CleanOf(s[..3], [PAD]);
    assert s == s[..3] + [PAD];
    TailEncodes(Find(s[0]), Find(s[1]), Find(s[2]));
    BlockEncodes(Find(s[0]), Find(s[1]), Find(s[2]), 0);
  }

  // Encoding undoes decoding exactly on the canonical strings.
  lemma CanonicalExactly(s: octets)
    ensures Encode(Decode(s)) == s <==> Canonical(s)
  {
    EncodeIsCanonical(Decode(s));
    if Canonical(s) {
      CanonicalIsEncoded(s);
    }
  }

  // ------------------------------------------------------------------
  // Basic credentials.

  const COLON: bv8 := 58
  const BASIC: octets := [66, 97, 115, 105, 99]

  datatype Login =
    | Refused                        // no such scheme, or no ':' in what was decoded
    | OutOfRange                     // substr(6) throws
    | User(name: octets, password: octets)

  function Colon(s: octets): (p: nat)
    ensures p <= |s| && (p < |s| ==> s[p] == COLON) && forall i :: 0 <= i < p ==> s[i] != COLON
  {
    if s == [] || s[0] == COLON then 0
    else
      var p := Colon(s[1..]);
      assert forall i :: 1 <= i < p + 1 ==> s[i] == s[1..][i - 1];
      p + 1
  }

  // The Authorization header, as mgrAuth takes it apart.
  function Credentials(header: octets): Login {
    if !(BASIC <= header) then Refused
    else if |header| < 6 then OutOfRange
    else
      var a := Decode(header[6..]);
      var p := Colon(a);
      if p == |a| then Refused else User(a[..p], a[p + 1..])
  }

  // A user and a password are recovered exactly when the user has no ':' in the name.
  lemma CredentialsRecovered(user: octets, password: octets, sep: bv8)
    ensures Credentials(BASIC + [sep] + Encode(user + [COLON] + password)) == User(user, password) <==> COLON !in user
  {
    var a := user + [COLON] + password;
    var header := BASIC + [sep] + Encode(a);
    assert header[..5] == BASIC && header[6..] == Encode(a);
    RoundTrip(a);
    var p := Colon(a);
    assert a[|user|] == COLON;
    assert forall i :: 0 <= i < |user| ==> a[i] == user[i];
    if COLON !in user {
      assert p == |user|;
      assert a[..p] == user && a[p + 1..] == password;
    } else {
      assert p < |user|;
    }
  }

  lemma Texts()
    ensures PAD as int == '=' as int && COLON as int == ':' as int
    ensures |BASIC| == 5 && forall i :: 0 <= i < 5 ==> BASIC[i] as int == "Basic"[i] as int
  {
  }
}
