// Bytes, the byte classes the two head parsers test for, and maximal runs of a
// class inside a buffer.
module Bytes {

  type byte = x: int | 0 <= x < 256

  // An offset into a buffer, or NIL where the source holds a null pointer.
  type Offset = int

  const NIL: Offset := -1

  const NUL: byte := 0
  const LF: byte := 10
  const CR: byte := 13
  const SP: byte := 32
  const HASH: byte := 35
  const PERCENT: byte := 37
  const PLUS: byte := 43
  const DASH: byte := 45
  const DOT: byte := 46
  const SLASH: byte := 47
  const COLON: byte := 58
  const QUESTION: byte := 63
  const BACKSLASH: byte := 92
  const UNDERSCORE: byte := 95

  datatype Class =
    | Blank        // CR or LF
    | Token        // A-Z and '_'
    | Space
    | Letter       // A-Z and a-z
    | HostChar     // letters, digits, '.' and '-'
    | Digit
    | Target       // everything but NUL, SP, CR and LF
    | Return       // CR
    | NameRest     // everything but ':', CR and LF
    | LineByte     // everything but CR and LF
    | NotLF
  {
    predicate Has(b: byte) {
      match this
      case Blank => b == CR || b == LF
      case Token => 65 <= b <= 90 || b == UNDERSCORE
      case Space => b == SP
      case Letter => 65 <= b <= 90 || 97 <= b <= 122
      case HostChar => 65 <= b <= 90 || 97 <= b <= 122 || 48 <= b <= 57 || b == DOT || b == DASH
      case Digit => 48 <= b <= 57
      case Target => b != NUL && b != SP && b != CR && b != LF
      case Return => b == CR
      case NameRest => b != COLON && b != CR && b != LF
      case LineByte => b != CR && b != LF
      case NotLF => b != LF
    }
  }

  // Every byte of buf[i..j] belongs to the class c.
  ghost predicate Span(buf: seq<byte>, i: int, j: int, c: Class) {
    0 <= i <= j <= |buf| && forall k {:trigger c.Has(buf[k])} :: i <= k < j ==> c.Has(buf[k])
  }

  // Some byte of buf[i..j] equals b.
  ghost predicate Occurs(buf: seq<byte>, i: int, j: int, b: byte)
    requires 0 <= i && j <= |buf|
  {
    exists k :: i <= k < j && buf[k] == b
  }

  // buf[i..] starts with w.
  ghost predicate Reads(buf: seq<byte>, i: int, w: seq<byte>) {
    0 <= i && i + |w| <= |buf| && forall k :: 0 <= k < |w| ==> buf[i + k] == w[k]
  }

  lemma ReadsSlice(buf: seq<byte>, i: int, w: seq<byte>)
    ensures Reads(buf, i, w) <==> 0 <= i && i + |w| <= |buf| && buf[i..i + |w|] == w
  {
    if 0 <= i && i + |w| <= |buf| {
      var v := buf[i..i + |w|];
      assert forall k :: 0 <= k < |w| ==> v[k] == buf[i + k];
      if Reads(buf, i, w) {
        assert v == w;
      }
    }
  }

  // The end of the longest run of class c that starts at p.
  ghost function Skip(buf: seq<byte>, p: int, c: Class): (q: int)
    requires 0 <= p <= |buf|
    ensures p <= q && Span(buf, p, q, c)
    ensures q < |buf| ==> !c.Has(buf[q])
    decreases |buf| - p
  {
    if p < |buf| && c.Has(buf[p]) then Skip(buf, p + 1, c) else p
  }

  // A run that is followed by a byte of another class is the longest one.
  lemma {:induction false} SkipIsMaximal(buf: seq<byte>, p: int, q: int, c: Class)
    requires Span(buf, p, q, c) && (q < |buf| ==> !c.Has(buf[q]))
    ensures Skip(buf, p, c) == q
    decreases q - p
  {
    if p < q {
      SkipIsMaximal(buf, p + 1, q, c);
    }
  }

  // The number that the decimal digits buf[i..j] spell.
  ghost function Decimal(buf: seq<byte>, i: int, j: int): (n: nat)
    requires Span(buf, i, j, Digit)
    decreases j - i
  {
    if i == j then 0
    else
      assert Digit.Has(buf[j - 1]);
      10 * Decimal(buf, i, j - 1) + (buf[j - 1] - 48)
  }

  // The value of a hexadecimal digit, or -1.
  function HexValue(c: byte): (d: int)
    ensures -1 <= d < 16
  {
    if 48 <= c <= 57 then c - 48
    else if 97 <= c <= 102 then c - 97 + 10
    else if 65 <= c <= 70 then c - 65 + 10
    else -1
  }

  // The bytes of a text.
  predicate IsText(s: seq<byte>, text: string) {
    |s| == |text| && forall i :: 0 <= i < |s| ==> s[i] == text[i] as int
  }

  const UPPER_DIGITS: string := "0123456789ABCDEF"
  const LOWER_DIGITS: string := "0123456789abcdef"

  // A hexadecimal digit as it is printed.
  function HexDigit(d: nat, upper: bool): (c: byte)
    requires d < 16
    ensures c == if upper then UPPER_DIGITS[d] as int else LOWER_DIGITS[d] as int
  {
    DigitRanges(d);
    if upper then UPPER_DIGITS[d] as int else LOWER_DIGITS[d] as int
  }

  lemma DigitRanges(d: nat)
    requires d < 16
    ensures UPPER_DIGITS[d] as int == if d < 10 then 48 + d else 55 + d
    ensures LOWER_DIGITS[d] as int == if d < 10 then 48 + d else 87 + d
  {
  }

  // The tests of the source read exactly these digits, in either case.
  lemma HexValueExactly(c: byte, d: nat)
    requires d < 16
    ensures HexValue(c) == d <==> c == HexDigit(d, true) || c == HexDigit(d, false)
  {
    DigitRanges(d);
  }

  // ------------------------------------------------------------------
  // The constants and the classes by what they print as.

  const UPPER_CASE: string := "ABCDEFGHIJKLMNOPQRSTUVWXYZ"
  const LOWER_CASE: string := "abcdefghijklmnopqrstuvwxyz"
  const DECIMAL_DIGITS: string := "0123456789"

  // b is the code of a character of the text.
  predicate CodeIn(b: byte, text: string) {
    exists k :: 0 <= k < |text| && text[k] as int == b
  }

  lemma Texts()
    ensures IsText([HASH, PERCENT, PLUS, DASH, DOT, SLASH, COLON, QUESTION], "#%+-./:?")
    ensures IsText([BACKSLASH, UNDERSCORE, SP, CR, LF, NUL], "\\_ \r\n\0")
  {
  }

  lemma CaseRanges(b: byte)
    ensures CodeIn(b, UPPER_CASE) <==> 65 <= b <= 90
    ensures CodeIn(b, LOWER_CASE) <==> 97 <= b <= 122
    ensures CodeIn(b, DECIMAL_DIGITS) <==> 48 <= b <= 57
  {
    UpperRange();
    LowerRange();
    DecimalRange();
    if 65 <= b <= 90 {
      assert UPPER_CASE[b - 65] as int == b;
    }
    if 97 <= b <= 122 {
      assert LOWER_CASE[b - 97] as int == b;
    }
    if 48 <= b <= 57 {
      assert DECIMAL_DIGITS[b - 48] as int == b;
    }
  }

  lemma UpperRange()
    ensures |UPPER_CASE| == 26 && forall k :: 0 <= k < 26 ==> UPPER_CASE[k] as int == 65 + k
  {
  }

  lemma LowerRange()
    ensures |LOWER_CASE| == 26 && forall k :: 0 <= k < 26 ==> LOWER_CASE[k] as int == 97 + k
  {
  }

  lemma DecimalRange()
    ensures |DECIMAL_DIGITS| == 10 && forall k :: 0 <= k < 10 ==> DECIMAL_DIGITS[k] as int == 48 + k
  {
  }

  // What the classes of the request line hold.
  lemma ClassesByText(b: byte)
    ensures Token.Has(b) <==> CodeIn(b, UPPER_CASE) || b == '_' as int
    ensures Letter.Has(b) <==> CodeIn(b, UPPER_CASE) || CodeIn(b, LOWER_CASE)
    ensures Digit.Has(b) <==> CodeIn(b, DECIMAL_DIGITS)
    ensures HostChar.Has(b) <==> Letter.Has(b) || Digit.Has(b) || b == '.' as int || b == '-' as int
    ensures Target.Has(b) <==> b != 0 && b != ' ' as int && b != '\r' as int && b != '\n' as int
  {
    CaseRanges(b);
  }

  // What the other classes hold.
  lemma SmallClassesByText(b: byte)
    ensures Blank.Has(b) <==> b == '\r' as int || b == '\n' as int
    ensures Space.Has(b) <==> b == ' ' as int
    ensures Return.Has(b) <==> b == '\r' as int
    ensures NameRest.Has(b) <==> b != ':' as int && b != '\r' as int && b != '\n' as int
    ensures LineByte.Has(b) <==> b != '\r' as int && b != '\n' as int
    ensures NotLF.Has(b) <==> b != '\n' as int
  {
  }
}
