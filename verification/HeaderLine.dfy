// The header-line state machine of src/core/request.cpp, one byte at a time.
module HeaderLine {
  import opened Bytes

  datatype HeaderState =
    | Start | Name | SpaceBeforeValue | Value | SpaceAfterValue | IgnoreLine
    | AlmostDone | HeaderAlmostDone

  // The request fields the parser writes.
  datatype Header = Header(
    state: HeaderState,
    nameStart: Offset, nameEnd: Offset, start: Offset, end: Offset,
    invalid: bool, low: Lowcase)

  // `lowcase_header` and `lowcase_index`.
  datatype Lowcase = Lowcase(bytes: seq<byte>, index: nat)

  const LC_HEADER_LEN: nat := 32

  const FRESH: Header := Header(Start, NIL, NIL, NIL, NIL, false, Lowcase(seq(LC_HEADER_LEN, _ => 0), 0))

  const HTTP: seq<byte> := [72, 84, 84, 80]
  const HTTP_SLASH: seq<byte> := [72, 84, 84, 80, 47]

  // The `lowcase` table: letters in lower case, digits and '-' as they are, else 0.
  function LowcaseOf(ch: byte): byte {
    if 65 <= ch <= 90 then ch + 32
    else if 97 <= ch <= 122 || 48 <= ch <= 57 || ch == DASH then ch
    else 0
  }

  // `r->lowcase_header[i++] = c; i &= 31`
  function Put(low: Lowcase, c: byte): Lowcase {
    if low.index < |low.bytes| then
      Lowcase(low.bytes[low.index := c], (low.index + 1) % LC_HEADER_LEN)
    else low
  }

  datatype Turn =
    | Go(h: Header)
    | LineDone(h: Header)      // goto done
    | BlockDone(h: Header)     // goto header_done
    | Bad(h: Header)           // NGX_HTTP_PARSE_INVALID_HEADER

  function StepStart(h: Header, ch: byte, p: nat): Turn {
    var g := h.(nameStart := p, invalid := false);
    if ch == CR then Go(g.(end := p, state := HeaderAlmostDone))
    else if ch == LF then BlockDone(g.(end := p))
    else
      var c := LowcaseOf(ch);
      if c != 0 then Go(g.(low := Put(h.low.(index := 0), c), state := Name))
      else Go(g.(invalid := true, state := Name))
  }

  function StepName(buf: seq<byte>, h: Header, ch: byte, p: nat, underscores: bool): Turn
    requires p < |buf|
  {
    var c := LowcaseOf(ch);
    if c != 0 then Go(h.(low := Put(h.low, c)))
    else if ch == UNDERSCORE then
      Go(if underscores then h.(low := Put(h.low, ch)) else h.(invalid := true))
    else if ch == COLON then Go(h.(nameEnd := p, state := SpaceBeforeValue))
    else if ch == CR then Go(h.(nameEnd := p, start := p, end := p, state := AlmostDone))
    else if ch == LF then LineDone(h.(nameEnd := p, start := p, end := p))
    else if ch == SLASH && p - h.nameStart == 4 && 0 <= h.nameStart && buf[h.nameStart..p] == HTTP then
      Go(h.(state := IgnoreLine))
    else Go(h.(invalid := true))
  }

  function Step(buf: seq<byte>, h: Header, p: nat, underscores: bool): Turn
    requires p < |buf|
  {
    var ch := buf[p];
    match h.state
    case Start => StepStart(h, ch, p)
    case Name => StepName(buf, h, ch, p, underscores)
    case SpaceBeforeValue =>
      if ch == SP then Go(h)
      else if ch == CR then Go(h.(start := p, end := p, state := AlmostDone))
      else if ch == LF then LineDone(h.(start := p, end := p))
      else Go(h.(start := p, state := Value))
    case Value =>
      if ch == SP then Go(h.(end := p, state := SpaceAfterValue))
      else if ch == CR then Go(h.(end := p, state := AlmostDone))
      else if ch == LF then LineDone(h.(end := p))
      else Go(h)
    case SpaceAfterValue =>
      if ch == SP then Go(h)
      else if ch == CR then Go(h.(state := AlmostDone))
      else if ch == LF then LineDone(h)
      else Go(h.(state := Value))
    case IgnoreLine =>
      Go(if ch == LF then h.(state := Start) else h)
    case AlmostDone =>
      if ch == LF then LineDone(h) else if ch == CR then Go(h) else Bad(h)
    case HeaderAlmostDone =>
      if ch == LF then BlockDone(h) else Bad(h)
  }

  datatype Outcome =
    | Again(h: Header)             // NGX_AGAIN: everything was consumed
    | Line(h: Header, pos: nat)    // NGX_OK: one header line, consumed up to pos
    | Block(h: Header, pos: nat)   // NGX_HTTP_PARSE_HEADER_DONE
    | Invalid(h: Header)           // NGX_HTTP_PARSE_INVALID_HEADER

  // One call of the parser with `pos` at p and `last` at the end of buf.  The record
  // holds the source's locals `state` and `i`; which of the answers save them is
  // stated at the method that models the call.
  function Run(buf: seq<byte>, h: Header, p: nat, underscores: bool): Outcome
    requires p <= |buf|
    decreases |buf| - p
  {
    if p == |buf| then Again(h)
    else
      match Step(buf, h, p, underscores)
      case Go(g) => Run(buf, g, p + 1, underscores)
      case LineDone(g) => Line(g.(state := Start), p + 1)
      case BlockDone(g) => Block(g.(state := Start), p + 1)
      case Bad(g) => Invalid(g)
  }

  lemma StepLocal(buf: seq<byte>, more: seq<byte>, h: Header, p: nat, underscores: bool)
    requires p < |buf|
    ensures Step(buf + more, h, p, underscores) == Step(buf, h, p, underscores)
  {
    assert (buf + more)[p] == buf[p];
    if 0 <= h.nameStart <= p {
      assert (buf + more)[h.nameStart..p] == buf[h.nameStart..p];
    }
  }

  // Reading on after AGAIN gives what reading everything at once gives, and any
  // other answer is final.
  lemma {:induction false} RunResumes(buf: seq<byte>, more: seq<byte>, h: Header, p: nat, underscores: bool)
    requires p <= |buf|
    ensures Run(buf + more, h, p, underscores) ==
            if Run(buf, h, p, underscores).Again? then
              Run(buf + more, Run(buf, h, p, underscores).h, |buf|, underscores)
            else Run(buf, h, p, underscores)
    decreases |buf| - p
  {
    if p < |buf| {
      StepLocal(buf, more, h, p, underscores);
      match Step(buf, h, p, underscores)
      case Go(g) => RunResumes(buf, more, g, p + 1, underscores);
      case _ =>
    }
  }

  // Every answer but AGAIN and INVALID_HEADER moves on, to the first state.
  lemma {:induction false} RunAdvances(buf: seq<byte>, h: Header, p: nat, underscores: bool)
    requires p <= |buf|
    ensures match Run(buf, h, p, underscores) {
              case Line(g, q) => p < q <= |buf| && g.state == Start
              case Block(g, q) => p < q <= |buf| && g.state == Start
              case _ => true
            }
    decreases |buf| - p
  {
    if p < |buf| {
      match Step(buf, h, p, underscores)
      case Go(g) => RunAdvances(buf, g, p + 1, underscores);
      case _ =>
    }
  }

  // What an INVALID_HEADER answer leaves: the locals `state` and `i` are not saved, the
  // other fields are those the call wrote.
  function Retry(h: Header, g: Header): Header {
    g.(state := h.state, low := g.low.(index := h.low.index))
  }

  // The offsets stay inside what was read.
  predicate Inside(h: Header, p: int) {
    h.nameStart <= p && h.nameEnd <= p && h.start <= p && h.end <= p
  }

  lemma StepStaysInside(buf: seq<byte>, h: Header, p: nat, underscores: bool)
    requires p < |buf| && Inside(h, p)
    ensures Inside(Step(buf, h, p, underscores).h, p + 1)
  {
  }

  lemma {:induction false} RunStaysInside(buf: seq<byte>, h: Header, p: nat, underscores: bool)
    requires p <= |buf| && Inside(h, p)
    ensures match Run(buf, h, p, underscores) {
              case Again(g) => Inside(g, |buf|)
              case Line(g, q) => Inside(g, q)
              case _ => true
            }
    decreases |buf| - p
  {
    if p < |buf| {
      StepStaysInside(buf, h, p, underscores);
      match Step(buf, h, p, underscores)
      case Go(g) => RunStaysInside(buf, g, p + 1, underscores);
      case _ =>
    }
  }

  // The alphabet of header names by what it prints as: letters count in lower case.
  lemma LowcaseByText(k: nat, b: byte)
    requires k < 26
    ensures LowcaseOf(UPPER_CASE[k] as int) == LOWER_CASE[k] as int
    ensures CodeIn(b, LOWER_CASE) || CodeIn(b, DECIMAL_DIGITS) || b == '-' as int ==> LowcaseOf(b) == b
    ensures LowcaseOf(b) != 0 <==>
            CodeIn(b, UPPER_CASE) || CodeIn(b, LOWER_CASE) || CodeIn(b, DECIMAL_DIGITS) || b == '-' as int
  {
    UpperRange();
    LowerRange();
    CaseRanges(b);
  }
}
