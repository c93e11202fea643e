/**
 * Shared definitions of the WebVTT parser: the token and lexer-state
 * enumerations, the parse-mode and parse-frame types, the status codes,
 * and the small logic macros (ASCII_ISDIGIT, BAD_TIMESTAMP, ERROR_AT).
 */
module ParserInternal {

  /** Capacity of the parser's token buffer, in bytes. */
  const TOKEN_CAPACITY: nat := 0x100

  /** Capacity of the parser's inline parse-state stack, in frames. */
  const STACK_CAPACITY: nat := 0x100

  /** The all-ones 64-bit value that marks a timestamp that failed to parse. */
  const BAD_TIMESTAMP_VALUE: nat := 0xFFFF_FFFF_FFFF_FFFF

  newtype u64 = x: int | 0 <= x <= 0xFFFF_FFFF_FFFF_FFFF

  /** Result codes of the library's operations. */
  datatype Status = Success | OutOfMemory | InvalidParam | ParseError

  predicate Failed(s: Status) { s != Success }

  /** Tokens returned by the lexer, in declaration order. */
  datatype Token =
    | BadToken | Unfinished
    | Bom | Webvtt | Note | Integer | Newline | Whitespace | FullStop
    | Position | Align | Size | Line | Vertical | Rl | Lr
    | Start | Middle | End | Left | Right | Separator | Timestamp | Percentage | Colon

  /** The integer value of each token in the C enumeration. */
  function TokenCode(t: Token): int
  {
    match t
    case BadToken => -2
    case Unfinished => -1
    case Bom => 0
    case Webvtt => 1
    case Note => 2
    case Integer => 3
    case Newline => 4
    case Whitespace => 5
    case FullStop => 6
    case Position => 7
    case Align => 8
    case Size => 9
    case Line => 10
    case Vertical => 11
    case Rl => 12
    case Lr => 13
    case Start => 14
    case Middle => 15
    case End => 16
    case Left => 17
    case Right => 18
    case Separator => 19
    case Timestamp => 20
    case Percentage => 21
    case Colon => 22
  }

  /** A real token is anything but the two not-a-token signals. */
  predicate IsRealToken(t: Token) { t != BadToken && t != Unfinished }

  /** Decodes a C token value; the partner of TokenCode. */
  function TokenOfCode(n: int): (r: Option<Token>)
    ensures r.Some? ==> TokenCode(r.value) == n
  {
    match n
    case -2 => Some(BadToken)
    case -1 => Some(Unfinished)
    case 0 => Some(Bom)
    case 1 => Some(Webvtt)
    case 2 => Some(Note)
    case 3 => Some(Integer)
    case 4 => Some(Newline)
    case 5 => Some(Whitespace)
    case 6 => Some(FullStop)
    case 7 => Some(Position)
    case 8 => Some(Align)
    case 9 => Some(Size)
    case 10 => Some(Line)
    case 11 => Some(Vertical)
    case 12 => Some(Rl)
    case 13 => Some(Lr)
    case 14 => Some(Start)
    case 15 => Some(Middle)
    case 16 => Some(End)
    case 17 => Some(Left)
    case 18 => Some(Right)
    case 19 => Some(Separator)
    case 20 => Some(Timestamp)
    case 21 => Some(Percentage)
    case 22 => Some(Colon)
    case _ => None
  }

  datatype Option<T> = None | Some(value: T)

  /** Every token value decodes back to itself, so the codes are distinct. */
  lemma TokenCodeRoundTrip(t: Token)
    ensures TokenOfCode(TokenCode(t)) == Some(t)
  {
  }

  /** The two signals are negative, every real token is non-negative, and no two tokens share a code. */
  lemma TokenCodesSeparateSignals(t: Token, u: Token)
    ensures IsRealToken(t) <==> TokenCode(t) >= 0
    ensures TokenCode(BadToken) == -2 && TokenCode(Unfinished) == -1
    ensures TokenCode(t) == TokenCode(u) ==> t == u
  {
    TokenCodeRoundTrip(t);
    TokenCodeRoundTrip(u);
  }

  /** States of the lexer automaton (webvtt_lexer_state), in declaration order. */
  datatype LexerState =
    | LStart | LBom0 | LBom1 | LWebvtt0 | LWebvtt1 | LWebvtt2 | LWebvtt3 | LWebvtt4 | LWebvtt5
    | LDash0 | LSep1 | LDigit0 | LNewline0 | LWhitespace
    | LPosition0 | LPosition1 | LPosition2 | LPosition3 | LPosition4 | LPosition5 | LPosition6
    | LAlign0 | LAlign1 | LAlign2 | LAlign3 | LL0 | LLine1 | LLine2 | LLine3
    | LVertical0 | LVertical1 | LVertical2 | LVertical3 | LVertical4 | LVertical5 | LVertical6
    | LRl0 | LS0 | LSize1 | LSize2 | LStart1 | LStart2 | LStart3
    | LMiddle0 | LMiddle1 | LMiddle2 | LMiddle3 | LMiddle4 | LEnd0 | LEnd1
    | LTimestamp1 | LTimestamp2 | LTimestamp3 | LRight1 | LRight2 | LRight3
    | LNote1 | LNote2 | LNote3 | LLeft1 | LLeft2

  /** High-level mode of the parse engine (webvtt_parse_mode). */
  datatype ParseMode = MWebvtt | MCueText | MSkipCue | MReadLine

  function ParseModeCode(m: ParseMode): (r: nat)
    ensures r < 4
  {
    match m
    case MWebvtt => 0
    case MCueText => 1
    case MSkipCue => 2
    case MReadLine => 3
  }

  /** M_WEBVTT is 0 and the four modes have distinct codes. */
  lemma ParseModeCodesDistinct(m: ParseMode, n: ParseMode)
    ensures ParseModeCode(MWebvtt) == 0
    ensures ParseModeCode(m) == ParseModeCode(n) ==> m == n
  {
  }

  /** Tag of the value slot of a parse frame (webvtt_state_value_type). */
  datatype StateValueType = VNone | VPointer | VInteger | VCue | VText | VLNode | VINode | VToken

  /**
   * The value slot of a parse frame. The C record keeps a separate type tag
   * beside an untagged union; here each variant carries its payload.
   * Pointers are opaque handles.
   */
  datatype StateValue =
    | NoValue
    | PointerValue(pointer: nat)
    | IntegerValue(value: nat)
    | CueValue(cue: nat)
    | TextValue(text: seq<bv8>)
    | LeafNodeValue(leaf: nat)
    | InternalNodeValue(internal: nat)
    | TokenValue(token: Token)

  function ValueType(v: StateValue): (r: StateValueType)
    ensures r == VNone <==> v.NoValue?
    ensures r == VText <==> v.TextValue?
    ensures r == VCue <==> v.CueValue?
    ensures r == VInteger <==> v.IntegerValue?
    ensures r == VPointer <==> v.PointerValue?
    ensures r == VLNode <==> v.LeafNodeValue?
    ensures r == VINode <==> v.InternalNodeValue?
    ensures r == VToken <==> v.TokenValue?
  {
    match v
    case NoValue => VNone
    case PointerValue(_) => VPointer
    case IntegerValue(_) => VInteger
    case CueValue(_) => VCue
    case TextValue(_) => VText
    case LeafNodeValue(_) => VLNode
    case InternalNodeValue(_) => VINode
    case TokenValue(_) => VToken
  }

  /**
   * One frame of the parse-state stack (struct webvtt_state). The callback
   * is a function pointer into grammar code that is not part of this model;
   * it is kept as an opaque identifier.
   */
  datatype ParseFrame = ParseFrame(
    callback: nat,
    token: Token,
    line: nat,
    column: nat,
    flags: nat,
    value: StateValue)

  /** ASCII_ISDIGIT: the byte is one of the ASCII digits '0' to '9'. */
  predicate IsAsciiDigit(c: bv8)
  {
    c >= 0x30 && c <= 0x39
  }

  /** The ten decimal digit characters, as an independent reference. */
  const DIGITS: string := "0123456789"

  lemma IsAsciiDigitMatchesDigitChars(c: bv8)
    ensures IsAsciiDigit(c) <==> (c as int as char) in DIGITS
  {
    if IsAsciiDigit(c) {
      var i := c as int - 0x30;
      assert DIGITS[i] == c as int as char;
    }
  }

  /** BAD_TIMESTAMP: the timestamp is the all-ones 64-bit sentinel. */
  predicate IsBadTimestamp(ts: u64)
  {
    ts as int == BAD_TIMESTAMP_VALUE
  }

  /** The sentinel is exactly the 64-bit value that has no successor in 64 bits. */
  lemma BadTimestampIsLargest(ts: u64)
    ensures IsBadTimestamp(ts) <==> !(0 <= ts as int + 1 <= 0xFFFF_FFFF_FFFF_FFFF)
  {
  }

  /** What the error callback is told: where, and which error. */
  datatype ErrorReport = ErrorReport(line: nat, column: nat, code: int)

  /**
   * The outcome of ERROR_AT: the report handed to the callback, if one is
   * installed, and whether the enclosing function returns PARSE_ERROR.
   */
  datatype ErrorOutcome = ErrorOutcome(reported: Option<ErrorReport>, returned: Option<Status>)

  /**
   * ERROR_AT(code, line, column). `callback` is None when no error
   * callback is installed, and otherwise the value the callback returns.
   */
  function ErrorAt(callback: Option<int>, code: int, line: nat, column: nat): (r: ErrorOutcome)
    ensures r.returned == Some(ParseError) <==> (callback.None? || callback.value < 0)
    ensures r.returned.None? <==> (callback.Some? && callback.value >= 0)
    ensures callback.Some? <==> r.reported == Some(ErrorReport(line, column, code))
    ensures callback.None? <==> r.reported.None?
  {
    match callback
    case None => ErrorOutcome(None, Some(ParseError))
    case Some(v) =>
      ErrorOutcome(Some(ErrorReport(line, column, code)), if v < 0 then Some(ParseError) else None)
  }
}
