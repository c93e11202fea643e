/**
 * The lexer as pure functions over a value snapshot of the parser's
 * lexer fields. The methods of Lexer.Parser are proved equal to these
 * functions; the properties of the lexer are lemmas about them.
 */
module LexerSpec {
  import opened ParserInternal

  const LF: bv8 := 0x0A
  const CR: bv8 := 0x0D
  const SP: bv8 := 0x20
  const TAB: bv8 := 0x09
  const BOM_0: bv8 := 0xEF
  const BOM_1: bv8 := 0xBB
  const BOM_2: bv8 := 0xBF

  /** The bytes of the header keyword "WEBVTT". */
  const KEYWORD: seq<bv8> := [0x57, 0x45, 0x42, 0x56, 0x54, 0x54]

  /** The lexer fields of the parser: tstate, token, token_pos, line, column, bytes. */
  datatype LexState = LexState(
    tstate: LexerState,
    token: seq<bv8>,
    tokenPos: nat,
    line: nat,
    column: nat,
    bytes: nat)

  predicate Wf(s: LexState)
  {
    |s.token| == TOKEN_CAPACITY
  }

  predicate IsBlank(c: bv8) { c == SP || c == TAB }

  /** Reading one byte: it is stored in the token buffer, which stays NUL-terminated, and column and bytes advance. */
  function Feed(s: LexState, c: bv8): (r: LexState)
    requires Wf(s) && s.tokenPos + 1 < TOKEN_CAPACITY
    ensures Wf(r) && r.tokenPos == s.tokenPos + 1 && r.token[s.tokenPos] == c && r.token[r.tokenPos] == 0
    ensures r.tstate == s.tstate && r.line == s.line && r.column == s.column + 1 && r.bytes == s.bytes + 1
  {
    s.(token := s.token[s.tokenPos := c][s.tokenPos + 1 := 0],
       tokenPos := s.tokenPos + 1, column := s.column + 1, bytes := s.bytes + 1)
  }

  /** BACKUP (without the cursor): the last byte is dropped from the token and the column; bytes is left alone. */
  function Backup(s: LexState): (r: LexState)
    requires Wf(s) && 1 <= s.tokenPos <= TOKEN_CAPACITY && 1 <= s.column
    ensures Wf(r) && r.tokenPos == s.tokenPos - 1 && r.column == s.column - 1
    ensures r.tstate == LStart && r.bytes == s.bytes && r.line == s.line
  {
    s.(token := s.token[s.tokenPos - 1 := 0], tokenPos := s.tokenPos - 1,
       column := s.column - 1, tstate := LStart)
  }

  /** RESET: column back to 1, bytes and token_pos to 0, start state. */
  function Reset(s: LexState): (r: LexState)
    ensures r.column == 1 && r.bytes == 0 && r.tokenPos == 0 && r.tstate == LStart
    ensures r.token == s.token && r.line == s.line
  {
    s.(column := 1, bytes := 0, tokenPos := 0, tstate := LStart)
  }

  /** SET_NEWLINE: next line, first column, start state. */
  function SetNewline(s: LexState): (r: LexState)
    ensures r.line == s.line + 1 && r.column == 1 && r.tstate == LStart
    ensures r.token == s.token && r.tokenPos == s.tokenPos && r.bytes == s.bytes
  {
    s.(line := s.line + 1, column := 1, tstate := LStart)
  }

  /** What the switch of webvtt_lex does with one byte, before it is applied to the lexer fields. */
  datatype Action =
    | Goto(next: LexerState)  // keep scanning in state `next`
    | Stay                    // keep scanning in the same state
    | SkipBom                 // a byte-order mark at the very start: RESET and keep scanning
    | Accept(tok: Token)      // the byte ends token `tok`
    | AcceptNewline           // the byte ends a newline: SET_NEWLINE
    | Unread(tok: Token)      // BACKUP over the byte, then return `tok`
    | UnreadNewline           // BACKUP over the byte after a CR, then SET_NEWLINE

  /**
   * The switch of webvtt_lex: the action for byte `c` in state `st`, where
   * `bytes` and `tokenPos` are the counters after the byte was fed.
   */
  function ActionOf(st: LexerState, c: bv8, bytes: nat, tokenPos: nat): (r: Action)
    ensures (r.Accept? || r.Unread?) ==> r.tok != Unfinished && r.tok != Newline
  {
    if st.LStart? then
      if c == 0x57 then Goto(LWebvtt0)
      else if c == BOM_0 then Goto(LBom0)
      else if c == LF then AcceptNewline
      else if c == CR then Goto(LNewline0)
      else if IsBlank(c) then Goto(LWhitespace)
      else Unread(BadToken)
    else if st.LBom0? then (if c == BOM_1 then Goto(LBom1) else Unread(BadToken))
    else if st.LBom1? then
      if c == BOM_2 then
        if bytes == 3 then SkipBom else Accept(Bom)
      else Unread(BadToken)
    else if st.LWebvtt0? then (if c == 0x45 then Goto(LWebvtt1) else Unread(BadToken))
    else if st.LWebvtt1? then (if c == 0x42 then Goto(LWebvtt2) else Unread(BadToken))
    else if st.LWebvtt2? then (if c == 0x56 then Goto(LWebvtt3) else Unread(BadToken))
    else if st.LWebvtt3? then (if c == 0x54 then Goto(LWebvtt4) else Unread(BadToken))
    else if st.LWebvtt4? then (if c == 0x54 then Accept(Webvtt) else Unread(BadToken))
    else if st.LNewline0? then (if c == LF then AcceptNewline else UnreadNewline)
    else if st.LWhitespace? then
      if IsBlank(c) then
        if tokenPos >= TOKEN_CAPACITY - 1 then Accept(Whitespace) else Stay
      else Unread(Whitespace)
    // a state with no transitions in webvtt_lex: the byte is consumed and scanning goes on
    else Stay
  }

  /** The effect of one byte: go on scanning, or end the call with a result (after un-reading the byte if `unread`). */
  datatype Step = Next(st: LexState) | Emit(tok: Token, st: LexState, unread: bool)

  /** An action applied to the state `f` just after its byte was fed. */
  function Apply(f: LexState, a: Action): (r: Step)
    requires Wf(f) && 1 <= f.tokenPos < TOKEN_CAPACITY && 1 <= f.column
    requires (a.Accept? || a.Unread?) ==> a.tok != Unfinished && a.tok != Newline
    ensures Wf(r.st) && r.st.tokenPos <= f.tokenPos
    ensures r.Emit? ==> r.tok != Unfinished && r.st.tstate == LStart
    ensures r.Emit? && r.unread ==> r.st.tokenPos == f.tokenPos - 1
    ensures r.st.line == f.line + (if r.Emit? && r.tok == Newline then 1 else 0)
  {
    match a
    case Goto(next) => Next(f.(tstate := next))
    case Stay => Next(f)
    case SkipBom => Next(Reset(f))
    case Accept(tok) => Emit(tok, f.(tstate := LStart), false)
    case AcceptNewline => Emit(Newline, SetNewline(f), false)
    case Unread(tok) => Emit(tok, Backup(f), true)
    case UnreadNewline => Emit(Newline, SetNewline(Backup(f)), true)
  }

  /** One byte of webvtt_lex, applied to the state `f` just after the byte `c` was fed. */
  function Transition(f: LexState, c: bv8): (r: Step)
    requires Wf(f) && 1 <= f.tokenPos < TOKEN_CAPACITY && 1 <= f.column
    ensures Wf(r.st) && r.st.tokenPos <= f.tokenPos
    ensures r.Emit? ==> r.tok != Unfinished && r.st.tstate == LStart
    ensures r.Emit? && r.unread ==> r.st.tokenPos == f.tokenPos - 1
    ensures r.st.line == f.line + (if r.Emit? && r.tok == Newline then 1 else 0)
  {
    Apply(f, ActionOf(f.tstate, c, f.bytes, f.tokenPos))
  }

  /**
   * Room in the token buffer for the bytes this call of webvtt_lex stores
   * before it returns. Each byte read is written at token[token_pos] with a
   * NUL after it, and only the whitespace state checks the bound; the
   * predicate follows the transitions from pos and asks for room for each
   * byte read until one ends the call. Bytes of the window after that one
   * are not counted.
   */
  predicate Fits(s: LexState, buf: seq<bv8>, pos: nat)
    decreases |buf| - pos
  {
    && Wf(s)
    && (pos < |buf| ==>
          && s.tokenPos + 1 < TOKEN_CAPACITY
          && (match Transition(Feed(s, buf[pos]), buf[pos])
              case Next(t) => Fits(t, buf, pos + 1)
              case Emit(_, _, _) => true))
  }

  /** What a call of webvtt_lex returns: the token, the new lexer fields, the new cursor. */
  datatype LexResult = LexResult(tok: Token, st: LexState, pos: nat)

  /** The tail of webvtt_lex, once the cursor has reached the end of the window. */
  function EndOfWindow(s: LexState, buf: seq<bv8>, pos: nat, finish: bool): (r: LexResult)
    requires pos >= |buf|
    ensures r.pos == pos && r.st.line == s.line && r.st.token == s.token && r.tok != Newline
    ensures r.tok != BadToken && r.tok != Whitespace ==> r.st == s
    ensures !finish && pos == |buf| ==> r == LexResult(Unfinished, s, pos)
  {
    if finish && s.tokenPos != 0 then
      if s.tstate == LWhitespace then LexResult(Whitespace, s.(tstate := LStart), pos)
      else LexResult(BadToken, Reset(s), pos)
    else
      LexResult(if pos == |buf| || s.tokenPos != 0 then Unfinished else BadToken, s, pos)
  }

  /** webvtt_lex: scan the window buf from pos, with the lexer fields s. */
  function Lex(s: LexState, buf: seq<bv8>, pos: nat, finish: bool): (r: LexResult)
    requires Fits(s, buf, pos)
    ensures Wf(r.st)
    // the cursor never moves back or past the window, and token_pos never outgrows the bytes read
    ensures pos <= |buf| ==> pos <= r.pos <= |buf| && r.st.tokenPos + (|buf| - r.pos) <= s.tokenPos + (|buf| - pos)
    // only a NEWLINE token moves to the next line, by one
    ensures r.st.line == s.line + (if r.tok == Newline then 1 else 0)
    // without finish, UNFINISHED means the window was used up, and BADTOKEN backed over a byte inside it
    ensures !finish && pos <= |buf| ==> (r.tok == Unfinished ==> r.pos == |buf|) && (r.tok == BadToken ==> r.pos < |buf|)
    decreases |buf| - pos, 1
  {
    if pos < |buf| then LexAfter(s, buf, pos, finish)
    else EndOfWindow(s, buf, pos, finish)
  }

  /** Past the window, webvtt_lex is its tail alone. */
  lemma LexAtEnd(s: LexState, buf: seq<bv8>, pos: nat, finish: bool)
    requires Wf(s) && pos >= |buf|
    ensures Lex(s, buf, pos, finish) == EndOfWindow(s, buf, pos, finish)
  {
  }

  /** webvtt_lex at a byte inside the window: the byte goes through the switch. */
  function LexAfter(s: LexState, buf: seq<bv8>, pos: nat, finish: bool): (r: LexResult)
    requires Fits(s, buf, pos) && pos < |buf|
    ensures Wf(r.st)
    ensures pos <= r.pos <= |buf| && r.st.tokenPos + (|buf| - r.pos) <= s.tokenPos + (|buf| - pos)
    ensures r.st.line == s.line + (if r.tok == Newline then 1 else 0)
    ensures !finish ==> (r.tok == Unfinished ==> r.pos == |buf|) && (r.tok == BadToken ==> r.pos < |buf|)
    decreases |buf| - pos, 0
  {
    match Transition(Feed(s, buf[pos]), buf[pos])
    case Next(s') => Lex(s', buf, pos + 1, finish)
    case Emit(t, s', unread) => LexResult(t, s', if unread then pos else pos + 1)
  }

  /**
   * Room for the bytes webvtt_lex_newline stores: two for a CR read in
   * L_START with another byte after it in the window, one otherwise.
   */
  predicate NewlineHeadroom(s: LexState, buf: seq<bv8>, pos: nat)
  {
    pos < |buf| ==>
      s.tokenPos + (if s.tstate == LStart && buf[pos] == CR && pos + 1 < |buf| then 2 else 1) < TOKEN_CAPACITY
  }

  /** Reading one byte in webvtt_lex_newline: like Feed, but the column is not touched. */
  function FeedNewline(s: LexState, c: bv8): (r: LexState)
    requires Wf(s) && s.tokenPos + 1 < TOKEN_CAPACITY
    ensures Wf(r) && r.tokenPos == s.tokenPos + 1 && r.bytes == s.bytes + 1
    ensures r.tstate == s.tstate && r.line == s.line && r.column == s.column
  {
    s.(token := s.token[s.tokenPos := c][s.tokenPos + 1 := 0],
       tokenPos := s.tokenPos + 1, bytes := s.bytes + 1)
  }

  /** The backup label of webvtt_lex_newline: the byte leaves the token and the byte count. */
  function UnfeedNewline(s: LexState): (r: LexState)
    requires Wf(s) && 1 <= s.tokenPos <= TOKEN_CAPACITY && 1 <= s.bytes
    ensures Wf(r) && r.tokenPos == s.tokenPos - 1 && r.bytes == s.bytes - 1
    ensures r.tstate == s.tstate && r.line == s.line && r.column == s.column
  {
    s.(token := s.token[s.tokenPos - 1 := 0], tokenPos := s.tokenPos - 1, bytes := s.bytes - 1)
  }

  /** The cursor after `*pos = --p` with 32-bit unsigned arithmetic. */
  function Predecessor(p: nat): (r: nat)
    ensures p > 0 ==> r + 1 == p
    ensures p == 0 ==> r == 0xFFFF_FFFF
  {
    if p == 0 then 0xFFFF_FFFF else p - 1
  }

  /** The tail of webvtt_lex_newline, once the window is used up. */
  function NewlineEnd(s: LexState, p: nat, finish: bool): LexResult
  {
    if finish then LexResult(Newline, s.(tstate := LStart), p)
    else if s.tstate == LNewline0 then LexResult(Unfinished, s, p)
    else LexResult(BadToken, s, Predecessor(p))
  }

  /** webvtt_lex_newline in L_NEWLINE0, after a CR: an LF completes the newline, any other byte is put back. */
  function NewlineAfterReturn(s: LexState, buf: seq<bv8>, p: nat, finish: bool): (r: LexResult)
    requires Wf(s) && s.tstate == LNewline0 && NewlineHeadroom(s, buf, p)
  {
    if p < |buf| then
      var f := FeedNewline(s, buf[p]);
      if buf[p] == LF then LexResult(Newline, f.(tstate := LStart), p + 1)
      else LexResult(Newline, UnfeedNewline(f).(tstate := LStart), p)
    else NewlineEnd(s, p, finish)
  }

  /**
   * webvtt_lex_newline, from its loop on: the state must be L_START or
   * L_NEWLINE0. The loop reads at most a CR and the byte after it.
   */
  function LexNewline(s: LexState, buf: seq<bv8>, p: nat, finish: bool): (r: LexResult)
    requires Wf(s) && (s.tstate == LStart || s.tstate == LNewline0) && NewlineHeadroom(s, buf, p)
    ensures Wf(r.st) && (r.st.tstate == LStart || r.st.tstate == LNewline0)
    // the line and the column are left to the caller
    ensures r.st.line == s.line && r.st.column == s.column
  {
    if s.tstate == LNewline0 then NewlineAfterReturn(s, buf, p, finish)
    else if p < |buf| then
      var c := buf[p];
      var f := FeedNewline(s, c);
      if c == LF then LexResult(Newline, f, p + 1)
      else if c == CR then NewlineAfterReturn(f.(tstate := LNewline0), buf, p + 1, finish)
      else LexResult(BadToken, UnfeedNewline(f), p)
    else NewlineEnd(s, p, finish)
  }

  /** A CR read in L_START leaves webvtt_lex_newline waiting in L_NEWLINE0 for the next byte. */
  lemma NewlineAfterCR(s: LexState, buf: seq<bv8>, p: nat, finish: bool)
    requires Wf(s) && s.tstate == LStart && NewlineHeadroom(s, buf, p) && p < |buf| && buf[p] == CR
    ensures var f := FeedNewline(s, CR).(tstate := LNewline0);
      NewlineHeadroom(f, buf, p + 1) && LexNewline(s, buf, p, finish) == LexNewline(f, buf, p + 1, finish)
  {
  }

  /** Any other byte read by webvtt_lex_newline ends the call. */
  lemma NewlineRead(s: LexState, buf: seq<bv8>, p: nat, finish: bool)
    requires Wf(s) && (s.tstate == LStart || s.tstate == LNewline0) && NewlineHeadroom(s, buf, p) && p < |buf|
    requires s.tstate == LNewline0 || buf[p] != CR
    ensures var c := buf[p];
      var f := FeedNewline(s, c);
      LexNewline(s, buf, p, finish)
        == if s.tstate == LStart then
             if c == LF then LexResult(Newline, f, p + 1) else LexResult(BadToken, UnfeedNewline(f), p)
           else
             if c == LF then LexResult(Newline, f.(tstate := LStart), p + 1)
             else LexResult(Newline, UnfeedNewline(f).(tstate := LStart), p)
  {
  }

  /** At the end of the window webvtt_lex_newline answers without reading. */
  lemma NewlineAtEnd(s: LexState, buf: seq<bv8>, p: nat, finish: bool)
    requires Wf(s) && (s.tstate == LStart || s.tstate == LNewline0) && p >= |buf|
    ensures LexNewline(s, buf, p, finish) == NewlineEnd(s, p, finish)
  {
  }

  /** What webvtt_lex_word leaves behind: its status, the text run it built, the lexer fields, the cursor. */
  datatype WordResult = WordResult(status: Status, word: seq<bv8>, st: LexState, pos: nat)

  /**
   * Room in the token buffer for every round of webvtt_lex_word from pos:
   * the lexer call of the round fits, and after a BADTOKEN so do the
   * rounds that follow it. A rejected byte is taken back out of the token
   * buffer, so only what a round keeps stored adds up.
   */
  predicate WordFits(s: LexState, buf: seq<bv8>, pos: nat, finish: bool)
    decreases |buf| - pos
  {
    && Wf(s)
    && (pos < |buf| ==>
          && Fits(s, buf, pos)
          && var l := Lex(s, buf, pos, finish);
             l.tok == BadToken ==> WordFits(l.st, buf, l.pos + 1, finish))
  }

  /**
   * The loop of webvtt_lex_word from cursor pos. `beyond` stands for the
   * byte stored just past the window, which the loop reads when the lexer
   * answers BADTOKEN with the cursor at the end of the window.
   */
  function LexWordLoop(s: LexState, buf: seq<bv8>, pos: nat, finish: bool, beyond: bv8): (r: WordResult)
    requires WordFits(s, buf, pos, finish)
    ensures Wf(r.st) && r.status == Success
    // the cursor never moves back, each byte of the word costs a byte of input, the line is kept
    ensures pos <= r.pos && |r.word| <= r.pos - pos && r.st.line == s.line
    // the cursor ends at most one past the window, and inside it without finish
    ensures pos <= |buf| + 1 ==> r.pos <= |buf| + 1
    ensures !finish && pos <= |buf| ==> r.pos <= |buf|
    decreases |buf| - pos, 1
  {
    if pos < |buf| then WordAfter(s, buf, pos, finish, beyond, Lex(s, buf, pos, finish))
    else WordResult(Success, [], s, pos)
  }

  /** What Lex promises about a call at pos that webvtt_lex_word relies on. */
  predicate Answers(s: LexState, buf: seq<bv8>, pos: nat, finish: bool, l: LexResult)
  {
    && Wf(l.st) && pos <= l.pos <= |buf|
    && (l.tok == BadToken ==>
          l.st.line == s.line && (!finish ==> l.pos < |buf|) && WordFits(l.st, buf, l.pos + 1, finish))
  }

  /** The loop of webvtt_lex_word once the lexer has answered `l` for the round starting at pos. */
  function WordAfter(s: LexState, buf: seq<bv8>, pos: nat, finish: bool, beyond: bv8, l: LexResult): (r: WordResult)
    requires Wf(s) && pos < |buf| && Answers(s, buf, pos, finish, l)
    ensures Wf(r.st) && r.status == Success
    ensures pos <= r.pos <= |buf| + 1 && |r.word| <= r.pos - pos && r.st.line == s.line
    ensures !finish ==> r.pos <= |buf|
    decreases |buf| - pos, 0
  {
    if l.tok == BadToken then
      var c := if l.pos < |buf| then buf[l.pos] else beyond;
      var rest := LexWordLoop(l.st, buf, l.pos + 1, finish, beyond);
      rest.(word := [c] + rest.word)
    else
      WordResult(Success, [], l.st.(bytes := s.bytes, line := s.line, column := s.column), pos)
  }

  /** A round of webvtt_lex_word whose token is accepted ends the run in front of it, with the counters put back. */
  lemma WordAccepted(s: LexState, buf: seq<bv8>, pos: nat, finish: bool, beyond: bv8, l: LexResult)
    requires Wf(s) && pos < |buf| && Answers(s, buf, pos, finish, l) && l.tok != BadToken
    ensures WordAfter(s, buf, pos, finish, beyond, l)
      == WordResult(Success, [], l.st.(bytes := s.bytes, line := s.line, column := s.column), pos)
  {
  }

  /** Putting w in front of a run that starts with c is putting w + [c] in front of the rest. */
  lemma PrependByte(w: seq<bv8>, c: bv8, rest: WordResult)
    ensures Prepend(w, rest.(word := [c] + rest.word)) == Prepend(w + [c], rest)
  {
    assert (w + [c]) + rest.word == w + ([c] + rest.word);
  }

  /** The loop of webvtt_lex_word after a rejected round, with the run so far in front. */
  lemma WordContinues(s: LexState, buf: seq<bv8>, pos: nat, finish: bool, beyond: bv8, l: LexResult, w: seq<bv8>)
    requires WordFits(s, buf, pos, finish) && pos < |buf| && Lex(s, buf, pos, finish) == l && l.tok == BadToken
    ensures Wf(l.st) && WordFits(l.st, buf, l.pos + 1, finish)
    ensures Prepend(w + [if l.pos < |buf| then buf[l.pos] else beyond], LexWordLoop(l.st, buf, l.pos + 1, finish, beyond))
      == Prepend(w, LexWordLoop(s, buf, pos, finish, beyond))
  {
    LexAnswers(s, buf, pos, finish, beyond);
    var c := if l.pos < |buf| then buf[l.pos] else beyond;
    var rest := LexWordLoop(l.st, buf, l.pos + 1, finish, beyond);
    assert WordAfter(s, buf, pos, finish, beyond, l) == rest.(word := [c] + rest.word);
    PrependByte(w, c, rest);
  }

  /** The loop of webvtt_lex_word after an accepted round: only that round's lexer call needs room. */
  lemma WordStops(s: LexState, buf: seq<bv8>, pos: nat, finish: bool, beyond: bv8, l: LexResult)
    requires Fits(s, buf, pos) && pos < |buf| && Lex(s, buf, pos, finish) == l && l.tok != BadToken
    ensures WordFits(s, buf, pos, finish)
    ensures LexWordLoop(s, buf, pos, finish, beyond)
      == WordResult(Success, [], l.st.(bytes := s.bytes, line := s.line, column := s.column), pos)
  {
    LexAnswers(s, buf, pos, finish, beyond);
    WordAccepted(s, buf, pos, finish, beyond, l);
  }

  /** Lex answers webvtt_lex_word what it relies on. */
  lemma LexAnswers(s: LexState, buf: seq<bv8>, pos: nat, finish: bool, beyond: bv8)
    requires WordFits(s, buf, pos, finish) && pos < |buf|
    ensures Answers(s, buf, pos, finish, Lex(s, buf, pos, finish))
    ensures LexWordLoop(s, buf, pos, finish, beyond) == WordAfter(s, buf, pos, finish, beyond, Lex(s, buf, pos, finish))
  {
  }

  /** webvtt_lex_word: a missing output string is refused before anything is read. */
  function LexWord(hasStr: bool, s: LexState, buf: seq<bv8>, pos: nat, finish: bool, beyond: bv8): (r: WordResult)
    requires Wf(s) && (hasStr ==> WordFits(s, buf, pos, finish))
    ensures !hasStr <==> r.status == InvalidParam
    ensures !hasStr ==> r.st == s && r.pos == pos && r.word == []
  {
    if !hasStr then WordResult(InvalidParam, [], s, pos)
    else LexWordLoop(s, buf, pos, finish, beyond)
  }

  /**
   * The loop of webvtt_lex_word as evidently intended: a BADTOKEN whose
   * cursor is already at the end of the window has no byte to copy, so the
   * loop ends there instead of reading one past the window.
   */
  function LexWordLoopFixed(s: LexState, buf: seq<bv8>, pos: nat, finish: bool): (r: WordResult)
    requires WordFits(s, buf, pos, finish) && pos <= |buf|
    ensures Wf(r.st) && r.status == Success
    // finish or not, the cursor stays inside the window
    ensures pos <= r.pos <= |buf| && |r.word| <= r.pos - pos
    decreases |buf| - pos, 1
  {
    if pos < |buf| then WordAfterFixed(s, buf, pos, finish, Lex(s, buf, pos, finish))
    else WordResult(Success, [], s, pos)
  }

  /** The corrected loop once the lexer has answered `l` for the round starting at pos. */
  function WordAfterFixed(s: LexState, buf: seq<bv8>, pos: nat, finish: bool, l: LexResult): (r: WordResult)
    requires Wf(s) && pos < |buf| && Answers(s, buf, pos, finish, l)
    ensures Wf(r.st) && r.status == Success
    ensures pos <= r.pos <= |buf| && |r.word| <= r.pos - pos
    decreases |buf| - pos, 0
  {
    if l.tok == BadToken && l.pos < |buf| then
      var rest := LexWordLoopFixed(l.st, buf, l.pos + 1, finish);
      rest.(word := [buf[l.pos]] + rest.word)
    else if l.tok == BadToken then
      WordResult(Success, [], l.st, l.pos)
    else
      WordResult(Success, [], l.st.(bytes := s.bytes, line := s.line, column := s.column), pos)
  }

  /** The text run `w` put in front of the run of r. */
  function Prepend(w: seq<bv8>, r: WordResult): WordResult
  {
    r.(word := w + r.word)
  }
}
