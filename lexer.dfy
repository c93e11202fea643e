/**
 * The parser record (struct webvtt_parser_t) and the three lexer entry
 * points of lexer.c, written as methods that update the record in place.
 * Each method is proved to leave the record exactly as the matching
 * function of LexerSpec says.
 */
module Lexer {
  import opened ParserInternal
  import opened LexerSpec

  class Parser {
    var flags: nat
    var finish: bool
    /** Number of bytes read. */
    var bytes: nat
    var line: nat
    var column: nat
    var mode: ParseMode
    /** The inline parse-state stack. */
    var astack: array<ParseFrame>
    var stackAlloc: nat
    var popped: bool
    var truncate: int
    var linePos: nat
    var lineBuffer: seq<bv8>
    /** The tokenizer: automaton state, token buffer and its fill level. */
    var tstate: LexerState
    var tokenPos: nat
    var token: array<bv8>

    ghost predicate Valid()
      reads this
    {
      token.Length == TOKEN_CAPACITY && astack.Length == STACK_CAPACITY
    }

    /** The lexer fields as a value. */
    function State(): (s: LexState)
      reads this, token
      ensures s.tokenPos == tokenPos && s.tstate == tstate
    {
      LexState(tstate, token[..], tokenPos, line, column, bytes)
    }

    /**
     * A parser whose lexer fields hold `s`, in header mode with an empty
     * stack. How the library creates its parser is not part of this model.
     */
    constructor (s: LexState)
      requires Wf(s)
      ensures Valid() && State() == s && fresh(token) && fresh(astack)
      ensures mode == MWebvtt
    {
      flags, finish := 0, false;
      bytes, line, column := s.bytes, s.line, s.column;
      mode := MWebvtt;
      astack := new ParseFrame[STACK_CAPACITY](_ => ParseFrame(0, BadToken, 0, 0, 0, NoValue));
      stackAlloc, popped, truncate, linePos, lineBuffer := 0, false, 0, 0, [];
      tstate, tokenPos := s.tstate, s.tokenPos;
      token := new bv8[TOKEN_CAPACITY](i requires 0 <= i < TOKEN_CAPACITY => s.token[i]);
    }

    /** ERROR(code): reports at the parser's current line and column. */
    function Error(callback: Option<int>, code: int): (r: ErrorOutcome)
      reads this
      ensures callback.Some? ==> r.reported == Some(ErrorReport(line, column, code))
      ensures r.returned.Some? <==> callback.None? || callback.value < 0
    {
      ErrorAt(callback, code, line, column)
    }

    /** ERROR_AT_COLUMN(code, column): reports at the current line and the given column. */
    function ErrorAtColumn(callback: Option<int>, code: int, col: nat): (r: ErrorOutcome)
      reads this
      ensures callback.Some? ==> r.reported == Some(ErrorReport(line, col, code))
      ensures r.returned.Some? <==> callback.None? || callback.value < 0
    {
      ErrorAt(callback, code, line, col)
    }

    /** Stores a byte read from the window in the token buffer (the first statements of the scanning loops). */
    method Store(c: bv8)
      requires Valid() && tokenPos + 1 < TOKEN_CAPACITY
      modifies this`tokenPos, token
      ensures Valid() && tokenPos == old(tokenPos) + 1
      ensures token[..] == old(token[..])[old(tokenPos) := c][tokenPos := 0]
    {
      token[tokenPos] := c;
      tokenPos := tokenPos + 1;
      token[tokenPos] := 0;
    }

    /** The statements at the head of webvtt_lex's loop: store the byte, advance column and bytes. */
    method Consume(c: bv8)
      requires Valid() && tokenPos + 1 < TOKEN_CAPACITY
      modifies this`tokenPos, this`column, this`bytes, token
      ensures State() == Feed(old(State()), c)
    {
      Store(c);
      column := column + 1;
      bytes := bytes + 1;
    }

    /** BACKUP, less the cursor decrement, which the caller does. */
    method ApplyBackup()
      requires Valid() && 1 <= tokenPos <= TOKEN_CAPACITY && 1 <= column
      modifies this`tokenPos, this`column, this`tstate, token
      ensures Valid() && State() == Backup(old(State()))
    {
      column := column - 1;
      tokenPos := tokenPos - 1;
      token[tokenPos] := 0;
      tstate := LStart;
    }

    /** RESET. */
    method ApplyReset()
      modifies this`column, this`bytes, this`tokenPos, this`tstate
      ensures State() == Reset(old(State()))
    {
      column := 1;
      bytes, tokenPos := 0, 0;
      tstate := LStart;
    }

    /** SET_NEWLINE, less the return. */
    method ApplySetNewline()
      modifies this`line, this`column, this`tstate
      ensures State() == SetNewline(old(State()))
    {
      line := line + 1;
      column := 1;
      tstate := LStart;
    }

    /** The outcome of Advance as a Step. */
    function AsStep(done: bool, tok: Token, unread: bool): Step
      reads this, token
    {
      if done then Emit(tok, State(), unread) else Next(State())
    }

    /**
     * The switch of webvtt_lex: the byte c has been stored and counted,
     * and the automaton moves on from tstate.
     */
    method Advance(c: bv8) returns (done: bool, tok: Token, unread: bool)
      requires Valid() && 1 <= tokenPos < TOKEN_CAPACITY && 1 <= column
      modifies this`tokenPos, this`column, this`tstate, this`line, this`bytes, token
      ensures Valid() && AsStep(done, tok, unread) == Transition(old(State()), c)
    {
      match tstate
      case LStart => done, tok, unread := AdvanceStart(c);
      case LBom0 => done, tok, unread := AdvanceExpecting(c, BOM_1, LBom1);
      case LBom1 => done, tok, unread := AdvanceBom(c);
      case LWebvtt0 => done, tok, unread := AdvanceExpecting(c, 0x45, LWebvtt1);
      case LWebvtt1 => done, tok, unread := AdvanceExpecting(c, 0x42, LWebvtt2);
      case LWebvtt2 => done, tok, unread := AdvanceExpecting(c, 0x56, LWebvtt3);
      case LWebvtt3 => done, tok, unread := AdvanceExpecting(c, 0x54, LWebvtt4);
      case LWebvtt4 => done, tok, unread := AdvanceKeywordEnd(c);
      case LNewline0 => done, tok, unread := AdvanceNewline(c);
      case LWhitespace => done, tok, unread := AdvanceWhitespace(c);
      // no transitions from this state: the byte stays consumed
      case _ => done, tok, unread := false, BadToken, false;
    }

    /** The L_START row of the switch. */
    method AdvanceStart(c: bv8) returns (done: bool, tok: Token, unread: bool)
      requires Valid() && tstate == LStart && 1 <= tokenPos < TOKEN_CAPACITY && 1 <= column
      modifies this`tokenPos, this`column, this`tstate, this`line, token
      ensures Valid() && AsStep(done, tok, unread) == Transition(old(State()), c)
    {
      done, tok, unread := false, BadToken, false;
      if c == 0x57 {
        tstate := LWebvtt0;
      } else if c == BOM_0 {
        tstate := LBom0;
      } else if c == LF {
        ApplySetNewline();
        done, tok := true, Newline;
      } else if c == CR {
        tstate := LNewline0;
      } else if IsBlank(c) {
        tstate := LWhitespace;
      } else {
        done, tok, unread := Reject();
      }
    }

    /** A row of the switch with a single transition, on `expected` to `next`. */
    method AdvanceExpecting(c: bv8, expected: bv8, next: LexerState) returns (done: bool, tok: Token, unread: bool)
      requires Valid() && 1 <= tokenPos < TOKEN_CAPACITY && 1 <= column
      requires ActionOf(tstate, c, bytes, tokenPos) == if c == expected then Goto(next) else Unread(BadToken)
      modifies this`tokenPos, this`column, this`tstate, token
      ensures Valid() && AsStep(done, tok, unread) == Transition(old(State()), c)
    {
      if c == expected {
        tstate := next;
        done, tok, unread := false, BadToken, false;
      } else {
        done, tok, unread := Reject();
      }
    }

    /** The L_BOM1 row: the third byte of the mark is skipped at the very start and is the BOM token elsewhere. */
    method AdvanceBom(c: bv8) returns (done: bool, tok: Token, unread: bool)
      requires Valid() && tstate == LBom1 && 1 <= tokenPos < TOKEN_CAPACITY && 1 <= column
      modifies this`tokenPos, this`column, this`tstate, this`bytes, token
      ensures Valid() && AsStep(done, tok, unread) == Transition(old(State()), c)
    {
      if c == BOM_2 {
        unread, tok := false, Bom;
        if bytes == 3 {
          ApplyReset();
          done := false;
        } else {
          tstate := LStart;
          done := true;
        }
      } else {
        done, tok, unread := Reject();
      }
    }

    /** The L_WEBVTT4 row: the last byte of the header keyword. */
    method AdvanceKeywordEnd(c: bv8) returns (done: bool, tok: Token, unread: bool)
      requires Valid() && tstate == LWebvtt4 && 1 <= tokenPos < TOKEN_CAPACITY && 1 <= column
      modifies this`tokenPos, this`column, this`tstate, token
      ensures Valid() && AsStep(done, tok, unread) == Transition(old(State()), c)
    {
      if c == 0x54 {
        tstate := LStart;
        done, tok, unread := true, Webvtt, false;
      } else {
        done, tok, unread := Reject();
      }
    }

    /** The L_NEWLINE0 row: after a CR, an LF completes the newline and anything else is put back. */
    method AdvanceNewline(c: bv8) returns (done: bool, tok: Token, unread: bool)
      requires Valid() && tstate == LNewline0 && 1 <= tokenPos < TOKEN_CAPACITY && 1 <= column
      modifies this`tokenPos, this`column, this`tstate, this`line, token
      ensures Valid() && AsStep(done, tok, unread) == Transition(old(State()), c)
    {
      unread := c != LF;
      if unread {
        ApplyBackup();
      }
      ApplySetNewline();
      done, tok := true, Newline;
    }

    /** The L_WHITESPACE row: blanks extend the token until the buffer is full, anything else ends it. */
    method AdvanceWhitespace(c: bv8) returns (done: bool, tok: Token, unread: bool)
      requires Valid() && tstate == LWhitespace && 1 <= tokenPos < TOKEN_CAPACITY && 1 <= column
      modifies this`tokenPos, this`column, this`tstate, token
      ensures Valid() && AsStep(done, tok, unread) == Transition(old(State()), c)
    {
      tok := Whitespace;
      if IsBlank(c) {
        unread := false;
        done := tokenPos >= TOKEN_CAPACITY - 1;
        if done {
          tstate := LStart;
        }
      } else {
        ApplyBackup();
        done, unread := true, true;
      }
    }

    /** END_STATE: BACKUP and return BADTOKEN. */
    method Reject() returns (done: bool, tok: Token, unread: bool)
      requires Valid() && 1 <= tokenPos <= TOKEN_CAPACITY && 1 <= column
      modifies this`tokenPos, this`column, this`tstate, token
      ensures Valid() && AsStep(done, tok, unread) == Emit(BadToken, Backup(old(State())), true)
    {
      ApplyBackup();
      done, tok, unread := true, BadToken, true;
    }

    /**
     * One pass of the loop of webvtt_lex: read the byte at the cursor and
     * take the transition; when the transition ends the call, `done` is set
     * and the cursor is put back over the byte if the transition backed up.
     */
    method Round(buf: seq<bv8>, pos: nat, fin: bool) returns (done: bool, tok: Token, next: nat)
      requires Valid() && pos < |buf| && Fits(State(), buf, pos)
      modifies this`tstate, this`tokenPos, this`line, this`column, this`bytes, token
      ensures done ==> LexResult(tok, State(), next) == LexerSpec.Lex(old(State()), buf, pos, fin)
      ensures !done ==> next == pos + 1 && Fits(State(), buf, next)
      ensures !done ==> LexerSpec.Lex(State(), buf, next, fin) == LexerSpec.Lex(old(State()), buf, pos, fin)
    {
      var c := buf[pos];
      next := pos + 1;
      Consume(c);
      var unread;
      done, tok, unread := Advance(c);
      if done && unread {
        next := next - 1;
      }
    }

    /**
     * webvtt_lex: scans buf from the cursor pos and returns one token,
     * UNFINISHED or BADTOKEN, with the cursor after it.
     */
    method Lex(buf: seq<bv8>, pos: nat, fin: bool) returns (tok: Token, newPos: nat)
      requires Valid() && Fits(State(), buf, pos)
      modifies this`tstate, this`tokenPos, this`line, this`column, this`bytes, token
      ensures LexResult(tok, State(), newPos) == LexerSpec.Lex(old(State()), buf, pos, fin)
    {
      ghost var target := LexerSpec.Lex(State(), buf, pos, fin);
      var p := pos;
      while p < |buf|
        invariant Valid() && Fits(State(), buf, p)
        invariant LexerSpec.Lex(State(), buf, p, fin) == target
        decreases |buf| - p
      {
        var done, t, next := Round(buf, p, fin);
        if done {
          return t, next;
        }
        p := next;
      }
      LexAtEnd(State(), buf, p, fin);
      tok, newPos := WindowEnd(buf, p, fin);
    }

    /** The statements of webvtt_lex after its loop, when the cursor has reached the end of the window. */
    method WindowEnd(buf: seq<bv8>, p: nat, fin: bool) returns (tok: Token, newPos: nat)
      requires Valid() && p >= |buf|
      modifies this`tstate, this`tokenPos, this`column, this`bytes
      ensures Valid() && LexResult(tok, State(), newPos) == EndOfWindow(old(State()), buf, p, fin)
    {
      if fin && tokenPos != 0 {
        if tstate == LWhitespace {
          tstate := LStart;
          return Whitespace, p;
        }
        ApplyReset();
        return BadToken, p;
      }
      tok := if p == |buf| || tokenPos != 0 then Unfinished else BadToken;
      newPos := p;
    }

    /** The statements at the head of webvtt_lex_newline's loop: store the byte and count it. */
    method StoreNewline(c: bv8)
      requires Valid() && tokenPos + 1 < TOKEN_CAPACITY
      modifies this`tokenPos, this`bytes, token
      ensures Valid() && State() == FeedNewline(old(State()), c)
    {
      Store(c);
      bytes := bytes + 1;
    }

    /** The backup label of webvtt_lex_newline, less the cursor decrement. */
    method UnstoreNewline()
      requires Valid() && 1 <= tokenPos <= TOKEN_CAPACITY && 1 <= bytes
      modifies this`tokenPos, this`bytes, token
      ensures Valid() && State() == UnfeedNewline(old(State()))
    {
      tokenPos := tokenPos - 1;
      token[tokenPos] := 0;
      bytes := bytes - 1;
    }

    /** One pass of the loop of webvtt_lex_newline, up to a return or the next byte. */
    method NewlineRound(buf: seq<bv8>, pos: nat, fin: bool) returns (done: bool, tok: Token, next: nat)
      requires Valid() && (tstate == LStart || tstate == LNewline0)
      requires pos < |buf| && NewlineHeadroom(State(), buf, pos)
      modifies this`tokenPos, this`bytes, this`tstate, token
      ensures Valid()
      ensures done ==> LexResult(tok, State(), next) == LexerSpec.LexNewline(old(State()), buf, pos, fin)
      ensures !done ==> next == pos + 1 && tstate == LNewline0 && NewlineHeadroom(State(), buf, next)
      ensures !done ==> LexerSpec.LexNewline(State(), buf, next, fin) == LexerSpec.LexNewline(old(State()), buf, pos, fin)
    {
      ghost var s := State();
      var c := buf[pos];
      next := pos + 1;
      StoreNewline(c);
      done, tok := true, Newline;
      if tstate == LStart {
        if c == CR {
          NewlineAfterCR(s, buf, pos, fin);
          tstate := LNewline0;
          done := false;
          return;
        } else if c != LF {
          UnstoreNewline();
          next := next - 1;
          tok := BadToken;
        }
      } else {
        if c != LF {
          UnstoreNewline();
          next := next - 1;
        }
        tstate := LStart;
      }
      NewlineRead(s, buf, pos, fin);
    }

    /**
     * webvtt_lex_newline: reads LF, CR LF or a lone CR from the cursor pos,
     * resuming in L_NEWLINE0 after a CR that ended the previous window.
     * The state must be L_START or L_NEWLINE0.
     */
    method LexNewline(buf: seq<bv8>, pos: nat, fin: bool) returns (tok: Token, newPos: nat)
      requires Valid() && (tstate == LStart || tstate == LNewline0) && NewlineHeadroom(State(), buf, pos)
      modifies this`tokenPos, this`bytes, this`tstate, token
      ensures LexResult(tok, State(), newPos) == LexerSpec.LexNewline(old(State()), buf, pos, fin)
    {
      ghost var target := LexerSpec.LexNewline(State(), buf, pos, fin);
      var p := pos;
      while p < |buf|
        invariant Valid() && (tstate == LStart || tstate == LNewline0) && NewlineHeadroom(State(), buf, p)
        invariant LexerSpec.LexNewline(State(), buf, p, fin) == target
        decreases |buf| - p
      {
        var done, t, next := NewlineRound(buf, p, fin);
        if done {
          return t, next;
        }
        p := next;
      }
      NewlineAtEnd(State(), buf, p, fin);
      if fin {
        tstate := LStart;
        return Newline, p;
      }
      if tstate == LNewline0 {
        return Unfinished, p;
      }
      tok, newPos := BadToken, if p > 0 then p - 1 else 0xFFFF_FFFF;
    }

    /** Puts back the counters webvtt_lex_word saved before a round it gives up. */
    method Rewind(b: nat, l: nat, c: nat)
      modifies this`bytes, this`line, this`column
      ensures State() == old(State()).(bytes := b, line := l, column := c)
    {
      bytes, line, column := b, l, c;
    }

    /**
     * One round of webvtt_lex_word's loop: a lexer call, then either the
     * byte at the returned cursor joins the run, or the counters saved
     * before the call are put back and the cursor returns to pos.
     */
    method WordRound(buf: seq<bv8>, pos: nat, fin: bool, beyond: bv8, word: seq<bv8>)
      returns (stop: bool, word': seq<bv8>, next: nat)
      requires Valid() && pos < |buf| && Fits(State(), buf, pos)
      modifies this`tstate, this`tokenPos, this`line, this`column, this`bytes, token
      ensures Valid()
      ensures var l := LexerSpec.Lex(old(State()), buf, pos, fin);
        && stop == (l.tok != BadToken)
        && (stop ==>
              next == pos && word' == word
              && State() == l.st.(bytes := old(bytes), line := old(line), column := old(column)))
        && (!stop ==>
              next == l.pos + 1 && State() == l.st
              && word' == word + [if l.pos < |buf| then buf[l.pos] else beyond])
    {
      var lastBytes, lastLine, lastColumn := bytes, line, column;
      var t;
      t, next := Lex(buf, pos, fin);
      stop := t != BadToken;
      if stop {
        next := pos;
        Rewind(lastBytes, lastLine, lastColumn);
        word' := word;
      } else {
        word' := word + [if next < |buf| then buf[next] else beyond];
        next := next + 1;
      }
    }

    /** A round of webvtt_lex_word's loop, stated against the loop as a whole. */
    method WordAdvance(buf: seq<bv8>, pos: nat, fin: bool, beyond: bv8, word: seq<bv8>)
      returns (stop: bool, word': seq<bv8>, next: nat)
      requires Valid() && pos < |buf| && WordFits(State(), buf, pos, fin)
      modifies this`tstate, this`tokenPos, this`line, this`column, this`bytes, token
      ensures Valid() && pos <= next
      ensures stop ==> (next == pos && word' == word
        && LexWordLoop(old(State()), buf, pos, fin, beyond) == WordResult(Success, [], State(), pos))
      ensures !stop ==> (pos < next && WordFits(State(), buf, next, fin)
        && Prepend(word, LexWordLoop(old(State()), buf, pos, fin, beyond))
           == Prepend(word', LexWordLoop(State(), buf, next, fin, beyond)))
    {
      ghost var s := State();
      ghost var l := LexerSpec.Lex(s, buf, pos, fin);
      if l.tok == BadToken {
        WordContinues(s, buf, pos, fin, beyond, l, word);
      } else {
        WordStops(s, buf, pos, fin, beyond, l);
      }
      stop, word', next := WordRound(buf, pos, fin, beyond, word);
    }

    /**
     * webvtt_lex_word: collects the bytes the lexer rejects into a text run
     * and stops in front of the first token it accepts. `hasStr` is false
     * when the output string pointer is null; `beyond` is the byte stored
     * just past the window.
     */
    method LexWord(hasStr: bool, buf: seq<bv8>, pos: nat, fin: bool, beyond: bv8)
      returns (status: Status, word: seq<bv8>, newPos: nat)
      requires Valid() && (hasStr ==> WordFits(State(), buf, pos, fin))
      modifies this`tstate, this`tokenPos, this`line, this`column, this`bytes, token
      ensures WordResult(status, word, State(), newPos) == LexerSpec.LexWord(hasStr, old(State()), buf, pos, fin, beyond)
    {
      if !hasStr {
        return InvalidParam, [], pos;
      }
      status, word := Success, [];
      var p := pos;
      while p < |buf|
        invariant Valid() && WordFits(State(), buf, p, fin)
        invariant Prepend(word, LexWordLoop(State(), buf, p, fin, beyond)) == LexWordLoop(old(State()), buf, pos, fin, beyond)
        decreases |buf| - p
      {
        var stop, next;
        stop, word, next := WordAdvance(buf, p, fin, beyond, word);
        if stop {
          return Success, word, p;
        }
        p := next;
      }
      newPos := p;
    }
  }
}
