/**
 * Properties of the lexer functions of LexerSpec: the keyword, newline,
 * whitespace and byte-order-mark tokens, the one-byte backup, the end of
 * the window, and resumption across chunk boundaries.
 */
module LexerLemmas {
  import opened ParserInternal
  import opened LexerSpec

  /** Feeding a run of bytes, one Feed per byte. */
  function FeedAll(s: LexState, w: seq<bv8>): (r: LexState)
    requires Wf(s) && s.tokenPos + |w| < TOKEN_CAPACITY
    ensures Wf(r) && r.tokenPos == s.tokenPos + |w| && r.tstate == s.tstate && r.line == s.line
    ensures r.column == s.column + |w| && r.bytes == s.bytes + |w|
    decreases |w|
  {
    if w == [] then s else FeedAll(Feed(s, w[0]), w[1..])
  }

  lemma {:induction false} FeedAllIgnoresState(s: LexState, w: seq<bv8>, t: LexerState)
    requires Wf(s) && s.tokenPos + |w| < TOKEN_CAPACITY
    ensures FeedAll(s.(tstate := t), w) == FeedAll(s, w).(tstate := t)
    decreases |w|
  {
    if w != [] {
      assert Feed(s.(tstate := t), w[0]) == Feed(s, w[0]).(tstate := t);
      FeedAllIgnoresState(Feed(s, w[0]), w[1..], t);
    }
  }

  /** The state reached after the first k bytes of "WEBVTT" (L_START for none). */
  function KeywordState(k: nat): LexerState
    requires k < 6
  {
    [LStart, LWebvtt0, LWebvtt1, LWebvtt2, LWebvtt3, LWebvtt4][k]
  }

  /**
   * From the state reached after k bytes of the keyword, the rest of the
   * keyword completes the WEBVTT token right after its last byte.
   */
  predicate Completes(s: LexState, buf: seq<bv8>, pos: nat, k: nat, finish: bool)
    requires k < 6 && pos + (6 - k) <= |buf| && s.tokenPos + (6 - k) < TOKEN_CAPACITY && Fits(s, buf, pos)
  {
    Lex(s, buf, pos, finish) == LexResult(Webvtt, FeedAll(s, KEYWORD[k..]).(tstate := LStart), pos + (6 - k))
  }

  lemma {:induction false} KeywordCompletes(s: LexState, buf: seq<bv8>, pos: nat, k: nat, finish: bool)
    requires k < 6 && Wf(s) && s.tstate == KeywordState(k)
    requires pos + (6 - k) <= |buf| && buf[pos..pos + (6 - k)] == KEYWORD[k..]
    requires s.tokenPos + (6 - k) < TOKEN_CAPACITY
    ensures Fits(s, buf, pos) && Completes(s, buf, pos, k, finish)
    decreases 6 - k
  {
    var c := buf[pos];
    assert c == KEYWORD[k] by { assert buf[pos..pos + (6 - k)][0] == c; }
    if k < 5 {
      var s' := Feed(s, c).(tstate := KeywordState(k + 1));
      assert buf[pos + 1..pos + 1 + (6 - (k + 1))] == buf[pos..pos + (6 - k)][1..];
      KeywordCompletes(s', buf, pos + 1, k + 1, finish);
      KeywordCompletesStep(s, buf, pos, k, finish);
    } else {
      KeywordCompletesLast(s, buf, pos, finish);
    }
  }

  /** One step of KeywordCompletes: the conclusion for k + 1 gives the one for k. */
  lemma KeywordCompletesStep(s: LexState, buf: seq<bv8>, pos: nat, k: nat, finish: bool)
    requires k < 5 && Wf(s) && s.tstate == KeywordState(k) && s.tokenPos + (6 - k) < TOKEN_CAPACITY
    requires pos + (6 - k) <= |buf| && buf[pos] == KEYWORD[k]
    requires var s' := Feed(s, KEYWORD[k]).(tstate := KeywordState(k + 1));
      Fits(s', buf, pos + 1) && Completes(s', buf, pos + 1, k + 1, finish)
    ensures Fits(s, buf, pos) && Completes(s, buf, pos, k, finish)
  {
    var f := Feed(s, KEYWORD[k]);
    KeywordStep(s, buf, pos, k, finish);
    assert KEYWORD[k..][0] == KEYWORD[k] && KEYWORD[k..][1..] == KEYWORD[k + 1..];
    assert FeedAll(s, KEYWORD[k..]) == FeedAll(f, KEYWORD[k + 1..]);
    FeedAllIgnoresState(f, KEYWORD[k + 1..], KeywordState(k + 1));
  }

  /** The last byte of the keyword completes it. */
  lemma KeywordCompletesLast(s: LexState, buf: seq<bv8>, pos: nat, finish: bool)
    requires Wf(s) && s.tstate == LWebvtt4 && s.tokenPos + 1 < TOKEN_CAPACITY && pos < |buf| && buf[pos] == 0x54
    ensures Fits(s, buf, pos) && Completes(s, buf, pos, 5, finish)
  {
    KeywordLast(s, buf, pos, finish);
    assert KEYWORD[5..] == [0x54];
  }

  /** A byte of the keyword other than the last, read in the state for the bytes before it. */
  lemma KeywordStep(s: LexState, buf: seq<bv8>, pos: nat, k: nat, finish: bool)
    requires k < 5 && Wf(s) && s.tstate == KeywordState(k) && s.tokenPos + 1 < TOKEN_CAPACITY
    requires pos < |buf| && buf[pos] == KEYWORD[k]
    ensures var s' := Feed(s, KEYWORD[k]).(tstate := KeywordState(k + 1));
      && Wf(s') && (Fits(s, buf, pos) <==> Fits(s', buf, pos + 1))
      && (Fits(s', buf, pos + 1) ==> Lex(s, buf, pos, finish) == Lex(s', buf, pos + 1, finish))
  {
    var f := Feed(s, KEYWORD[k]);
    assert ActionOf(f.tstate, KEYWORD[k], f.bytes, f.tokenPos) == Goto(KeywordState(k + 1)) by {
      if k == 0 {
      } else if k == 1 {
      } else if k == 2 {
      } else if k == 3 {
      }
    }
    LexNextStep(s, buf, pos, finish, f.(tstate := KeywordState(k + 1)));
  }

  /** The last byte of the keyword ends the WEBVTT token. */
  lemma KeywordLast(s: LexState, buf: seq<bv8>, pos: nat, finish: bool)
    requires Wf(s) && s.tstate == LWebvtt4 && s.tokenPos + 1 < TOKEN_CAPACITY && pos < |buf| && buf[pos] == 0x54
    ensures Fits(s, buf, pos) && Lex(s, buf, pos, finish) == LexResult(Webvtt, Feed(s, 0x54).(tstate := LStart), pos + 1)
  {
    var f := Feed(s, 0x54);
    LexEmitStep(s, buf, pos, finish, Webvtt, f.(tstate := LStart), false);
  }

  /** The bytes W E B V T T read from L_START give the WEBVTT token and leave the lexer in L_START. */
  lemma LexKeyword(s: LexState, buf: seq<bv8>, pos: nat, finish: bool)
    requires Wf(s) && s.tstate == LStart && s.tokenPos + 6 < TOKEN_CAPACITY
    requires pos + 6 <= |buf| && buf[pos..pos + 6] == KEYWORD
    ensures Fits(s, buf, pos)
    ensures var r := Lex(s, buf, pos, finish);
      && r.tok == Webvtt && r.pos == pos + 6 && r.st.tstate == LStart
      && r.st.tokenPos == s.tokenPos + 6 && r.st.column == s.column + 6
      && r.st.bytes == s.bytes + 6 && r.st.line == s.line
  {
    KeywordCompletes(s, buf, pos, 0, finish);
  }

  /**
   * A window that ends inside the keyword, without finish, yields
   * UNFINISHED and keeps the partial state: after bytes k..j-1 of the
   * keyword the lexer is in the state for j bytes.
   */
  predicate Suspends(s: LexState, buf: seq<bv8>, pos: nat, k: nat)
    requires k < 6 && pos <= |buf| && |buf| - pos + k < 6 && s.tokenPos + (|buf| - pos) < TOKEN_CAPACITY
    requires Fits(s, buf, pos)
  {
    Lex(s, buf, pos, false)
      == LexResult(Unfinished, FeedAll(s, buf[pos..]).(tstate := KeywordState(k + (|buf| - pos))), |buf|)
  }

  lemma {:induction false} KeywordSuspends(s: LexState, buf: seq<bv8>, pos: nat, k: nat)
    requires k < 6 && Wf(s) && s.tstate == KeywordState(k)
    requires pos <= |buf| && |buf| - pos + k < 6 && buf[pos..] == KEYWORD[k..k + (|buf| - pos)]
    requires s.tokenPos + (|buf| - pos) < TOKEN_CAPACITY
    ensures Fits(s, buf, pos) && Suspends(s, buf, pos, k)
    decreases |buf| - pos
  {
    if pos < |buf| {
      var c := buf[pos];
      assert c == KEYWORD[k] by { assert buf[pos..][0] == c; }
      assert buf[pos + 1..] == buf[pos..][1..];
      KeywordSuspends(Feed(s, c).(tstate := KeywordState(k + 1)), buf, pos + 1, k + 1);
      KeywordSuspendsStep(s, buf, pos, k);
    } else {
      assert buf[pos..] == [];
    }
  }

  /** One step of KeywordSuspends: the conclusion after byte k gives the one before it. */
  lemma KeywordSuspendsStep(s: LexState, buf: seq<bv8>, pos: nat, k: nat)
    requires k < 5 && Wf(s) && s.tstate == KeywordState(k) && s.tokenPos + (|buf| - pos) < TOKEN_CAPACITY
    requires pos < |buf| && |buf| - pos + k < 6 && buf[pos] == KEYWORD[k]
    requires var s' := Feed(s, KEYWORD[k]).(tstate := KeywordState(k + 1));
      Fits(s', buf, pos + 1) && Suspends(s', buf, pos + 1, k + 1)
    ensures Fits(s, buf, pos) && Suspends(s, buf, pos, k)
  {
    var f := Feed(s, KEYWORD[k]);
    KeywordStep(s, buf, pos, k, false);
    assert buf[pos..][0] == KEYWORD[k] && buf[pos..][1..] == buf[pos + 1..];
    assert FeedAll(s, buf[pos..]) == FeedAll(f, buf[pos + 1..]);
    FeedAllIgnoresState(f, buf[pos + 1..], KeywordState(k + 1));
  }

  /**
   * webvtt_lex depends on the window only from the cursor on: the same
   * bytes placed after a prefix a give the same result, shifted by |a|.
   */
  lemma {:induction false} LexShift(s: LexState, a: seq<bv8>, b: seq<bv8>, j: nat, finish: bool)
    requires j <= |b| && Fits(s, b, j)
    ensures Shifted(s, a, b, j, finish)
    decreases |b| - j
  {
    if j < |b| {
      var c := b[j];
      assert (a + b)[|a| + j] == c;
      match Transition(Feed(s, c), c)
      case Next(s') =>
        LexShift(s', a, b, j + 1, finish);
        ShiftNext(s, a, b, j, finish, s');
      case Emit(tok, s', unread) =>
        ShiftEmit(s, a, b, j, finish, tok, s', unread);
    } else {
      assert |a + b| == |a| + j;
    }
  }

  /** The shifted call fits, and it gives the unshifted result up to the cursor offset |a|. */
  predicate Shifted(s: LexState, a: seq<bv8>, b: seq<bv8>, j: nat, finish: bool)
    requires j <= |b| && Fits(s, b, j)
  {
    Fits(s, a + b, |a| + j) && ShiftAgrees(s, a, b, j, finish)
  }

  /** The shifted and the unshifted scan give the same result, up to the cursor offset |a|. */
  predicate ShiftAgrees(s: LexState, a: seq<bv8>, b: seq<bv8>, j: nat, finish: bool)
    requires j <= |b| && Fits(s, b, j) && Fits(s, a + b, |a| + j)
  {
    var r := Lex(s, b, j, finish); Lex(s, a + b, |a| + j, finish) == r.(pos := |a| + r.pos)
  }

  lemma ShiftEmit(s: LexState, a: seq<bv8>, b: seq<bv8>, j: nat, finish: bool, tok: Token, s': LexState, unread: bool)
    requires j < |b| && Fits(s, b, j)
    requires Transition(Feed(s, b[j]), b[j]) == Emit(tok, s', unread) && (a + b)[|a| + j] == b[j]
    ensures Shifted(s, a, b, j, finish)
  {
    var n := if unread then j else j + 1;
    assert Lex(s, b, j, finish) == LexResult(tok, s', n) by { LexEmitStep(s, b, j, finish, tok, s', unread); }
    assert Lex(s, a + b, |a| + j, finish) == LexResult(tok, s', |a| + n) by { LexEmitStep(s, a + b, |a| + j, finish, tok, s', unread); }
  }

  lemma ShiftNext(s: LexState, a: seq<bv8>, b: seq<bv8>, j: nat, finish: bool, s': LexState)
    requires j < |b| && Fits(s, b, j)
    requires Transition(Feed(s, b[j]), b[j]) == Next(s') && (a + b)[|a| + j] == b[j]
    requires Fits(s', b, j + 1) && Shifted(s', a, b, j + 1, finish)
    ensures Shifted(s, a, b, j, finish)
  {
    var p := |a| + j;
    assert p + 1 == |a| + (j + 1);
    LexNextStep(s, b, j, finish, s');
    LexNextStep(s, a + b, p, finish, s');
  }

  /**
   * One byte of webvtt_lex that moves to another state: the call fits
   * exactly when the rest of it from the next byte fits, and the scan goes
   * on at the next byte.
   */
  lemma LexNextStep(s: LexState, buf: seq<bv8>, pos: nat, finish: bool, s': LexState)
    requires Wf(s) && pos < |buf| && s.tokenPos + 1 < TOKEN_CAPACITY
    requires Transition(Feed(s, buf[pos]), buf[pos]) == Next(s')
    ensures Wf(s') && (Fits(s, buf, pos) <==> Fits(s', buf, pos + 1))
    ensures Fits(s', buf, pos + 1) ==> Lex(s, buf, pos, finish) == Lex(s', buf, pos + 1, finish)
  {
  }

  /** One byte of webvtt_lex that ends the token: the call needs room for that byte only, and returns here. */
  lemma LexEmitStep(s: LexState, buf: seq<bv8>, pos: nat, finish: bool, t: Token, s': LexState, unread: bool)
    requires Wf(s) && pos < |buf| && s.tokenPos + 1 < TOKEN_CAPACITY
    requires Transition(Feed(s, buf[pos]), buf[pos]) == Emit(t, s', unread)
    ensures Fits(s, buf, pos) && Lex(s, buf, pos, finish) == LexResult(t, s', if unread then pos else pos + 1)
  {
  }

  /** A call that fits still fits from the next byte after a byte that moves to another state. */
  lemma FitsNext(s: LexState, buf: seq<bv8>, pos: nat, s': LexState)
    requires pos < |buf| && Fits(s, buf, pos)
    requires Transition(Feed(s, buf[pos]), buf[pos]) == Next(s')
    ensures Fits(s', buf, pos + 1)
  {
  }

  /**
   * Whether a call fits depends on the window only from the cursor on: a
   * call on a + b that fits from |a| + j fits on b from j (LexShift gives
   * the converse).
   */
  lemma {:induction false} FitsUnshift(s: LexState, a: seq<bv8>, b: seq<bv8>, j: nat)
    requires j <= |b| && Fits(s, a + b, |a| + j)
    ensures Fits(s, b, j)
    decreases |b| - j
  {
    if j < |b| {
      var c, p := b[j], |a| + j;
      assert (a + b)[p] == c;
      assert p + 1 == |a| + (j + 1);
      match Transition(Feed(s, c), c)
      case Next(t) =>
        FitsNext(s, a + b, p, t);
        FitsUnshift(t, a, b, j + 1);
      case Emit(_, _, _) =>
    }
  }

  /**
   * Re-entrancy: when a window a, read from cursor i without finish, ends
   * in UNFINISHED, a later call on the next window b with the state left
   * behind returns exactly what one call on a + b would have returned.
   */
  lemma {:induction false} LexResumesAcrossChunks(s: LexState, a: seq<bv8>, b: seq<bv8>, i: nat, finish: bool)
    requires i <= |a| && Fits(s, a + b, i)
    ensures Fits(s, a, i)
    ensures var r1 := Lex(s, a, i, false);
      r1.tok == Unfinished ==>
        && r1.pos == |a|
        && Fits(r1.st, b, 0)
        && var r2 := Lex(r1.st, b, 0, finish);
           Lex(s, a + b, i, finish) == r2.(pos := |a| + r2.pos)
    decreases |a| - i
  {
    if i < |a| {
      var c := a[i];
      assert (a + b)[i] == c;
      match Transition(Feed(s, c), c)
      case Next(s') =>
        LexNextStep(s, a, i, false, s');
        LexNextStep(s, a + b, i, finish, s');
        LexResumesAcrossChunks(s', a, b, i + 1, finish);
      case Emit(tok, s', unread) =>
        LexEmitStep(s, a, i, false, tok, s', unread);
    } else {
      FitsUnshift(s, a, b, 0);
      LexShift(s, a, b, 0, finish);
      assert ShiftAgrees(s, a, b, 0, finish);
    }
  }

  /**
   * The header keyword split across two windows at any point is recognised
   * exactly once, by the second call, as if it had come in one window.
   */
  lemma KeywordSplitAnywhere(s: LexState, k: nat, rest: seq<bv8>, finish: bool)
    requires Wf(s) && s.tstate == LStart && 0 < k < 6
    requires s.tokenPos + 6 < TOKEN_CAPACITY
    ensures Fits(s, KEYWORD + rest, 0) && Fits(s, KEYWORD[..k], 0)
    ensures var r1 := Lex(s, KEYWORD[..k], 0, false);
      && r1.tok == Unfinished && r1.pos == k && r1.st.tstate == KeywordState(k)
      && Fits(r1.st, KEYWORD[k..] + rest, 0)
      && var r2 := Lex(r1.st, KEYWORD[k..] + rest, 0, finish);
         && r2.tok == Webvtt && r2.pos == 6 - k
         && r2 == Lex(s, KEYWORD + rest, 0, finish).(pos := 6 - k)
  {
    var a, b := KEYWORD[..k], KEYWORD[k..] + rest;
    assert a + b == KEYWORD + rest;
    assert (KEYWORD + rest)[0..6] == KEYWORD;
    KeywordCompletes(s, KEYWORD + rest, 0, 0, finish);
    KeywordFirstWindow(s, k);
    var st1 := FeedAll(s, a).(tstate := KeywordState(k));
    assert b[0..0 + (6 - k)] == KEYWORD[k..];
    KeywordCompletes(st1, b, 0, k, finish);
    LexResumesAcrossChunks(s, a, b, 0, finish);
  }

  /** The first k bytes of the keyword alone leave the lexer waiting in the state for k bytes read. */
  lemma KeywordFirstWindow(s: LexState, k: nat)
    requires Wf(s) && s.tstate == LStart && 0 < k < 6 && s.tokenPos + 6 < TOKEN_CAPACITY
    ensures Fits(s, KEYWORD[..k], 0)
    ensures Lex(s, KEYWORD[..k], 0, false) == LexResult(Unfinished, FeedAll(s, KEYWORD[..k]).(tstate := KeywordState(k)), k)
  {
    assert KEYWORD[..k][0..] == KEYWORD[0..0 + (k - 0)];
    KeywordSuspends(s, KEYWORD[..k], 0, 0);
  }

  /**
   * In L_START, LF and CR LF are one NEWLINE each, CR followed by any other
   * byte is a NEWLINE that leaves that byte unread; each moves to the next
   * line, column 1.
   */
  lemma LexLineBreaks(s: LexState, buf: seq<bv8>, pos: nat, finish: bool)
    requires Wf(s) && s.tstate == LStart
    requires pos < |buf| && (buf[pos] == LF || (buf[pos] == CR && pos + 1 < |buf|))
    requires s.tokenPos + (if buf[pos] == CR then 2 else 1) < TOKEN_CAPACITY
    ensures Fits(s, buf, pos)
    ensures var r := Lex(s, buf, pos, finish);
      && r.tok == Newline && r.st.line == s.line + 1 && r.st.column == 1 && r.st.tstate == LStart
      && r.pos == (if buf[pos] == CR && buf[pos + 1] == LF then pos + 2 else pos + 1)
  {
    var f := Feed(s, buf[pos]);
    if buf[pos] == CR {
      var s1 := f.(tstate := LNewline0);
      assert Transition(f, CR) == Next(s1);
      LexNextStep(s, buf, pos, finish, s1);
      var f2 := Feed(s1, buf[pos + 1]);
      if buf[pos + 1] == LF {
        assert Transition(f2, LF) == Emit(Newline, SetNewline(f2), false);
        LexEmitStep(s1, buf, pos + 1, finish, Newline, SetNewline(f2), false);
      } else {
        var b2 := SetNewline(Backup(f2));
        assert Transition(f2, buf[pos + 1]) == Emit(Newline, b2, true);
        LexEmitStep(s1, buf, pos + 1, finish, Newline, b2, true);
      }
    } else {
      assert Transition(f, LF) == Emit(Newline, SetNewline(f), false);
      LexEmitStep(s, buf, pos, finish, Newline, SetNewline(f), false);
    }
  }

  /**
   * A run of spaces and tabs read from L_WHITESPACE ends in one WHITESPACE
   * token in front of the first other byte, which is left unread; bytes
   * still counts that byte.
   */
  lemma {:induction false} WhitespaceRunEnds(s: LexState, buf: seq<bv8>, i: nat, j: nat, finish: bool)
    requires Wf(s) && s.tstate == LWhitespace
    requires i <= j < |buf| && !IsBlank(buf[j]) && s.tokenPos + (j - i) < TOKEN_CAPACITY - 1
    requires forall k :: i <= k < j ==> IsBlank(buf[k])
    ensures Fits(s, buf, i)
    ensures var r := Lex(s, buf, i, finish);
      && r.tok == Whitespace && r.pos == j && r.st.tstate == LStart && r.st.line == s.line
      && r.st.tokenPos == s.tokenPos + (j - i) && r.st.column == s.column + (j - i)
      && r.st.bytes == s.bytes + (j - i) + 1
    decreases j - i
  {
    var c := buf[i];
    var f := Feed(s, c);
    if i < j {
      assert Transition(f, c) == Next(f);
      LexNextStep(s, buf, i, finish, f);
      WhitespaceRunEnds(f, buf, i + 1, j, finish);
    } else {
      assert Transition(f, c) == Emit(Whitespace, Backup(f), true);
      LexEmitStep(s, buf, i, finish, Whitespace, Backup(f), true);
    }
  }

  /** From L_START: a non-empty run of spaces and tabs is a single WHITESPACE token. */
  lemma LexWhitespaceRun(s: LexState, buf: seq<bv8>, pos: nat, j: nat, finish: bool)
    requires Wf(s) && s.tstate == LStart
    requires pos < j < |buf| && !IsBlank(buf[j]) && s.tokenPos + (j - pos) < TOKEN_CAPACITY - 1
    requires forall k :: pos <= k < j ==> IsBlank(buf[k])
    ensures Fits(s, buf, pos)
    ensures var r := Lex(s, buf, pos, finish);
      && r.tok == Whitespace && r.pos == j && r.st.tstate == LStart
      && r.st.column == s.column + (j - pos) && r.st.bytes == s.bytes + (j - pos) + 1
  {
    var c := buf[pos];
    var f := Feed(s, c);
    assert Transition(f, c) == Next(f.(tstate := LWhitespace));
    LexNextStep(s, buf, pos, finish, f.(tstate := LWhitespace));
    WhitespaceRunEnds(f.(tstate := LWhitespace), buf, pos + 1, j, finish);
  }

  /**
   * A run of blanks from L_START as long as the room left in the token
   * buffer, 255 - token_pos bytes, is cut there into one WHITESPACE token,
   * whatever follows it (more blanks included): token_pos ends at 255.
   */
  lemma LexWhitespaceOverflow(s: LexState, buf: seq<bv8>, pos: nat, finish: bool)
    requires Wf(s) && s.tstate == LStart && s.tokenPos + 2 < TOKEN_CAPACITY
    requires pos + (TOKEN_CAPACITY - 1 - s.tokenPos) <= |buf|
    requires forall k :: pos <= k < pos + (TOKEN_CAPACITY - 1 - s.tokenPos) ==> IsBlank(buf[k])
    ensures Fits(s, buf, pos)
    ensures var r := Lex(s, buf, pos, finish);
      && r.tok == Whitespace && r.pos == pos + (TOKEN_CAPACITY - 1 - s.tokenPos)
      && r.st.tokenPos == TOKEN_CAPACITY - 1 && r.st.tstate == LStart && r.st.line == s.line
      && r.st.column == s.column + (TOKEN_CAPACITY - 1 - s.tokenPos)
  {
    var c := buf[pos];
    var f := Feed(s, c);
    assert Transition(f, c) == Next(f.(tstate := LWhitespace));
    WhitespaceFills(f.(tstate := LWhitespace), buf, pos + 1, finish);
    LexNextStep(s, buf, pos, finish, f.(tstate := LWhitespace));
  }

  /** In L_WHITESPACE, blanks are taken until token_pos reaches 255, and the blank that gets there ends the token. */
  lemma {:induction false} WhitespaceFills(s: LexState, buf: seq<bv8>, i: nat, finish: bool)
    requires Wf(s) && s.tstate == LWhitespace && s.tokenPos < TOKEN_CAPACITY - 1
    requires i + (TOKEN_CAPACITY - 1 - s.tokenPos) <= |buf|
    requires forall k :: i <= k < i + (TOKEN_CAPACITY - 1 - s.tokenPos) ==> IsBlank(buf[k])
    ensures Fits(s, buf, i)
    ensures var r := Lex(s, buf, i, finish);
      && r.tok == Whitespace && r.pos == i + (TOKEN_CAPACITY - 1 - s.tokenPos)
      && r.st.tokenPos == TOKEN_CAPACITY - 1 && r.st.tstate == LStart && r.st.line == s.line
      && r.st.column == s.column + (TOKEN_CAPACITY - 1 - s.tokenPos)
    decreases TOKEN_CAPACITY - s.tokenPos
  {
    var c := buf[i];
    var f := Feed(s, c);
    if f.tokenPos >= TOKEN_CAPACITY - 1 {
      assert Transition(f, c) == Emit(Whitespace, f.(tstate := LStart), false);
      LexEmitStep(s, buf, i, finish, Whitespace, f.(tstate := LStart), false);
    } else {
      assert Transition(f, c) == Next(f);
      WhitespaceFills(f, buf, i + 1, finish);
      LexNextStep(s, buf, i, finish, f);
    }
  }

  const BOM: seq<bv8> := [BOM_0, BOM_1, BOM_2]

  /**
   * EF BB BF as the very first three bytes of the input is skipped: column
   * 1, bytes and token_pos 0, and scanning goes on after it.
   */
  lemma LexBomAtStart(s: LexState, buf: seq<bv8>, pos: nat, finish: bool)
    requires Wf(s) && s.tstate == LStart && s.bytes == 0 && s.tokenPos + 3 < TOKEN_CAPACITY
    requires pos + 3 <= |buf| && buf[pos..pos + 3] == BOM
    ensures var t := Reset(Feed(Feed(Feed(s, BOM_0), BOM_1), BOM_2));
      && t.column == 1 && t.bytes == 0 && t.tokenPos == 0 && t.tstate == LStart && t.line == s.line
      && (Fits(s, buf, pos) <==> Fits(t, buf, pos + 3))
      && (Fits(t, buf, pos + 3) ==> Lex(s, buf, pos, finish) == Lex(t, buf, pos + 3, finish))
  {
    BomBytes(buf, pos);
    var f1 := Feed(s, BOM_0);
    var s1 := f1.(tstate := LBom0);
    var f2 := Feed(s1, BOM_1);
    var s2 := f2.(tstate := LBom1);
    var f3 := Feed(s2, BOM_2);
    assert Transition(f1, BOM_0) == Next(s1);
    assert Transition(f2, BOM_1) == Next(s2);
    assert Transition(f3, BOM_2) == Next(Reset(f3));
    LexNextStep(s, buf, pos, finish, s1);
    LexNextStep(s1, buf, pos + 1, finish, s2);
    LexNextStep(s2, buf, pos + 2, finish, Reset(f3));
    assert f2 == Feed(f1, BOM_1).(tstate := LBom0);
    assert f3 == Feed(Feed(f1, BOM_1), BOM_2).(tstate := LBom1);
  }

  lemma BomBytes(buf: seq<bv8>, pos: nat)
    requires pos + 3 <= |buf| && buf[pos..pos + 3] == BOM
    ensures buf[pos] == BOM_0 && buf[pos + 1] == BOM_1 && buf[pos + 2] == BOM_2
  {
    assert buf[pos..pos + 3][0] == buf[pos] && buf[pos..pos + 3][1] == buf[pos + 1] && buf[pos..pos + 3][2] == buf[pos + 2];
  }

  /** EF BB BF anywhere but at the very start of the input is the BOM token. */
  lemma LexBomElsewhere(s: LexState, buf: seq<bv8>, pos: nat, finish: bool)
    requires Wf(s) && s.tstate == LStart && s.bytes != 0 && s.tokenPos + 3 < TOKEN_CAPACITY
    requires pos + 3 <= |buf| && buf[pos..pos + 3] == BOM
    ensures Fits(s, buf, pos)
    ensures var r := Lex(s, buf, pos, finish);
      r.tok == Bom && r.pos == pos + 3 && r.st.tstate == LStart && r.st.bytes == s.bytes + 3
  {
    BomBytes(buf, pos);
    var f1 := Feed(s, BOM_0);
    var s1 := f1.(tstate := LBom0);
    var f2 := Feed(s1, BOM_1);
    var s2 := f2.(tstate := LBom1);
    assert Transition(f1, BOM_0) == Next(s1);
    assert Transition(f2, BOM_1) == Next(s2);
    var f3 := Feed(s2, BOM_2);
    assert Transition(f3, BOM_2) == Emit(Bom, f3.(tstate := LStart), false);
    LexNextStep(s, buf, pos, finish, s1);
    LexNextStep(s1, buf, pos + 1, finish, s2);
    LexEmitStep(s2, buf, pos + 2, finish, Bom, f3.(tstate := LStart), false);
  }

  /** The states whose rows end in BACKUP and BADTOKEN, and the one byte each row (except L_START's) accepts. */
  predicate Rejects(t: LexerState, c: bv8)
  {
    || (t == LStart && c != 0x57 && c != BOM_0 && c != LF && c != CR && !IsBlank(c))
    || (t == LBom0 && c != BOM_1)
    || (t == LBom1 && c != BOM_2)
    || (t == LWebvtt0 && c != 0x45)
    || (t == LWebvtt1 && c != 0x42)
    || (t == LWebvtt2 && c != 0x56)
    || (t == LWebvtt3 && c != 0x54)
    || (t == LWebvtt4 && c != 0x54)
  }

  /**
   * A byte with no transition is un-read: the cursor, column and token_pos
   * end where they were before the byte, the state is L_START, the result
   * is BADTOKEN, and bytes keeps the byte counted.
   */
  lemma LexBackup(s: LexState, buf: seq<bv8>, pos: nat, finish: bool)
    requires Wf(s) && s.tokenPos + 1 < TOKEN_CAPACITY && pos < |buf| && Rejects(s.tstate, buf[pos])
    ensures Fits(s, buf, pos)
    ensures var r := Lex(s, buf, pos, finish);
      && r.tok == BadToken && r.pos == pos && r.st.tstate == LStart
      && r.st.column == s.column && r.st.tokenPos == s.tokenPos && r.st.line == s.line
      && r.st.bytes == s.bytes + 1
      && r.st.token == s.token[s.tokenPos := 0][s.tokenPos + 1 := 0]
  {
    var f := Feed(s, buf[pos]);
    assert Transition(f, buf[pos]) == Emit(BadToken, Backup(f), true);
    LexEmitStep(s, buf, pos, finish, BadToken, Backup(f), true);
  }

  /**
   * At the end of the window: with finish and a non-empty token, the
   * whitespace state gives WHITESPACE and every other state resets and gives
   * BADTOKEN; without finish the result is UNFINISHED.
   */
  lemma LexEndOfWindow(s: LexState, buf: seq<bv8>, finish: bool)
    requires Wf(s)
    ensures Fits(s, buf, |buf|)
    ensures var r := Lex(s, buf, |buf|, finish);
      && r.pos == |buf|
      && (finish && s.tokenPos != 0 && s.tstate == LWhitespace ==> r.tok == Whitespace && r.st.tstate == LStart)
      && (finish && s.tokenPos != 0 && s.tstate != LWhitespace ==> r.tok == BadToken && r.st == Reset(s))
      && (finish && s.tokenPos == 0 ==> r.tok == Unfinished && r.st == s)
      && (!finish ==> r.tok == Unfinished && r.st == s)
  {
  }

  lemma LexNewlineForms(s: LexState, buf: seq<bv8>, p: nat, finish: bool)
    requires Wf(s) && s.tstate == LStart && NewlineHeadroom(s, buf, p) && p < |buf|
    ensures var r := LexNewline(s, buf, p, finish);
      && (buf[p] == LF ==> r.tok == Newline && r.pos == p + 1 && r.st.bytes == s.bytes + 1)
      && (buf[p] == CR && p + 1 < |buf| && buf[p + 1] == LF ==>
            r.tok == Newline && r.pos == p + 2 && r.st.tstate == LStart && r.st.bytes == s.bytes + 2)
      && (buf[p] == CR && p + 1 < |buf| && buf[p + 1] != LF ==>
            r.tok == Newline && r.pos == p + 1 && r.st.tstate == LStart && r.st.bytes == s.bytes + 1)
      && (buf[p] == CR && p + 1 == |buf| && !finish ==>
            r.tok == Unfinished && r.pos == p + 1 && r.st.tstate == LNewline0)
      && (buf[p] == CR && p + 1 == |buf| && finish ==>
            r.tok == Newline && r.pos == p + 1 && r.st.tstate == LStart)
      && (buf[p] != LF && buf[p] != CR ==>
            r.tok == BadToken && r.pos == p && r.st.bytes == s.bytes && r.st.tokenPos == s.tokenPos)
  {
    if buf[p] == CR {
      var f := FeedNewline(s, CR).(tstate := LNewline0);
      assert LexNewline(s, buf, p, finish) == LexNewline(f, buf, p + 1, finish);
    }
  }

  /**
   * A CR that ends a window read without finish leaves webvtt_lex_newline
   * UNFINISHED in L_NEWLINE0; the call on the next window b then returns
   * what one call on the joined window would have returned: NEWLINE over
   * CR LF, NEWLINE with the byte after the CR put back, or, with b empty,
   * NEWLINE under finish and UNFINISHED again without it.
   */
  lemma LexNewlineResumes(s: LexState, a: seq<bv8>, b: seq<bv8>, i: nat, finish: bool)
    requires Wf(s) && s.tstate == LStart && i + 1 == |a| && a[i] == CR && s.tokenPos + 2 < TOKEN_CAPACITY
    ensures var r1 := LexNewline(s, a, i, false);
      && r1.tok == Unfinished && r1.pos == |a| && r1.st.tstate == LNewline0
      && NewlineHeadroom(r1.st, b, 0)
      && var r2 := LexNewline(r1.st, b, 0, finish);
         LexNewline(s, a + b, i, finish) == r2.(pos := |a| + r2.pos)
  {
    assert (a + b)[i] == CR;
    var f := FeedNewline(s, CR).(tstate := LNewline0);
    assert LexNewline(s, a, i, false) == NewlineAfterReturn(f, a, |a|, false);
    assert LexNewline(s, a + b, i, finish) == NewlineAfterReturn(f, a + b, |a|, finish);
    if b != [] {
      assert (a + b)[|a|] == b[0];
    } else {
      assert a + b == a;
    }
  }

  /**
   * Called in L_START on a window with nothing left and no finish,
   * webvtt_lex_newline moves the cursor back by one, wrapping to the
   * largest 32-bit value when it was 0.
   */
  lemma LexNewlineEmptyWindow(s: LexState, buf: seq<bv8>, p: nat)
    requires Wf(s) && s.tstate == LStart && p >= |buf|
    ensures var r := LexNewline(s, buf, p, false);
      && r.tok == BadToken && r.st == s
      && (p > 0 ==> r.pos == p - 1) && (p == 0 ==> r.pos == 0xFFFF_FFFF)
  {
  }

  /**
   * The input "WE" in one final window: the lexer consumes both bytes,
   * resets at the end of the window and answers BADTOKEN with the cursor
   * at 2; webvtt_lex_word then copies the byte past the window and leaves
   * the cursor at 3, past the length of 2. Both letters are missing from
   * the word.
   */
  lemma WordReadsPastWindow(s: LexState, beyond: bv8)
    requires Wf(s) && s.tstate == LStart && s.tokenPos + 2 < TOKEN_CAPACITY
    ensures WordFits(s, [0x57, 0x45], 0, true)
    ensures var r := LexWordLoop(s, [0x57, 0x45], 0, true, beyond);
      r.pos == 3 && r.word == [beyond]
  {
    var buf: seq<bv8> := [0x57, 0x45];
    var f1 := Feed(s, 0x57);
    var s1 := f1.(tstate := LWebvtt0);
    var f2 := Feed(s1, 0x45);
    var s2 := f2.(tstate := LWebvtt1);
    assert Transition(f1, 0x57) == Next(s1);
    assert Transition(f2, 0x45) == Next(s2);
    LexNextStep(s, buf, 0, true, s1);
    LexNextStep(s1, buf, 1, true, s2);
    assert Lex(s2, buf, 2, true) == LexResult(BadToken, Reset(s2), 2);
  }

  /**
   * A keyword prefix broken off by another byte: for "WEx" with x not 'B',
   * webvtt_lex consumes "WE", backs up over x and answers BADTOKEN, so
   * webvtt_lex_word copies only x; "WE" is consumed but not in the word.
   */
  lemma WordDropsKeywordPrefix(s: LexState, x: bv8, finish: bool, beyond: bv8)
    requires Wf(s) && s.tstate == LStart && s.tokenPos + 3 < TOKEN_CAPACITY && x != 0x42
    ensures WordFits(s, [0x57, 0x45, x], 0, finish)
    ensures var r := LexWordLoop(s, [0x57, 0x45, x], 0, finish, beyond);
      r.pos == 3 && r.word == [x]
  {
    var buf: seq<bv8> := [0x57, 0x45, x];
    var b := KeywordPrefixRejected(s, x, finish);
    assert LexWordLoop(s, buf, 0, finish, beyond) == WordAfter(s, buf, 0, finish, beyond, LexResult(BadToken, b, 2));
    assert LexWordLoop(b, buf, 3, finish, beyond).word == [];
  }

  /** "WEx" with x not 'B': webvtt_lex stops at x with BADTOKEN, having consumed "WE". */
  lemma KeywordPrefixRejected(s: LexState, x: bv8, finish: bool) returns (b: LexState)
    requires Wf(s) && s.tstate == LStart && s.tokenPos + 3 < TOKEN_CAPACITY && x != 0x42
    ensures Fits(s, [0x57, 0x45, x], 0) && Lex(s, [0x57, 0x45, x], 0, finish) == LexResult(BadToken, b, 2)
  {
    var buf: seq<bv8> := [0x57, 0x45, x];
    var f1 := Feed(s, 0x57);
    var s1 := f1.(tstate := LWebvtt0);
    var f2 := Feed(s1, 0x45);
    var s2 := f2.(tstate := LWebvtt1);
    var f3 := Feed(s2, x);
    b := Backup(f3);
    assert Transition(f1, 0x57) == Next(s1);
    assert Transition(f2, 0x45) == Next(s2);
    assert Transition(f3, x) == Emit(BadToken, b, true);
    LexNextStep(s, buf, 0, finish, s1);
    LexNextStep(s1, buf, 1, finish, s2);
    LexEmitStep(s2, buf, 2, finish, BadToken, b, true);
  }

  /**
   * Without finish the corrected loop and the loop as written agree,
   * whatever lies past the window: the two differ only in the case
   * WordReadsPastWindow exhibits.
   */
  lemma {:induction false} LexWordFixedAgrees(s: LexState, buf: seq<bv8>, pos: nat, beyond: bv8)
    requires WordFits(s, buf, pos, false) && pos <= |buf|
    ensures LexWordLoopFixed(s, buf, pos, false) == LexWordLoop(s, buf, pos, false, beyond)
    decreases |buf| - pos
  {
    if pos < |buf| {
      var l := Lex(s, buf, pos, false);
      if l.tok == BadToken {
        LexWordFixedAgrees(l.st, buf, l.pos + 1, beyond);
      }
    }
  }
}
