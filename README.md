# libwebvtt lexer and cue records in Dafny

This project models two parts of libwebvtt, a C library that parses WebVTT
caption files:

- **The byte-level lexer** (`src/libwebvtt/lexer.c`).
  - `webvtt_lex` is a resumable automaton. It reads a window of bytes from a cursor and returns one token: `BOM`, `WEBVTT`, `NEWLINE`, `WHITESPACE`, or the signals `UNFINISHED` and `BADTOKEN`. It stores each byte it reads in the parser's 0x100-byte token buffer, and it keeps the line, column and byte counters.
  - `webvtt_lex_newline` reads one LF, CR LF or lone CR.
  - `webvtt_lex_word` collects the bytes the lexer rejects into a text run.
- **The cue record and its markup tree** (`src/libwebvtt/cue.c`): creating, validating and deleting a cue, the node constructors, attaching children, and the recursive deletion of a node tree.
- **The enums, capacities and macros** of `src/libwebvtt/parser_internal.h`.

The model has six modules:

- `ParserInternal` (`parser_internal.dfy`): token codes, lexer states, parse modes, state values, the two 0x100 capacities, `ASCII_ISDIGIT`, `BAD_TIMESTAMP` and the `ERROR_AT` family.
- `LexerSpec` (`lexer_spec.dfy`): the three lexer functions as pure functions on the lexer fields, `LexState`. The macros `BACKUP`, `RESET`, `RETURN`, `SET_NEWLINE` and `IF_OVERFLOW` are written out as `Backup`, `Reset`, `SetNewline` and the actions of `ActionOf`/`Apply`.
- `LexerLemmas` (`lexer_lemmas.dfy`): properties of those functions. They cover keywords, including a keyword split across two windows, newlines, whitespace runs and their overflow, the byte-order mark, `BACKUP`, the end of a window, and `webvtt_lex_word`.
- `Lexer` (`lexer.dfy`): the parser record as a class with the source's fields and an `array` token buffer.
  - `Lex`, `LexNewline` and `LexWord` are methods with the source's loops.
  - Each method is proved to leave the record exactly as the matching `LexerSpec` function says.
- `Nodes` (`nodes.dfy`): node records in an arena addressed by index, so that an address stands for a pointer.
  - The constructors and the attach operation update the arena in place.
  - Deletion appends to a log of releases: strings, class lists, concrete records and node records.
  - A `Tree` view of a node connects deletion to a post-order walk.
- `Cues` (`cue.dfy`): the cue record and the caller's cue handle.

The three libc calls `malloc`, `realloc` and `free` are modelled as follows:

- Allocation success is a boolean parameter (`allocOk`, `bodyOk`, `nodeOk`, `reallocOk`).
- A field the C code never writes is the value `Garbage` of `Slot`.
- A leaf record's `text` and `time_stamp` share one cell, `LeafCell`, which holds whichever value its constructor wrote.
- Writing through a null pointer is the outcome `NullWrite`.
- `webvtt_uint` counters are unbounded naturals.

## Model

| member | source | states |
|---|---|---|
| ParserInternal.TokenOfCode | src/libwebvtt/parser_internal.h:10-37 | a code that decodes to a token is that token's enum value |
| ParserInternal.TokenCodeRoundTrip | src/libwebvtt/parser_internal.h:10-37 | every token's code decodes back to that token |
| ParserInternal.TokenCodesSeparateSignals | src/libwebvtt/parser_internal.h:12-14 | BADTOKEN is -2 and UNFINISHED is -1; exactly the real tokens have codes >= 0; distinct tokens have distinct codes |
| ParserInternal.ParseModeCodesDistinct | src/libwebvtt/parser_internal.h:51-57 | M_WEBVTT is 0 and the four parse modes have distinct codes |
| ParserInternal.ValueType | src/libwebvtt/parser_internal.h:39-49 | each of the eight tags V_NONE, V_POINTER, V_INTEGER, V_CUE, V_TEXT, V_LNODE, V_INODE and V_TOKEN is the tag of a state value exactly when the value is of that kind, so the tag determines the kind |
| ParserInternal.IsAsciiDigitMatchesDigitChars | src/libwebvtt/parser_internal.h:6-8 | ASCII_ISDIGIT holds exactly for the bytes of '0'..'9' |
| ParserInternal.BadTimestampIsLargest | src/libwebvtt/parser_internal.h:249 | BAD_TIMESTAMP holds exactly for the 64-bit timestamp with no successor |
| ParserInternal.ErrorAt | src/libwebvtt/parser_internal.h:251-256 | with no error callback, or a callback that answers < 0, the caller returns WEBVTT_PARSE_ERROR; otherwise it goes on; a present callback receives line, column and code |
| Lexer.Parser.Error | src/libwebvtt/parser_internal.h:258 | ERROR reports at the parser's current line and column |
| Lexer.Parser.ErrorAtColumn | src/libwebvtt/parser_internal.h:260 | ERROR_AT_COLUMN reports at the current line and the given column |
| Lexer.Parser.constructor | src/libwebvtt/parser_internal.h:209-244 | the token buffer and the inline stack both hold 0x100 entries |
| LexerSpec.Feed | src/libwebvtt/lexer.c:285-289 | a byte read is stored at token_pos, the buffer stays NUL-terminated, and column and bytes advance by one |
| LexerSpec.Backup | src/libwebvtt/lexer.c:146-149 | BACKUP takes back the column and the last stored byte and returns to L_START, but does not decrement bytes |
| LexerSpec.Reset | src/libwebvtt/lexer.c:150-152 | RESET sets column 1, bytes and token_pos 0 and L_START, and keeps the line |
| LexerSpec.SetNewline | src/libwebvtt/lexer.c:141-142 | SET_NEWLINE moves to the next line at column 1 in L_START |
| LexerSpec.Apply | src/libwebvtt/lexer.c:137-141 | a returned token is never UNFINISHED and the state goes back to L_START; an unread byte takes back one stored byte; only NEWLINE moves the line |
| LexerSpec.EndOfWindow | src/libwebvtt/lexer.c:345-358 | at the end of the window without finish the state is kept and UNFINISHED returned; the line never moves there |
| LexerSpec.Lex | src/libwebvtt/lexer.c:280-359 | for any window whose bytes up to the end of the token fit in the token buffer: the cursor stays inside the window and never moves back; token_pos grows by at most the bytes read; only NEWLINE advances the line, by one; without finish, UNFINISHED means the window was used up and BADTOKEN means a byte inside it was put back |
| LexerSpec.LexNewline | src/libwebvtt/lexer.c:209-278 | the state stays L_START or L_NEWLINE0, and line and column are left to the caller |
| LexerSpec.LexWordLoop | src/libwebvtt/lexer.c:175-201 | the loop always succeeds, never moves the cursor back, gathers at most one byte per byte consumed, and keeps the line |
| LexerSpec.LexWord | src/libwebvtt/lexer.c:161-169 | a null output string gives WEBVTT_INVALID_PARAM with nothing consumed or changed, and only then |
| LexerSpec.WordContinues | src/libwebvtt/lexer.c:183-188 | a round whose lexer call answers BADTOKEN appends exactly the byte at the returned cursor to the run and goes on one byte further |
| LexerSpec.WordStops | src/libwebvtt/lexer.c:189-195 | a round whose lexer call answers anything else ends the loop with the cursor back where the round began and bytes, line and column as before the call |
| LexerLemmas.KeywordCompletes | src/libwebvtt/lexer.c:313-331 | from any of the states L_WEBVTT0..4, with room for the bytes of the keyword still to come, the rest of "WEBVTT" returns WEBVTT after exactly those bytes, each of them stored, whatever follows in the window |
| LexerLemmas.LexKeyword | src/libwebvtt/lexer.c:291-292 | "WEBVTT" read in L_START with token_pos below 250 returns WEBVTT after 6 bytes, whatever follows in the window, with column, bytes and token_pos up by 6 and the line kept |
| LexerLemmas.KeywordSuspends | src/libwebvtt/lexer.c:313-331 | a window that ends inside the keyword returns UNFINISHED with the cursor at the end and the state recording how far the keyword got |
| LexerLemmas.LexShift | src/libwebvtt/lexer.c:284-290 | the lexer reads only the bytes from the cursor on: prefixing the window shifts the result's cursor and changes nothing else |
| LexerLemmas.FitsUnshift | src/libwebvtt/lexer.c:284-290 | whether a call's bytes fit in the token buffer depends on the window only from the cursor on: a call that fits on a + b from |a| + j fits on b from j |
| LexerLemmas.LexNextStep | src/libwebvtt/lexer.c:284-290 | a byte that moves to another state leaves the call's result to the bytes after it, and the call fits exactly when the rest of it does |
| LexerLemmas.LexEmitStep | src/libwebvtt/lexer.c:137-141 | a byte that ends the token needs room for itself only, and the call returns at it, after it or, when it is put back, in front of it |
| LexerLemmas.LexResumesAcrossChunks | src/libwebvtt/lexer.c:280-359 | for any two windows a and b whose joined call fits: when lexing a ends UNFINISHED, lexing b from the saved state gives the same token and state as lexing a followed by b |
| LexerLemmas.KeywordSplitAnywhere | src/libwebvtt/lexer.c:313-331 | "WEBVTT" split at any inner point across two calls, followed by any bytes, is recognised as when it arrives whole |
| LexerLemmas.LexLineBreaks | src/libwebvtt/lexer.c:294-295 | in L_START, LF and CR LF each return NEWLINE after the break, and a CR followed by another byte returns NEWLINE after the CR; the line is up by one at column 1 |
| LexerLemmas.WhitespaceRunEnds | src/libwebvtt/lexer.c:338-341 | in L_WHITESPACE, a run of spaces and tabs ended by another byte returns WHITESPACE with the cursor on that byte, column up by the run's length and bytes up by one more |
| LexerLemmas.LexWhitespaceRun | src/libwebvtt/lexer.c:296 | the same for a run that starts in L_START |
| LexerLemmas.LexWhitespaceOverflow | src/libwebvtt/lexer.c:338-340 | with token_pos below 254, a run of blanks from L_START at least 255 - token_pos long, followed by anything, is cut after 255 - token_pos bytes into one WHITESPACE token, with token_pos at 255 |
| LexerLemmas.WhitespaceFills | src/libwebvtt/lexer.c:131-135 | in L_WHITESPACE, blanks are taken until token_pos reaches 255, and the blank that reaches it ends the token |
| LexerLemmas.LexBomAtStart | src/libwebvtt/lexer.c:303-308 | the byte-order mark as the stream's first three bytes is consumed and RESET, and lexing goes on after it; the call fits exactly when the rest of it does |
| LexerLemmas.LexBomElsewhere | src/libwebvtt/lexer.c:309 | a byte-order mark anywhere else returns BOM after three bytes |
| LexerLemmas.LexBackup | src/libwebvtt/lexer.c:138 | a byte that no transition accepts is put back: BADTOKEN with the cursor, column and token_pos restored, but bytes one higher |
| LexerLemmas.LexEndOfWindow | src/libwebvtt/lexer.c:349-358 | at the end of the window with finish and a non-empty token: WHITESPACE in L_WHITESPACE, otherwise RESET and BADTOKEN; with an empty token, or without finish, UNFINISHED with nothing changed |
| LexerLemmas.LexNewlineForms | src/libwebvtt/lexer.c:219-244 | LF, CR LF, lone CR, CR at the end of the window with and without finish, and any other byte (BADTOKEN, nothing consumed) |
| LexerLemmas.LexNewlineResumes | src/libwebvtt/lexer.c:219-263 | a CR that ends a window without finish gives UNFINISHED in L_NEWLINE0; the call on the next window then returns what one call on both windows returns, whether that window starts with LF, any other byte, or is empty |
| LexerLemmas.LexNewlineEmptyWindow | src/libwebvtt/lexer.c:262-267 | on an empty window in L_START, lex_newline answers BADTOKEN and moves the cursor back by one, wrapping to 0xFFFFFFFF from 0 |
| LexerLemmas.WordReadsPastWindow | src/libwebvtt/lexer.c:183-188 | lex_word on window "WE" with finish reads the byte past the window into the word |
| LexerLemmas.WordDropsKeywordPrefix | src/libwebvtt/lexer.c:183-188 | on "WEx", the prefix "WE" is consumed but not put in the word, which holds only x |
| LexerSpec.LexWordLoopFixed | src/libwebvtt/lexer.c:175-201 | the corrected loop never moves the cursor past the window, finish or not, and each byte of the word costs a byte of input |
| LexerLemmas.LexWordFixedAgrees | src/libwebvtt/lexer.c:175-201 | without finish, the corrected loop agrees with the loop as written on every window |
| Lexer.Parser.Lex | src/libwebvtt/lexer.c:280-359 | the method leaves the parser record, token and cursor exactly as LexerSpec.Lex computes them |
| Lexer.Parser.LexNewline | src/libwebvtt/lexer.c:209-278 | the method leaves the record exactly as LexerSpec.LexNewline computes it |
| Lexer.Parser.LexWord | src/libwebvtt/lexer.c:161-201 | the method's status, word, record and cursor are exactly those of LexerSpec.LexWord |
| Nodes.FreshInternal | src/libwebvtt/cue.c:103-107 | a new internal record holds the given class list and annotation and no children, with capacity 0 |
| Nodes.AttachBody | src/libwebvtt/cue.c:210-221 | the child is appended after all earlier children; a full array grows by 4; only a full array with a failed realloc fails, leaving the node unchanged; count <= alloc is kept |
| Nodes.AttachesGrowByFour | src/libwebvtt/cue.c:210-219 | n attaches to a fresh node keep the children in order, with a capacity that is the least multiple of 4 holding them |
| Nodes.AttachBodyAsWritten | src/libwebvtt/cue.c:210-219 | as written, a failed realloc nulls the array after alloc was raised by 4; a later attach writes through null exactly when the array is null but not full |
| Nodes.AttachAsWrittenLosesChildren | src/libwebvtt/cue.c:212-216 | a failed realloc loses every child the node held |
| Nodes.AttachAsWrittenThenNullWrite | src/libwebvtt/cue.c:210-219 | a fresh node whose first attach fails writes through null on the next attach |
| Nodes.AttachNeverWritesThroughNull | src/libwebvtt/cue.c:210-219 | after the corrected attach, whatever the allocator answers, no attach writes through null |
| Nodes.HeadBodyAsWritten | src/libwebvtt/cue.c:112-126 | the head record as written leaves css_classes_ptr unwritten |
| Nodes.HeadBody | src/libwebvtt/cue.c:112-126 | the corrected head record is fully written, with no children |
| Nodes.TextLeafAsWritten | src/libwebvtt/cue.c:141-154 | as written, a successful malloc returns OUT_OF_MEMORY and a failed one is written through |
| Nodes.TextLeafAsWrittenNeverSucceeds | src/libwebvtt/cue.c:146-152 | the text-leaf constructor as written never creates a node |
| Nodes.FreesEachNodeOnce | src/libwebvtt/cue.c:156-200 | deleting a tree frees the node records in post order: each node once, children before their parent |
| Nodes.InitialisedTreeReleasesCleanly | src/libwebvtt/cue.c:156-200 | deleting a tree built by the corrected constructors, with the corrected leaf deletion, hands neither an unwritten field nor a time stamp to the string library |
| Nodes.LeafReleasesAsWritten | src/libwebvtt/cue.c:191-200 | as written, deleting a leaf reads its cell as text whatever its kind: a TIME_STAMP leaf's time stamp is released as a string exactly when it is not zero; the record is freed last |
| Nodes.LeafReleasesAgree | src/libwebvtt/cue.c:191-200 | the leaf deletion as written and the corrected one release the same things exactly unless the leaf holds a non-zero time stamp |
| Nodes.HeadAsWrittenReleasesGarbage | src/libwebvtt/cue.c:180 | deleting a head node built as written releases an unwritten class-list pointer |
| Nodes.TimeStampLeafAsWrittenReleasesStamp | src/libwebvtt/cue.c:196-197 | deleting a TIME_STAMP leaf with a non-zero time stamp as written hands the time stamp to the string library |
| Nodes.NodeArena.constructor | src/libwebvtt/cue.c:79-93 | the arena starts with no node records and an empty release log |
| Nodes.NodeArena.CreateNode | src/libwebvtt/cue.c:79-93 | on success, a new record with the given concrete record, kind and parent, whose address is returned; on failure, OUT_OF_MEMORY with nothing written |
| Nodes.NodeArena.CreateInternalNode | src/libwebvtt/cue.c:95-110 | either malloc failing gives OUT_OF_MEMORY and no node; otherwise a new internal node with no children |
| Nodes.NodeArena.CreateHeadNode | src/libwebvtt/cue.c:112-126 | the corrected constructor: a new HEAD node with a null class list, no parent and no children, or OUT_OF_MEMORY |
| Nodes.NodeArena.CreateTimeStampLeaf | src/libwebvtt/cue.c:128-139 | a new TIME_STAMP leaf whose cell holds the time stamp, or OUT_OF_MEMORY |
| Nodes.NodeArena.CreateTextLeaf | src/libwebvtt/cue.c:141-154 | the corrected constructor: a new TEXT leaf holding the string, or OUT_OF_MEMORY with no node |
| Nodes.NodeArena.Attach | src/libwebvtt/cue.c:202-222 | a null argument gives WEBVTT_INVALID_PARAM with nothing changed; otherwise only the target node's record changes, as AttachBody says |
| Nodes.NodeArena.DeleteNode | src/libwebvtt/cue.c:156-171 | null releases nothing; otherwise the releases of the whole subtree, the node record last |
| Nodes.NodeArena.DeleteInternal | src/libwebvtt/cue.c:173-189 | class list, annotation if present, each of the first count children in order, then the record |
| Nodes.NodeArena.DeleteChildren | src/libwebvtt/cue.c:185-186 | the loop deletes the children in index order |
| Nodes.NodeArena.DeleteLeaf | src/libwebvtt/cue.c:191-200 | the corrected deletion: the string of a TEXT leaf if not null, then the record, as LeafReleases says |
| Cues.ValidateCue | src/libwebvtt/cue.c:56-77 | 1 exactly for a non-null cue whose until is after its from, 0 otherwise |
| Cues.FreshCueDoesNotValidate | src/libwebvtt/cue.c:13-36 | a freshly created cue does not validate; with times set, it validates exactly when from < until |
| Cues.CueHandle.constructor | src/libwebvtt/cue.c:6 | the handle holds the given cue pointer |
| Cues.CreateCue | src/libwebvtt/cue.c:5-40 | a null handle gives WEBVTT_INVALID_PARAM; a failed allocation gives OUT_OF_MEMORY with the handle untouched; otherwise the zero-filled cue with snap-to-lines, position 50, size 100, middle alignment, line auto and horizontal writing |
| Cues.CueReleasesAsWritten | src/libwebvtt/cue.c:45-53 | as written: id, payload, the record freed, then node_head read and the tree deleted; the corrected releases with only the read of node_head moved |
| Cues.DeleteCueAsWrittenReadsFreedCue | src/libwebvtt/cue.c:51-52 | as written, the cue record is read after it is freed |
| Cues.DeleteCueReleasesCleanly | src/libwebvtt/cue.c:42-54 | the corrected deletion reads nothing freed, releases no unwritten field, and frees each node of the markup tree once |
| Cues.DeleteCue | src/libwebvtt/cue.c:42-54 | a null handle or null cue changes nothing; otherwise the handle is nulled and id, payload, record and markup tree are released, node_head read first |

## Left out

- LexerSpec.Lex: requires `Fits`, room in the token buffer for each byte the call stores before it returns; the bytes of the window after the token are not counted. The source writes `token[token_pos++]` with no bound check outside the whitespace state, and `RETURN` does not reset `token_pos`, so the overrun of the 0x100-byte buffer is not modelled: from L_START with token_pos 254, a blank moves to L_WHITESPACE at 255 and a second blank writes `token[256]`. The parser that resets `token_pos` between tokens is not part of this model.
- LexerSpec.LexNewline: requires room for the (at most two) bytes it stores, for the same reason.
- LexerSpec.LexWordLoop: requires `WordFits`, which asks the same of each lexer call the loop makes; a byte a round rejects is taken back out of the buffer, so only what the rounds keep adds up.
- Lexer.Parser.Lex, Lexer.Parser.LexNewline, Lexer.Parser.LexWord: these carry the requirements of the functions they implement.
- `webvtt_uint` wrap-around of `bytes`, `line`, `column` and `token_pos` is not modelled; they are unbounded naturals. The one wrap that matters, the cursor going from 0 to 0xFFFFFFFF in `webvtt_lex_newline`, is modelled by `Predecessor`.
- `DIE_IF` in `webvtt_lex_newline` is a precondition (state L_START or L_NEWLINE0), not an abort.
- The `default` branch of its switch cannot be reached under that precondition and is left out.
- Lexer states without transitions in `webvtt_lex` (every state but L_START, L_BOM0, L_BOM1, L_WEBVTT0 … L_WEBVTT4, L_NEWLINE0 and L_WHITESPACE, so L_WEBVTT5, L_DASH0, L_SEP1, L_DIGIT0 and L_POSITION0 … L_LEFT2) are listed in `LexerState`. In `webvtt_lex` they fall through the switch and keep reading. The model treats them like this: the byte is consumed and the state kept.
- `webvtt_string_putc` in `webvtt_lex_word` is assumed to succeed, so its out-of-memory path is not modelled. The word is a byte sequence, not a `webvtt_string`.
- The error callback is passed to `ErrorAt` as its answer (an optional int). The user data and the callback itself are not modelled.
- The parse-state stack's overflow to the heap (`stack`, `stack_alloc`), parser creation, `webvtt_parse_chunk` and the grammar routines declared in parser_internal.h are outside this core. The same goes for the `read` callback and the string library.
- Nodes.NodeArena.CreateInternalNode, CreateHeadNode, CreateTimeStampLeaf, CreateTextLeaf: when the second malloc fails, the first record leaks. The model records no leak; it only returns OUT_OF_MEMORY with no node.
- Node kinds are a datatype, not the C enum's numeric codes. `WEBVTT_IS_VALID_LEAF_NODE` and `WEBVTT_IS_VALID_INTERNAL_NODE` become `IsLeafKind` and `IsInternalKind`. Any other code is `Unknown`, and deleting such a node frees only the node record.
- Nodes.FreesEachNodeOnce: a child shared by two parents would be freed twice. The lemma counts occurrences in the tree, which are distinct exactly when each node has one owner. Sharing is not ruled out by the model.
- Pointer casts between `webvtt_node` and its concrete record are modelled as the `body` field of a `NodeRec`.
- The leaf record's declaration is not part of this model. Its `text` and `time_stamp` are taken to share storage, as the members of a union do, and a time stamp read as a text pointer is taken to be its whole 64-bit value. The corrected leaf deletion is right whether or not the two fields share storage.

## Findings

| source | as written | input that shows it | evidently intended | confidence | as-written member | corrected member |
|---|---|---|---|---|---|---|
| src/libwebvtt/lexer.c:183-188 | on BADTOKEN, lex_word reads `buffer[pos]` even when the lexer left `pos == length` | window "WE" with finish set: the lexer RESETs and answers BADTOKEN at the end of the window, and the byte past it is appended | read a byte only while `pos < length` | not executed | LexerLemmas.WordReadsPastWindow | LexerSpec.LexWordLoopFixed |
| src/libwebvtt/cue.c:146-147 | `if( leaf_node_ptr ) return WEBVTT_OUT_OF_MEMORY;` | any call: a successful malloc returns OUT_OF_MEMORY and leaks, and a failed one is written through | `if( !leaf_node_ptr )`, and return the status of webvtt_create_node | not executed | Nodes.TextLeafAsWrittenNeverSucceeds | Nodes.NodeArena.CreateTextLeaf |
| src/libwebvtt/cue.c:212-216 | alloc is raised before realloc, and its null result overwrites `children` | a fresh node whose first attach finds realloc failing; the next attach writes through null | keep the old array and alloc when realloc fails | not executed | Nodes.AttachAsWrittenThenNullWrite | Nodes.AttachNeverWritesThroughNull |
| src/libwebvtt/cue.c:115-125 | the head node's `css_classes_ptr` is never written | create a head node, then delete it: an uninitialised pointer goes to webvtt_delete_string_list | set it to NULL | not executed | Nodes.HeadAsWrittenReleasesGarbage | Nodes.InitialisedTreeReleasesCleanly |
| src/libwebvtt/cue.c:191-197 | webvtt_delete_leaf_node reads `text` whatever the leaf's kind | create a TIME_STAMP leaf with a non-zero time stamp, then delete it: the time stamp's bits go to webvtt_delete_string as a pointer | release `text` only for a TEXT leaf | not executed | Nodes.TimeStampLeafAsWrittenReleasesStamp | Nodes.InitialisedTreeReleasesCleanly |
| src/libwebvtt/cue.c:51-52 | `cue->node_head` is read after `webvtt_free( cue )` | any non-null cue | read node_head before freeing the record | not executed | Cues.DeleteCueAsWrittenReadsFreedCue | Cues.DeleteCueReleasesCleanly |
