# Regular expressions and process accounting, verified

A Dafny model of two parts of this operating system, with proofs of what they promise:

* the `compile` / `step` / `advance` regular-expression engine of `usr/src/head/regexp.h`;
* programs of the accounting system in `usr/src/cmd/acct`: `acctcon` (login sessions), `wtmpfix` (clock
  changes), `acctmerg` (merging and summing), `acctcms` (command summaries), `acctprc1` (names of processes)
  and `diskusg` (disk usage per user);
* the carriage-control filter `usr/src/cmd/asa/asa.c`.

`dafny verify dfyconfig.toml` checks everything.

## The regular-expression engine

A pattern goes through four forms, and each step is proved to keep its meaning.

1. *Text* (`RegexpSyntax`): how the text divides into pieces and how pieces build a sequence of items, with
   the error numbers passed to `ERROR`.
2. *Tree* (`RegexpTree`): atoms, groups and back-references. `Eval` is the meaning: a tree is matched under a
   list of repetition counts, one for each repeated element from left to right, and a list of counts determines
   at most one match and its captures.
3. *Program* (`RegexpCode`, `RegexpMeaning`): the flat instructions.
4. *Bytes* (`RegexpCode`, `RegexpEmit`): what `compile` writes and `advance` reads.

Two of these forms have a second, independent definition. `RegexpNotation` is the pattern language as a grammar on
stretches of text, however a piece is written, with what each error number means. `RegexpWords` gives the words a
tree matches, without positions and counts and with all numbers written out.

`RegexpCompiler` is `compile`: one pass over the text, writing into a buffer and patching the last opcode in
place. `RegexpMatcher` is `advance` and `step`: a backtracking interpreter over the bytes with capture tables
that are never restored. Main results:

* For every text and buffer size the outcome of `compile` is determined: the first error, or the encoding of the
  parsed pattern, exactly if it fits (`Compiler.Compile`, `SizedIsParse`). If the pattern is one that `advance` can
  execute, the bytes decode to its balanced program (`CodeDecodes`).
* `advance` returns what an exhaustive search over counts returns. It fails only if every choice of counts
  fails, and otherwise follows the lexicographically greatest choice that does not: each repeated element, left
  to right, takes the most it can (`Matcher.Advance`, `SearchMeaning`).
* `step` reports the leftmost such match, with or without its first-character shortcut (`Matcher.Step`).
* Captures never leak from failed branches: a call changes only table entries of groups opened or closed at or
  after its program point, and after a match every entry is the span of the matching path (`Matcher.Advance`,
  `CapturesAll`).
* `Find` composes all this from text to reported match.
* The reader finds a piece exactly where the grammar has one (`PieceExactly`), and a text is accepted exactly if it
  divides into such pieces (`PatternExactly`). Some choice of counts matches a stretch of the subject exactly if that
  is a word of the tree (`WordExactly`); a reported match is one, none begins before it, and there is none where no
  match is reported (`MatchIsWord`, `NoMatchNoWord`).
* `advance` terminates except in one case: a starred back-reference to an empty capture, where it repeats for
  ever. The model makes that an outcome of its own (`Hang`, `Never`, `NoAnswer`), and `HangsExactly` and
  `TextHangsExactly` decide from the tree alone whether any subject can cause it.
* Every spellable tree is what its spelling parses to (`SpellingRoundTrip`), and the items of an accepted text are
  spellable exactly if none is patched (`SpellableExactly`).

Three remarks on the source.

* The test for back-references (`usr/src/head/regexp.h:277`) counts closed groups without asking which ones:
  `\(\(a\)\1\)` is accepted although group 1 is still open (`OpenReference`, `CompileOpenReference`). An accepted
  pattern refers back only to closed groups exactly if no reference stands between the brackets of its own group
  (`ScopedExactly`, `ParseScoped`).
* An interval is accepted after anything. On a group bracket, a back-reference or another interval it makes an
  instruction that `advance` does not know; the model calls it `Patched` and follows its bytes.
* The buffer test at `usr/src/head/regexp.h:103` is made once per piece, but most pieces write two bytes. A piece
  that begins at the last free byte and writes two puts the second at `endbuf`; nothing else does, and an error
  always follows. `Spill` gives the byte, `Compiler.Compile` proves that it, and no other byte from `endbuf` on, is
  written, and `SpillExample` is the pattern `a` with one byte of space.

## The accounting programs

* `AcctConSpec`, `AcctConLaws`, `AcctCon`: connect time is conserved between lines and users over every run, and
  setting the clock in the middle of a log changes no account.
* `AcctHistory`: the same tables from the log alone, by looking back from a record to the one before it on its line and
  to the changes of the clock in between. After every log each line and every session is what this says
  (`HistoryExactly`), and each user has the prime and the non-prime time of their own sessions (`UsersExactly`).
* `WtmpFix`: the two passes over an interval list give what one backward scan would, and bring the records of
  one boot onto one clock exactly when the changes made between them in single-user mode sum to 0.
* `AcctSkew`, `AcctNight`, `AcctPipeline`: the header of `wtmpfix.c` says that it removes date changes, but it writes
  them out again, and `acctcon`, which reads its output in the nightly run, applies them a second time. The two
  programs also differ about names: `wtmpfix` renames a bad one to `INVALID`, and `acctcon` passes the record over.
  `NightExactly` says for every log, with any names, boots and number of changes, exactly when the accounts come out
  the same after every record. A renamed login or logout always makes them differ (`RenamedLogin`,
  `RenamedExample`); they may agree again later (`MendedExample`).
* For a log with one change, all of whose records `acctcon` accepts, `CorrectedTwice` gives the condition on the log
  itself: for each line, the first record after the change must end no session and be too early for both clocks or
  for neither. Otherwise the session comes out short by the change, or is not ended and one more bad time is reported
  (`TouchedLate`). The boot before the change has the same effect, because it is moved and the sessions open at it
  are not. `TwiceExample` is a log. By `CorrectedOnce`, dropping the two records would mend what comes after the
  change, but not the effect of the boot: accounts that differ when the clock has been set differ in the end.
* `AcctMergSpec`, `AcctMergLaws`, `AcctMerg`: for any streams, what is written of each group is what was read of
  it; for sorted streams, keys strictly increase and each record is the sum of its group.
* `Probing`: circular linear probing, shared by `AcctCms*` and `DiskUsg`, whose tables are proved to be maps. The
  command summary is made exactly if the names, with `***other`, are no more than the cells.
* `AcctPrc1`: a search that stops early finds what an exhaustive search would, except for users whose sessions had
  all ended by time 0 and for negative uids. The tables suffice exactly for fewer sessions and changes of user than
  they have entries.
* `Asa`: a one-bit delayed newline gives what the lines, one by one, should give.

## How the source is read

* `GETC`, `PEEKC`, `UNGETC`, `ERROR` and `RETURN` are a cursor over the text, which holds no NUL and is followed
  by one. Reading beyond that NUL is the failure `Overrun`. Characters are taken as unsigned in text and subject.
* `x |= bittab[k]`, `x ^= 0377` and `x &= 0376` are written as arithmetic on 0..255 (`OrBitAdds`).
* `locs` is not set.
* Floats are reals, and counters and times are unbounded integers.
* `pnpsplit` is any division of a time into two parts; `namtouid` is any function; `tsearch` keeps users in
  order of uid.
* Printing, option parsing and file handling become input and output sequences.

## Model

| member | source | states |
|---|---|---|
| `RegexpBits.OrBitAdds` | usr/src/head/regexp.h:40 | setting a bit adds its bittab value exactly if the bit was clear |
| `RegexpBits.BitmapHas` | usr/src/head/regexp.h:41 | ISTHERE on the bit table of a set is membership, for every byte |
| `RegexpCode.LowerExact` | usr/src/head/regexp.h:142-211 | for every bracket expression and byte, the test of the emitted CCL, NCCL or CXCL agrees with set membership, and NUL never matches |
| `RegexpCode.NegatedFormsAgree` | usr/src/head/regexp.h:196-207 | the 16-byte negated table decides the same set as the inverted 32-byte one |
| `RegexpCode.DecodeEncode` | usr/src/head/regexp.h:64-293 | decoding inverts encoding for every program without patched instructions, wherever it stands in a buffer |
| `RegexpCode.MarkedIsOr` | usr/src/head/regexp.h:133-235 | the arithmetic on opcodes is the or with STAR or RNGE |
| `RegexpCode.ScopedFresh` | usr/src/head/regexp.h:401-409 | a balanced program never reopens a group met before it, nor closes one twice |
| `RegexpSearch.RepeatCounts` | usr/src/head/regexp.h:411-543 | the possible counts of a repeated element are exactly those from its least to its greatest, for STAR, RNGE and starred back-references |
| `RegexpSearch.SearchIsRun` | usr/src/head/regexp.h:352-555 | a search that does not fail is the run under the counts it settled on |
| `RegexpSearch.SearchIsGreediest` | usr/src/head/regexp.h:495-552 | every choice of counts that does not fail is found or passed over for a lexicographically greater one |
| `RegexpMeaning.RunTree` | usr/src/head/regexp.h:352-555 | a compiled tree, before any program and under every choice of counts, runs as the tree means |
| `RegexpMatcher.EcmpIsCopy` | usr/src/head/regexp.h:484-492 | strncmp of a captured text succeeds exactly where a copy of it stands, and reads nothing past the terminator |
| `RegexpMatcher.ReadyKept` | usr/src/head/regexp.h:401-409 | entries left behind by a failed call cannot be read by the next attempt |
| `RegexpMatcher.Matcher.GetRange` | usr/src/head/regexp.h:558-568 | low is the lower limit; low and size together are the upper one, or size is 20000 when there is none |
| `RegexpMatcher.Matcher.ScanStar` | usr/src/head/regexp.h:510-543 | the cursor ends one past the longest run, never beyond the terminator's successor |
| `RegexpMatcher.Matcher.ScanRange` | usr/src/head/regexp.h:411-482 | fails exactly if fewer than low repetitions are there; otherwise the cursor ends one past the longest allowed run, whichever way the loop ends |
| `RegexpMatcher.Matcher.ScanExtra` | usr/src/head/regexp.h:411-482 | the cursor ends one past the longest run of at most size more |
| `RegexpMatcher.Matcher.ScanCopies` | usr/src/head/regexp.h:495-500 | the cursor ends after the greatest number of copies of the capture |
| `RegexpMatcher.Matcher.RetryStar` | usr/src/head/regexp.h:545-552 | backing off tries every count from the greatest to the least and reports the first success, leaving earlier captures alone |
| `RegexpMatcher.Matcher.RetryCopies` | usr/src/head/regexp.h:502-507 | the same, copy by copy, after a starred back-reference |
| `RegexpMatcher.Matcher.Exec` | usr/src/head/regexp.h:356-409 | an instruction without repetition moves cursor, captures and program point as specified, or fails |
| `RegexpMatcher.Matcher.RepeatCopies` | usr/src/head/regexp.h:495-507 | CBACK with STAR and all that follows, including the case that never returns |
| `RegexpMatcher.Matcher.RepeatStar` | usr/src/head/regexp.h:510-552 | a starred element and all that follows |
| `RegexpMatcher.Matcher.RepeatRange` | usr/src/head/regexp.h:411-482 | an element with an interval and all that follows |
| `RegexpMatcher.Matcher.Advance` | usr/src/head/regexp.h:334-556 | on every decodable, scoped program: the result, loc2 and captures of the greedy search; only entries of groups at or after the program point change; it terminates |
| `RegexpMatcher.FirstCharDiffers` | usr/src/head/regexp.h:311-323 | a program that begins with CCHR fails wherever the subject has another character |
| `RegexpMatcher.Matcher.Step` | usr/src/head/regexp.h:295-332 | loc1 is the least position where the search does not fail, or the first when anchored; on failure no position matches |
| `RegexpGrammar.ExtendOk` | usr/src/head/regexp.h:102-292 | every piece keeps the books of open and closed groups |
| `RegexpNotation.PieceExactly` | usr/src/head/regexp.h:102-290 | for every text, a piece is read from i to next exactly if the grammar says that this stretch writes it: letters as themselves or escaped, brackets, intervals in any decimal notation, groups, references, `$` before the end |
| `RegexpNotation.StopExactly` | usr/src/head/regexp.h:108-128 | reading stops exactly at the delimiter, or at a newline unless sed |
| `RegexpNotation.PatternExactly` | usr/src/head/regexp.h:102-292 | a text is accepted with these items exactly if it divides into pieces that make them |
| `RegexpNotation.LiteralAsterisk` | usr/src/head/regexp.h:129-134 | an asterisk first or after a group bracket stands for itself |
| `RegexpNotation.GroupsRead` | usr/src/head/regexp.h:216-282 | nine groups can be opened, each numbered in turn; the innermost is closed; a reference to one of the closed ones is taken |
| `RegexpNotation.LowerErrors` | usr/src/head/regexp.h:237-265 | no number is error 16, one above 254 is error 11, no closing brace is error 45 |
| `RegexpNotation.UpperErrors` | usr/src/head/regexp.h:247-265 | the same after the comma; a second comma is error 44, limits in the wrong order are error 46 |
| `RegexpNotation.BracketErrors` | usr/src/head/regexp.h:156-159 | a bracket expression that is not closed is error 49, or runs past the end after a hyphen |
| `RegexpNotation.NewlineErrors` | usr/src/head/regexp.h:128-270 | error 36 is exactly an escaped newline, or any newline in sed |
| `RegexpNotation.GroupErrors` | usr/src/head/regexp.h:216-282 | a tenth group is error 43, an unbalanced one error 42, a reference to more groups than are closed error 25 |
| `RegexpGrammar.OpenExactly` | usr/src/head/regexp.h:216-230 | the groups on the stack are those opened and not closed since |
| `RegexpGrammar.ScopedExactly` | usr/src/head/regexp.h:275-282 | balanced items are well scoped exactly if none is patched and no reference stands between the brackets of its own group |
| `RegexpGrammar.ParseScoped` | usr/src/head/regexp.h:102-292 | the items of every accepted text are well formed, and scoped exactly if supported |
| `RegexpGrammar.TreeOfFlattens` | usr/src/head/regexp.h:216-230 | the items of an accepted pattern form a tree, and lose nothing by it |
| `RegexpEmit.EmitIsEncode` | usr/src/head/regexp.h:102-292 | bytes written item after item, with CCEOF, are the encoded program |
| `RegexpEmit.StarBytes` | usr/src/head/regexp.h:133 | patching the opcode of any item gives the bytes of the starred item |
| `RegexpEmit.RangeBytes` | usr/src/head/regexp.h:235-264 | patching it and adding the limits gives the bytes of the item with an interval, whatever the item |
| `RegexpEmit.PackByteOr` | usr/src/head/regexp.h:40 | PLACE(c) on the byte of a set gives the byte of the set with c |
| `RegexpSized.MeetsIsWide` | usr/src/head/regexp.h:161-180 | the second buffer test of a bracket expression is made exactly if the expression needs the long table |
| `RegexpSized.SizedIsParse` | usr/src/head/regexp.h:102-292 | with limited space an accepted text compiles exactly if its code fits, and is error 50 otherwise; a wrong text keeps its error or is error 50 |
| `RegexpSized.SecondAdds` | usr/src/head/regexp.h:214-290 | the pieces that write a second byte are exactly those that lengthen the code by two, and that is the byte |
| `RegexpSized.SpillFails` | usr/src/head/regexp.h:103-104 | if a byte is written at endbuf, an error follows |
| `RegexpSized.SpillExample` | usr/src/head/regexp.h:289-290 | the pattern a, with one byte of space, writes its a at endbuf and is error 50 |
| `RegexpCompiler.TableInvert` | usr/src/head/regexp.h:197-201 | inverting the long table and clearing its lowest bit gives the table of all other letters |
| `RegexpCompiler.Compiler.Place` | usr/src/head/regexp.h:40 | the table of a set becomes the table of the set with c, in place |
| `RegexpCompiler.Compiler.PlaceSpan` | usr/src/head/regexp.h:182-188 | a range adds exactly its members; a descending one only its end |
| `RegexpCompiler.Compiler.Widen` | usr/src/head/regexp.h:161-168 | the table grows to 32 bytes and holds the same set, unless the buffer is too short |
| `RegexpCompiler.Compiler.Negate` | usr/src/head/regexp.h:196-207 | opcode and table of the negated expression |
| `RegexpCompiler.Compiler.ReadSpan` | usr/src/head/regexp.h:157-187 | one member, range or trailing hyphen, or the error |
| `RegexpCompiler.Compiler.ReadMembers` | usr/src/head/regexp.h:156-194 | the table of exactly the members read, or the error that comes first: error 50 at the first long member without space, or that of the text |
| `RegexpCompiler.Compiler.Bracket` | usr/src/head/regexp.h:142-211 | the bytes of the expression are appended exactly if they fit; nothing from endbuf on is written |
| `RegexpCompiler.Compiler.ReadNumber` | usr/src/head/regexp.h:238-245 | the decimal number up to a backslash or comma, or error 16 |
| `RegexpCompiler.Compiler.ReadLimits` | usr/src/head/regexp.h:237-265 | both limits are appended, or the error of the interval; the byte at endbuf is written exactly if the second limit falls there and is reached |
| `RegexpCompiler.Compiler.StarLast` | usr/src/head/regexp.h:129-134 | patching the last opcode turns the code of the last item into that of the starred item |
| `RegexpCompiler.Compiler.RangeLast` | usr/src/head/regexp.h:232-266 | patching it and appending the limits gives the last item with its interval, whatever the item |
| `RegexpCompiler.Compiler.Literal` | usr/src/head/regexp.h:286-290 | a literal character is appended |
| `RegexpCompiler.Compiler.Open` | usr/src/head/regexp.h:216-222 | the next group is opened, or error 43 |
| `RegexpCompiler.Compiler.Close` | usr/src/head/regexp.h:224-230 | the innermost open group is closed, or error 42 |
| `RegexpCompiler.Compiler.BackReference` | usr/src/head/regexp.h:275-282 | a back-reference is appended exactly if its number is at most that of the closed groups, otherwise error 25 |
| `RegexpCompiler.Compiler.Asterisk` | usr/src/head/regexp.h:129-134 | a literal after nothing or a group bracket, otherwise a repetition |
| `RegexpCompiler.Compiler.Escape` | usr/src/head/regexp.h:213-283 | what follows a backslash is compiled as the piece it is |
| `RegexpCompiler.Compiler.Finish` | usr/src/head/regexp.h:108-113 | CCEOF ends the code; error 42 if a group is open |
| `RegexpCompiler.Compiler.Piece` | usr/src/head/regexp.h:102-291 | one turn of the loop extends code and state by the piece at the cursor, or stops with its error; it writes at endbuf exactly if it starts at the last free byte and writes two |
| `RegexpCompiler.Compiler.Compile` | usr/src/head/regexp.h:64-293 | for every text and size: the first error, or the encoding of the pattern and its length; and the byte at endbuf is the one given by Spill, or untouched, as are all after it |
| `RegexpTheorems.CodeDecodes` | usr/src/head/regexp.h:64-293 | code of a supported pattern decodes to the program of its tree, balanced and ending in CCEOF |
| `RegexpTheorems.SearchMeaning` | usr/src/head/regexp.h:334-556 | the search is sound, complete and lexicographically greediest for the tree's meaning |
| `RegexpTheorems.LexLeAntisymmetric` | usr/src/head/regexp.h:495-552 | the greediest choice of counts is unique |
| `RegexpTheorems.CapturesAll` | usr/src/head/regexp.h:401-409 | a match captures exactly the pattern's groups, each inside the match |
| `RegexpTheorems.StepMeaning` | usr/src/head/regexp.h:295-332 | what step reports, in terms of the tree: the leftmost position that does not fail, its greediest match, or, exactly if following it never ends, no answer |
| `RegexpTheorems.Find` | usr/src/head/regexp.h:64-332 | from any text to reported match: leftmost, greediest, with its captures; or no match; or no answer, exactly if the greediest choice at the leftmost position never ends; or the exact error; or, exactly if the pattern is not supported, no statement |
| `RegexpWords.BelongsExactly` | usr/src/head/regexp.h:182-188 | an element has every letter, one letter, or those of a bracket: what lies between the ends of a range, and its upper end |
| `RegexpWords.TimesExactly` | usr/src/head/regexp.h:558-568 | an interval allows the counts from its lower to its upper limit, or up to 20000 more than the lower one |
| `RegexpWords.CopiesExactly` | usr/src/head/regexp.h:484-492 | copies of a capture follow exactly if a power of it does |
| `RegexpWords.WordExactly` | usr/src/head/regexp.h:334-556 | some choice of counts matches the subject from i to j, with these captures, exactly if that is a word of the tree |
| `RegexpWords.MatchIsWord` | usr/src/head/regexp.h:295-332 | a reported match and its groups are a word of the pattern, and no word begins before it |
| `RegexpWords.NoMatchNoWord` | usr/src/head/regexp.h:295-332 | if no match is reported, there is no word where one is looked for |
| `RegexpWords.IntervalWords` | usr/src/head/regexp.h:411-482 | the words of a letter with an interval are its repetitions between the limits |
| `RegexpTermination.PathBounded` | usr/src/head/regexp.h:495-507 | every path is at least as wide as surveyed, and can only repeat for ever where the survey says so |
| `RegexpTermination.PathTight` | usr/src/head/regexp.h:495-507 | no path of the least width gets past a starred back-reference to a group that may be empty |
| `RegexpTermination.HangsOnSample` | usr/src/head/regexp.h:495-507 | a subject on which the search does not return |
| `RegexpTermination.HangsExactly` | usr/src/head/regexp.h:495-507 | some subject makes the search not return exactly if the tree says so |
| `RegexpTermination.UnansweredExactly` | usr/src/head/regexp.h:295-332 | anchored or not, some subject gets no answer from step exactly if the tree says so |
| `RegexpSpelling.ReadPiece` | usr/src/head/regexp.h:102-290 | every spelled piece (element, bracket, interval, group, back-reference, star, $) is read back as itself, and reading stops right after it |
| `RegexpReading.ParseSpelled` | usr/src/head/regexp.h:102-292 | text that spells pieces which may follow a partial pattern and complete it parses to the items those pieces build |
| `RegexpReading.PiecesBuildAll` | usr/src/head/regexp.h:128-290 | the pieces of spellable items complete the pattern, and build exactly those items after the ones already there |
| `RegexpRoundTrip.GrowInverts` | usr/src/head/regexp.h:216-230 | flattening a tree and growing it again gives the tree |
| `RegexpRoundTrip.SpellingRoundTrip` | usr/src/head/regexp.h:64-293 | every spellable tree, anchored or not, is what its spelling parses to |
| `RegexpSpellable.SpellableExactly` | usr/src/head/regexp.h:102-292 | the items of an accepted text are spellable exactly if none is patched |
| `RegexpExamples.OpenReference` | usr/src/head/regexp.h:276-281 | a text that is accepted although its back-reference names an open group, which is not supported |
| `RegexpExamples.CompileOpenReference` | usr/src/head/regexp.h:64-293 | compile returns success for it, and these thirteen bytes |
| `RegexpExamples.HangExample` | usr/src/head/regexp.h:495-507 | a text that is accepted and supported, and whose search can fail to return |
| `RegexpExamples.TextHangsExactly` | usr/src/head/regexp.h:64-332 | for every text that compiles to a supported pattern, some subject makes Find give no answer exactly if its tree says so |
| `AcctConLaws.EnterAdds` | usr/src/cmd/acct/acctcon.c:426-457 | entering a session adds its prime time, its non-prime time and its count to those of its user, and to no other |
| `AcctConLaws.RunBalanced` | usr/src/cmd/acct/acctcon.c:193-350 | every run keeps all tables equal to the sums of the finished sessions |
| `AcctConLaws.BlanksExactly` | usr/src/cmd/acct/acctcon.c:319-334 | a nameless login is counted on a line exactly if the log has such a record for it, not before the line's time |
| `AcctConLaws.Conservation` | usr/src/cmd/acct/acctcon.c:288-457 | line totals and user totals agree after every run; logins are finished sessions plus the current one exactly if the log has no such record for the line; each login found the line free or ended a session, and the other sessions were ended by logouts |
| `AcctConLaws.NamedLogins` | usr/src/cmd/acct/acctcon.c:319-334 | so they are if every login in the log has a name |
| `AcctConLaws.UpdateAhead` | usr/src/cmd/acct/acctcon.c:301-350 | update commutes with moving all clocks by d |
| `AcctConLaws.ClockPairMoves` | usr/src/cmd/acct/acctcon.c:202-213 | an old and new time move every line by their difference exactly if the old time is not 0, up to trivial cases |
| `AcctConLaws.ClockChange` | usr/src/cmd/acct/acctcon.c:193-350 | a clock change put into a log, with later records on the new clock, leaves sessions, line totals and user totals as they were |
| `AcctHistory.HistoryExactly` | usr/src/cmd/acct/acctcon.c:193-350 | after every log, for exactly the lines it names: who is there, the clock, logins, arrivals, logouts and time used, and every session with its start, length and cause, are what looking back in the log gives; so are the date changes and the records that were too early |
| `AcctHistory.EnterExactly` | usr/src/cmd/acct/acctcon.c:426-457 | the whole entry of every user after a session is entered |
| `AcctHistory.UsersExactly` | usr/src/cmd/acct/acctcon.c:426-457 | after every log a user is entered exactly if they have sessions, under the name of the first, with their number and the sums of the prime and of the non-prime parts |
| `AcctCon.Tables.ILine` | usr/src/cmd/acct/acctcon.c:266-286 | the index of the line, entered clear if new |
| `AcctCon.Tables.Update` | usr/src/cmd/acct/acctcon.c:301-350 | the whole new state after one record on one line |
| `AcctCon.Tables.UpAll` | usr/src/cmd/acct/acctcon.c:288-296 | a reboot logs every line off, in order |
| `AcctCon.Tables.Loop` | usr/src/cmd/acct/acctcon.c:193-237 | the whole new state after one record |
| `AcctCon.ValidExactly` | usr/src/cmd/acct/acctcon.c:150-175 | a record is valid exactly if its type is known and its name has portable codes only and does not begin with a hyphen |
| `AcctCon.Tables.CheckRec` | usr/src/cmd/acct/acctcon.c:150-175 | the loop over the name decides that |
| `AcctCon.Tables.Read` | usr/src/cmd/acct/acctcon.c:124-131 | a file of records is the run of its valid records |
| `WtmpFix.AdjAppendPair` | usr/src/cmd/acct/wtmpfix.c:308-320 | a clock change corrects exactly the records since the last boot, if made in multi-user mode |
| `WtmpFix.RepresentsPair` | usr/src/cmd/acct/wtmpfix.c:183-200 | closing an interval and opening another keeps the list equal to the backward scan |
| `WtmpFix.RepresentsAppend` | usr/src/cmd/acct/wtmpfix.c:165-181 | any other record keeps it so |
| `WtmpFix.EpochOnOneClock` | usr/src/cmd/acct/wtmpfix.c:202-217 | two corrected records of one boot are as far apart as on a clock never moved, exactly if the changes passed over between them sum to 0 |
| `WtmpFix.AllMultiUser` | usr/src/cmd/acct/wtmpfix.c:319-320 | nothing is passed over if every change was made in multi-user mode |
| `WtmpFix.ModeExactly` | usr/src/cmd/acct/wtmpfix.c:295-300 | the mode is multi-user exactly if a record of run level 2 has none of level S after it |
| `WtmpFix.Fixer.IsInvalid` | usr/src/cmd/acct/wtmpfix.c:225-241 | the loop over a name finds a character that is not portable, exactly if there is one |
| `WtmpFix.Fixer.MkDtab` | usr/src/cmd/acct/wtmpfix.c:165-181 | the open interval starts here |
| `WtmpFix.Fixer.SetDtab` | usr/src/cmd/acct/wtmpfix.c:183-200 | the open interval is closed with its adjustment and another opened at the same start |
| `WtmpFix.Fixer.Adjust` | usr/src/cmd/acct/wtmpfix.c:202-217 | the time moves by the sum of the intervals that hold the record |
| `WtmpFix.Fixer.ScanFile` | usr/src/cmd/acct/wtmpfix.c:260-329 | fails exactly at an old time without its new time; otherwise the list represents all records copied |
| `WtmpFix.Fixer.Fix` | usr/src/cmd/acct/wtmpfix.c:117-145 | the output is that of one backward scan over the copied records |
| `AcctSkew.UpdateSpoils` | usr/src/cmd/acct/acctcon.c:301-350 | an update that is not fair to a line makes a total, or the count of bad times, differ |
| `AcctSkew.UpdateStaysSpoiled` | usr/src/cmd/acct/acctcon.c:301-350 | no later update undoes that |
| `AcctSkew.RunCompared` | usr/src/cmd/acct/acctcon.c:193-350 | two runs whose clocks differ line by line give the same accounts in the end exactly if every record is fair to the lines it meets |
| `AcctSkew.FairExactly` | usr/src/cmd/acct/acctcon.c:193-350 | only the first record that touches each line matters |
| `AcctNight.DeliveredAt` | usr/src/cmd/acct/wtmpfix.c:301-307 | a record keeps its kind and line, and its name if acctcon accepts it; a bad name becomes INVALID, unless the record is taken as the second half of a change |
| `AcctNight.TakeExactly` | usr/src/cmd/acct/acctcon.c:124-350 | accounts that agree still do after one record, as written and as delivered, exactly if it is fair to the lines it touches, or idle if acctcon sees it only renamed |
| `AcctNight.NightExactly` | usr/src/cmd/acct/runacct.sh:175-196 | for every log: the accounts of the corrected log agree with those of the log as written after every record, exactly if every record is fair |
| `AcctNight.Night` | usr/src/cmd/acct/runacct.sh:175-196 | wtmpfix and then acctcon compute those accounts, exactly if every old time has its new time and no record has an invalid type |
| `AcctNight.RenamedLogin` | usr/src/cmd/acct/wtmpfix.c:301-307 | a renamed login or logout on a line makes the accounts differ just before or just after it |
| `AcctNight.AcceptedSame` | usr/src/cmd/acct/acctcon.c:150-175 | if acctcon accepts every record, wtmpfix renames none and acctcon still accepts all of them |
| `AcctPipeline.OneChangeFixed` | usr/src/cmd/acct/wtmpfix.c:260-329 | the corrected log of one change: in multi-user mode the records since the last boot are moved; the two records of the change are still there |
| `AcctPipeline.CorrectedTwice` | usr/src/cmd/acct/runacct.sh:175-196 | for every accepted log with one change, what acctcon makes of the output of wtmpfix agrees with what it makes of the log as written, at the change and in the end, exactly if the last boot and the first later record on each line are fair |
| `AcctPipeline.TouchedLate` | usr/src/cmd/acct/runacct.sh:175-196 | the first later record on a line: a session it ends comes out d shorter; one before the line's clock ends no session and is one more bad time |
| `AcctPipeline.CorrectedOnce` | usr/src/cmd/acct/wtmpfix.c:15 | without the two records, the accounts agree in the end exactly if they do at the change and the first later record is fair to each line not touched since the last boot |
| `AcctPipeline.AllTouched` | usr/src/cmd/acct/acctcon.c:199-215 | there is no such line if boot records name a line |
| `AcctPipeline.TwiceExample` | usr/src/cmd/acct/runacct.sh:175-196 | a log whose one session lasts 150 seconds, or 100 in the nightly run |
| `AcctPipeline.RenamedExample` | usr/src/cmd/acct/wtmpfix.c:301-307 | a log without changes in which acctcon finds no session, and the nightly run finds one, for INVALID |
| `AcctPipeline.MendedExample` | usr/src/cmd/acct/runacct.sh:175-196 | a log whose accounts differ after its first record and agree after its second |
| `AcctMergLaws.LiveIsAll` | usr/src/cmd/acct/acctmerg.c:126-127 | a stream is read to its end exactly if all its records have names |
| `AcctMergSpec.NameLessExactly` | usr/src/cmd/acct/acctmerg.c:132 | names are compared by their first difference, and a beginning of a name comes before it |
| `AcctMergSpec.BeforeExactly` | usr/src/cmd/acct/acctmerg.c:126-133 | records are in order of uid, and those of one uid in that order of names unless -u |
| `AcctMergSpec.GetAll` | usr/src/cmd/acct/acctmerg.c:164-178 | the counters summed are all there are in a record |
| `AcctMergLaws.MergeKeeps` | usr/src/cmd/acct/acctmerg.c:142-162 | for any streams, what is written of each group equals what was read of it, in every counter |
| `AcctMergLaws.MergeTotalKeeps` | usr/src/cmd/acct/acctmerg.c:142-178 | the grand total is the sum of all records read |
| `AcctMergLaws.LeastFromIs` | usr/src/cmd/acct/acctmerg.c:116-136 | getleast gives the least record, and the first of equals |
| `AcctMergLaws.MergeIncreases` | usr/src/cmd/acct/acctmerg.c:108-162 | from sorted streams the keys written strictly increase |
| `AcctMergLaws.MergeIsGroupSum` | usr/src/cmd/acct/acctmerg.c:108-162 | each record written is the sum of all records with its key, over all streams |
| `AcctMergLaws.MergeCovers` | usr/src/cmd/acct/acctmerg.c:108-162 | every key read is written |
| `AcctMergLaws.MergeUsers` | usr/src/cmd/acct/acctmerg.c:142-162 | every record written, with -u too, has the uid and name of one that was read |
| `AcctMerg.Merger.GetNext` | usr/src/cmd/acct/acctmerg.c:191-221 | the record in hand becomes the next of its file, and the file is closed exactly if there is none; the result says which |
| `AcctMerg.Merger.GetLeast` | usr/src/cmd/acct/acctmerg.c:116-136 | the specified least stream |
| `AcctMerg.Merger.SumCurr` | usr/src/cmd/acct/acctmerg.c:142-162 | takes the group from this and later streams, writes its sum and adds it to the total |
| `AcctMerg.Merger.Run` | usr/src/cmd/acct/acctmerg.c:101-111 | the records written and the total are those of the specified merge |
| `Probing.SearchExact` | usr/src/cmd/acct/diskusg.c:290-304 | a search finds a key exactly if it is there, and fails exactly if others fill the table |
| `Probing.Unique` | usr/src/cmd/acct/acctcms.c:415-417 | a key stands in one cell only |
| `Probing.EnterKeeps` | usr/src/cmd/acct/diskusg.c:132-147 | entering a key where its search stopped keeps every key reachable |
| `Probing.PutAgrees` | usr/src/cmd/acct/acctcms.c:432-434 | storing a value where the search stopped updates the map the table holds |
| `Probing.SizeAgrees` | usr/src/cmd/acct/acctcms.c:415-418 | a table has no more keys than cells, and is full exactly if it has as many |
| `DiskUsg.SearchTabled` | usr/src/cmd/acct/diskusg.c:290-304 | the search settles whether a uid is known, and fails only for a new one in a full table |
| `DiskUsg.Table.Hash` | usr/src/cmd/acct/diskusg.c:290-304 | the cell of the uid, the free cell where it belongs, or FAIL |
| `DiskUsg.Table.AddUser` | usr/src/cmd/acct/diskusg.c:132-147 | the table is the map from uid to summed blocks exactly if no entry has the uid of an unused cell; then every cell claimed has the login of the first entry of its uid, and all entries are taken exactly if there are no more than 3001 uids |
| `DiskUsg.TallyIs` | usr/src/cmd/acct/diskusg.c:132-147 | the map holds, for each uid, the blocks of all its entries |
| `DiskUsg.Table.Count` | usr/src/cmd/acct/diskusg.c:242-254 | blocks are charged exactly to known uids |
| `DiskUsg.UnusedUidLeaks` | usr/src/cmd/acct/diskusg.c:140-145 | blocks entered for that uid are charged to the next user who hashes to the cell |
| `AcctCmsSpec.HashBound` | usr/src/cmd/acct/acctcms.c:408-414 | the hash of eight cleaned characters neither overflows nor goes negative |
| `AcctCmsSpec.Clean` | usr/src/cmd/acct/acctcms.c:408-410 | characters from 32 on are kept, every other one becomes a question mark |
| `AcctCmsSpec.CleanExactly` | usr/src/cmd/acct/acctcms.c:408-410 | a name is left as it is exactly if it has no other characters |
| `AcctCmsSpec.EnteredTabled` | usr/src/cmd/acct/acctcms.c:402-436 | entering a record adds it to the map the table holds |
| `AcctCmsLaws.FoldedGrand` | usr/src/cmd/acct/acctcms.c:447-456 | folding keeps every grand total |
| `AcctCmsLaws.SummaryHas` | usr/src/cmd/acct/acctcms.c:447-524 | besides the entry folded into, exactly the commands run at least twice remain, with their totals |
| `AcctCmsLaws.SummaryDistinct` | usr/src/cmd/acct/acctcms.c:502-524 | no command stands twice in the summary |
| `AcctCms.Commands.Hash` | usr/src/cmd/acct/acctcms.c:408-414 | the loop cleans the name, character by character, and hashes it |
| `AcctCms.Commands.Probe` | usr/src/cmd/acct/acctcms.c:415-418 | the cell of the name or the free cell where it belongs, or that there is none |
| `AcctCms.Commands.Enter` | usr/src/cmd/acct/acctcms.c:402-436 | the record is added to the map, exactly if the names with its own are no more than the cells |
| `AcctCms.Commands.EnterAll` | usr/src/cmd/acct/acctcms.c:402-436 | the table is the map of totals by cleaned name exactly if every record has a name; all named records are entered exactly if their names are no more than the cells |
| `AcctCms.NamelessLeaks` | usr/src/cmd/acct/acctcms.c:432-434 | the counters of a record without a name are in no total, until the next new name whose search ends at that cell is charged with them |
| `AcctCms.Commands.FixJunk` | usr/src/cmd/acct/acctcms.c:447-456 | every command run at most once is folded into the entry for others; there is room for that entry exactly if the names with it are no more than the cells |
| `AcctCms.OtherSpells` | usr/src/cmd/acct/acctcms.c:63 | the entry folded into is called ***other |
| `AcctCms.Commands.Squeeze` | usr/src/cmd/acct/acctcms.c:502-524 | the entries in use stand at the front, in table order |
| `AcctCms.Commands.Run` | usr/src/cmd/acct/acctcms.c:402-524 | for named records, a summary is made exactly if their names with the entry for others are no more than the cells; it has each command once, grand totals kept, and exactly the frequent commands besides others |
| `AcctCms.TallyIs` | usr/src/cmd/acct/acctcms.c:402-436 | the totals of a command are the sums over its own records, counter by counter |
| `AcctCms.SummaryMeans` | usr/src/cmd/acct/acctcms.c:402-524 | a command other than ***other is in the summary exactly if its records add up to two runs or more, and with their sums |
| `AcctPrc1.GuessUnique` | usr/src/cmd/acct/acctprc1.c:211-220 | the exhaustive search has one answer |
| `AcctPrc1.ContainsEdges` | usr/src/cmd/acct/acctprc1.c:196-240 | a session lasts from its start for its prime and non-prime time together, both ends included |
| `AcctPrc1.Index.ReadCtmp` | usr/src/cmd/acct/acctprc1.c:147-209 | the index covers all sessions, one user after the other; the tables suffice exactly for fewer sessions and changes of user than they have entries |
| `AcctPrc1.FitsExactly` | usr/src/cmd/acct/acctprc1.c:170-192 | that is, up to 6000 sessions and 2000 changes of user |
| `AcctPrc1.Index.GetNamc` | usr/src/cmd/acct/acctprc1.c:221-250 | for a uid from 0 up, the owner of the first session containing the time, else of the latest-ending one begun by then, if it ended after time 0, else none; for a negative uid, none |
| `AcctPrc1.AnswerIsGuess` | usr/src/cmd/acct/acctprc1.c:221-250 | that answer is the one of an exhaustive search exactly if it is not the case that sessions had begun by then, none contains the time, and all had ended by time 0 |
| `AcctPrc1.ForgottenExample` | usr/src/cmd/acct/acctprc1.c:230-245 | such a case |
| `AcctPrc1.NoneIsGuess` | usr/src/cmd/acct/acctprc1.c:230-233 | no name is the answer of an exhaustive search exactly if no session had begun by then |
| `AcctPrc1.NegativeExample` | usr/src/cmd/acct/acctprc1.c:230-233 | a negative uid with a session that contains the time |
| `Asa.FilterIsRender` | usr/src/cmd/asa/asa.c:63-146 | the delayed newline gives each line its carriage control |
| `Asa.LeadCodes` | usr/src/cmd/asa/asa.c:88-118 | the codes put out before a line for +, 0, 1 and any other character |
| `Asa.FilesAreOneText` | usr/src/cmd/asa/asa.c:75-81 | files filtered in turn give what their concatenation gives, exactly if no file that starts a line after other text begins with + |
| `Asa.FormsArePages` | usr/src/cmd/asa/asa.c:83-84 | with -f each file is filtered as a text of its own, ended by a form feed, and by a newline if its last line has none |
| `Asa.Filter` | usr/src/cmd/asa/asa.c:63-146 | the nested loops put out what the machine puts out, with and without -f |

## Left out

- RegexpTheorems.Find: for a pattern that is not supported it says only that; `advance` does not know patched instructions, and reads an unset table entry for a reference to an open group.
- RegexpCompiler.Compiler.ReadNumber: an interval limit too large for an `int` is error 11 here, not an overflow.
- RegexpRoundTrip.SpellingRoundTrip: for texts that end in NUL, not for another delimiter.
- RegexpMatcher.Matcher.Advance: `locs` and the early exit it causes are not modelled.
- Reuse of the previous pattern for an empty one is only reported (`Reused`); `nodelim` and the value returned to the caller's cursor are not modelled.
- `usr/src/ucbhead/regexp.h`, an older copy of the engine.
- Growth of tables by `realloc` in `acctcms.c`, `acctcon.c` and `acctprc1.c`: the first two programs and `acctprc1` are followed up to the initial capacity, and `acctcon`'s line table is a sequence whose new entries are clear.
- AcctPrc1.Index.GetNamc: sessions that ended by time 0 and negative uids are stated apart from the exhaustive search, because the code departs from it there.
- AcctCon.Tables.Loop: the time of the last record and the reasons of reboots are not kept.
- WtmpFix.Fixer.ScanFile: every record read is taken to be in range.
- AcctConLaws.ClockChange: requires that no old time is pending where the change is put in, and that later times are positive on both clocks.
- AcctNight.NightExactly: compares the accounts after every record, not only after the last, because differences may be undone (`MendedExample`); it does not say when they are.
- AcctPipeline.CorrectedTwice: for logs with one change, all of whose records `acctcon` accepts, whose old time is not 0 and whose moved records have times that are not negative on either clock; the same holds of `CorrectedOnce`. `NightExactly` has none of these limits, but its condition follows the run of the log as written.
- AcctPipeline.OneChangeFixed: for logs with one change.
- The counts of reboots and reasons (`bootshut`), and all reports of `acctcon`.
- Resynchronisation and range checks of records in `wtmpfix.c` (`inrange`).
- The older record formats of `acctcms.c` (`tenter`, `tfixjunk`, `tsqueeze`) and its sorting and printing.
- Inode scanning, block arithmetic and the report of `diskusg.c` (`ilist`, `blocks`, `output`).
- Read errors, files that cannot be opened and option parsing, in every program.
