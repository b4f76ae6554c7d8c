# The tiny shell's job list and command-line parser, in Dafny

This project models two sequential parts of the CS:APP tiny shell
(`tsh.c`) and proves what they do.

**The job list.** The global array `jobs[MAXJOBS]` is 16 slots of
`struct job_t`: pid, jid, state and command line. A slot with pid 0 is
empty. The global counter `nextjid` gives the id of the next job. The
helper routines that manage the list are `clearjob`, `initjobs`,
`maxjid`, `addjob`, `deletejob`, `fgpid`, `getjobpid`, `getjobjid`,
`pid2jid` and `listjobs`.

- `jobs.dfy` (module `Jobs`) states each routine as a function on a
  sequence of slots:
  - `Add` is addjob (tsh.c:309-333). It finds the empty slot with
    `FreeSlot` (tsh.c:317-318) and advances the counter with
    `NextJidAfter` (tsh.c:321-323).
  - `AddMessage` is addjob's output (tsh.c:325-331): `AddedLine`, or the
    text `TooManyJobs`.
  - `Delete` is deletejob (tsh.c:335-351).
  - `MaxJid`, `FgPid`, `JobWithPid`, `JobWithJid` and `Pid2Jid` are
    maxjid, fgpid, getjobpid, getjobjid and pid2jid.
  - `Listing` is listjobs' output (tsh.c:402-427). It is `ListingUpTo`
    over all slots, with `JobLine` for each occupied slot. A `JobLine` is
    its `LineHead` (tsh.c:409), then its `StateLabel` (tsh.c:410-423),
    then the command line (tsh.c:424).
- `jobtable.dfy` (class `JobTable.JobTable`) holds the same routines as
  methods. They work in place on an `array<Job>` of 16 slots, loop for
  loop as in C. Each method is proved against the `Jobs` function that
  its row in the table below names.
- The `printf` output of `addjob` (verbose mode and "too many jobs") and
  of `listjobs` is appended to the string field `out`, as `%d` would
  render it (`format.dfy`).

**The line parser.** `parseline` copies the line into a static buffer and
turns its final `'\n'` into a space. It then walks the buffer with a
pointer: it skips spaces and cuts off one token at a time. Each token
ends at the next space, or runs to the next single quote when it starts
with one. A NUL is written over each delimiter and `argv` gets a pointer
to the token. A token that has no delimiter is dropped. A last token that
starts with `&` is removed and makes the result 1. A line with no tokens
returns 1 as well.

- `tokenizer.dfy` (module `Tokenizer`) states the result as functions on
  strings:
  - `Buffer` is the working copy (tsh.c:177-178);
  - `TokenAt` is one scan step (tsh.c:179-190, 196-205);
  - `ScanFrom` is the `while (delim)` loop (tsh.c:192-206), and `Scan`
    runs it from the start;
  - `Tokens` is the scan of the working copy of a line;
  - `Parse` is the whole result of parseline (tsh.c:169-217): the tokens
    after `SplitAmpersand`'s '&' test.
- `parseline.dfy` (module `LineParser`) runs the C loop on a `char` array
  and an `argv` array. It is proved to leave in `argv` exactly the
  strings that `Parse` describes. Pointers into the buffer are offsets,
  and NULL is `None`.
- The lemmas cover several facts:
  - a typed command line parses back to its words (`RoundTrip`);
  - a blank line is a background request;
  - an unterminated quote drops the rest of the line;
  - a line cannot hold more than MAXLINE / 2 tokens;
  - a line shorter than MAXLINE can hold more tokens than `argv` has
    room for.

`options.dfy` holds the `Option` type. `limits.dfy` holds the constants at
tsh.c lines 17-26 (`MAXJID` is defined there but never used).

The comments in tsh.c suggest more than the code guarantees. Line 35
says at most one job is in FG, and line 47 describes jids as
`[1, 2, ...]`. The model follows the code:

- job ids are not unique among live jobs, and `nextjid` can exceed 16:
  - after the wrap at tsh.c:322-323, ids start again at 1 while small
    ids may still be live;
  - after a delete, `nextjid` is `maxjid + 1` with no wrap (tsh.c:346),
    which can be 17 and grows further with each later delete and add;
- nothing in the job list keeps more than one job from being in state FG:
  addjob stores any state it is given.

So `Consistent` keeps only the following: 16 slots, every empty slot
fully cleared, positive pid and jid in every occupied slot, and a
positive `nextjid`.

## Model

| member | source | states |
|---|---|---|
| Format.Digits | csapp/shlab-handout/shlab-handout/tsh.c:409 | `%d` of a natural number: at least one digit, only digits, and a leading '0' only for 0 |
| Format.Decimal | csapp/shlab-handout/shlab-handout/tsh.c:409 | `%d` of an integer is non-empty and starts with '-' exactly when the number is negative |
| Format.DigitsValueOfDigits | csapp/shlab-handout/shlab-handout/tsh.c:409 | the digits `%d` prints for a natural number denote that number |
| Format.ParseDecimalOfDecimal | csapp/shlab-handout/shlab-handout/tsh.c:409 | reading back the `%d` text of any integer gives that integer, so the jids and pids printed by listjobs and addjob are recoverable |
| Jobs.EmptySlots | csapp/shlab-handout/shlab-handout/tsh.c:290-296 | the list initjobs leaves: n slots, every one cleared |
| Jobs.FirstWith | csapp/shlab-handout/shlab-handout/tsh.c:369-372 | the index-order scan with early return: the index found holds the value and no earlier slot does, and there is none exactly when no slot holds it |
| Jobs.MaxJid | csapp/shlab-handout/shlab-handout/tsh.c:298-307 | maxjid is at least 0 and at least every jid, and it is 0 or the jid of some slot |
| Jobs.JobWithPid | csapp/shlab-handout/shlab-handout/tsh.c:363-373 | getjobpid: no job for a pid below 1 or an absent pid, otherwise the first slot holding that pid |
| Jobs.JobWithJid | csapp/shlab-handout/shlab-handout/tsh.c:375-386 | getjobjid: no job for a jid below 1 or an absent jid, otherwise the first slot holding that jid |
| Jobs.Pid2Jid | csapp/shlab-handout/shlab-handout/tsh.c:388-400 | pid2jid: 0 for a pid below 1 or an absent pid, otherwise the jid of the first slot holding that pid |
| Jobs.FgPid | csapp/shlab-handout/shlab-handout/tsh.c:353-361 | fgpid: 0 when no slot is in state FG, otherwise the pid of the first slot in state FG |
| Jobs.Add | csapp/shlab-handout/shlab-handout/tsh.c:309-333 | addjob fails exactly for a pid below 1 or a full list, and then changes nothing. Otherwise it puts (pid, old nextjid, state, cmdline) in the lowest empty slot, leaves every other slot as it was, and advances nextjid with the wrap to 1 past 16 |
| Jobs.Delete | csapp/shlab-handout/shlab-handout/tsh.c:335-351 | deletejob fails exactly for a pid below 1 or an absent pid, and then changes nothing. Otherwise it clears only the first slot with that pid and sets nextjid to maxjid of the new list plus 1 |
| Jobs.OccupiedUpToSpec | csapp/shlab-handout/shlab-handout/tsh.c:407-408 | the slots listjobs prints among the first n are exactly the occupied ones, in increasing order |
| Jobs.LinesOfStep | csapp/shlab-handout/shlab-handout/tsh.c:407-425 | one more slot adds its line to the output exactly when it is occupied |
| Jobs.ListingUpToIsLines | csapp/shlab-handout/shlab-handout/tsh.c:407-426 | what listjobs has printed after n slots is the lines of the occupied slots among them, in slot order |
| Jobs.ListingIsOccupiedLines | csapp/shlab-handout/shlab-handout/tsh.c:402-427 | the output of listjobs is one line per occupied slot, in index order, for any increasing list of exactly the occupied slots, and nothing for empty slots |
| Jobs.CountUpdate | csapp/shlab-handout/shlab-handout/tsh.c:319-324 | overwriting one slot changes the number of jobs by what leaves and what enters it |
| Jobs.InitialLookupsFail | csapp/shlab-handout/shlab-handout/tsh.c:290-307 | after initjobs the list is consistent with every positive nextjid, maxjid is 0, fgpid is 0, there are no jobs, listjobs prints nothing, and every lookup by pid or jid fails |
| Jobs.NextJidAfter | csapp/shlab-handout/shlab-handout/tsh.c:321-323 | from a non-negative counter, addjob leaves nextjid between 1 and MAXJOBS |
| Jobs.AddAt | csapp/shlab-handout/shlab-handout/tsh.c:317-328 | addjob of a positive pid whose lowest empty slot is i fills slot i and succeeds |
| Jobs.AddMessageCases | csapp/shlab-handout/shlab-handout/tsh.c:325-331 | for a positive pid, addjob prints the "Added job" line when a slot is free (only in verbose mode), and "Tried to create too many jobs" when none is |
| Jobs.DeleteAt | csapp/shlab-handout/shlab-handout/tsh.c:343-347 | deletejob of a positive pid whose first slot is i clears slot i and sets nextjid to maxjid + 1 |
| Jobs.AddKeepsConsistent | csapp/shlab-handout/shlab-handout/tsh.c:317-324 | addjob keeps the list consistent |
| Jobs.DeleteKeepsConsistent | csapp/shlab-handout/shlab-handout/tsh.c:343-347 | deletejob keeps the list consistent |
| Jobs.AddFailsOnlyWhenFull | csapp/shlab-handout/shlab-handout/tsh.c:317-332 | for a positive pid, addjob fails exactly when all slots hold jobs |
| Jobs.AddDeleteCount | csapp/shlab-handout/shlab-handout/tsh.c:309-351 | a successful addjob adds one job and a successful deletejob removes one, and the list never holds more than 16 |
| Jobs.AddThenLookup | csapp/shlab-handout/shlab-handout/tsh.c:317-328 | after adding a pid not yet in the list, getjobpid finds it in the lowest formerly empty slot and pid2jid gives the old nextjid. Lookups of every other pid, and of every jid other than the old nextjid, are unchanged |
| Jobs.FirstWithIs | csapp/shlab-handout/shlab-handout/tsh.c:369-371 | the scan returns slot i when slot i matches and no earlier slot does |
| Jobs.FirstWithUpdate | csapp/shlab-handout/shlab-handout/tsh.c:369-371 | overwriting a slot that neither held nor holds the value does not change what the scan finds |
| Jobs.DeleteUndoesAdd | csapp/shlab-handout/shlab-handout/tsh.c:335-351 | deletejob of a pid just added restores the slots, with nextjid reset to maxjid + 1 |
| Jobs.DeleteRestores | csapp/shlab-handout/shlab-handout/tsh.c:343-347 | clearing a job from the cleared slot it was put in, when it is the first slot with that pid, restores the slots |
| Jobs.DeleteThenLookup | csapp/shlab-handout/shlab-handout/tsh.c:343-347 | after deleting a pid that occupies one slot, no lookup finds it and pid2jid gives 0. Lookups of every other pid, and of every jid other than the deleted job's, are unchanged |
| Jobs.JobWithJidIsOccupied | csapp/shlab-handout/shlab-handout/tsh.c:375-386 | in a consistent list, a job found by jid is an occupied slot |
| JobTable.JobTable.constructor | csapp/shlab-handout/shlab-handout/tsh.c:41-51 | program start: 16 zero-filled (empty) slots, nextjid 1, nothing printed |
| JobTable.JobTable.ClearJob | csapp/shlab-handout/shlab-handout/tsh.c:282-288 | clearjob empties slot i and changes no other slot |
| JobTable.JobTable.InitJobs | csapp/shlab-handout/shlab-handout/tsh.c:290-296 | initjobs empties every slot and leaves nextjid as it was |
| JobTable.JobTable.MaxJid | csapp/shlab-handout/shlab-handout/tsh.c:298-307 | the running maximum over the array equals Jobs.MaxJid of its contents |
| JobTable.JobTable.AddJob | csapp/shlab-handout/shlab-handout/tsh.c:309-333 | the new array, nextjid and result are those of Jobs.Add. The output grows by the message addjob prints, and consistency is kept |
| JobTable.JobTable.FillSlot | csapp/shlab-handout/shlab-handout/tsh.c:318-328 | filling the first empty slot field by field gives Jobs.Add's state and success, and prints the verbose line |
| JobTable.JobTable.DeleteJob | csapp/shlab-handout/shlab-handout/tsh.c:335-351 | the new array, nextjid and result are those of Jobs.Delete, and consistency is kept |
| JobTable.JobTable.FgPid | csapp/shlab-handout/shlab-handout/tsh.c:353-361 | returns Jobs.FgPid of the array |
| JobTable.JobTable.GetJobPid | csapp/shlab-handout/shlab-handout/tsh.c:363-373 | returns the slot Jobs.JobWithPid names (None for NULL) |
| JobTable.JobTable.GetJobJid | csapp/shlab-handout/shlab-handout/tsh.c:375-386 | returns the slot Jobs.JobWithJid names (None for NULL) |
| JobTable.JobTable.Pid2Jid | csapp/shlab-handout/shlab-handout/tsh.c:388-400 | returns Jobs.Pid2Jid of the array |
| JobTable.JobTable.ListJobs | csapp/shlab-handout/shlab-handout/tsh.c:402-427 | the output grows by exactly Jobs.Listing of the array |
| JobTable.JobTable.PrintSlot | csapp/shlab-handout/shlab-handout/tsh.c:409-424 | the three printf calls for one slot print its `[jid] (pid) `, state word or internal-error text, and command line |
| Tokenizer.SkipFrom | csapp/shlab-handout/shlab-handout/tsh.c:179-180 | skipping spaces stops at the end or at a character other than ' ' |
| Tokenizer.FindFrom | csapp/shlab-handout/shlab-handout/tsh.c:186 | strchr returns a position at or after the start that holds the character |
| Tokenizer.TokenAt | csapp/shlab-handout/shlab-handout/tsh.c:184-190 | bounds only: the token starts at or after the current position, within the string, and its delimiter, when found, is at or after that start and inside the string. What the step finds is stated by `TokenAtSpec` |
| Tokenizer.SkipFromSpaces | csapp/shlab-handout/shlab-handout/tsh.c:179-180 | every character the skip steps over is a space |
| Tokenizer.FindFromFirst | csapp/shlab-handout/shlab-handout/tsh.c:186 | strchr returns the first occurrence, and NULL only when there is none from the start on |
| Tokenizer.TokenAtSpec | csapp/shlab-handout/shlab-handout/tsh.c:179-190 | one scan step skips exactly the spaces from the current position. A token starting with a quote begins just after the quote and ends at the first quote after it. Any other token begins there and ends at the first space. No delimiter is found only when that character does not occur from the token's start on |
| Tokenizer.Buffer | csapp/shlab-handout/shlab-handout/tsh.c:177-178 | the working copy has the line's length, ends in a space, and otherwise equals the line |
| Tokenizer.SplitAmpersand | csapp/shlab-handout/shlab-handout/tsh.c:207-216 | no tokens: an empty argv and 1. A last token starting with '&': it is removed and 1. Otherwise all tokens and 0 |
| Tokenizer.SkipFromAt | csapp/shlab-handout/shlab-handout/tsh.c:179-180 | the skip ends at the first non-space position |
| Tokenizer.FindFromAt | csapp/shlab-handout/shlab-handout/tsh.c:186 | strchr finds the first occurrence of the character |
| Tokenizer.FindFromNone | csapp/shlab-handout/shlab-handout/tsh.c:186 | strchr returns NULL when the character does not occur |
| Tokenizer.ScanFromUnfold | csapp/shlab-handout/shlab-handout/tsh.c:192-195 | a found delimiter yields the token between start and delimiter, and the scan goes on just past the delimiter |
| Tokenizer.ScanFromEnd | csapp/shlab-handout/shlab-handout/tsh.c:192 | no delimiter: no more tokens |
| Tokenizer.ScanFromSkip | csapp/shlab-handout/shlab-handout/tsh.c:196-197 | the scan is the same from any point within a run of spaces |
| Tokenizer.ScanFromShift | csapp/shlab-handout/shlab-handout/tsh.c:192-206 | the scan depends only on the text from the current position on |
| Tokenizer.ScanAfter | csapp/shlab-handout/shlab-handout/tsh.c:192-206 | scanning a + b from the end of a is scanning b |
| Tokenizer.ScanFromBound | csapp/shlab-handout/shlab-handout/tsh.c:192-206 | every token uses up at least two characters of the buffer |
| Tokenizer.ScanSpace | csapp/shlab-handout/shlab-handout/tsh.c:179-180 | a leading space does not change the tokens |
| Tokenizer.ScanOfSpaces | csapp/shlab-handout/shlab-handout/tsh.c:179-192 | a buffer of spaces only has no tokens |
| Tokenizer.BlankLine | csapp/shlab-handout/shlab-handout/tsh.c:209-210 | a line of spaces plus its newline parses to an empty argv and 1 |
| Tokenizer.ScanBare | csapp/shlab-handout/shlab-handout/tsh.c:189-195 | an unquoted word followed by a space is one token |
| Tokenizer.ScanQuoted | csapp/shlab-handout/shlab-handout/tsh.c:184-187 | a quoted word followed by a space is one token, with the quotes stripped |
| Tokenizer.ScanRender | csapp/shlab-handout/shlab-handout/tsh.c:192-206 | words written one after another, bare or in quotes, scan back to themselves, whatever follows them |
| Tokenizer.RoundTrip | csapp/shlab-handout/shlab-handout/tsh.c:169-217 | the line a user types for some words, with or without " &", parses back to those words and that flag |
| Tokenizer.TokensOfCommandLine | csapp/shlab-handout/shlab-handout/tsh.c:169-206 | the tokens of a typed line are its words, followed by "&" when it asks for the background |
| Tokenizer.TokensAfterWords | csapp/shlab-handout/shlab-handout/tsh.c:177-206 | the words of a typed line come out first, whatever follows them |
| Tokenizer.ScanAmpersand | csapp/shlab-handout/shlab-handout/tsh.c:213 | a lone '&' followed by a space is one token |
| Tokenizer.UnterminatedQuote | csapp/shlab-handout/shlab-handout/tsh.c:192 | an opening quote with no closing quote drops everything after it |
| Tokenizer.ScanOpenQuote | csapp/shlab-handout/shlab-handout/tsh.c:199-201 | a quote with no closing quote after it gives no token |
| Tokenizer.TokensBound | csapp/shlab-handout/shlab-handout/tsh.c:171 | a line shorter than MAXLINE has fewer than MAXLINE / 2 tokens |
| Tokenizer.TooManyTokens | csapp/shlab-handout/shlab-handout/tsh.c:193 | the line of MAXARGS one-letter words (2 * MAXARGS + 1 characters, by the helper `RenderLetters`) is shorter than MAXLINE and has MAXARGS tokens, so `argv[argc]` at line 207 would be written past the end of argv |
| LineParser.ScanFromStep | csapp/shlab-handout/shlab-handout/tsh.c:192-205 | one round of the loop adds the token it cuts off to those before it, and leaves fewer to go |
| LineParser.SkipSpaces | csapp/shlab-handout/shlab-handout/tsh.c:179-180 | the pointer loop over the buffer stops where Tokenizer.SkipFrom does |
| LineParser.StrChr | csapp/shlab-handout/shlab-handout/tsh.c:186 | strchr on the buffer returns the position Tokenizer.FindFrom gives, or NULL |
| LineParser.NextToken | csapp/shlab-handout/shlab-handout/tsh.c:184-190 | the start and delimiter found in the buffer are those of Tokenizer.TokenAt |
| LineParser.ArgvHoldsStep | csapp/shlab-handout/shlab-handout/tsh.c:193-194 | pointing argv at the token and writing a NUL over its delimiter makes the token a C string, and leaves the earlier arguments intact |
| LineParser.TakeToken | csapp/shlab-handout/shlab-handout/tsh.c:193-194 | `argv[argc++] = buf; *delim = '\0';` changes only that argv entry and that buffer byte, and argv then holds one more token |
| LineParser.FirstCharacter | csapp/shlab-handout/shlab-handout/tsh.c:213 | `*argv[argc-1] == '&'` is true exactly when the last argument starts with '&' |
| LineParser.CopyLine | csapp/shlab-handout/shlab-handout/tsh.c:177-178 | the buffer holds the line with its last character turned into a space, then a NUL, and the rest of the static array is untouched |
| LineParser.ArgvHoldsPrefix | csapp/shlab-handout/shlab-handout/tsh.c:213-214 | an argv that holds some tokens also holds any prefix of them |
| LineParser.CutToken | csapp/shlab-handout/shlab-handout/tsh.c:193-205 | one round of the loop body keeps the loop's invariant: the tokens so far plus the rest of the scan are the whole scan, and argv holds the tokens so far |
| LineParser.ScanTokens | csapp/shlab-handout/shlab-handout/tsh.c:183-206 | the loop leaves argc equal to the number of tokens of Tokenizer.Scan, argv pointing at each of them as C strings in the buffer, and later argv entries untouched |
| LineParser.TestBackground | csapp/shlab-handout/shlab-handout/tsh.c:207-216 | the result is Tokenizer.SplitAmpersand's flag and argv holds its arguments. The entries from there through the last token are NULL |
| LineParser.ParseLine | csapp/shlab-handout/shlab-handout/tsh.c:169-217 | the result of parseline is Tokenizer.Parse's flag, argv holds Parse's arguments as C strings in the buffer, `argv[argc]` and the entries up to the dropped '&' token are NULL, and nothing else changes |

## Left out

- The unimplemented stubs `eval`, `builtin_cmd`, `do_bgfg`, `waitfg` and the three signal handlers. They have no behaviour to model.
- The state-transition comment at the top of tsh.c. It describes code that does not exist.
- `main`, `usage`, `Signal`, `sigquit_handler`, `unix_error` and `app_error`. They are option parsing, OS calls, printing to stderr and `exit`.
- Standard output is the string field `out`. Only the text is modelled, not buffering or write errors.
- Signals and concurrency: the routines are modelled as running without interruption.
- 32-bit `int` and `pid_t`: pids, jids and `nextjid` are unbounded integers. A full list can make `nextjid` grow by one with each deletejob and addjob pair: delete a job, then the add takes jid maxjid + 1. The overflow after about 2^31 such pairs is not modelled.
- `struct job_t.cmdline` is a string, not a 1024-byte array. `JobTable.JobTable.AddJob` requires a command line shorter than MAXLINE, the size `strcpy` copies into. `clearjob` writes a NUL at the start only, and this is modelled as an empty command line.
- Pointers are indices. getjobpid and getjobjid return the slot index instead of `&jobs[i]`, and argv entries are offsets into the buffer. Aliasing through those pointers is not modelled.
- The static buffer of parseline is a parameter `buf`, so its contents from an earlier call are visible as the untouched tail.
- LineParser.ParseLine: requires fewer than MAXARGS tokens. tsh.c does not check this and writes past the end of `argv` otherwise, and Tokenizer.TooManyTokens shows a line short enough to do so.
- LineParser.ParseLine: requires a non-empty line without NUL characters. tsh.c indexes `strlen(buf) - 1`, so it needs a non-empty line, and a C string cannot hold a NUL.
- No proof that job ids are unique, at most 16 or wrap after a delete, or that at most one job is in the foreground. The code does not guarantee any of these (see above).
