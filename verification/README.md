# ShellSimulator in Dafny

A model of the two small C shells of ShellSimulator:

- `shell.c`, which reads a line, splits it into at most ten arguments, and
  runs it unless it was blank;
- `shellHistory.c`, which also keeps the last ten commands in a history,
  prints them on SIGINT, and replays one for `r N`.

Both programs share `getCmd` and `parseInput`. Each is modelled once: the
citations below point at `shellHistory.c`, and the matching `shell.c` code
(`getCmd` at 22-44, `parseInput` at 50-68) is identical.

Modules, one per concern:

- `CText` (`ctext.dfy`): C text as sequences of non-NUL bytes, the buffer
  constants `MAX_LENGTH = 80` and `MAX_ARGS = 10`, and the signed-`char`
  value used by `cmd[2] - '0'`.
- `Decimal` (`decimal.dfy`): `%i` rendering and its reader.
- `LineReader` (`line_reader.dfy`): one `fgets` into the 80-byte buffer and
  the strip of the last byte read. The input is the unread remainder of
  standard input; end of input is the empty remainder.
- `Tokenizer` (`tokenizer.dfy`): `strtok` on `" \t"` as an index walk,
  `parseInput` as a function (`Tokenize`) and as the slot-filling loop
  (`ParseInput`). An independent left-to-right splitter (`Words`) serves
  as the reference, and the two are proved equal.
- `History` (`history.dfy`): the record `{id, cmds, size}` with
  `size = |cmds|`, `addToCmdHistory`, `copyFromCmdHist`, and the text
  `showHistoryHandler` prints. The text is read back by a parser to prove
  it carries exactly the numbered entries.
- `Shell` (`shell.dfy`): one pass of `shell.c`'s loop and the whole loop
  over an input.
- `ShellHistory` (`shell_history.dfy`): one pass of `shellHistory.c`'s
  loop and the whole loop. The pass covers the replay check, the lookup,
  recording, parsing and the blank-line skip.

The lookup and the dump number entries differently:

- The dump labels the entry at index `i` with `id - size + i + 1`.
- `r N` looks up index `id - size + N - 1`.
- The two agree only while nothing has been evicted (`id == size`).
- After that, `r N` copies the entry the dump labels `2 * (id - size) + N`.
- Once 21 commands have been recorded, every `r N` fails.

The model keeps the code's behaviour and proves both facts
(`History.LookupBeforeEviction`, `History.LookupMatchesShiftedLabel`,
`History.LookupFailsLate`, `ShellHistory.ReplayFailsLate`).

The code behaves in some places other than a user of `r` replay would
expect; the model follows the code:

- A bare `r` never triggers a lookup. `main` sets `id = -1` and only looks
  up when `id > -1`. So `r` is recorded and run as an ordinary command, also
  on an empty history (`ShellHistory.PlainLineAsInShell`).
- A leading `&` does not request a background run. The check starts at
  argument 1 (`Tokenizer.TokenizeLeadingAmpersand`).
- `r N` reads only the byte after `"r "`, so any byte from `'0'` to 127
  is accepted, not only digits. `"r 12"` asks for 1, and `"r x"` asks
  for 72 (`ShellHistory.RequestedIdReadsThreeBytes`,
  `ShellHistory.RequestedIdExamples`). Such a line asks for 11 or more
  when the byte is `;` or later, so a command like `r foo` is never
  recorded and never run (`ShellHistory.NonDigitReplayIsDropped`).
- Recording a line and replaying it by its own display number gives the
  line back only before the first eviction (see above).
- `getCmd` removes the last byte read, newline or not.

## Model

| member | source | states |
|---|---|---|
| `CText.SignedValue` | shellHistory.c:192 | a byte as a signed C `char`: in -128..127 and congruent to the byte modulo 256 |
| `CText.IndexOf` | shellHistory.c:92 | the position of the first occurrence of a byte, or the length when there is none |
| `Decimal.NatDigits` | shellHistory.c:41 | the `%i` digits of a natural are non-empty, all digits, and have no leading zero |
| `Decimal.IntToString` | shellHistory.c:41 | `%i` text is non-empty, starts with `-` or a digit, and holds no space or newline |
| `Decimal.NatDigitsRoundTrip` | shellHistory.c:41 | reading the printed digits of a natural gives it back |
| `Decimal.IntToStringRoundTrip` | shellHistory.c:41 | reading a printed `%i` number gives the number back |
| `LineReader.Fgets` | shellHistory.c:92 | `fgets(cmd, 80, stdin)` returns nothing exactly at end of input; otherwise a non-empty prefix of at most 79 bytes, with no newline before its last byte, that ends in a newline, fills the buffer or exhausts the input |
| `LineReader.GetCmd` | shellHistory.c:85-107 | end of input exactly when nothing is left; otherwise the line is what was read minus its last byte, at most 78 bytes, newline-free, and the input is the line, one dropped byte and the rest; the dropped byte is the first newline, or the line has 78 bytes, or the input ends there |
| `LineReader.GetCmdShortLine` | shellHistory.c:92-104 | a line shorter than the buffer comes back without its newline, and reading resumes after it |
| `LineReader.GetCmdLongLine` | shellHistory.c:92-104 | a longer line is cut at 79 bytes, its 79th byte is lost, and the rest is left for the next read |
| `LineReader.GetCmdUnterminatedLine` | shellHistory.c:92-104 | a last line without a newline loses its last real byte |
| `Tokenizer.NextToken` | shellHistory.c:115-120 | one `strtok` call finds no token exactly when only delimiters remain; otherwise a non-empty token, and the next call resumes past it |
| `Tokenizer.Tokenize` | shellHistory.c:111-129 | the arguments are the first `min(n, 10)` maximal runs of bytes other than space and tab, in order, each a token; the background flag is set exactly when an argument after the first starts with `&` |
| `Tokenizer.ParseInput` | shellHistory.c:111-129 | the slots are exactly `ArgSlots` of `Tokenize`'s arguments: slots 0..k-1 hold the k arguments, the rest and slot 10 are NULL; the background flag holds exactly when a filled slot 1..9 starts with `&`; slot 0 is NULL exactly for a blank line |
| `Tokenizer.TokensStep` | shellHistory.c:117-122 | one more `strtok` call extends the tokens found so far by the next token |
| `Tokenizer.MarksBackgroundAppend` | shellHistory.c:124-126 | a further argument sets the background flag exactly when it starts with `&` |
| `Tokenizer.TokensAreTokens` | shellHistory.c:115-120 | every token `strtok` returns is non-empty and delimiter-free |
| `Tokenizer.TokensOfBlank` | shellHistory.c:115 | `strtok` finds no token exactly when the line holds only spaces and tabs |
| `Tokenizer.ScanIsTokens` | shellHistory.c:115-122 | the reference splitter, started anywhere inside a word, agrees with the `strtok` walk from that word's start |
| `Tokenizer.TokensAreWords` | shellHistory.c:115-122 | the `strtok` tokens are exactly the maximal runs of non-delimiters, in order |
| `Tokenizer.TokenizeEmptyIffBlank` | shellHistory.c:115 | there are no arguments exactly when the line is blank or whitespace-only |
| `Tokenizer.TokenizeSleepInBackground` | shellHistory.c:111-129 | `"sleep 5 &"` gives `sleep`, `5`, `&` with the background flag set |
| `Tokenizer.TokenizeForeground` | shellHistory.c:111-129 | `"echo hi there"` gives `echo`, `hi`, `there` in the foreground |
| `Tokenizer.TokenizeLeadingAmpersand` | shellHistory.c:117-126 | `"& echo hi"` keeps `&` as argument 0 and stays in the foreground |
| `Tokenizer.TokenizeBlank` | shellHistory.c:115 | a line of spaces and tabs gives no arguments |
| `History.Append` | shellHistory.c:50-61 | the counter goes up by one; the entries are the latest ten of the old entries plus the line, so the size grows to at most 10 and the line is last |
| `History.AppendPreservesValid` | shellHistory.c:50-61 | appending a well-formed line keeps `size == min(id, 10)` and every entry well-formed |
| `History.AppendAllKeepsLatest` | shellHistory.c:50-61 | after any run of appends the counter grew by their number and the entries are the last ten of everything, oldest first |
| `History.AppendAllFromInit` | shellHistory.c:28-61 | from `{0, empty, 0}`, n appends give `id == n` and the last `min(n, 10)` lines |
| `History.CopyFromCmdHist` | shellHistory.c:63-82 | succeeds (status 0) exactly when the computed index is held, and then copies that entry; otherwise status 1 with the buffer unchanged |
| `History.DumpEntries` | shellHistory.c:35-42 | one numbered entry per held command, oldest first, with contiguous numbers, the last equal to `id` and the first at least 1 |
| `History.LookupMatchesShiftedLabel` | shellHistory.c:41-75 | a request `r` succeeds exactly when the dump shows an entry numbered `2 * (id - size) + r`, and copies that entry |
| `History.LookupBeforeEviction` | shellHistory.c:41-75 | before any eviction, `r d` succeeds exactly for `1 <= d <= size` and copies the entry the dump numbers `d` |
| `History.LookupFailsLate` | shellHistory.c:68-79 | once `id >= 21`, every request `r >= 0` fails with the buffer untouched, while the dump starts at `id - 9` |
| `History.BareSelectorCopiesOldest` | shellHistory.c:68-76 | before any eviction the selector `-1` copies the oldest entry, not the newest |
| `History.LinesOfJoin` | shellHistory.c:41 | splitting newline-terminated lines at newlines gives the lines back |
| `History.ParseFormattedEntries` | shellHistory.c:41 | each printed `"N text"` line reads back as its number and text |
| `History.DumpText` | shellHistory.c:30-47 | the printed dump reads back as exactly the numbered entries, oldest first, and `(empty)` as none, whenever no entry holds a newline |
| `History.DumpOfInit` | shellHistory.c:43-45 | the initial history prints a newline and `(empty)` |
| `Shell.ShellStep` | shell.c:118-127 | a line runs nothing exactly when it is blank; otherwise the first `min(n, 10)` words of the line, at least one, with the background flag as `parseInput` sets it |
| `Shell.ShellSession` | shell.c:106-128 | the loop runs at most one command per input byte, each with 1 to 10 arguments |
| `Shell.BlankLineRunsNothing` | shell.c:118-124 | a blank line is skipped: the loop continues with the next line and runs nothing for it |
| `ShellHistory.RequestedId` | shellHistory.c:190-197 | -1 unless the line starts with `"r "`; `"r "` alone gives -48; a lookup is asked for exactly when the byte after `"r "` lies in `'0'`..127, and then the number is that byte minus `'0'`, so a digit gives its value |
| `ShellHistory.RequestedIdReadsThreeBytes` | shellHistory.c:191-192 | only the first three bytes decide the requested number |
| `ShellHistory.RequestedIdExamples` | shellHistory.c:190-197 | `"r 12"` asks for 1; `"r"` and `"rm x"` ask for nothing; `"r "` gives -48 and `"r x"` gives 72 |
| `ShellHistory.Step` | shellHistory.c:190-216 | the pass keeps the history valid; it is dropped, with the history unchanged, exactly when a lookup was asked for and the index is not held; otherwise the recorded text is the line or a held entry, it is appended, and it runs as in `shell.c` |
| `ShellHistory.Session` | shellHistory.c:179-217 | the loop keeps the history valid, grows the counter by at most the input length, and runs at most that many commands of 1 to 10 arguments |
| `ShellHistory.PlainLineAsInShell` | shellHistory.c:190-213 | a line that asks for no lookup is recorded, blank or not, and handled as `shell.c` handles it |
| `ShellHistory.ReplayRecordsEntry` | shellHistory.c:198-203 | a successful replay records the copied entry, not the `r N` line |
| `ShellHistory.ReplayFailsLate` | shellHistory.c:198-201 | after 21 recorded commands every replay is dropped with the history unchanged |
| `ShellHistory.NonDigitReplayIsDropped` | shellHistory.c:190-201 | a line `"r "` followed by a byte from `;` to 127, such as `r foo`, asks for a number no history holds, so it is dropped: neither recorded nor run, the history unchanged |
| `ShellHistory.ReplayScenario` | shellHistory.c:190-203 | after two plain commands, `r 1` copies and records the first one a second time |

Two definitions have no row of their own. `History.Init`, the initial
`{0, NULL, 0}` of shellHistory.c:28, is covered by `History.AppendAllFromInit`
and `History.DumpOfInit`. `History.CopyIndex`, the index formula of
shellHistory.c:67-71, is covered by `History.CopyFromCmdHist` and the three
`Lookup` lemmas.

## Left out

- `run`: `fork`, `execvp` and `waitpid` are process creation. A pass
  returns the command it would run, with its background flag.
- The SIGINT handler's registration and asynchronous delivery. The dump is
  a pure function of the history; a signal arriving in the middle of an
  append is not modelled.
- Prompts (`sh>`), the `COPYING %i` trace and the `Error: Invalid history
  index!` message are output only and not modelled.
- The `fgets` retry loop on a read error that is not end of input. The
  input model has no read errors.
- `strdup`/`free` ownership, the final free loop, `bzero`, and `strtok`'s
  writing of terminators into the buffer. Strings are immutable values.
- NUL bytes in the input are excluded: `GetCmd`, both session loops and
  the line lemmas require `IsCText`. With a NUL, `strlen` would stop early
  and the strip would cut elsewhere.
- `History.Append`: the counter is an unbounded integer. The C `int`
  overflows after 2^31 - 1 appends.
- `History.CopyFromCmdHist`: `strncpy` with limit 80 never truncates,
  because every entry is shorter than 80 bytes. Its NUL padding is not
  modelled.
- `CText.SignedValue`: `char` is taken to be signed, the usual x86
  convention. Bytes of 128 and above then never ask for a lookup.
- `ShellHistory.Session`: its contract bounds the loop and keeps the history
  valid. The exact commands run are given by the definition and by the
  per-line lemmas, not stated for a whole input.
- `Shell.ShellSession`: like `ShellHistory.Session`, it bounds the commands
  run rather than listing them.
