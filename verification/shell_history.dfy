/**
 * The loop of `shellHistory.c`'s `main`: a line of the form `r N` first
 * replaces itself by a history entry (or is dropped when the lookup fails),
 * then the line is recorded in the history, parsed, and run unless it held
 * no token.
 */
module ShellHistory {

  import opened Wrappers
  import opened CText
  import opened Decimal
  import opened LineReader
  import opened Tokenizer
  import opened History
  import Shell

  /**
   * The number `main` computes for a line: `cmd[2] - '0'` when the line
   * starts with `"r "`, where `cmd[2]` is the terminator for the two-byte
   * line `"r "`; `-1` for every other line, including other lines that
   * start with `r`.
   */
  function RequestedId(line: string): (id: int)
    requires IsCText(line)
    ensures id < 128 - '0' as int
    ensures !(|line| >= 2 && line[0] == 'r' && line[1] == ' ') ==> id == -1
    ensures |line| >= 3 && line[0] == 'r' && line[1] == ' ' && IsDigit(line[2]) ==>
      id == DigitValue(line[2])
    ensures line == "r " ==> id == -('0' as int)
    ensures id > -1 <==>
      |line| >= 3 && line[0] == 'r' && line[1] == ' ' && '0' <= line[2] < 128 as char
    ensures id > -1 ==> id == line[2] as int - '0' as int
  {
    if |line| >= 2 && line[0] == 'r' && line[1] == ' ' then
      (if |line| > 2 then SignedValue(line[2]) else 0) - '0' as int
    else -1
  }

  /** Only the first three bytes decide the number: `"r 12"` asks for 1. */
  lemma RequestedIdReadsThreeBytes(a: string, b: string)
    requires IsCText(a) && IsCText(b)
    requires |a| >= 3 && |b| >= 3 && a[..3] == b[..3]
    ensures RequestedId(a) == RequestedId(b)
  {
    assert a[0] == b[0] && a[1] == b[1] && a[2] == b[2] by {
      assert a[..3][0] == a[0] && a[..3][1] == a[1] && a[..3][2] == a[2];
      assert b[..3][0] == b[0] && b[..3][1] == b[1] && b[..3][2] == b[2];
    }
  }

  /** What one pass of the loop body does with a line. */
  datatype Outcome =
    | LookupFailed
    | Recorded(line: string, run: Option<Command>)

  /**
   * One pass of the loop body, from the moment `getCmd` has returned a
   * line: a requested number `> -1` goes to `copyFromCmdHist`, whose
   * failure skips the rest of the pass; otherwise the line (the copied
   * entry after a replay) is appended to the history and parsed, and the
   * command runs when `args[0]` is not NULL.
   */
  function Step(h: History, line: string): (r: (History, Outcome))
    requires Valid(h) && WellFormedLine(line)
    ensures Valid(r.0)
    ensures r.1.LookupFailed? <==>
      RequestedId(line) > -1 && !(0 <= CopyIndex(h, RequestedId(line)) < |h.cmds|)
    ensures r.1.LookupFailed? ==> r.0 == h
    ensures r.1.Recorded? ==> r.0 == Append(h, r.1.line)
    ensures r.1.Recorded? && RequestedId(line) <= -1 ==> r.1.line == line
    ensures r.1.Recorded? && RequestedId(line) > -1 ==> r.1.line in h.cmds
    ensures r.1.Recorded? ==> r.1.run == Shell.ShellStep(r.1.line)
  {
    var id := RequestedId(line);
    var copy := if id > -1 then CopyFromCmdHist(h, id, line) else Copy(0, line);
    if copy.status == 1 then (h, LookupFailed)
    else
      AppendPreservesValid(h, copy.cmdLine);
      (Append(h, copy.cmdLine), Recorded(copy.cmdLine, Shell.ShellStep(copy.cmdLine)))
  }

  /**
   * The whole loop over the input still to be read. The result is the
   * final history and the commands handed to `run`, in order. The counter
   * never grows by more than the number of input bytes.
   */
  function Session(h: History, stream: string): (r: (History, seq<Command>))
    requires Valid(h) && IsCText(stream)
    ensures Valid(r.0)
    ensures h.id <= r.0.id <= h.id + |stream|
    ensures |r.1| <= |stream|
    ensures forall i :: 0 <= i < |r.1| ==> 0 < |r.1[i].args| <= MaxArgs
    decreases |stream|
  {
    match GetCmd(stream)
    case None => (h, [])
    case Some((line, rest)) =>
      var (h', o) := Step(h, line);
      var (last, runs) := Session(h', rest);
      if o.Recorded? && o.run.Some? then (last, [o.run.value] + runs) else (last, runs)
  }

  /**
   * A line that asks for no lookup, such as a bare `r`, `rm x` or `r `,
   * is handled as in the shell without history, and is also recorded,
   * blank or not.
   */
  lemma PlainLineAsInShell(h: History, line: string)
    requires Valid(h) && WellFormedLine(line)
    requires RequestedId(line) <= -1
    ensures Step(h, line) == (Append(h, line), Recorded(line, Shell.ShellStep(line)))
  {
  }

  /** A replay that succeeds records the copied entry, not the `r N` text. */
  lemma ReplayRecordsEntry(h: History, line: string)
    requires Valid(h) && WellFormedLine(line)
    requires RequestedId(line) > -1
    requires Step(h, line).1.Recorded?
    ensures var x := CopyIndex(h, RequestedId(line));
      && 0 <= x < |h.cmds|
      && Step(h, line).1.line == h.cmds[x]
      && Step(h, line).0.cmds[|Step(h, line).0.cmds| - 1] == h.cmds[x]
  {
  }

  /**
   * After 21 recorded commands every replay request is dropped, with the
   * history untouched.
   */
  lemma ReplayFailsLate(h: History, line: string)
    requires Valid(h) && WellFormedLine(line)
    requires h.id >= 2 * HistSize + 1 && RequestedId(line) > -1
    ensures Step(h, line) == (h, LookupFailed)
  {
    LookupFailsLate(h, RequestedId(line), line);
  }

  /**
   * A line such as `r foo`, whose byte after `"r "` lies past the digits and
   * `:`, asks for a number of 11 or more, which no history of ten entries
   * holds: the line is neither recorded nor run.
   */
  lemma NonDigitReplayIsDropped(h: History, line: string)
    requires Valid(h) && WellFormedLine(line)
    requires |line| >= 3 && line[0] == 'r' && line[1] == ' ' && ';' <= line[2] < 128 as char
    ensures Step(h, line) == (h, LookupFailed)
  {
  }

  /**
   * Two plain commands `a` and `b` from the initial state, then a line
   * asking for number 1 (such as `r 1`): the replay copies entry 1, `a`,
   * and records it a second time.
   */
  lemma ReplayScenario(a: string, b: string, replay: string)
    requires WellFormedLine(a) && WellFormedLine(b) && WellFormedLine(replay)
    requires RequestedId(a) <= -1 && RequestedId(b) <= -1
    requires RequestedId(replay) == 1
    ensures var h1 := Step(Init(), a).0;
      var h2 := Step(h1, b).0;
      && h2 == History(2, [a, b])
      && Step(h2, replay) == (History(3, [a, b, a]), Recorded(a, Shell.ShellStep(a)))
  {
    PlainLineAsInShell(Init(), a);
    var h1 := History(1, [a]);
    assert Append(Init(), a) == h1 by { assert [] + [a] == [a]; }
    PlainLineAsInShell(h1, b);
    var h2 := History(2, [a, b]);
    assert Append(h1, b) == h2;
    assert CopyFromCmdHist(h2, 1, replay) == Copy(0, a);
    assert Append(h2, a) == History(3, [a, b, a]);
  }

  /** Examples of the number `main` reads from a line. */
  lemma RequestedIdExamples()
    ensures RequestedId("r 12") == 1
    ensures RequestedId("r") == -1
    ensures RequestedId("rm x") == -1
    ensures RequestedId("r ") == -48
    ensures RequestedId("r x") == 72
  {
  }
}
