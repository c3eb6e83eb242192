/**
 * The bounded command history of `shellHistory.c`: the record
 * `{id, cmds[HIST_SIZE], size}` with `size` implicit as `|cmds|`, its
 * append with FIFO eviction, the lookup `copyFromCmdHist`, and the text
 * the SIGINT handler prints.
 */
module History {

  import opened Wrappers
  import opened CText
  import opened Decimal

  /** `HIST_SIZE`: how many entries the history holds. */
  const HistSize: nat := 10

  /** `id` counts every append ever made; `cmds` holds the last entries, oldest first. */
  datatype History = History(id: int, cmds: seq<string>)

  /** The initial value `{0, NULL, 0}`. */
  function Init(): History
  {
    History(0, [])
  }

  /** A line `getCmd` can hand over: fits the buffer, C bytes, no newline. */
  predicate WellFormedLine(s: string)
  {
    |s| < MaxLength && IsCText(s) && '\n' !in s
  }

  /** Every entry of `s` is a line `getCmd` can hand over. */
  predicate AllWellFormed(s: seq<string>)
  {
    forall i :: 0 <= i < |s| ==> WellFormedLine(s[i])
  }

  /**
   * The states reachable from `Init` by appends of well-formed lines:
   * `size == min(id, HIST_SIZE)`.
   */
  predicate Valid(h: History)
  {
    && h.id >= 0
    && |h.cmds| == Min(h.id, HistSize)
    && AllWellFormed(h.cmds)
  }

  /** The last `HIST_SIZE` elements of `s`, or all of them when fewer. */
  function Latest<T>(s: seq<T>): seq<T>
  {
    s[|s| - Min(|s|, HistSize)..]
  }

  /**
   * `addToCmdHistory`: when full, the oldest entry is dropped and the
   * others move down; the counter goes up by one and the line goes last.
   * The history then holds the latest `HIST_SIZE` of its old entries and
   * the new line.
   */
  function Append(h: History, line: string): (r: History)
    requires |h.cmds| <= HistSize
    ensures r.id == h.id + 1
    ensures |r.cmds| == Min(|h.cmds| + 1, HistSize)
    ensures r.cmds[|r.cmds| - 1] == line
    ensures r.cmds == Latest(h.cmds + [line])
  {
    if |h.cmds| == HistSize then
      assert h.cmds[1..] + [line] == (h.cmds + [line])[1..];
      History(h.id + 1, h.cmds[1..] + [line])
    else
      assert (h.cmds + [line])[0..] == h.cmds + [line];
      History(h.id + 1, h.cmds + [line])
  }

  lemma LatestKeepsWellFormed(s: seq<string>)
    requires AllWellFormed(s)
    ensures AllWellFormed(Latest(s))
  {
    var k := |s| - Min(|s|, HistSize);
    forall i | 0 <= i < |Latest(s)|
      ensures WellFormedLine(Latest(s)[i])
    {
      assert Latest(s)[i] == s[k + i];
    }
  }

  lemma AppendPreservesValid(h: History, line: string)
    requires Valid(h) && WellFormedLine(line)
    ensures Valid(Append(h, line))
  {
    var all := h.cmds + [line];
    forall i | 0 <= i < |all|
      ensures WellFormedLine(all[i])
    {
      if i < |h.cmds| {
        assert all[i] == h.cmds[i];
      }
    }
    LatestKeepsWellFormed(all);
  }

  /** A run of appends, one line after the other. */
  function AppendAll(h: History, lines: seq<string>): (r: History)
    requires |h.cmds| <= HistSize
    ensures |r.cmds| <= HistSize
  {
    if lines == [] then h
    else Append(AppendAll(h, lines[..|lines| - 1]), lines[|lines| - 1])
  }

  /** A suffix that is at least as long as the kept part keeps the same part. */
  lemma LatestOfSuffix<T>(s: seq<T>, k: nat)
    requires k <= |s| && |s| - k >= Min(|s|, HistSize)
    ensures Latest(s[k..]) == Latest(s)
  {
    var t := s[k..];
    var m := Min(|s|, HistSize);
    assert Min(|t|, HistSize) == m;
    assert t[|t| - m..] == s[|s| - m..];
  }

  /** Keeping the latest entries before or after more appends is the same. */
  lemma LatestOfLatest<T>(a: seq<T>, b: seq<T>)
    ensures Latest(Latest(a) + b) == Latest(a + b)
  {
    var k := |a| - Min(|a|, HistSize);
    assert Latest(a) + b == (a + b)[k..];
    LatestOfSuffix(a + b, k);
  }

  /** Splitting off the last element and appending it back. */
  lemma AppendLastBack<T>(a: seq<T>, b: seq<T>)
    requires |b| > 0
    ensures (a + b[..|b| - 1]) + [b[|b| - 1]] == a + b
  {
    assert b[..|b| - 1] + [b[|b| - 1]] == b;
  }

  /** One append to a history holding the latest lines keeps it so. */
  lemma AppendToLatest(id: int, before: seq<string>, x: string)
    ensures Append(History(id, Latest(before)), x) == History(id + 1, Latest(before + [x]))
  {
    LatestOfLatest(before, [x]);
  }

  /**
   * After any run of appends the counter has grown by the number of lines
   * and the history holds the last `HIST_SIZE` of everything appended,
   * oldest first.
   */
  lemma {:induction false} AppendAllKeepsLatest(h: History, lines: seq<string>)
    requires |h.cmds| <= HistSize
    ensures AppendAll(h, lines) == History(h.id + |lines|, Latest(h.cmds + lines))
  {
    if lines == [] {
      assert h.cmds + lines == h.cmds;
      assert Latest(h.cmds) == h.cmds[0..];
    } else {
      var front := lines[..|lines| - 1];
      var x := lines[|lines| - 1];
      AppendAllKeepsLatest(h, front);
      AppendToLatest(h.id + |front|, h.cmds + front, x);
      AppendLastBack(h.cmds, lines);
    }
  }

  /** From the initial state, `n` appends give `id == n` and the last `min(n, 10)` lines. */
  lemma AppendAllFromInit(lines: seq<string>)
    ensures AppendAll(Init(), lines) == History(|lines|, Latest(lines))
  {
    AppendAllKeepsLatest(Init(), lines);
    assert Init().cmds + lines == lines;
  }

  // ---------------------------------------------------------------------
  // copyFromCmdHist

  /** What `copyFromCmdHist` returns and what it leaves in `cmdLine`. */
  datatype Copy = Copy(status: int, cmdLine: string)

  /** The index the code computes for a requested number; -1 is the bare form. */
  function CopyIndex(h: History, req: int): int
  {
    if req == -1 then h.id - |h.cmds| else h.id - |h.cmds| + req - 1
  }

  /**
   * `copyFromCmdHist`: status 0 and the entry at the computed index when
   * that index is held, otherwise status 1 with the buffer untouched.
   */
  function CopyFromCmdHist(h: History, req: int, cmdLine: string): (r: Copy)
    ensures r.status == 0 || r.status == 1
    ensures r.status == 1 ==> r.cmdLine == cmdLine
    ensures r.status == 0 <==> 0 <= CopyIndex(h, req) < |h.cmds|
    ensures r.status == 0 ==> r.cmdLine == h.cmds[CopyIndex(h, req)]
  {
    var x := CopyIndex(h, req);
    if 0 <= x < |h.cmds| then Copy(0, h.cmds[x]) else Copy(1, cmdLine)
  }

  // ---------------------------------------------------------------------
  // The dump printed by showHistoryHandler

  /** The number the dump prints in front of the entry at index `i`. */
  function Label(h: History, i: int): int
  {
    h.id - |h.cmds| + i + 1
  }

  /** The dump as (number, text) pairs, oldest first. */
  function DumpEntries(h: History): (r: seq<(int, string)>)
    ensures |r| == |h.cmds|
    ensures forall i :: 0 <= i < |r| ==> r[i].1 == h.cmds[i]
    ensures forall i :: 0 < i < |r| ==> r[i].0 == r[i - 1].0 + 1
    ensures |r| > 0 ==> r[|r| - 1].0 == h.id
    ensures Valid(h) && |r| > 0 ==> r[0].0 >= 1
  {
    seq(|h.cmds|, i requires 0 <= i < |h.cmds| => (Label(h, i), h.cmds[i]))
  }

  /**
   * The lookup and the dump count differently: a request for `r` succeeds
   * exactly when the dump shows an entry numbered `2 * (id - size) + r`,
   * and copies that entry's text.
   */
  lemma LookupMatchesShiftedLabel(h: History, req: int, cmdLine: string)
    requires req != -1
    ensures var d := DumpEntries(h);
      var c := CopyFromCmdHist(h, req, cmdLine);
      var n := 2 * (h.id - |h.cmds|) + req;
      && (c.status == 0 <==> exists i :: 0 <= i < |d| && d[i].0 == n)
      && forall i :: 0 <= i < |d| && d[i].0 == n ==> c.cmdLine == d[i].1
  {
    var d := DumpEntries(h);
    var x := CopyIndex(h, req);
    if 0 <= x < |d| {
      assert d[x].0 == 2 * (h.id - |h.cmds|) + req;
    }
  }

  /**
   * Until the first eviction (`id <= HIST_SIZE`) the two numberings agree:
   * `r d` succeeds exactly when the dump shows an entry numbered `d`, and
   * copies that entry.
   */
  lemma LookupBeforeEviction(h: History, d: int, cmdLine: string)
    requires Valid(h) && h.id <= HistSize && d != -1
    ensures var es := DumpEntries(h);
      var c := CopyFromCmdHist(h, d, cmdLine);
      && (c.status == 0 <==> 1 <= d <= |es|)
      && (c.status == 0 ==> es[d - 1] == (d, c.cmdLine))
  {
  }

  /**
   * Once 21 commands have been recorded, no request `r >= 0` finds an
   * entry, although the dump still numbers them `id - 9 .. id`.
   */
  lemma LookupFailsLate(h: History, req: int, cmdLine: string)
    requires Valid(h) && h.id >= 2 * HistSize + 1 && req >= 0
    ensures CopyFromCmdHist(h, req, cmdLine) == Copy(1, cmdLine)
    ensures DumpEntries(h)[0].0 == h.id - HistSize + 1
  {
  }

  /** The bare selector `-1`, before any eviction, copies the oldest entry. */
  lemma BareSelectorCopiesOldest(h: History, cmdLine: string)
    requires Valid(h) && 0 < h.id <= HistSize
    ensures CopyFromCmdHist(h, -1, cmdLine) == Copy(0, h.cmds[0])
  {
  }

  /** One printed line, `"%i %s"` without its newline. */
  function FormatEntry(n: int, text: string): string
  {
    IntToString(n) + " " + text
  }

  /** Lines each followed by a newline. */
  function JoinLines(ls: seq<string>): string
  {
    if ls == [] then [] else ls[0] + "\n" + JoinLines(ls[1..])
  }

  function FormatAll(es: seq<(int, string)>): (r: seq<string>)
    ensures |r| == |es|
  {
    if es == [] then [] else [FormatEntry(es[0].0, es[0].1)] + FormatAll(es[1..])
  }

  /** What the dump prints for an empty history. */
  const EmptyMark: string := "(empty)"

  /** Everything `showHistoryHandler` prints for SIGINT. */
  function DumpText(h: History): (t: string)
    ensures (forall i :: 0 <= i < |h.cmds| ==> '\n' !in h.cmds[i]) ==>
      ReadDump(t) == Some(DumpEntries(h))
  {
    if |h.cmds| == 0 then
      ReadEmptyDump();
      "\n" + (EmptyMark + "\n")
    else
      var t := "\n" + JoinLines(FormatAll(DumpEntries(h)));
      if forall i :: 0 <= i < |h.cmds| ==> '\n' !in h.cmds[i] then
        ReadNonEmptyDump(DumpEntries(h));
        t
      else t
  }

  // ---------------------------------------------------------------------
  // Reading a dump back

  /** Splits text at newlines; a final piece without newline is kept. */
  function Lines(s: string): seq<string>
    decreases |s|
  {
    if s == [] then []
    else
      var k := IndexOf(s, '\n');
      if k == |s| then [s] else [s[..k]] + Lines(s[k + 1..])
  }

  /** Reads `"N text"`: a number up to the first space, then the text. */
  function ParseEntry(line: string): Option<(int, string)>
  {
    var k := IndexOf(line, ' ');
    if k == |line| then None
    else
      match ParseInt(line[..k])
      case None => None
      case Some(n) => Some((n, line[k + 1..]))
  }

  function ParseEntries(ls: seq<string>): Option<seq<(int, string)>>
  {
    if ls == [] then Some([])
    else
      var e := ParseEntry(ls[0]);
      var es := ParseEntries(ls[1..]);
      if e.Some? && es.Some? then Some([e.value] + es.value) else None
  }

  /** Reads the printed dump back into (number, text) pairs. */
  function ReadDump(t: string): Option<seq<(int, string)>>
  {
    var ls := Lines(t);
    if |ls| == 0 || ls[0] != "" then None
    else if ls[1..] == [EmptyMark] then Some([])
    else ParseEntries(ls[1..])
  }

  lemma LinesStep(l: string, rest: string)
    requires '\n' !in l
    ensures Lines(l + "\n" + rest) == [l] + Lines(rest)
  {
    var s := l + "\n" + rest;
    assert s[|l|] == '\n';
    assert forall j :: 0 <= j < |l| ==> s[j] == l[j];
    assert IndexOf(s, '\n') == |l|;
    assert s[..|l|] == l;
    assert s[|l| + 1..] == rest;
  }

  lemma {:induction false} LinesOfJoin(ls: seq<string>)
    requires forall i :: 0 <= i < |ls| ==> '\n' !in ls[i]
    ensures Lines(JoinLines(ls)) == ls
  {
    if ls != [] {
      LinesStep(ls[0], JoinLines(ls[1..]));
      LinesOfJoin(ls[1..]);
    }
  }

  lemma ParseFormattedEntry(n: int, text: string)
    ensures ParseEntry(FormatEntry(n, text)) == Some((n, text))
  {
    var d := IntToString(n);
    var line := d + " " + text;
    assert line[|d|] == ' ';
    assert forall j :: 0 <= j < |d| ==> line[j] == d[j];
    assert IndexOf(line, ' ') == |d|;
    assert line[..|d|] == d;
    assert line[|d| + 1..] == text;
    IntToStringRoundTrip(n);
  }

  lemma ParseEntriesCons(l: string, ls: seq<string>, e: (int, string), es: seq<(int, string)>)
    requires ParseEntry(l) == Some(e) && ParseEntries(ls) == Some(es)
    ensures ParseEntries([l] + ls) == Some([e] + es)
  {
    assert ([l] + ls)[0] == l;
    assert ([l] + ls)[1..] == ls;
  }

  lemma {:induction false} ParseFormattedEntries(es: seq<(int, string)>)
    ensures ParseEntries(FormatAll(es)) == Some(es)
  {
    if es != [] {
      var line := FormatEntry(es[0].0, es[0].1);
      assert FormatAll(es) == [line] + FormatAll(es[1..]);
      ParseFormattedEntry(es[0].0, es[0].1);
      ParseFormattedEntries(es[1..]);
      ParseEntriesCons(line, FormatAll(es[1..]), es[0], es[1..]);
      assert [es[0]] + es[1..] == es;
    }
  }

  lemma {:induction false} FormattedLinesHaveNoNewline(es: seq<(int, string)>)
    requires forall i :: 0 <= i < |es| ==> '\n' !in es[i].1
    ensures forall i :: 0 <= i < |FormatAll(es)| ==> '\n' !in FormatAll(es)[i]
  {
    if es != [] {
      FormattedLinesHaveNoNewline(es[1..]);
      var f := FormatAll(es);
      assert f == [FormatEntry(es[0].0, es[0].1)] + FormatAll(es[1..]);
      assert '\n' !in IntToString(es[0].0);
    }
  }

  /** A leading newline reads as an empty first line. */
  lemma LinesAfterNewline(t: string)
    ensures Lines("\n" + t) == [""] + Lines(t)
  {
    LinesStep("", t);
    assert "\n" + t == "" + "\n" + t;
  }

  lemma ReadEmptyDump()
    ensures ReadDump("\n" + (EmptyMark + "\n")) == Some([])
  {
    var e := EmptyMark;
    LinesStep(e, "");
    assert e + "\n" == e + "\n" + "";
    LinesAfterNewline(e + "\n");
    assert Lines("\n" + (e + "\n")) == ["", e];
  }

  lemma FormatEntryIsNotMark(n: int, text: string)
    ensures FormatEntry(n, text) != EmptyMark
  {
    var d := IntToString(n);
    assert FormatEntry(n, text)[0] == d[0];
    assert EmptyMark[0] == '(';
  }

  lemma LinesOfDump(ls: seq<string>)
    requires forall i :: 0 <= i < |ls| ==> '\n' !in ls[i]
    ensures Lines("\n" + JoinLines(ls)) == [""] + ls
  {
    LinesAfterNewline(JoinLines(ls));
    LinesOfJoin(ls);
  }

  lemma ReadNonEmptyDump(es: seq<(int, string)>)
    requires |es| > 0
    requires forall i :: 0 <= i < |es| ==> '\n' !in es[i].1
    ensures ReadDump("\n" + JoinLines(FormatAll(es))) == Some(es)
  {
    var ls := FormatAll(es);
    FormattedLinesHaveNoNewline(es);
    LinesOfDump(ls);
    ParseFormattedEntries(es);
    assert ls[0] == FormatEntry(es[0].0, es[0].1);
    FormatEntryIsNotMark(es[0].0, es[0].1);
    assert ls != [EmptyMark];
  }

  /** The dump of the initial state. */
  lemma DumpOfInit()
    ensures DumpText(Init()) == "\n(empty)\n"
  {
  }
}
