/**
 * `parseInput`, the same in both programs: repeated `strtok(…, " \t")`
 * calls fill the argument vector with at most `MAX_ARGS` tokens, and a
 * token at positions 1..9 that starts with `&` asks for a background run.
 * `strtok`'s in-place writing of terminators is replaced by returning
 * fresh strings; its saved position becomes an index into the line.
 */
module Tokenizer {

  import opened Wrappers
  import opened CText

  /** A parsed command: what `run(args, background)` is handed. */
  datatype Command = Command(args: seq<string>, background: bool)

  /** A token: a non-empty run of non-delimiter bytes. */
  predicate IsToken(t: string)
  {
    |t| > 0 && forall j :: 0 <= j < |t| ==> !IsDelim(t[j])
  }

  predicate AllDelims(s: string)
  {
    forall j :: 0 <= j < |s| ==> IsDelim(s[j])
  }

  /** Every byte of `s[i..k]` is a delimiter. */
  predicate DelimsIn(s: string, i: nat, k: nat)
    requires i <= k <= |s|
    decreases k - i
  {
    i == k || (IsDelim(s[i]) && DelimsIn(s, i + 1, k))
  }

  /** No byte of `s[i..k]` is a delimiter. */
  predicate WordIn(s: string, i: nat, k: nat)
    requires i <= k <= |s|
    decreases k - i
  {
    i == k || (!IsDelim(s[i]) && WordIn(s, i + 1, k))
  }

  /** First position at or after `i` that is not a delimiter (or `|s|`). */
  function SkipDelims(s: string, i: nat): (k: nat)
    requires i <= |s|
    ensures i <= k <= |s|
    ensures DelimsIn(s, i, k)
    ensures k < |s| ==> !IsDelim(s[k])
    decreases |s| - i
  {
    if i < |s| && IsDelim(s[i]) then SkipDelims(s, i + 1) else i
  }

  /** First position at or after `i` that is a delimiter (or `|s|`). */
  function RunEnd(s: string, i: nat): (k: nat)
    requires i <= |s|
    ensures i <= k <= |s|
    ensures WordIn(s, i, k)
    ensures k < |s| ==> IsDelim(s[k])
    decreases |s| - i
  {
    if i < |s| && !IsDelim(s[i]) then RunEnd(s, i + 1) else i
  }

  /**
   * One `strtok` call resuming at position `i`: the next token, if any, and
   * where the following call resumes. The delimiter that ends the token is
   * overwritten by the terminator, so resumption starts one byte after it;
   * when no token is left the position is the end of the line.
   */
  function NextToken(s: string, i: nat): (r: (Option<string>, nat))
    requires i <= |s|
    ensures r.1 <= |s|
    ensures r.0.None? <==> DelimsIn(s, i, |s|)
    ensures r.0.None? ==> r.1 == |s|
    ensures r.0.Some? ==> |r.0.value| > 0 && i < r.1
  {
    var a := SkipDelims(s, i);
    if a == |s| then (None, |s|)
    else
      DelimsInAfterStop(s, i, a);
      var b := RunEnd(s, a);
      (Some(s[a..b]), if b < |s| then b + 1 else |s|)
  }

  /** The tokens successive `strtok` calls return from position `i` on, with no cap. */
  function TokensFrom(s: string, i: nat): seq<string>
    requires i <= |s|
    decreases |s| - i
  {
    var next := NextToken(s, i);
    if next.0.None? then [] else [next.0.value] + TokensFrom(s, next.1)
  }

  /** All the tokens of a line, as `strtok` finds them. */
  function Tokens(s: string): seq<string>
  {
    TokensFrom(s, 0)
  }

  /**
   * Reference splitter, written independently of `strtok`: a left-to-right
   * scan that grows the current word `cur` on a non-delimiter and closes it
   * on a delimiter or at the end.
   */
  function Scan(s: string, i: nat, cur: string, acc: seq<string>): seq<string>
    requires i <= |s|
    decreases |s| - i
  {
    if i == |s| then (if cur == [] then acc else acc + [cur])
    else if IsDelim(s[i]) then Scan(s, i + 1, [], if cur == [] then acc else acc + [cur])
    else Scan(s, i + 1, cur + [s[i]], acc)
  }

  /** The maximal runs of non-delimiters of `s`, in order. */
  function Words(s: string): seq<string>
  {
    Scan(s, 0, [], [])
  }

  /** A token at index 1 or later that starts with `&`. */
  predicate MarksBackground(args: seq<string>)
  {
    exists i :: 1 <= i < |args| && |args[i]| > 0 && args[i][0] == '&'
  }

  /**
   * `parseInput` as a pure function: the first `MAX_ARGS` tokens and the
   * background flag.
   */
  function Tokenize(s: string): (r: Command)
    ensures |r.args| == Min(|Words(s)|, MaxArgs)
    ensures r.args == Words(s)[..|r.args|]
    ensures forall i :: 0 <= i < |r.args| ==> IsToken(r.args[i])
    ensures r.background == MarksBackground(r.args)
  {
    var all := Tokens(s);
    TokensAreWords(s);
    TokensAreTokens(s, 0);
    var args := all[..Min(|all|, MaxArgs)];
    Command(args, MarksBackground(args))
  }

  /** The argument vector of `MAX_ARGS + 1` slots, `None` standing for NULL. */
  function ArgSlots(args: seq<string>): (v: seq<Option<string>>)
    requires |args| <= MaxArgs
    ensures |v| == MaxArgs + 1
  {
    seq(MaxArgs + 1, i requires 0 <= i <= MaxArgs => if i < |args| then Some(args[i]) else None)
  }

  /**
   * The `parseInput` loop itself, run on an argument vector that `main`
   * has just cleared: slot 0 from the first call, then slots 1..9 until a
   * call finds no token. Slots past the last token, and slot `MAX_ARGS`
   * always, stay NULL.
   */
  method ParseInput(cmd: string) returns (argv: seq<Option<string>>, background: bool)
    ensures |argv| == MaxArgs + 1
    ensures argv == ArgSlots(Tokenize(cmd).args)
    ensures var c := Tokenize(cmd);
      && (forall i :: 0 <= i < |c.args| ==> argv[i] == Some(c.args[i]))
      && (forall i :: |c.args| <= i <= MaxArgs ==> argv[i] == None)
    ensures background <==>
      exists i :: 1 <= i < MaxArgs && argv[i].Some? && |argv[i].value| > 0 && argv[i].value[0] == '&'
    ensures argv[MaxArgs] == None
    ensures argv[0] == None <==> AllDelims(cmd)
  {
    argv := seq(MaxArgs + 1, _ => None);
    background := false;
    var (first, pos) := NextToken(cmd, 0);
    argv := argv[0 := first];
    ghost var toks: seq<string> := if first.Some? then [first.value] else [];
    assert first.Some? ==> TokensFrom(cmd, 0) == toks + TokensFrom(cmd, pos);
    var i := 1;
    while i < MaxArgs
      invariant 1 <= i <= MaxArgs
      invariant pos <= |cmd|
      invariant |toks| <= i
      invariant Tokens(cmd) == toks + TokensFrom(cmd, pos)
      invariant |toks| < i ==> TokensFrom(cmd, pos) == []
      invariant |argv| == MaxArgs + 1
      invariant forall k :: 0 <= k < |toks| ==> argv[k] == Some(toks[k])
      invariant forall k :: |toks| <= k <= MaxArgs ==> argv[k] == None
      invariant background <==> MarksBackground(toks)
    {
      var (next, p) := NextToken(cmd, pos);
      if next.None? {
        break;
      }
      TokensStep(cmd, toks, pos);
      assert |toks| == i;
      MarksBackgroundAppend(toks, next.value);
      pos := p;
      argv := argv[i := next];
      if next.value[0] == '&' {
        background := true;
      }
      toks := toks + [next.value];
      i := i + 1;
    }
    assert toks == Tokens(cmd)[..|toks|];
    TokensAreWords(cmd);
    assert toks == Tokenize(cmd).args;
    TokensOfBlank(cmd);
  }

  /** One more `strtok` call moves one token from the unread part to the read part. */
  lemma TokensStep(cmd: string, toks: seq<string>, pos: nat)
    requires pos <= |cmd| && NextToken(cmd, pos).0.Some?
    requires Tokens(cmd) == toks + TokensFrom(cmd, pos)
    ensures Tokens(cmd) == (toks + [NextToken(cmd, pos).0.value]) + TokensFrom(cmd, NextToken(cmd, pos).1)
  {
    var t := NextToken(cmd, pos).0.value;
    var later := TokensFrom(cmd, NextToken(cmd, pos).1);
    assert TokensFrom(cmd, pos) == [t] + later;
    assert toks + ([t] + later) == (toks + [t]) + later;
  }

  /** Appending a token past index 0 adds exactly its own `&` test. */
  lemma MarksBackgroundAppend(toks: seq<string>, t: string)
    requires |toks| >= 1 && |t| > 0
    ensures MarksBackground(toks + [t]) <==> MarksBackground(toks) || t[0] == '&'
  {
    var all := toks + [t];
    if t[0] == '&' {
      assert all[|toks|] == t;
    }
    if MarksBackground(all) {
      var i :| 1 <= i < |all| && |all[i]| > 0 && all[i][0] == '&';
      if i < |toks| {
        assert toks[i] == all[i];
      }
    }
    if MarksBackground(toks) {
      var i :| 1 <= i < |toks| && |toks[i]| > 0 && toks[i][0] == '&';
      assert all[i] == toks[i];
    }
  }

  // ---------------------------------------------------------------------
  // What strtok returns

  /** A run of delimiters cannot reach past a non-delimiter. */
  lemma {:induction false} DelimsInAfterStop(s: string, i: nat, a: nat)
    requires i <= a < |s| && !IsDelim(s[a])
    ensures !DelimsIn(s, i, |s|)
    decreases a - i
  {
    if i < a {
      DelimsInAfterStop(s, i + 1, a);
    }
  }

  lemma {:induction false} WordInIsToken(s: string, i: nat, k: nat)
    requires i <= k <= |s| && WordIn(s, i, k)
    ensures forall j :: 0 <= j < k - i ==> !IsDelim(s[i..k][j])
    decreases k - i
  {
    if i < k {
      WordInIsToken(s, i + 1, k);
      assert forall j :: 1 <= j < k - i ==> s[i..k][j] == s[i + 1..k][j - 1];
    }
  }

  lemma {:induction false} WordInExtend(s: string, i: nat, k: nat)
    requires i <= k < |s| && WordIn(s, i, k) && !IsDelim(s[k])
    ensures WordIn(s, i, k + 1)
    decreases k - i
  {
    if i < k {
      WordInExtend(s, i + 1, k);
    }
  }

  lemma {:induction false} DelimsInAll(s: string, i: nat)
    requires i <= |s|
    ensures DelimsIn(s, i, |s|) <==> forall j :: i <= j < |s| ==> IsDelim(s[j])
    decreases |s| - i
  {
    if i < |s| {
      DelimsInAll(s, i + 1);
    }
  }

  lemma NextTokenIsToken(s: string, i: nat)
    requires i <= |s| && NextToken(s, i).0.Some?
    ensures IsToken(NextToken(s, i).0.value)
  {
    var a := SkipDelims(s, i);
    WordInIsToken(s, a, RunEnd(s, a));
  }

  /** Every token is a non-empty run of non-delimiters. */
  lemma {:induction false} TokensAreTokens(s: string, i: nat)
    requires i <= |s|
    ensures forall k :: 0 <= k < |TokensFrom(s, i)| ==> IsToken(TokensFrom(s, i)[k])
    decreases |s| - i
  {
    var next := NextToken(s, i);
    if next.0.Some? {
      NextTokenIsToken(s, i);
      TokensAreTokens(s, next.1);
    }
  }

  /** No token at all exactly when the line is blank. */
  lemma TokensOfBlank(s: string)
    ensures Tokens(s) == [] <==> AllDelims(s)
  {
    DelimsInAll(s, 0);
  }

  // ---------------------------------------------------------------------
  // strtok agrees with the reference splitter

  lemma {:induction false} RunEndShift(s: string, st: nat, i: nat)
    requires st <= i <= |s|
    requires WordIn(s, st, i)
    ensures RunEnd(s, st) == RunEnd(s, i)
    decreases i - st
  {
    if st < i {
      RunEndShift(s, st + 1, i);
    }
  }

  /** `strtok` passes over a delimiter without producing anything. */
  lemma TokensFromAtDelim(s: string, i: nat)
    requires i < |s| && IsDelim(s[i])
    ensures TokensFrom(s, i) == TokensFrom(s, i + 1)
  {
    assert SkipDelims(s, i) == SkipDelims(s, i + 1);
  }

  /** A whole word starting at `st` and ending at `e` is the next token. */
  lemma TokensFromAtWord(s: string, st: nat, e: nat)
    requires st < e <= |s|
    requires WordIn(s, st, e)
    requires e < |s| ==> IsDelim(s[e])
    ensures TokensFrom(s, st) == [s[st..e]] + TokensFrom(s, if e < |s| then e + 1 else |s|)
  {
    assert SkipDelims(s, st) == st;
    RunEndShift(s, st, e);
  }

  lemma ScanAtEnd(s: string, st: nat, acc: seq<string>)
    requires st <= |s|
    requires WordIn(s, st, |s|)
    ensures Scan(s, |s|, s[st..|s|], acc) == acc + TokensFrom(s, st)
  {
    if st < |s| {
      TokensFromAtWord(s, st, |s|);
    }
  }

  lemma ScanAtDelim(s: string, i: nat, st: nat, acc: seq<string>)
    requires st <= i < |s| && IsDelim(s[i])
    requires WordIn(s, st, i)
    requires var acc' := if st == i then acc else acc + [s[st..i]];
      Scan(s, i + 1, s[i + 1..i + 1], acc') == acc' + TokensFrom(s, i + 1)
    ensures Scan(s, i, s[st..i], acc) == acc + TokensFrom(s, st)
  {
    assert s[i + 1..i + 1] == [];
    if st == i {
      ScanAtDelimOutsideWord(s, i, acc);
    } else {
      ScanAtDelimClosingWord(s, i, st, acc);
    }
  }

  lemma ScanAtDelimOutsideWord(s: string, i: nat, acc: seq<string>)
    requires i < |s| && IsDelim(s[i])
    requires Scan(s, i + 1, [], acc) == acc + TokensFrom(s, i + 1)
    ensures Scan(s, i, [], acc) == acc + TokensFrom(s, i)
  {
    TokensFromAtDelim(s, i);
  }

  lemma ScanAtDelimClosingWord(s: string, i: nat, st: nat, acc: seq<string>)
    requires st < i < |s| && IsDelim(s[i])
    requires WordIn(s, st, i)
    requires Scan(s, i + 1, [], acc + [s[st..i]]) == acc + [s[st..i]] + TokensFrom(s, i + 1)
    ensures Scan(s, i, s[st..i], acc) == acc + TokensFrom(s, st)
  {
    var w := s[st..i];
    var rest := TokensFrom(s, i + 1);
    assert Scan(s, i, w, acc) == Scan(s, i + 1, [], acc + [w]);
    TokensFromAtWord(s, st, i);
    assert TokensFrom(s, st) == [w] + rest;
    assert acc + [w] + rest == acc + ([w] + rest);
  }

  lemma ScanInWord(s: string, i: nat, st: nat, acc: seq<string>)
    requires st <= i < |s| && !IsDelim(s[i])
    requires Scan(s, i + 1, s[st..i + 1], acc) == acc + TokensFrom(s, st)
    ensures Scan(s, i, s[st..i], acc) == acc + TokensFrom(s, st)
  {
    assert s[st..i] + [s[i]] == s[st..i + 1];
  }

  /**
   * The reference scan, at position `i` with the word `s[st..i]` open,
   * yields what `strtok` yields when it resumes at `st`.
   */
  lemma {:induction false} ScanIsTokens(s: string, i: nat, st: nat, acc: seq<string>)
    requires st <= i <= |s|
    requires WordIn(s, st, i)
    ensures Scan(s, i, s[st..i], acc) == acc + TokensFrom(s, st)
    decreases |s| - i
  {
    if i == |s| {
      ScanAtEnd(s, st, acc);
    } else if IsDelim(s[i]) {
      ScanIsTokens(s, i + 1, i + 1, if st == i then acc else acc + [s[st..i]]);
      ScanAtDelim(s, i, st, acc);
    } else {
      WordInExtend(s, st, i);
      ScanIsTokens(s, i + 1, st, acc);
      ScanInWord(s, i, st, acc);
    }
  }

  lemma TokensAreWords(s: string)
    ensures Tokens(s) == Words(s)
  {
    ScanIsTokens(s, 0, 0, []);
    assert s[0..0] == [];
  }

  // ---------------------------------------------------------------------
  // The behaviour the background flag is known for

  lemma {:induction false} WordInOfAll(s: string, i: nat, k: nat)
    requires i <= k <= |s|
    requires forall j :: i <= j < k ==> !IsDelim(s[j])
    ensures WordIn(s, i, k)
    decreases k - i
  {
    if i < k {
      WordInOfAll(s, i + 1, k);
    }
  }

  /** A line made of three words separated and surrounded by delimiters. */
  lemma ThreeTokens(s: string, e1: nat, b2: nat, e2: nat, b3: nat)
    requires 0 < e1 < b2 < e2 < b3 < |s|
    requires forall j :: 0 <= j < e1 ==> !IsDelim(s[j])
    requires forall j :: e1 <= j < b2 ==> IsDelim(s[j])
    requires forall j :: b2 <= j < e2 ==> !IsDelim(s[j])
    requires IsDelim(s[e2]) && e2 + 1 == b3
    requires forall j :: b3 <= j < |s| ==> !IsDelim(s[j])
    requires b2 == e1 + 1
    ensures Tokens(s) == [s[0..e1], s[b2..e2], s[b3..|s|]]
  {
    WordInOfAll(s, 0, e1);
    WordInOfAll(s, b2, e2);
    WordInOfAll(s, b3, |s|);
    TokensFromAtWord(s, b3, |s|);
    TokensFromAtWord(s, b2, e2);
    TokensFromAtWord(s, 0, e1);
    assert TokensFrom(s, |s|) == [];
  }

  /** `args[0] == NULL` after parsing exactly when the line holds only delimiters. */
  lemma TokenizeEmptyIffBlank(s: string)
    ensures Tokenize(s).args == [] <==> AllDelims(s)
  {
    TokensAreWords(s);
    TokensOfBlank(s);
  }

  lemma TokenizeSleepInBackground(s: string)
    requires s == "sleep 5 &"
    ensures Tokenize(s) == Command(["sleep", "5", "&"], true)
  {
    ThreeTokens(s, 5, 6, 7, 8);
    assert s[0..5] == "sleep" && s[6..7] == "5" && s[8..9] == "&";
    assert MarksBackground(["sleep", "5", "&"]) by {
      assert ["sleep", "5", "&"][2][0] == '&';
    }
  }

  lemma TokenizeForeground(s: string)
    requires s == "echo hi there"
    ensures Tokenize(s) == Command(["echo", "hi", "there"], false)
  {
    ThreeTokens(s, 4, 5, 7, 8);
    assert s[0..4] == "echo" && s[5..7] == "hi" && s[8..13] == "there";
  }

  /** A leading `&` is never looked at. */
  lemma TokenizeLeadingAmpersand(s: string)
    requires s == "& echo hi"
    ensures Tokenize(s) == Command(["&", "echo", "hi"], false)
  {
    ThreeTokens(s, 1, 2, 6, 7);
    assert s[0..1] == "&" && s[2..6] == "echo" && s[7..9] == "hi";
  }

  lemma TokenizeBlank()
    ensures Tokenize(" \t ") == Command([], false)
  {
    TokensOfBlank(" \t ");
  }
}
