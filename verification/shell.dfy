/**
 * The loop of `shell.c`'s `main`, the shell without history: read a line,
 * parse it, and hand the command to `run` unless the line held no token.
 * Forking and waiting are not modelled; the loop's result is the sequence
 * of commands it would run.
 */
module Shell {

  import opened Wrappers
  import opened CText
  import opened LineReader
  import opened Tokenizer

  /**
   * One pass of the loop body on a line `getCmd` returned: `None` when
   * `args[0]` is NULL after parsing, otherwise the command to run.
   */
  function ShellStep(line: string): (r: Option<Command>)
    ensures r.None? <==> AllDelims(line)
    ensures r.Some? ==> 0 < |r.value.args| <= MaxArgs
    ensures r.Some? ==> |r.value.args| == Min(|Words(line)|, MaxArgs)
    ensures r.Some? ==>
      |r.value.args| <= |Words(line)| && r.value.args == Words(line)[..|r.value.args|]
    ensures r.Some? ==> (r.value.background <==> MarksBackground(r.value.args))
  {
    var c := Tokenize(line);
    TokenizeEmptyIffBlank(line);
    if c.args == [] then None else Some(c)
  }

  /**
   * The whole loop over the input still to be read: one `getCmd` per pass,
   * ending at end of input. Every command handed to `run` has between one
   * and `MAX_ARGS` arguments, and no more commands run than there are
   * bytes of input.
   */
  function ShellSession(stream: string): (r: seq<Command>)
    requires IsCText(stream)
    ensures |r| <= |stream|
    ensures forall i :: 0 <= i < |r| ==> 0 < |r[i].args| <= MaxArgs
    decreases |stream|
  {
    match GetCmd(stream)
    case None => []
    case Some((line, rest)) =>
      match ShellStep(line)
      case None => ShellSession(rest)
      case Some(c) => [c] + ShellSession(rest)
  }

  /** A blank or whitespace-only line runs nothing and the loop goes on. */
  lemma BlankLineRunsNothing(stream: string)
    requires IsCText(stream)
    requires IndexOf(stream, '\n') < |stream|
    requires IndexOf(stream, '\n') < MaxLength - 1
    requires AllDelims(stream[..IndexOf(stream, '\n')])
    ensures ShellSession(stream) == ShellSession(stream[IndexOf(stream, '\n') + 1..])
  {
    GetCmdShortLine(stream);
  }
}
