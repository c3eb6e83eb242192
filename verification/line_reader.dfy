/**
 * `getCmd`, the same in both programs: one `fgets` into the 80-byte command
 * buffer followed by overwriting the last byte read with the terminator.
 * The input is the not-yet-read remainder of standard input; end of input
 * is the empty remainder.
 */
module LineReader {

  import opened Wrappers
  import opened CText

  /**
   * One `fgets(cmd, MAX_LENGTH, stdin)`: the bytes up to and including the
   * first newline, but never more than `MAX_LENGTH - 1`; `None` at end of
   * input. The second component is what stays unread.
   */
  function Fgets(stream: string): (r: Option<(string, string)>)
    ensures r.None? <==> stream == []
    ensures r.Some? ==> r.value.0 + r.value.1 == stream
    ensures r.Some? ==> 0 < |r.value.0| <= MaxLength - 1
    ensures r.Some? ==> '\n' !in r.value.0[..|r.value.0| - 1]
    ensures r.Some? ==>
      var chunk := r.value.0;
      chunk[|chunk| - 1] == '\n' || |chunk| == MaxLength - 1 || r.value.1 == []
  {
    if stream == [] then None
    else
      var k := IndexOf(stream, '\n');
      var n := if k < |stream| then Min(k + 1, MaxLength - 1) else Min(|stream|, MaxLength - 1);
      assert stream[..n][..n - 1] == stream[..n - 1];
      Some((stream[..n], stream[n..]))
  }

  /**
   * `getCmd`: `None` is the end-of-input return value 1; otherwise the
   * line with its last byte removed, whatever that byte was, and the
   * unread rest of the input.
   */
  function GetCmd(stream: string): (r: Option<(string, string)>)
    requires IsCText(stream)
    ensures r.None? <==> stream == []
    ensures r.Some? ==>
      var (line, rest) := r.value;
      && |line| < |stream|
      && stream == line + [stream[|line|]] + rest
      && |line| <= MaxLength - 2
      && '\n' !in line
      && (stream[|line|] == '\n' || |line| == MaxLength - 2 || rest == [])
      && IsCText(line) && IsCText(rest)
  {
    match Fgets(stream)
    case None => None
    case Some((chunk, rest)) =>
      assert stream == chunk[..|chunk| - 1] + [chunk[|chunk| - 1]] + rest;
      Some((chunk[..|chunk| - 1], rest))
  }

  /** A line that fits in the buffer comes back without its newline. */
  lemma GetCmdShortLine(stream: string)
    requires IsCText(stream)
    requires IndexOf(stream, '\n') < |stream|
    requires IndexOf(stream, '\n') < MaxLength - 1
    ensures var k := IndexOf(stream, '\n');
      GetCmd(stream) == Some((stream[..k], stream[k + 1..]))
  {
    var k := IndexOf(stream, '\n');
    var chunk := stream[..k + 1];
    assert Min(k + 1, MaxLength - 1) == k + 1;
    assert Fgets(stream) == Some((chunk, stream[k + 1..]));
    assert chunk[..|chunk| - 1] == stream[..k];
  }

  /**
   * A line longer than the buffer is cut into a 79-byte chunk whose last
   * real byte is lost; the rest is left for the next read.
   */
  lemma GetCmdLongLine(stream: string)
    requires IsCText(stream)
    requires |stream| >= MaxLength - 1
    requires '\n' !in stream[..MaxLength - 1]
    ensures GetCmd(stream) == Some((stream[..MaxLength - 2], stream[MaxLength - 1..]))
  {
    assert Fgets(stream) == Some((stream[..MaxLength - 1], stream[MaxLength - 1..]));
    assert stream[..MaxLength - 1][..MaxLength - 2] == stream[..MaxLength - 2];
  }

  /** A final line without a newline loses its last real byte. */
  lemma GetCmdUnterminatedLine(stream: string)
    requires IsCText(stream)
    requires 0 < |stream| < MaxLength - 1
    requires '\n' !in stream
    ensures GetCmd(stream) == Some((stream[..|stream| - 1], []))
  {
    assert IndexOf(stream, '\n') == |stream|;
    assert Fgets(stream) == Some((stream[..|stream|], stream[|stream|..]));
    assert stream[..|stream|] == stream;
  }
}
