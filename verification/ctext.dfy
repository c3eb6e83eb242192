/**
 * C text as the shell sees it. A character of a Dafny string stands for one
 * byte of a C `char` buffer, so a line of input is a sequence of non-NUL
 * bytes. The buffer limits and delimiters shared by both programs live here.
 */
module CText {

  /** Size of the command buffer `cmd[MAX_LENGTH]`, terminator included. */
  const MaxLength: nat := 80

  /** Capacity of the argument vector, not counting its NULL sentinel slot. */
  const MaxArgs: nat := 10

  /** A byte that may appear inside a C string: anything but NUL. */
  predicate IsCChar(c: char)
  {
    0 < c as int < 256
  }

  /** A string that fits in a `char` array: non-NUL bytes only. */
  predicate IsCText(s: string)
  {
    forall i :: 0 <= i < |s| ==> IsCChar(s[i])
  }

  /**
   * The value a byte has as a (signed) C `char`, the convention of the
   * common x86 ABIs: bytes 128..255 read as -128..-1.
   */
  function SignedValue(c: char): (v: int)
    requires c as int < 256
    ensures -128 <= v < 128
    ensures v % 256 == c as int % 256
  {
    if c as int < 128 then c as int else c as int - 256
  }

  /** The delimiters `strtok` is given in both programs: `" \t"`. */
  predicate IsDelim(c: char)
  {
    c == ' ' || c == '\t'
  }

  /** Position of the first `c` in `s`, or `|s|` when there is none. */
  function IndexOf(s: string, c: char): (k: nat)
    ensures k <= |s|
    ensures k < |s| ==> s[k] == c
    ensures forall j :: 0 <= j < k ==> s[j] != c
  {
    if |s| == 0 then 0
    else if s[0] == c then 0
    else 1 + IndexOf(s[1..], c)
  }

  function Min(a: int, b: int): int
  {
    if a <= b then a else b
  }
}
