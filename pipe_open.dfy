/**
 * c/pipe-open.c: runs a shell command and echoes its output line by
 * line, optionally with each line reversed. Opening the pipe, reading it
 * with fgets and printing are left to the caller: the model takes the
 * lines fgets returned and gives the strings main prints.
 */
module PipeOpen {
  const DefaultCommand: string := "ls -ltr"

  /** The command to run: the one given with -c, or "ls -ltr" when it is empty. */
  function Command(given: string): (cmd: string)
    ensures given == "" ==> cmd == DefaultCommand
    ensures given != "" ==> cmd == given
  {
    if given == "" then DefaultCommand else given
  }

  /** s back to front. */
  function Reverse(s: string): (r: string)
    ensures |r| == |s|
  {
    if s == [] then [] else Reverse(s[1..]) + [s[0]]
  }

  /** Character k of Reverse(s) is character |s| - 1 - k of s. */
  lemma {:induction false} ReverseAt(s: string)
    ensures forall k :: 0 <= k < |s| ==> Reverse(s)[k] == s[|s| - 1 - k]
  {
    if s != [] {
      ReverseAt(s[1..]);
    }
  }

  /** Reversing twice gives the string back. */
  lemma ReverseTwice(s: string)
    ensures Reverse(Reverse(s)) == s
  {
    ReverseAt(s);
    ReverseAt(Reverse(s));
  }

  /**
   * The reversed text of a line: all but its last character, back to
   * front, then a newline. The last character, normally the line's own
   * newline, is dropped whatever it is.
   */
  function ReversedLine(line: string): (r: string)
    requires |line| >= 1
    ensures |r| == |line| && r[|r| - 1] == '\n'
  {
    Reverse(line[..|line| - 1]) + "\n"
  }

  /**
   * The -r branch of the read loop for one line of len = strlen(buf)
   * characters: reversed[i] = buf[len - i - 2] for i < len - 1, then the
   * newline and the NUL. fgets never returns an empty line, and len - 1
   * would wrap for one, so the line is required to be non-empty; it must
   * also fit the buffer with its NUL.
   */
  method ReverseInto(buf: string, reversed: array<char>)
    requires 1 <= |buf| && |buf| < reversed.Length
    modifies reversed
    ensures reversed[..|buf| + 1] == ReversedLine(buf) + "\0"
    ensures forall k :: |buf| + 1 <= k < reversed.Length ==> reversed[k] == old(reversed[k])
  {
    var len := |buf|;
    var i := 0;
    while i < len - 1
      invariant 0 <= i <= len - 1
      invariant forall k :: 0 <= k < i ==> reversed[k] == buf[len - k - 2]
      invariant forall k :: len + 1 <= k < reversed.Length ==> reversed[k] == old(reversed[k])
    {
      reversed[i] := buf[len - i - 2];
      i := i + 1;
    }
    reversed[len - 1] := '\n';
    reversed[len] := '\0';
    LineMatches(buf, reversed[..len + 1]);
  }

  /** The characters the loop wrote, then the newline and NUL, make up ReversedLine + NUL. */
  lemma LineMatches(buf: string, out: string)
    requires 1 <= |buf| && |out| == |buf| + 1
    requires forall k :: 0 <= k < |buf| - 1 ==> out[k] == buf[|buf| - k - 2]
    requires out[|buf| - 1] == '\n' && out[|buf|] == '\0'
    ensures out == ReversedLine(buf) + "\0"
  {
    ReverseAt(buf[..|buf| - 1]);
  }

  /**
   * The read loop of main over the lines fgets returned: each printed
   * string is the reversed line when -r was given and the line itself
   * otherwise.
   */
  method EchoLines(lines: seq<string>, reverseFlag: bool, reversed: array<char>) returns (out: seq<string>)
    requires forall j :: 0 <= j < |lines| ==> 1 <= |lines[j]| < reversed.Length
    modifies reversed
    ensures |out| == |lines|
    ensures forall j :: 0 <= j < |lines| ==>
      out[j] == if reverseFlag then ReversedLine(lines[j]) else lines[j]
  {
    out := [];
    var j := 0;
    while j < |lines|
      invariant 0 <= j <= |lines| && |out| == j
      invariant forall m :: 0 <= m < j ==>
        out[m] == if reverseFlag then ReversedLine(lines[m]) else lines[m]
    {
      var line := lines[j];
      if reverseFlag {
        ReverseInto(line, reversed);
        out := out + [reversed[..|line|]];
        assert reversed[..|line|] == (reversed[..|line| + 1])[..|line|];
      } else {
        out := out + [line];
      }
      j := j + 1;
    }
  }

  /** Reversing a line twice gives it back when it ended in a newline. */
  lemma ReversedLineTwice(line: string)
    requires |line| >= 1 && line[|line| - 1] == '\n'
    ensures ReversedLine(ReversedLine(line)) == line
  {
    var body := line[..|line| - 1];
    var r := ReversedLine(line);
    assert r[..|r| - 1] == Reverse(body);
    ReverseTwice(body);
    assert line == body + "\n";
  }
}
