/**
 * c/hex-to-bin.c: read hexadecimal text and emit one byte per pair of hex
 * digits. Whitespace separates pairs, '#' starts a comment that runs to
 * the end of the line, and anything else is an error (exit status 1).
 * Standard input is the sequence `input`; each write_byte appends to the
 * sequence of written bytes.
 */
module HexToBin {
  /** An unsigned char. */
  type byte = b: int | 0 <= b < 256

  predicate IsHex(c: char)
  {
    ('0' <= c <= '9') || ('a' <= c <= 'f') || ('A' <= c <= 'F')
  }

  /** is_space: the six C whitespace characters. */
  predicate IsSpace(c: char)
  {
    c == ' ' || c == '\n' || c == '\r' || c == '\t' || c == '\U{000B}' || c == '\U{000C}'
  }

  /** hex_to_nibble: the value of a hex digit of either case, 255 for anything else. */
  function HexToNibble(hex: char): (nibble: byte)
    ensures IsHex(hex) <==> nibble < 16
    ensures !IsHex(hex) <==> nibble == 255
  {
    if '0' <= hex <= '9' then hex as int - '0' as int
    else if 'a' <= hex <= 'f' then 10 + hex as int - 'a' as int
    else if 'A' <= hex <= 'F' then 10 + hex as int - 'A' as int
    else 255
  }

  /** Lower and upper case spell the same nibble. */
  lemma NibbleIgnoresCase(d: nat)
    requires d < 6
    ensures HexToNibble(('a' as int + d) as char) == HexToNibble(('A' as int + d) as char) == 10 + d
  {
  }

  /** hex_chars_to_byte: `byte = nibble(high) << 4; byte += nibble(low);` in unsigned char arithmetic. */
  function HexCharsToByte(high: char, low: char): (b: byte)
    ensures IsHex(high) && IsHex(low) ==> b == 16 * HexToNibble(high) + HexToNibble(low)
  {
    ((HexToNibble(high) * 16) % 256 + HexToNibble(low)) % 256
  }

  /** The variables of hex_to_bin that live across loop iterations. */
  datatype Scanner = Scanner(comment: bool, haveHi: bool, hi: char)

  const Start := Scanner(false, false, 0 as char)

  /** Where the scan is: stopped early by `return 1`, or still running in some state. Either way, with what was written. */
  datatype Scan = Stopped(written: seq<byte>) | Running(state: Scanner, written: seq<byte>)

  /** One iteration of the read loop on character c. */
  function Step(st: Scanner, c: char): (r: Scan)
    ensures |r.written| <= 1
  {
    var comment := if c == '#' then true else if c == '\n' || c == '\r' then false else st.comment;
    if IsSpace(c) || comment then
      if st.haveHi then Stopped([]) else Running(st.(comment := comment), [])
    else if !IsHex(c) then Stopped([])
    else if st.haveHi then Running(Scanner(comment, false, st.hi), [HexCharsToByte(st.hi, c)])
    else Running(Scanner(comment, true, c), [])
  }

  /** Bytes written before the rest of a scan. */
  function Prepend(w: seq<byte>, r: Scan): (r': Scan)
    ensures r'.Stopped? == r.Stopped? && r'.written == w + r.written
    ensures r.Running? ==> r'.state == r.state
  {
    match r
    case Stopped(w') => Stopped(w + w')
    case Running(st, w') => Running(st, w + w')
  }

  /** The read loop over the whole input from state st. */
  function ScanFrom(st: Scanner, input: seq<char>): Scan
    decreases |input|
  {
    if input == [] then Running(st, [])
    else match Step(st, input[0])
      case Stopped(w) => Stopped(w)
      case Running(st', w) => Prepend(w, ScanFrom(st', input[1..]))
  }

  /** The exit status and the bytes hex_to_bin writes for an input. */
  function HexToBinResult(input: seq<char>): (int, seq<byte>)
  {
    match ScanFrom(Start, input)
    case Stopped(w) => (1, w)
    case Running(st, w) => (if st.haveHi then 1 else 0, w)
  }

  /** Scanning x + y is scanning x, then scanning y from wherever x left off. */
  lemma {:induction false} ScanAppend(st: Scanner, x: seq<char>, y: seq<char>)
    ensures ScanFrom(st, x + y) == match ScanFrom(st, x)
      case Stopped(w) => Stopped(w)
      case Running(st', w) => Prepend(w, ScanFrom(st', y))
    decreases |x|
  {
    if x == [] {
      assert x + y == y;
    } else {
      assert (x + y)[0] == x[0] && (x + y)[1..] == x[1..] + y;
      match Step(st, x[0])
      case Stopped(w) =>
      case Running(st', w) =>
        ScanAppend(st', x[1..], y);
        match ScanFrom(st', x[1..])
        case Stopped(w2) =>
        case Running(st2, w2) =>
          assert w + (w2 + ScanFrom(st2, y).written) == (w + w2) + ScanFrom(st2, y).written;
    }
  }

  /** Outside a comment and between pairs: the state the scanner is in after each whole pair. */
  predicate Idle(st: Scanner)
  {
    !st.comment && !st.haveHi
  }

  /** Two hex digits emit exactly one byte, and the scanner is idle again. */
  lemma PairEmitsByte(st: Scanner, high: char, low: char)
    requires Idle(st) && IsHex(high) && IsHex(low)
    ensures ScanFrom(st, [high, low]).Running?
    ensures Idle(ScanFrom(st, [high, low]).state)
    ensures ScanFrom(st, [high, low]).written == [HexCharsToByte(high, low)]
  {
    var st1 := Scanner(false, true, high);
    var st2 := Scanner(false, false, high);
    assert Step(st, high) == Running(st1, []);
    assert Step(st1, low) == Running(st2, [HexCharsToByte(high, low)]);
    assert [high, low][1..] == [low];
    assert [low][1..] == [];
    assert ScanFrom(st2, []) == Running(st2, []);
    assert ScanFrom(st1, [low]) == Running(st2, [HexCharsToByte(high, low)]);
  }

  /** Whitespace or a comment between the two digits of a pair stops the scan with status 1. */
  lemma SplitPairFails(st: Scanner, high: char, c: char, rest: seq<char>)
    requires Idle(st) && IsHex(high) && (IsSpace(c) || c == '#')
    ensures ScanFrom(st, [high, c] + rest) == Stopped([])
    ensures HexToBinResult([high, c] + rest).0 == 1 || st != Start
  {
    var input := [high, c] + rest;
    assert input[0] == high && input[1..] == [c] + rest;
    assert ([c] + rest)[0] == c;
  }

  /** Outside a comment, a character that is neither hex nor whitespace nor '#' stops the scan. */
  lemma StrayCharFails(st: Scanner, c: char, rest: seq<char>)
    requires !st.comment && !IsHex(c) && !IsSpace(c) && c != '#'
    ensures ScanFrom(st, [c] + rest) == Stopped([])
  {
    assert ([c] + rest)[0] == c;
  }

  /** A comment runs to the next '\n' or '\r': its contents write nothing and leave the scanner idle. */
  lemma {:induction false} CommentIgnored(st: Scanner, body: seq<char>, eol: char)
    requires Idle(st) && (eol == '\n' || eol == '\r')
    requires forall k :: 0 <= k < |body| ==> body[k] != '\n' && body[k] != '\r'
    ensures ScanFrom(st, ['#'] + body + [eol]).Running?
    ensures Idle(ScanFrom(st, ['#'] + body + [eol]).state)
    ensures ScanFrom(st, ['#'] + body + [eol]).written == []
  {
    var inComment := st.(comment := true);
    assert Step(st, '#') == Running(inComment, []);
    assert (['#'] + body + [eol])[1..] == body + [eol];
    CommentBody(inComment, body, eol);
  }

  lemma {:induction false} CommentBody(st: Scanner, body: seq<char>, eol: char)
    requires st.comment && !st.haveHi && (eol == '\n' || eol == '\r')
    requires forall k :: 0 <= k < |body| ==> body[k] != '\n' && body[k] != '\r'
    ensures ScanFrom(st, body + [eol]) == Running(st.(comment := false), [])
    decreases |body|
  {
    if body == [] {
      assert body + [eol] == [eol];
      assert [eol][1..] == [];
    } else {
      assert (body + [eol])[0] == body[0] && (body + [eol])[1..] == body[1..] + [eol];
      assert Step(st, body[0]) == Running(st, []);
      CommentBody(st, body[1..], eol);
    }
  }

  /** A lone digit at the end of the input is an unpaired digit: status 1. */
  lemma UnpairedDigitFails(high: char)
    requires IsHex(high)
    ensures HexToBinResult([high]) == (1, [])
  {
    var st1 := Scanner(false, true, high);
    assert Step(Start, high) == Running(st1, []);
    assert [high][1..] == [];
    assert ScanFrom(Start, [high]) == Running(st1, []);
  }

  /** One character of the input, from position i. */
  lemma ScanOne(st: Scanner, input: seq<char>, i: nat)
    requires i < |input|
    ensures ScanFrom(st, input[i..]) == match Step(st, input[i])
      case Stopped(w) => Stopped(w)
      case Running(st', w) => Prepend(w, ScanFrom(st', input[i + 1..]))
  {
    assert input[i..][0] == input[i] && input[i..][1..] == input[i + 1..];
  }

  /** The loop invariant carried over one character that lets the scan go on. */
  lemma Advance(input: seq<char>, i: nat, written: seq<byte>, st: Scanner, st': Scanner, w: seq<byte>)
    requires i < |input|
    requires ScanFrom(Start, input) == Prepend(written, ScanFrom(st, input[i..]))
    requires Step(st, input[i]) == Running(st', w)
    ensures ScanFrom(Start, input) == Prepend(written + w, ScanFrom(st', input[i + 1..]))
  {
    ScanOne(st, input, i);
    var rest := ScanFrom(st', input[i + 1..]);
    assert written + (w + rest.written) == (written + w) + rest.written;
  }

  /** The loop invariant at a character that stops the scan. */
  lemma StopAt(input: seq<char>, i: nat, written: seq<byte>, st: Scanner)
    requires i < |input|
    requires ScanFrom(Start, input) == Prepend(written, ScanFrom(st, input[i..]))
    requires Step(st, input[i]) == Stopped([])
    ensures ScanFrom(Start, input) == Stopped(written)
  {
    ScanOne(st, input, i);
    assert written + [] == written;
  }

  /** hex_to_bin: the read loop over stdin, writing each completed byte. */
  method HexToBinStream(input: seq<char>) returns (status: int, written: seq<byte>)
    ensures (status, written) == HexToBinResult(input)
  {
    var comment := false;
    var haveHi := false;
    var hi: char := 0 as char;
    written := [];
    var i := 0;
    while i < |input|
      invariant i <= |input|
      invariant ScanFrom(Start, input) == Prepend(written, ScanFrom(Scanner(comment, haveHi, hi), input[i..]))
    {
      ghost var st := Scanner(comment, haveHi, hi);
      var c := input[i];
      if c == '#' {
        comment := true;
      } else if c == '\n' || c == '\r' {
        comment := false;
      }
      if IsSpace(c) || comment {
        if haveHi {
          StopAt(input, i, written, st);
          return 1, written;
        }
        Advance(input, i, written, st, Scanner(comment, haveHi, hi), []);
        assert written + [] == written;
        i := i + 1;
        continue;
      }
      if !IsHex(c) {
        StopAt(input, i, written, st);
        return 1, written;
      }
      if haveHi {
        haveHi := false;
        var b := HexCharsToByte(hi, c);
        Advance(input, i, written, st, Scanner(comment, haveHi, hi), [b]);
        written := written + [b];
      } else {
        haveHi := true;
        hi := c;
        Advance(input, i, written, st, Scanner(comment, haveHi, hi), []);
        assert written + [] == written;
      }
      i := i + 1;
    }
    assert input[i..] == [];
    assert ScanFrom(Start, input) == Running(Scanner(comment, haveHi, hi), written + []);
    assert written + [] == written;
    status := if haveHi then 1 else 0;
  }
}
