/**
 * c/bin-to-hex.c: write bytes as two upper-case hex digits each, 15 to a
 * line separated by single spaces. Standard input is the sequence of bytes
 * and each write_byte appends to the output text.
 */
module BinToHex {
  import opened HexToBin

  /** nibble_to_hex: '0'..'9' and 'A'..'F' for 0 .. 15, '?' for anything larger. */
  function NibbleToHex(nibble: byte): (c: char)
    ensures nibble < 16 ==> IsHex(c) && HexToNibble(c) == nibble && !('a' <= c <= 'z')
    ensures nibble >= 16 <==> c == '?'
  {
    if nibble < 10 then ('0' as int + nibble) as char
    else if nibble < 16 then ('A' as int + nibble - 10) as char
    else '?'
  }

  /** byte_to_hex_chars: the digit of the high nibble, then that of the low nibble. */
  function ByteToHexChars(b: byte): (hl: (char, char))
    ensures IsHex(hl.0) && IsHex(hl.1)
    ensures HexToNibble(hl.0) == b / 16 && HexToNibble(hl.1) == b % 16
  {
    (NibbleToHex(b / 16), NibbleToHex(b % 16))
  }

  /** hex_chars_to_byte undoes byte_to_hex_chars. */
  lemma HexCharsRoundTrip(b: byte)
    ensures HexCharsToByte(ByteToHexChars(b).0, ByteToHexChars(b).1) == b
  {
  }

  /** The two digits of a byte as a string. */
  function HexPair(b: byte): (s: seq<char>)
    ensures |s| == 2 && IsHex(s[0]) && IsHex(s[1])
  {
    [ByteToHexChars(b).0, ByteToHexChars(b).1]
  }

  /**
   * The text bin_to_hex writes for the rest of the input when `pos` bytes
   * of the current line are already out: a space before every byte but
   * the first on a line, a newline after the 15th, and a final newline
   * only for a partial last line.
   */
  function Fmt(pos: nat, bytes: seq<byte>): seq<char>
    requires pos < 15
    decreases |bytes|
  {
    if bytes == [] then (if pos != 0 then "\n" else "")
    else
      (if pos != 0 then " " else "") + HexPair(bytes[0])
        + if pos + 1 == 15 then "\n" + Fmt(0, bytes[1..]) else Fmt(pos + 1, bytes[1..])
  }

  /** What one byte adds at line position pos: its separator, its two digits, and the newline after the 15th. */
  function Piece(pos: nat, b: byte): seq<char>
  {
    (if pos != 0 then " " else "") + HexPair(b) + (if pos + 1 == 15 then "\n" else "")
  }

  /** The line position after one more byte. */
  function NextPos(pos: nat): (next: nat)
    requires pos < 15
    ensures next < 15
  {
    if pos + 1 == 15 then 0 else pos + 1
  }

  lemma FmtStep(pos: nat, bytes: seq<byte>)
    requires pos < 15 && bytes != []
    ensures Fmt(pos, bytes) == Piece(pos, bytes[0]) + Fmt(NextPos(pos), bytes[1..])
  {
  }

  lemma AppendPiece(before: seq<char>, piece: seq<char>, tail: seq<char>, whole: seq<char>)
    requires before + (piece + tail) == whole
    ensures (before + piece) + tail == whole
  {
    assert before + (piece + tail) == (before + piece) + tail;
  }

  /** The bytes after the first on a line: a space and two digits each. */
  function Spaced(bytes: seq<byte>): seq<char>
    decreases |bytes|
  {
    if bytes == [] then "" else " " + HexPair(bytes[0]) + Spaced(bytes[1..])
  }

  /** One output line without its newline: the digit pairs of its bytes, separated by single spaces. */
  function Row(bytes: seq<byte>): (s: seq<char>)
    requires bytes != []
  {
    HexPair(bytes[0]) + Spaced(bytes[1..])
  }

  lemma SpacedCons(b: byte, rest: seq<byte>)
    ensures Spaced([b] + rest) == " " + HexPair(b) + Spaced(rest)
  {
    assert ([b] + rest)[0] == b && ([b] + rest)[1..] == rest;
  }

  /** A line that the input ends before it fills gets its newline at the end. */
  lemma {:induction false} FmtLastLine(pos: nat, bytes: seq<byte>)
    requires 0 < pos && pos + |bytes| < 15
    ensures Fmt(pos, bytes) == Spaced(bytes) + "\n"
    decreases |bytes|
  {
    if bytes != [] {
      var rest := bytes[1..];
      FmtLastLine(pos + 1, rest);
      assert Fmt(pos, bytes) == " " + HexPair(bytes[0]) + (Spaced(rest) + "\n");
    }
  }

  /** A line that fills up ends with a newline after the byte that makes it 15. */
  lemma {:induction false} FmtFullLine(pos: nat, bytes: seq<byte>)
    requires 0 < pos < 15 && |bytes| >= 15 - pos
    ensures Fmt(pos, bytes) == Spaced(bytes[..15 - pos]) + "\n" + Fmt(0, bytes[15 - pos..])
    decreases |bytes|
  {
    var b, rest := bytes[0], bytes[1..];
    assert bytes == [b] + rest;
    if pos + 1 == 15 {
      SpacedCons(b, []);
      assert [b] + [] == bytes[..1];
    } else {
      var line, after := rest[..14 - pos], rest[14 - pos..];
      FmtFullLine(pos + 1, rest);
      SpacedCons(b, line);
      assert bytes[..15 - pos] == [b] + line;
      assert bytes[15 - pos..] == after;
      assert Fmt(pos, bytes) == " " + HexPair(b) + (Spaced(line) + "\n" + Fmt(0, after));
    }
  }

  /** No input, no output. */
  lemma FmtEmpty()
    ensures Fmt(0, []) == ""
  {
  }

  /** The first byte of a line has no space before it. */
  lemma PieceFirst(b: byte)
    ensures Piece(0, b) == HexPair(b)
  {
    assert "" + HexPair(b) + "" == HexPair(b);
  }

  /** Fewer than 15 bytes: one line and its newline. */
  lemma FmtShort(bytes: seq<byte>)
    requires 0 < |bytes| < 15
    ensures Fmt(0, bytes) == Row(bytes) + "\n"
  {
    var b, rest := bytes[0], bytes[1..];
    FmtStep(0, bytes);
    PieceFirst(b);
    FmtLastLine(1, rest);
    assert Fmt(0, bytes) == HexPair(b) + (Spaced(rest) + "\n");
  }

  /** The row of the first n bytes starts with the first byte's digits. */
  lemma RowOfPrefix(bytes: seq<byte>, n: nat)
    requires 0 < n <= |bytes|
    ensures Row(bytes[..n]) == HexPair(bytes[0]) + Spaced(bytes[1..][..n - 1])
  {
    assert bytes[..n][1..] == bytes[1..][..n - 1];
  }

  lemma Regroup(x: seq<char>, y: seq<char>, z: seq<char>)
    ensures x + (y + "\n" + z) == x + y + "\n" + z
  {
  }

  /** At least 15 bytes: a full line of the first 15, its newline, then the rest formatted afresh. */
  lemma FmtLong(bytes: seq<byte>)
    requires |bytes| >= 15
    ensures Fmt(0, bytes) == Row(bytes[..15]) + "\n" + Fmt(0, bytes[15..])
  {
    var b, rest := bytes[0], bytes[1..];
    var x, y, z := HexPair(b), Spaced(rest[..14]), Fmt(0, bytes[15..]);
    FmtStep(0, bytes);
    PieceFirst(b);
    assert Fmt(0, bytes) == x + Fmt(1, rest);
    FmtFullLine(1, rest);
    assert rest[14..] == bytes[15..];
    assert Fmt(1, rest) == y + "\n" + z;
    Regroup(x, y, z);
    RowOfPrefix(bytes, 15);
  }

  /** One pass of bin_to_hex's read loop: the writes for byte b at line position pos0. */
  method WriteHexByte(out0: seq<char>, pos0: nat, b: byte) returns (out: seq<char>, pos: nat)
    requires pos0 < 15
    ensures out == out0 + Piece(pos0, b) && pos == NextPos(pos0)
  {
    out := out0;
    pos := pos0;
    ghost var sep: seq<char> := if pos != 0 then " " else "";
    if pos != 0 {
      out := out + [' '];
    }
    assert out == out0 + sep;
    var (hi, lo) := ByteToHexChars(b);
    out := out + [hi] + [lo];
    assert out == out0 + (sep + HexPair(b));
    pos := pos + 1;
    ghost var nl: seq<char> := if pos == 15 then "\n" else "";
    if pos == 15 {
      out := out + ['\n'];
      pos := 0;
    }
    assert out == out0 + (sep + HexPair(b) + nl);
  }

  /** bin_to_hex: the read loop over stdin; always returns 0. */
  method BinToHexStream(input: seq<byte>) returns (status: int, out: seq<char>)
    ensures status == 0 && out == Fmt(0, input)
  {
    var pos := 0;
    out := [];
    var i := 0;
    while i < |input|
      invariant i <= |input| && pos < 15
      invariant out + Fmt(pos, input[i..]) == Fmt(0, input)
    {
      var b := input[i];
      assert input[i..][0] == b && input[i..][1..] == input[i + 1..];
      FmtStep(pos, input[i..]);
      ghost var before := out;
      ghost var pos0 := pos;
      out, pos := WriteHexByte(out, pos, b);
      AppendPiece(before, Piece(pos0, b), Fmt(pos, input[i + 1..]), Fmt(0, input));
      i := i + 1;
    }
    if pos != 0 {
      out := out + ['\n'];
    }
    assert input[i..] == [];
    status := 0;
  }
}
