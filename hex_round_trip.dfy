/**
 * c/hex-to-bin.c reads back what c/bin-to-hex.c writes: every byte comes
 * back in order and the exit status is 0.
 */
module HexRoundTrip {
  import opened HexToBin
  import opened BinToHex

  /** A separating space or newline, or nothing, leaves an idle scanner as it is and writes nothing. */
  lemma SeparatorScan(st: Scanner, s: seq<char>)
    requires Idle(st) && (s == "" || s == " " || s == "\n")
    ensures ScanFrom(st, s) == Running(st, [])
  {
    if s != "" {
      assert s[1..] == [];
    }
  }

  /** What bin_to_hex writes for one byte scans back to that byte and ends idle. */
  lemma PieceScan(st: Scanner, pos: nat, b: byte)
    requires Idle(st) && pos < 15
    ensures ScanFrom(st, Piece(pos, b)).Running?
    ensures Idle(ScanFrom(st, Piece(pos, b)).state)
    ensures ScanFrom(st, Piece(pos, b)).written == [b]
  {
    var sep: seq<char> := if pos != 0 then " " else "";
    var pair := HexPair(b);
    var nl: seq<char> := if pos + 1 == 15 then "\n" else "";
    assert Piece(pos, b) == (sep + pair) + nl;
    ScanAppend(st, sep + pair, nl);
    ScanAppend(st, sep, pair);
    SeparatorScan(st, sep);
    assert pair == [pair[0], pair[1]];
    PairEmitsByte(st, pair[0], pair[1]);
    HexCharsRoundTrip(b);
    var st2 := ScanFrom(st, pair).state;
    assert ScanFrom(st, sep + pair) == Running(st2, [b]);
    SeparatorScan(st2, nl);
  }

  /** From an idle scanner, the formatted text of any bytes scans back to those bytes and ends idle. */
  lemma {:induction false} FmtScan(st: Scanner, pos: nat, bytes: seq<byte>)
    requires Idle(st) && pos < 15
    ensures ScanFrom(st, Fmt(pos, bytes)).Running?
    ensures Idle(ScanFrom(st, Fmt(pos, bytes)).state)
    ensures ScanFrom(st, Fmt(pos, bytes)).written == bytes
    decreases |bytes|
  {
    if bytes == [] {
      SeparatorScan(st, Fmt(pos, bytes));
    } else {
      FmtStep(pos, bytes);
      ScanAppend(st, Piece(pos, bytes[0]), Fmt(NextPos(pos), bytes[1..]));
      PieceScan(st, pos, bytes[0]);
      var st2 := ScanFrom(st, Piece(pos, bytes[0])).state;
      FmtScan(st2, NextPos(pos), bytes[1..]);
      assert [bytes[0]] + bytes[1..] == bytes;
    }
  }

  /** hex_to_bin(bin_to_hex(bytes)) writes exactly bytes and exits 0. */
  lemma RoundTrip(bytes: seq<byte>)
    ensures HexToBinResult(Fmt(0, bytes)) == (0, bytes)
  {
    FmtScan(Start, 0, bytes);
  }

  /** The same, stated of the two read loops. */
  method BinThenHex(bytes: seq<byte>) returns (status: int, back: seq<byte>)
    ensures status == 0 && back == bytes
  {
    var _, text := BinToHexStream(bytes);
    RoundTrip(bytes);
    status, back := HexToBinStream(text);
  }
}
