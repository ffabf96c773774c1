/**
 * c/simple_stats/main.c: _lex_col_val, which cuts the next field out of a
 * comma-separated line. A field ends at ',', '\n' or the string's NUL;
 * the field is copied into val_buf, NUL-terminated, and the read position
 * moves past the delimiter.
 */
module SimpleStatsLex {
  predicate IsDelim(c: char)
  {
    c == '\0' || c == '\n' || c == ','
  }

  /** There is a delimiter at or after from, so the scan stays inside the line. */
  predicate HasDelim(line: string, from: nat)
  {
    exists d :: from <= d < |line| && IsDelim(line[d])
  }

  /** The first delimiter at or after from; |line| if there is none. */
  function FieldEnd(line: string, from: nat): (d: nat)
    requires from <= |line|
    ensures from <= d <= |line|
    decreases |line| - from
  {
    if from == |line| || IsDelim(line[from]) then from else FieldEnd(line, from + 1)
  }

  /**
   * FieldEnd finds the first delimiter: no delimiter lies in between, and
   * when the line has one at or after from, the result is one.
   */
  lemma {:induction false} FieldEndMeans(line: string, from: nat)
    requires from <= |line|
    ensures forall k :: from <= k < FieldEnd(line, from) ==> !IsDelim(line[k])
    ensures HasDelim(line, from) ==> FieldEnd(line, from) < |line| && IsDelim(line[FieldEnd(line, from)])
    decreases |line| - from
  {
    if from < |line| && !IsDelim(line[from]) {
      FieldEndMeans(line, from + 1);
      if HasDelim(line, from) {
        var d :| from <= d < |line| && IsDelim(line[d]);
        assert HasDelim(line, from + 1);
      }
    }
  }

  /** A delimiter right at the read position gives an empty field. */
  lemma DelimAtStartIsEmpty(line: string, from: nat)
    requires from < |line| && IsDelim(line[from])
    ensures FieldEnd(line, from) == from
  {
  }

  /**
   * _lex_col_val. The loop counts len up to and including the delimiter;
   * strncpy then copies len characters, which here is a plain copy, since
   * the delimiter is the only character that can be NUL; the copy's last
   * character is overwritten with NUL, and the position advances by len.
   * The field and its NUL must fit val_buf.
   */
  method LexColVal(line: string, lexPos: nat, valBuf: array<char>) returns (newPos: nat)
    requires lexPos <= |line| && HasDelim(line, lexPos)
    requires FieldEnd(line, lexPos) - lexPos < valBuf.Length
    modifies valBuf
    ensures newPos == FieldEnd(line, lexPos) + 1
    ensures valBuf[..newPos - 1 - lexPos] == line[lexPos..newPos - 1]
    ensures valBuf[newPos - 1 - lexPos] == '\0'
    ensures forall k :: newPos - lexPos <= k < valBuf.Length ==> valBuf[k] == old(valBuf[k])
  {
    FieldEndMeans(line, lexPos);
    var len: nat := 0;
    var done := false;
    while !done
      invariant lexPos + len <= FieldEnd(line, lexPos) + 1
      invariant done <==> len >= 1 && lexPos + len - 1 == FieldEnd(line, lexPos)
      decreases FieldEnd(line, lexPos) + 1 - (lexPos + len)
    {
      var c := line[lexPos + len];
      len := len + 1;
      if IsDelim(c) {
        done := true;
      }
    }
    var k := 0;
    while k < len
      invariant 0 <= k <= len
      invariant forall j :: 0 <= j < k ==> valBuf[j] == line[lexPos + j]
      invariant forall j :: len <= j < valBuf.Length ==> valBuf[j] == old(valBuf[j])
    {
      valBuf[k] := line[lexPos + k];
      k := k + 1;
    }
    var at := if !done || len == 0 then len else len - 1;
    valBuf[at] := '\0';
    newPos := lexPos + len;
  }
}
