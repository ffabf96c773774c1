/**
 * c/ecrypt.c: chomp_crlf, which ends a C string at its first carriage
 * return or line feed. The string is a character array that may be null;
 * the scan looks at no more than `max` characters and stops at the
 * string's NUL.
 */
module Ecrypt {
  predicate IsEol(c: char)
  {
    c == '\r' || c == '\n'
  }

  /**
   * The index chomp_crlf overwrites: the first i >= from, below max and
   * before the first NUL, where s[i] is CR or LF; -1 when there is none.
   */
  function FindEol(s: seq<char>, max: nat, from: nat): (k: int)
    requires from <= |s|
    ensures k == -1 || from <= k < |s|
    decreases |s| - from
  {
    if from >= max || from == |s| || s[from] == '\0' then -1
    else if IsEol(s[from]) then from
    else FindEol(s, max, from + 1)
  }

  /**
   * What FindEol finds, in both directions: a hit at k is CR or LF, lies
   * below max, and every character before it is neither NUL nor CR nor LF;
   * no hit means the scan reached max, the end or a NUL before any CR or LF.
   */
  lemma {:induction false} FindEolMeans(s: seq<char>, max: nat, from: nat)
    requires from <= |s|
    ensures FindEol(s, max, from) >= 0 ==>
      var k := FindEol(s, max, from);
      k < max && IsEol(s[k]) &&
      forall j :: from <= j < k ==> s[j] != '\0' && !IsEol(s[j])
    ensures FindEol(s, max, from) == -1 ==>
      forall j :: from <= j < |s| && j < max && NoNul(s, from, j) ==> !IsEol(s[j])
    decreases |s| - from
  {
    if !(from >= max || from == |s| || s[from] == '\0') && !IsEol(s[from]) {
      FindEolMeans(s, max, from + 1);
    }
  }

  /** No NUL among s[from .. to). */
  predicate NoNul(s: seq<char>, from: nat, to: nat)
    requires to <= |s|
  {
    forall i :: from <= i < to ==> s[i] != '\0'
  }

  /** The scan never reads past the array: it meets max or a NUL inside it first. */
  predicate InBounds(s: seq<char>, max: nat)
  {
    max <= |s| || '\0' in s
  }

  /**
   * chomp_crlf: a null string gives null; otherwise the first CR or LF
   * within max characters and before the NUL becomes NUL, and the same
   * array is returned. Nothing else changes.
   */
  method ChompCrlf(str: array?<char>, max: nat) returns (r: array?<char>)
    requires str != null ==> InBounds(str[..], max)
    modifies str
    ensures r == str
    ensures str != null ==>
      var k := FindEol(old(str[..]), max, 0);
      str[..] == if k >= 0 then old(str[..])[k := '\0'] else old(str[..])
  {
    if str == null {
      return null;
    }
    var i := 0;
    while i < max && str[i] != '\0'
      invariant 0 <= i <= str.Length
      invariant NoNul(str[..], 0, i)
      invariant FindEol(str[..], max, 0) == FindEol(str[..], max, i)
      invariant str[..] == old(str[..])
      decreases str.Length - i
    {
      if str[i] == '\r' || str[i] == '\n' {
        str[i] := '\0';
        return str;
      }
      i := i + 1;
    }
    return str;
  }
}
