/**
 * c/z-string.c: string buffers that remember their capacity. The
 * allocation is a size_t header holding max_len, then max_len + 1 zeroed
 * characters; the caller gets a pointer to the characters. Here a ZString
 * object stands for the allocation: its maxLen field is the header and
 * its chars array the characters. A C string argument is its characters
 * before the NUL (None for a null pointer), and whether calloc succeeds
 * is a parameter.
 */
module ZString {
  import opened Wrappers

  /** SIZE_MAX for a 64-bit size_t; sizeof(size_t) is 8. */
  const SizeMax: nat := 0xFFFF_FFFF_FFFF_FFFF
  const SizeOfSizeT: nat := 8

  class ZStr {
    var maxLen: nat
    var chars: array<char>

    predicate Valid()
      reads this
    {
      chars.Length == maxLen + 1
    }

    constructor (m: nat)
      ensures maxLen == m && fresh(chars) && chars.Length == m + 1
      ensures forall k :: 0 <= k < chars.Length ==> chars[k] == '\0'
    {
      maxLen := m;
      chars := new char[m + 1](_ => '\0');
    }
  }

  /** The text a C string holds: its characters before the first NUL. */
  function CStr(a: seq<char>): (s: seq<char>)
    ensures |s| <= |a| && '\0' !in s
  {
    if a == [] || a[0] == '\0' then [] else [a[0]] + CStr(a[1..])
  }

  /** A NUL-free prefix followed by a NUL reads back as that prefix. */
  lemma {:induction false} CStrOfPadded(p: seq<char>, rest: seq<char>)
    requires '\0' !in p && rest != [] && rest[0] == '\0'
    ensures CStr(p + rest) == p
  {
    if p != [] {
      assert (p + rest)[1..] == p[1..] + rest;
      CStrOfPadded(p[1..], rest);
    }
  }

  function Min(a: nat, b: nat): nat
  {
    if a <= b then a else b
  }

  /**
   * z_string_size_new: null when calloc fails; otherwise a buffer whose
   * header is max_len, whose first min(strlen(str), max_len) characters
   * are copied from str and whose other characters are zero. The source
   * asserts max_len < SIZE_MAX - (sizeof(size_t) + 1).
   */
  method ZStringSizeNew(maxLen: nat, str: Option<string>, callocSucceeds: bool) returns (z: ZStr?)
    requires maxLen < SizeMax - (SizeOfSizeT + 1)
    requires str.Some? ==> '\0' !in str.value
    ensures !callocSucceeds <==> z == null
    ensures z != null ==> fresh(z) && fresh(z.chars) && z.Valid() && z.maxLen == maxLen
    ensures z != null ==>
      var n := if str.Some? then Min(|str.value|, maxLen) else 0;
      (str.Some? ==> z.chars[..n] == str.value[..n]) &&
      forall k :: n <= k < z.chars.Length ==> z.chars[k] == '\0'
  {
    if !callocSucceeds {
      return null;
    }
    z := new ZStr(maxLen);
    if str.Some? {
      var len := |str.value|;
      if len > maxLen {
        len := maxLen;
      }
      var s := z.chars;
      var i := 0;
      while i < len
        modifies s
        invariant 0 <= i <= len
        invariant forall k :: 0 <= k < i ==> s[k] == str.value[k]
        invariant forall k :: len <= k < s.Length ==> s[k] == '\0'
      {
        s[i] := str.value[i];
        i := i + 1;
      }
    }
  }

  /** The text a new buffer holds: the first min(strlen(str), max_len) characters of str, "" for null. */
  lemma SizeNewText(z: ZStr, maxLen: nat, str: Option<string>)
    requires z.Valid() && z.maxLen == maxLen
    requires str.Some? ==> '\0' !in str.value
    requires var n := if str.Some? then Min(|str.value|, maxLen) else 0;
      (str.Some? ==> z.chars[..n] == str.value[..n]) &&
      forall k :: n <= k < z.chars.Length ==> z.chars[k] == '\0'
    ensures CStr(z.chars[..]) == if str.Some? then str.value[..Min(|str.value|, maxLen)] else ""
  {
    var n := if str.Some? then Min(|str.value|, maxLen) else 0;
    var p := z.chars[..n];
    assert z.chars[..] == p + z.chars[n..];
    if str.Some? {
      assert forall c :: c in p ==> c in str.value;
    }
    CStrOfPadded(p, z.chars[n..]);
  }

  /**
   * z_string_max_len: the max_len stored in the header, which is the
   * room for characters the buffer leaves before its final NUL.
   */
  function ZStringMaxLen(z: ZStr): (m: nat)
    reads z
    ensures z.Valid() ==> m == z.chars.Length - 1
  {
    z.maxLen
  }

  /**
   * z_string_new: a buffer sized to the string, holding a copy of it; a
   * null string gives an empty buffer with max_len 0.
   */
  method ZStringNew(str: Option<string>, callocSucceeds: bool) returns (z: ZStr?)
    requires str.Some? ==> '\0' !in str.value && |str.value| < SizeMax - (SizeOfSizeT + 1)
    ensures !callocSucceeds <==> z == null
    ensures z != null ==> fresh(z) && z.Valid()
    ensures z != null ==> ZStringMaxLen(z) == if str.Some? then |str.value| else 0
    ensures z != null ==> CStr(z.chars[..]) == if str.Some? then str.value else ""
  {
    z := ZStringSizeNew(if str.Some? then |str.value| else 0, str, callocSucceeds);
    if z != null {
      SizeNewText(z, z.maxLen, str);
      if str.Some? {
        assert str.value[..|str.value|] == str.value;
      }
    }
  }

  /** A `char *` variable of the caller, which z_string_delete_ref clears. */
  class StrVar {
    var target: ZStr?

    constructor (z: ZStr?)
      ensures target == z
    {
      target := z;
    }
  }

  /**
   * z_string_delete_ref: frees the buffer behind the caller's pointer and
   * sets that pointer to null. Freeing has no counterpart here.
   */
  method ZStringDeleteRef(ref: StrVar)
    requires ref.target != null
    modifies ref
    ensures ref.target == null
  {
    ref.target := null;
  }

  /**
   * main: z_string_new("foo") reads "foo" with max_len 3, and after
   * z_string_delete the variable is null; z_string_size_new(40, NULL)
   * reads "" with max_len 40.
   */
  method Demo() returns (s1Text: string, s1Len: nat, s2Text: string, s2Len: nat)
    ensures s1Text == "foo" && s1Len == 3 && s2Text == "" && s2Len == 40
  {
    var s1 := ZStringNew(Some("foo"), true);
    s1Text := CStr(s1.chars[..]);
    s1Len := ZStringMaxLen(s1);
    var v1 := new StrVar(s1);
    ZStringDeleteRef(v1);
    assert v1.target == null;
    var s2 := ZStringSizeNew(40, None, true);
    SizeNewText(s2, 40, None);
    s2Text := CStr(s2.chars[..]);
    s2Len := ZStringMaxLen(s2);
  }
}
