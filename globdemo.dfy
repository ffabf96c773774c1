/**
 * c/globdemo.c: str_list, a growable array of string copies. strs is a
 * heap array of `len` slots, of which the first `used` hold strings; the
 * empty list has no array at all. A slot is None for a null pointer.
 * Whether strdup and calloc succeed is passed in.
 */
module Globdemo {
  import opened Wrappers

  class StrList {
    var strs: array?<Option<string>>
    var used: nat
    var len: nat

    /** The array has len slots and the first used of them hold strings. */
    predicate Valid()
      reads this, strs
    {
      (strs == null ==> len == 0 && used == 0) &&
      (strs != null ==>
        (strs.Length == len && used <= len && forall i :: 0 <= i < used ==> strs[i].Some?))
    }

    /** The strings in order. */
    function Contents(): (c: seq<string>)
      reads this, strs
      requires Valid()
      ensures |c| == used
      ensures strs != null ==> forall i :: 0 <= i < used ==> strs[i] == Some(c[i])
    {
      if strs == null then [] else Values(strs[..used])
    }

    /** { NULL, 0, 0 } */
    constructor ()
      ensures Valid() && strs == null && used == 0 && len == 0
    {
      strs, used, len := null, 0, 0;
    }
  }

  /** The strings held by slots that are all non-null. */
  function Values(s: seq<Option<string>>): (v: seq<string>)
    requires forall i :: 0 <= i < |s| ==> s[i].Some?
    ensures |v| == |s| && forall i :: 0 <= i < |s| ==> s[i] == Some(v[i])
  {
    if s == [] then [] else [s[0].value] + Values(s[1..])
  }

  /** The capacity after growing a full list of old_len slots. */
  function GrownLen(oldLen: nat): (n: nat)
    ensures n > oldLen && n >= 64
  {
    if oldLen < 64 then 64 else oldLen * 2
  }

  /**
   * str_list_add: 1 for a null list, 2 when strdup fails and 3 when the
   * list is full and calloc fails, each leaving the list as it was.
   * Otherwise the copy goes into slot `used`, growing a full list to
   * GrownLen slots first, with the old entries copied over in order.
   */
  method StrListAdd(l: StrList?, str: string, strdupOk: bool, callocOk: bool) returns (rc: int)
    requires l != null ==> l.Valid()
    modifies if l != null then {l, l.strs} else {}
    ensures l == null ==> rc == 1
    ensures l != null ==> l.Valid()
    ensures l != null && !strdupOk ==> rc == 2
    ensures l != null && strdupOk && !callocOk && old(l.used >= l.len) ==> rc == 3
    ensures l != null && strdupOk && (callocOk || old(l.used < l.len)) ==> rc == 0
    ensures l != null && rc != 0 ==> l.Contents() == old(l.Contents()) && l.len == old(l.len)
    ensures l != null && rc == 0 ==> l.Contents() == old(l.Contents()) + [str]
    ensures l != null && rc == 0 && old(l.used >= l.len) ==> l.len == GrownLen(old(l.len)) && fresh(l.strs)
    ensures l != null && rc == 0 && old(l.used < l.len) ==> l.len == old(l.len) && l.strs == old(l.strs)
  {
    if l == null {
      return 1;
    }
    if !strdupOk {
      return 2;
    }
    var copy := str;
    if l.used >= l.len {
      var grown := Grow(l, callocOk);
      if !grown {
        return 3;
      }
    }
    ghost var before := l.strs[..l.used];
    l.strs[l.used] := Some(copy);
    l.used := l.used + 1;
    assert l.strs[..l.used] == before + [Some(str)];
    rc := 0;
  }

  /**
   * The growing step of str_list_add for a full list: a fresh array of
   * GrownLen(len) null slots, with the old entries copied over in order.
   * Fails, changing nothing, when calloc fails.
   */
  method Grow(l: StrList, callocOk: bool) returns (ok: bool)
    requires l.Valid() && l.used >= l.len
    modifies l
    ensures l.Valid() && l.used == old(l.used)
    ensures ok == callocOk
    ensures l.Contents() == old(l.Contents())
    ensures ok ==> l.len == GrownLen(old(l.len)) && fresh(l.strs) && l.used < l.len
    ensures !ok ==> l.len == old(l.len) && l.strs == old(l.strs)
  {
    var oldLen := l.len;
    var oldStrs := l.strs;
    var newLen := GrownLen(oldLen);
    if !callocOk {
      return false;
    }
    var newStrs := new Option<string>[newLen](_ => None);
    var i := 0;
    while i < oldLen
      modifies newStrs
      invariant 0 <= i <= oldLen
      invariant oldStrs != null || oldLen == 0
      invariant forall k :: 0 <= k < i ==> newStrs[k] == oldStrs[k]
    {
      newStrs[i] := oldStrs[i];
      i := i + 1;
    }
    l.strs := newStrs;
    l.len := newLen;
    if oldStrs != null {
      assert newStrs[..l.used] == oldStrs[..l.used];
    }
    ok := true;
  }

  /**
   * str_list_clear: a null list, or one without an array, is left alone;
   * otherwise every used slot is set to null, the array is released and
   * the list is empty again.
   */
  method StrListClear(l: StrList?)
    requires l != null ==> l.Valid()
    modifies if l != null then {l, l.strs} else {}
    ensures l != null ==> l.Valid() && l.Contents() == []
    ensures l != null && old(l.strs) == null ==> l.strs == null && l.used == 0 && l.len == 0
    ensures l != null && old(l.strs) != null ==> l.strs == null && l.used == 0 && l.len == 0
    ensures l != null && old(l.strs) != null ==> forall i :: 0 <= i < old(l.used) ==> old(l.strs)[i] == None
  {
    if l == null || l.strs == null {
      return;
    }
    var s := l.strs;
    var i := 0;
    while i < l.used
      modifies s
      invariant 0 <= i <= l.used
      invariant forall k :: 0 <= k < i ==> s[k] == None
    {
      s[i] := None;
      i := i + 1;
    }
    l.strs := null;
    l.used := 0;
    l.len := 0;
  }

  /**
   * The loop of get_paths over the paths glob found, with every strdup
   * and calloc succeeding: the summed return codes stay 0 and the list
   * holds the paths in order after what it held before.
   */
  method AddAll(l: StrList, paths: seq<string>) returns (err: int)
    requires l.Valid()
    modifies l, l.strs
    ensures l.Valid()
    ensures l.Contents() == old(l.Contents()) + paths
    ensures err == 0
  {
    err := 0;
    var i := 0;
    while i < |paths|
      modifies l, l.strs
      invariant 0 <= i <= |paths|
      invariant l.Valid() && err == 0
      invariant l.Contents() == old(l.Contents()) + paths[..i]
      invariant l.strs == null || l.strs == old(l.strs) || fresh(l.strs)
    {
      var rc := StrListAdd(l, paths[i], true, true);
      err := err + rc;
      assert paths[..i + 1] == paths[..i] + [paths[i]];
      i := i + 1;
    }
    assert paths[..|paths|] == paths;
  }
}
