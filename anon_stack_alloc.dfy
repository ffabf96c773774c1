/**
 * c/anon-stack-alloc.c: a string buffer record that is initialised over
 * a caller's character array, and cleared by zeroing the whole array.
 */
module AnonStackAlloc {
  class Sbuf {
    var size: nat
    var start: nat
    var end: nat
    var str: array?<char>

    /** The compound literal {0, 0, 0, NULL} of sbuf_stack_new. */
    constructor ()
      ensures size == 0 && start == 0 && end == 0 && str == null
    {
      size, start, end, str := 0, 0, 0, null;
    }
  }

  /**
   * sbuf_clear: start and end become 0 and all size bytes of str become
   * NUL; the same record is returned.
   */
  method SbufClear(sb: Sbuf) returns (r: Sbuf)
    requires sb.str != null && sb.size <= sb.str.Length
    modifies sb, sb.str
    ensures r == sb
    ensures sb.start == 0 && sb.end == 0
    ensures sb.size == old(sb.size) && sb.str == old(sb.str)
    ensures forall k :: 0 <= k < sb.size ==> sb.str[k] == '\0'
    ensures forall k :: sb.size <= k < sb.str.Length ==> sb.str[k] == old(sb.str[k])
  {
    sb.start := 0;
    sb.end := 0;
    var buf := sb.str;
    var i := 0;
    while i < sb.size
      modifies buf
      invariant 0 <= i <= sb.size
      invariant forall k :: 0 <= k < i ==> buf[k] == '\0'
      invariant forall k :: sb.size <= k < buf.Length ==> buf[k] == old(buf[k])
    {
      buf[i] := '\0';
      i := i + 1;
    }
    r := sb;
  }

  /**
   * sbuf_init: the record takes over buf with size len and is cleared; the
   * same record is returned. The source writes len bytes, so buf must
   * hold at least len.
   */
  method SbufInit(sb: Sbuf, buf: array<char>, len: nat) returns (r: Sbuf)
    requires len <= buf.Length
    modifies sb, buf
    ensures r == sb
    ensures sb.size == len && sb.str == buf && sb.start == 0 && sb.end == 0
    ensures forall k :: 0 <= k < len ==> buf[k] == '\0'
    ensures buf[len..] == old(buf[len..])
  {
    sb.size := len;
    sb.str := buf;
    r := SbufClear(sb);
  }

  /** main: a record made by sbuf_stack_new over an 80-byte array reports size 80, so main returns 0. */
  method StackNewReportsSize() returns (exitCode: int)
    ensures exitCode == 0
  {
    var bufLen := 80;
    var buf := new char[bufLen];
    var anon := new Sbuf();
    var sb := SbufInit(anon, buf, bufLen);
    exitCode := if sb.size == bufLen then 0 else 1;
  }
}
