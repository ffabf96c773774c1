/**
 * c/mem-lkm/mem-lkm.c: a character device backed by a kernel byte
 * buffer of mem_buf_size bytes (100 unless the module parameter says
 * otherwise). The module's globals are the fields of a MemDevice; the
 * file position is a FilePos object, as the kernel passes a pointer to
 * it. register_chrdev's result, kmalloc's success and the number of
 * bytes copy_to_user / copy_from_user leave uncopied are parameters.
 */
module MemLkm {
  type byte = bv8

  const DefaultBufSize: nat := 100
  const ENOMEM: int := 12
  const EFAULT: int := 14

  class MemDevice {
    var major: int
    var memBuf: array?<byte>
    var bufSize: nat

    predicate Ready()
      reads this
    {
      memBuf != null && memBuf.Length == bufSize && bufSize > 0
    }

    /** The module's static initialisers. */
    constructor (sizeParam: nat)
      ensures major == -1 && memBuf == null && bufSize == sizeParam
    {
      major, memBuf, bufSize := -1, null, sizeParam;
    }
  }

  /** The loff_t the kernel passes by pointer. */
  class FilePos {
    var pos: nat

    constructor (p: nat)
      ensures pos == p
    {
      pos := p;
    }
  }

  /**
   * The number of bytes read or write transfers: count cut down to what
   * is left after pos, and 0 for count 0 or pos at or past the end.
   */
  function TransferLen(size: nat, pos: nat, count: nat): (n: nat)
    ensures n <= count && (n > 0 ==> pos + n <= size)
    ensures n == 0 <==> count == 0 || pos >= size
    ensures count > 0 && pos < size ==> n == count || pos + n == size
  {
    if count == 0 || pos >= size then 0
    else if size - pos < count then size - pos
    else count
  }

  /**
   * mem_init: -1 for a zero buffer size; register_chrdev's error when it
   * is negative; -ENOMEM when kmalloc fails (after unregistering);
   * otherwise 0 with the major number recorded and an all-zero buffer.
   */
  method MemInit(d: MemDevice, registerResult: int, kmallocOk: bool) returns (err: int)
    modifies d
    ensures d.bufSize == old(d.bufSize)
    ensures old(d.bufSize) == 0 ==> err == -1 && d.memBuf == old(d.memBuf)
    ensures old(d.bufSize) > 0 && registerResult < 0 ==> err == registerResult
    ensures old(d.bufSize) > 0 && registerResult >= 0 && !kmallocOk ==> err == -ENOMEM
    ensures err == 0 <==> old(d.bufSize) > 0 && registerResult >= 0 && kmallocOk
    ensures err == 0 ==> d.Ready() && fresh(d.memBuf) && d.major == registerResult
    ensures err == 0 ==> forall k :: 0 <= k < d.bufSize ==> d.memBuf[k] == 0
  {
    if d.bufSize == 0 {
      return -1;
    }
    if registerResult < 0 {
      return registerResult;
    }
    d.major := registerResult;
    if !kmallocOk {
      return -ENOMEM;
    }
    var buf := new byte[d.bufSize];
    var i := 0;
    while i < buf.Length
      modifies buf
      invariant 0 <= i <= buf.Length
      invariant forall k :: 0 <= k < i ==> buf[k] == 0
    {
      buf[i] := 0;
      i := i + 1;
    }
    d.memBuf := buf;
    err := 0;
  }

  /**
   * mem_exit: unregisters a registered device (major >= 0) and marks it
   * unregistered with -1, and frees the buffer; a negative major is left
   * as it is. The buffer size parameter is kept.
   */
  method MemExit(d: MemDevice)
    modifies d
    ensures d.major == (if old(d.major) >= 0 then -1 else old(d.major))
    ensures d.memBuf == null && d.bufSize == old(d.bufSize)
  {
    if d.major >= 0 {
      d.major := -1;
    }
    if d.memBuf != null {
      d.memBuf := null;
    }
  }

  /** n zero bytes. */
  function Zeros(n: nat): (z: seq<byte>)
    ensures |z| == n && forall k :: 0 <= k < n ==> z[k] == 0
  {
    seq(n, _ => 0)
  }

  /** dst[at .. at + n) := src[from .. from + n), the rest of dst unchanged. */
  method CopyBytes(dst: array<byte>, at: nat, src: seq<byte>, from: nat, n: nat)
    requires at + n <= dst.Length && from + n <= |src|
    modifies dst
    ensures dst[..] == old(dst[..at]) + src[from..from + n] + old(dst[at + n..])
  {
    var i := 0;
    while i < n
      invariant 0 <= i <= n
      invariant forall k :: 0 <= k < dst.Length ==>
        dst[k] == if at <= k < at + i then src[from + k - at] else old(dst[k])
    {
      dst[at + i] := src[from + i];
      i := i + 1;
    }
    assert dst[..] == old(dst[..at]) + src[from..from + n] + old(dst[at + n..]);
  }

  /**
   * mem_read: for count 0 or a position past the end, 0 with nothing
   * changed. Otherwise n = TransferLen bytes from the buffer at pos are
   * handed to copy_to_user, which reports notCopied bytes it could not
   * copy: the first n - notCopied reach the user buffer and the rest of it
   * is left alone. With everything copied pos advances by n and n is
   * returned; otherwise -EFAULT with pos unchanged. The device buffer is
   * never changed.
   */
  method MemRead(d: MemDevice, user: array<byte>, count: nat, f: FilePos, notCopied: nat) returns (r: int)
    requires d.Ready() && count <= user.Length && user != d.memBuf
    requires notCopied <= TransferLen(d.bufSize, f.pos, count)
    modifies user, f
    ensures d.memBuf[..] == old(d.memBuf[..])
    ensures var n := TransferLen(d.bufSize, old(f.pos), count);
      (n == 0 ==> r == 0 && f.pos == old(f.pos) && user[..] == old(user[..])) &&
      (n > 0 ==> user[..] == d.memBuf[old(f.pos)..old(f.pos) + n - notCopied] + old(user[n - notCopied..])) &&
      (n > 0 && notCopied == 0 ==> r == n && f.pos == old(f.pos) + n) &&
      (n > 0 && notCopied > 0 ==> r == -EFAULT && f.pos == old(f.pos))
  {
    if count == 0 {
      return 0;
    }
    if f.pos >= d.bufSize {
      return 0;
    }
    var bytes := count;
    if d.bufSize - f.pos < count {
      bytes := d.bufSize - f.pos;
    }
    CopyBytes(user, 0, d.memBuf[..], f.pos, bytes - notCopied);
    if notCopied != 0 {
      return -EFAULT;
    }
    f.pos := f.pos + bytes;
    r := bytes;
  }

  /**
   * mem_write: for count 0 or a position past the end, 0 with nothing
   * changed. Otherwise n = TransferLen bytes are handed to
   * copy_from_user, which reports notCopied bytes it could not copy: the
   * first n - notCopied bytes of the user data are stored at pos and the
   * last notCopied bytes of the target range are zeroed, the rest of the
   * buffer kept. With everything copied n is returned, otherwise
   * -EFAULT; pos is not advanced either way.
   */
  method MemWrite(d: MemDevice, data: seq<byte>, count: nat, f: FilePos, notCopied: nat) returns (r: int)
    requires d.Ready() && count <= |data|
    requires notCopied <= TransferLen(d.bufSize, f.pos, count)
    modifies d.memBuf
    ensures f.pos == old(f.pos)
    ensures var n := TransferLen(d.bufSize, f.pos, count);
      (n == 0 ==> r == 0 && d.memBuf[..] == old(d.memBuf[..])) &&
      (n > 0 ==>
        d.memBuf[..] == old(d.memBuf[..f.pos]) + data[..n - notCopied] + Zeros(notCopied) + old(d.memBuf[f.pos + n..])) &&
      (n > 0 && notCopied == 0 ==> r == n) &&
      (n > 0 && notCopied > 0 ==> r == -EFAULT)
  {
    if count == 0 {
      return 0;
    }
    if f.pos >= d.bufSize {
      return 0;
    }
    var bytes := count;
    if d.bufSize - f.pos < count {
      bytes := d.bufSize - f.pos;
    }
    var copied := data[..bytes - notCopied] + Zeros(notCopied);
    CopyBytes(d.memBuf, f.pos, copied, 0, bytes);
    assert copied[0..bytes] == copied;
    if notCopied != 0 {
      return -EFAULT;
    }
    r := bytes;
  }

  /**
   * A write followed by a read at the same position, both copies
   * succeeding, reads back what was written; the write leaves pos where
   * it was, so the read starts at the written bytes.
   */
  method WriteThenRead(d: MemDevice, data: seq<byte>, user: array<byte>, f: FilePos) returns (got: seq<byte>)
    requires d.Ready() && 0 < |data| <= user.Length && user != d.memBuf && f.pos < d.bufSize
    modifies d.memBuf, user, f
    ensures got == data[..TransferLen(d.bufSize, old(f.pos), |data|)]
  {
    var w := MemWrite(d, data, |data|, f, 0);
    var r := MemRead(d, user, |data|, f, 0);
    got := user[..r];
  }
}
