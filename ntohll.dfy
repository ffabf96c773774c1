/**
 * c/ntohll.c: 64-bit host/network byte order conversion. The system
 * endian.h is not part of this model, so htonll and ntohll take their
 * fallback definitions: keep x when Bswap_32_constant(1) == 1, and
 * otherwise apply Bswap_64 (the two-word swap of c/byteswap64.c, whose
 * macros this file repeats word for word).
 */
module NtoHll {
  import opened ByteSwap64

  /** The fallback's host test is a constant expression and is never true. */
  lemma HostTestIsFalse()
    ensures Bswap32Constant(1) == 0x0100_0000
    ensures Bswap32Constant(1) != 1
  {
  }

  /** htonll, without endian.h. */
  function Htonll(x: u64): (r: u64)
    ensures r == Bswap64(x)
  {
    HostTestIsFalse();
    if Bswap32Constant(1) == 1 then x else Bswap64(x)
  }

  /** ntohll, without endian.h: the same definition as htonll. */
  function Ntohll(x: u64): (r: u64)
    ensures r == Bswap64(x)
  {
    HostTestIsFalse();
    if Bswap32Constant(1) == 1 then x else Bswap64(x)
  }

  /** Converting to network order and back gives the original value. */
  lemma NtohllHtonll(x: u64)
    ensures Ntohll(Htonll(x)) == x && Htonll(Ntohll(x)) == x
  {
    Bswap64Involution(x);
  }

  /** main: whether the little-endian warning is printed, and the exit status. */
  method NtohllDemo() returns (warned: bool, status: int)
    ensures !warned && status == 0
  {
    warned := Bswap32Constant(1) == 1;
    var hostLe: u64 := 0x554E49584C4f5645;
    var netwBe: u64 := 0x45564f4c58494e55;
    var actual1 := Htonll(hostLe);
    var actual2 := Ntohll(netwBe);
    status := if actual1 == netwBe then 0 else 1;
  }
}
