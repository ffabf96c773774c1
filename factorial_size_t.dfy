/**
 * c/factorial_size_t.c: n! as a size_t, or 0 when it does not fit.
 *
 * The platform is a parameter: the widths of size_t and unsigned long
 * (with CHAR_BIT = 8) and whether the compiler is GCC-compatible. The
 * preprocessor work the file does on those widths (the ulfactorials table,
 * max_ulfactorial, Max_size_t_factorial, the choice of multiply) becomes
 * functions of the platform.
 */
module FactorialSizeT {
  import opened MathDefs
  import opened SafeMul

  /** The widths the preprocessor inspects. */
  datatype Platform = Platform(sizeBits: nat, ulongBits: nat, gnuc: bool)
  {
    /**
     * size_t is whole bytes and at least 16 bits; unsigned long is at least
     * 32 bits and, for the ulfactorials table to exist, at most 64.
     */
    predicate Valid()
    {
      sizeBits % 8 == 0 && 16 <= sizeBits &&
      ulongBits % 8 == 0 && 32 <= ulongBits <= 64
    }

    function SizeMax(): nat
    {
      Pow2(sizeBits) - 1
    }

    function UlongMax(): nat
    {
      Pow2(ulongBits) - 1
    }
  }

  /**
   * The table entries from k! up to 20!: 0! to 5! always, and each later
   * k! under its own #if, kept when it is at most ULONG_MAX.
   */
  function Entries(k: nat, ulongMax: nat): seq<nat>
    decreases 21 - k
  {
    if k > 20 then []
    else (if k <= 5 || Fact(k) <= ulongMax then [Fact(k)] else []) + Entries(k + 1, ulongMax)
  }

  /** ulfactorials[]: the entries followed by the 0 sentinel. */
  function UlFactorials(ulongMax: nat): seq<nat>
  {
    Entries(0, ulongMax) + [0]
  }

  /** Once one k! is left out, every later one is too. */
  lemma {:induction false} EntriesStop(k: nat, ulongMax: nat)
    requires 6 <= k && Fact(k) > ulongMax
    ensures Entries(k, ulongMax) == []
    decreases 21 - k
  {
    if k < 20 {
      FactMonotone(k, k + 1);
      EntriesStop(k + 1, ulongMax);
    }
  }

  /** The entries from k on are k!, (k+1)!, ... with no gap. */
  lemma {:induction false} EntriesAre(k: nat, ulongMax: nat)
    ensures forall i :: 0 <= i < |Entries(k, ulongMax)| ==> Entries(k, ulongMax)[i] == Fact(k + i)
    decreases 21 - k
  {
    if k <= 20 {
      if k <= 5 || Fact(k) <= ulongMax {
        EntriesAre(k + 1, ulongMax);
        var rest := Entries(k + 1, ulongMax);
        assert Entries(k, ulongMax) == [Fact(k)] + rest;
        ConsFactorial(rest, k);
      } else {
        EntriesStop(k, ulongMax);
      }
    }
  }

  /** Putting k! in front of (k+1)!, (k+2)!, ... gives k!, (k+1)!, ... */
  lemma ConsFactorial(rest: seq<nat>, k: nat)
    requires forall i :: 0 <= i < |rest| ==> rest[i] == Fact(k + 1 + i)
    ensures forall i :: 0 <= i < |[Fact(k)] + rest| ==> ([Fact(k)] + rest)[i] == Fact(k + i)
  {
    var s := [Fact(k)] + rest;
    forall i | 0 <= i < |s|
      ensures s[i] == Fact(k + i)
    {
      if i > 0 {
        assert s[i] == rest[i - 1];
      }
    }
  }

  /** Every tabulated factorial after 5! is at most ULONG_MAX. */
  lemma {:induction false} EntriesFit(k: nat, ulongMax: nat)
    ensures forall j :: k <= j < k + |Entries(k, ulongMax)| && 6 <= j ==> Fact(j) <= ulongMax
    decreases 21 - k
  {
    if k <= 20 {
      if k <= 5 || Fact(k) <= ulongMax {
        EntriesFit(k + 1, ulongMax);
        var rest := Entries(k + 1, ulongMax);
        assert |Entries(k, ulongMax)| == 1 + |rest|;
        forall j | k <= j < k + |Entries(k, ulongMax)| && 6 <= j
          ensures Fact(j) <= ulongMax
        {
          if j > k {
            assert k + 1 <= j < (k + 1) + |rest|;
          }
        }
      } else {
        EntriesStop(k, ulongMax);
      }
    }
  }

  /** n ends the run of entries: it is 21, or n! is above ULONG_MAX. */
  predicate EndsRun(n: nat, ulongMax: nat)
  {
    n == 21 || Fact(n) > ulongMax
  }

  /** The run of entries stops at 20! or just before the first factorial above ULONG_MAX. */
  lemma {:induction false} EntriesEnd(k: nat, ulongMax: nat)
    requires k <= 21
    ensures EndsRun(k + |Entries(k, ulongMax)|, ulongMax)
    decreases 21 - k
  {
    if k <= 20 {
      if k <= 5 || Fact(k) <= ulongMax {
        EntriesEnd(k + 1, ulongMax);
        var rest := Entries(k + 1, ulongMax);
        assert Entries(k, ulongMax) == [Fact(k)] + rest;
        assert k + |Entries(k, ulongMax)| == (k + 1) + |rest|;
      } else {
        EntriesStop(k, ulongMax);
      }
    }
  }

  /** max_ulfactorial: the entry count less two, the last index holding a factorial. */
  function MaxUlfactorial(ulongMax: nat): (r: nat)
    ensures r == |UlFactorials(ulongMax)| - 2
  {
    EntriesLength(0, ulongMax);
    |UlFactorials(ulongMax)| - 2
  }

  /** 0! to 5! are always present. */
  lemma {:induction false} EntriesLength(k: nat, ulongMax: nat)
    requires k <= 6
    ensures |Entries(k, ulongMax)| >= 6 - k
    decreases 6 - k
  {
    if k < 6 {
      EntriesLength(k + 1, ulongMax);
    }
  }

  /** The table holds no factorial past 20!. */
  lemma {:induction false} EntriesAtMost(k: nat, ulongMax: nat)
    requires k <= 21
    ensures k + |Entries(k, ulongMax)| <= 21
    decreases 21 - k
  {
    if k <= 20 {
      EntriesAtMost(k + 1, ulongMax);
    }
  }

  /** Every entry before the sentinel is the factorial of its index, and the sentinel is 0. */
  lemma TableIsFactorials(ulongMax: nat)
    ensures forall i :: 0 <= i <= MaxUlfactorial(ulongMax) ==> UlFactorials(ulongMax)[i] == Fact(i)
    ensures UlFactorials(ulongMax)[MaxUlfactorial(ulongMax) + 1] == 0
  {
    EntriesAre(0, ulongMax);
    var t := UlFactorials(ulongMax);
    forall i | 0 <= i <= MaxUlfactorial(ulongMax)
      ensures t[i] == Fact(i)
    {
      assert t[i] == Entries(0, ulongMax)[i];
    }
  }

  /** max_ulfactorial is between 5 and 20. */
  lemma MaxUlfactorialRange(ulongMax: nat)
    ensures 5 <= MaxUlfactorial(ulongMax) <= 20
  {
    EntriesLength(0, ulongMax);
    EntriesAtMost(0, ulongMax);
  }

  /** The last tabulated factorial is at most ULONG_MAX (when ULONG_MAX is at least 5!, as C's 32-bit minimum makes it). */
  lemma LastEntryFits(ulongMax: nat)
    requires ulongMax >= Fact(5)
    ensures Fact(MaxUlfactorial(ulongMax)) <= ulongMax
  {
    MaxUlfactorialRange(ulongMax);
    var m := MaxUlfactorial(ulongMax);
    if m >= 6 {
      EntriesFit(0, ulongMax);
      assert 0 <= m < 0 + |Entries(0, ulongMax)|;
    }
  }

  /** The factorial after the last tabulated one is above ULONG_MAX, unless the table reached 20!. */
  lemma NextEntryTooBig(ulongMax: nat)
    ensures MaxUlfactorial(ulongMax) == 20 || Fact(MaxUlfactorial(ulongMax) + 1) > ulongMax
  {
    EntriesLength(0, ulongMax);
    EntriesEnd(0, ulongMax);
    assert MaxUlfactorial(ulongMax) + 1 == 0 + |Entries(0, ulongMax)|;
  }

  /** max_ulfactorial is the largest n up to 20 with n! at most ULONG_MAX. */
  lemma MaxUlfactorialIsLargest(ulongMax: nat)
    requires ulongMax >= Fact(5)
    ensures 5 <= MaxUlfactorial(ulongMax) <= 20
    ensures Fact(MaxUlfactorial(ulongMax)) <= ulongMax
    ensures MaxUlfactorial(ulongMax) == 20 || Fact(MaxUlfactorial(ulongMax) + 1) > ulongMax
  {
    MaxUlfactorialRange(ulongMax);
    LastEntryFits(ulongMax);
    NextEntryTooBig(ulongMax);
  }

  /** With a 32-bit unsigned long the table runs to 12!, with a 64-bit one to 20!. */
  lemma MaxUlfactorialValues()
    ensures MaxUlfactorial(0xFFFF_FFFF) == 12
    ensures MaxUlfactorial(0xFFFF_FFFF_FFFF_FFFF) == 20
  {
    FactBoundaries();
    MaxUlfactorialIs(0xFFFF_FFFF, 12);
    MaxUlfactorialIs(0xFFFF_FFFF_FFFF_FFFF, 20);
  }

  /** max_ulfactorial is the n that the largest-fitting characterisation picks out. */
  lemma MaxUlfactorialIs(ulongMax: nat, n: nat)
    requires ulongMax >= Fact(5) && n <= 20
    requires Fact(n) <= ulongMax && (n == 20 || Fact(n + 1) > ulongMax)
    ensures MaxUlfactorial(ulongMax) == n
  {
    MaxUlfactorialIsLargest(ulongMax);
    var m := MaxUlfactorial(ulongMax);
    if m > n {
      FactMonotone(n + 1, m);
    } else if m < n {
      FactMonotone(m + 1, n);
    }
  }

  /** A table for an unsigned long of at least 32 bits runs to 12! or further. */
  lemma AtLeastTwelve(ulongMax: nat)
    requires ulongMax >= 0xFFFF_FFFF
    ensures MaxUlfactorial(ulongMax) >= 12
  {
    FactBoundaries();
    assert Fact(5) == 120;
    NextEntryTooBig(ulongMax);
  }

  /** Max_size_t_factorial: 12 when size_t is a 32-bit unsigned long-sized type, 20 for 64 bits, else 0. */
  function MaxSizeTFactorial(p: Platform): (r: nat)
    requires p.Valid()
    ensures r == 0 || r == 12 || r == 20
    ensures r <= MaxUlfactorial(p.UlongMax())
  {
    UlongTable(p);
    if p.sizeBits == 32 && p.sizeBits <= p.ulongBits then 12
    else if p.sizeBits == 64 && p.sizeBits <= p.ulongBits then 20
    else 0
  }

  /** A nonzero Max_size_t_factorial is the largest n whose n! fits in size_t. */
  lemma MaxSizeTFactorialIsLargest(p: Platform)
    requires p.Valid() && MaxSizeTFactorial(p) != 0
    ensures Fact(MaxSizeTFactorial(p)) <= p.SizeMax() < Fact(MaxSizeTFactorial(p) + 1)
  {
    FactBoundaries();
    Pow2Boundaries();
  }

  /** The word multiply used when Max_size_t_factorial is 0: the builtin when size_t is unsigned long under GCC, otherwise the split-halves one. */
  function SafeMulSizeT(p: Platform, lhs: nat, rhs: nat): (r: Mul)
    requires p.Valid()
    ensures r.product <= p.SizeMax()
  {
    Pow2Add(p.sizeBits / 2, p.sizeBits / 2);
    if p.gnuc && p.sizeBits == p.ulongBits then
      Mul(lhs * rhs > p.SizeMax(), (lhs * rhs) % Pow2(p.sizeBits))
    else
      HalvesMul(p.sizeBits / 2, lhs, rhs)
  }

  /** Either multiply flags overflow exactly when the product exceeds SIZE_MAX, and otherwise stores it. */
  lemma SafeMulSizeTCorrect(p: Platform, lhs: nat, rhs: nat)
    requires p.Valid() && lhs <= p.SizeMax() && rhs <= p.SizeMax()
    ensures SafeMulSizeT(p, lhs, rhs).overflowed <==> lhs * rhs > p.SizeMax()
    ensures !SafeMulSizeT(p, lhs, rhs).overflowed ==> SafeMulSizeT(p, lhs, rhs).product == lhs * rhs
  {
    if !(p.gnuc && p.sizeBits == p.ulongBits) {
      HalvesForSizeT(p, lhs, rhs);
    } else {
      NativeMulStores(lhs * rhs, p.SizeMax(), Pow2(p.sizeBits));
    }
  }

  /** A product that fits is stored unchanged by the reduction modulo 2^bits. */
  lemma NativeMulStores(product: nat, max: nat, w: nat)
    requires w == max + 1
    ensures product <= max ==> product % w == product
  {
    if product <= max {
      ModOnce(product, w);
    }
  }

  /** The split-halves multiply on half of size_t's width is exact up to SIZE_MAX. */
  lemma HalvesForSizeT(p: Platform, lhs: nat, rhs: nat)
    requires p.Valid() && lhs <= p.SizeMax() && rhs <= p.SizeMax()
    ensures HalvesMul(p.sizeBits / 2, lhs, rhs).overflowed <==> lhs * rhs > p.SizeMax()
    ensures !HalvesMul(p.sizeBits / 2, lhs, rhs).overflowed ==> HalvesMul(p.sizeBits / 2, lhs, rhs).product == lhs * rhs
  {
    HalvesMulExact(p.sizeBits, lhs, rhs);
  }

  /**
   * _factorial_size_t_loop: a do-while multiplying the running result by
   * n - 1, n - 2, ..., 1, giving up on the first overflow. Its one caller
   * passes an n above max_ulfactorial, so n is at least 2.
   */
  method FactorialLoop(p: Platform, n0: nat) returns (r: nat)
    requires p.Valid() && 2 <= n0 <= p.SizeMax()
    ensures r == FactOrZero(p.SizeMax(), n0)
  {
    var result := n0;
    var n := n0;
    var overflow := false;
    var first := true;
    while first || (!overflow && n > 1)
      invariant 1 <= n <= n0 && (first ==> n == n0 && !overflow)
      invariant !overflow ==> result <= p.SizeMax() && result * Fact(n - 1) == Fact(n0)
      invariant overflow ==> Fact(n0) > p.SizeMax()
      decreases n
    {
      first := false;
      var lastResult := result;
      n := n - 1;
      SafeMulSizeTCorrect(p, lastResult, n);
      FactStep(lastResult, n);
      var m := SafeMulSizeT(p, lastResult, n);
      result, overflow := m.product, m.overflowed;
    }
    r := if overflow then 0 else result;
  }

  /** ulfactorials[n] converted to size_t, as factorial_size_t returns it. */
  function LookupAsWritten(p: Platform, n: nat): nat
    requires p.Valid() && n <= MaxUlfactorial(p.UlongMax())
  {
    UlFactorials(p.UlongMax())[n] % Pow2(p.sizeBits)
  }

  /**
   * factorial_size_t as written: a table lookup capped at
   * Max_size_t_factorial when that is known, and otherwise the table up to
   * max_ulfactorial and the loop beyond it.
   */
  method FactorialSizeTAsWritten(p: Platform, n: nat) returns (r: nat)
    requires p.Valid() && n <= p.SizeMax()
    ensures r == AsWrittenValue(p, n)
    ensures MaxSizeTFactorial(p) != 0 ==> r == if n > MaxSizeTFactorial(p) then 0 else LookupAsWritten(p, n)
    ensures MaxSizeTFactorial(p) == 0 && n <= MaxUlfactorial(p.UlongMax()) ==> r == LookupAsWritten(p, n)
    ensures MaxSizeTFactorial(p) == 0 && n > MaxUlfactorial(p.UlongMax()) ==> r == FactOrZero(p.SizeMax(), n)
  {
    UlongTable(p);
    if MaxSizeTFactorial(p) != 0 {
      r := if n > MaxSizeTFactorial(p) then 0 else LookupAsWritten(p, n);
    } else if n > MaxUlfactorial(p.UlongMax()) {
      r := FactorialLoop(p, n);
    } else {
      r := LookupAsWritten(p, n);
    }
  }

  /** The value factorial_size_t returns as written, for use in specifications. */
  function AsWrittenValue(p: Platform, n: nat): nat
    requires p.Valid()
  {
    if MaxSizeTFactorial(p) != 0 then (if n > MaxSizeTFactorial(p) then 0 else LookupAsWritten(p, n))
    else if n > MaxUlfactorial(p.UlongMax()) then FactOrZero(p.SizeMax(), n)
    else LookupAsWritten(p, n)
  }

  /**
   * size_t holds every table entry factorial_size_t can return: either
   * Max_size_t_factorial is known, or size_t is at least as wide as
   * unsigned long.
   */
  predicate TableFits(p: Platform)
    requires p.Valid()
  {
    MaxSizeTFactorial(p) != 0 || p.ulongBits <= p.sizeBits
  }

  /**
   * On such a platform factorial_size_t as written is n! when that fits
   * in size_t and 0 otherwise, the same as the corrected function.
   */
  lemma AsWrittenExact(p: Platform, n: nat)
    requires p.Valid() && TableFits(p)
    ensures AsWrittenValue(p, n) == FactOrZero(p.SizeMax(), n)
  {
    UlongTable(p);
    if MaxSizeTFactorial(p) != 0 {
      if n > MaxSizeTFactorial(p) {
        AboveMaxIsZero(p, n);
      } else {
        LookupExact(p, n);
      }
    } else if n <= MaxUlfactorial(p.UlongMax()) {
      LookupExact(p, n);
    }
  }

  /** max_ulfactorial is 12 or more, and 20 for a 64-bit unsigned long. */
  lemma UlongTable(p: Platform)
    requires p.Valid()
    ensures 12 <= MaxUlfactorial(p.UlongMax())
    ensures p.ulongBits == 64 ==> MaxUlfactorial(p.UlongMax()) == 20
  {
    Pow2Monotone(32, p.ulongBits);
    Pow2Of32();
    AtLeastTwelve(p.UlongMax());
    if p.ulongBits == 64 {
      Pow2Of64();
      MaxUlfactorialValues();
    }
  }

  /**
   * The lookup returns n!, uncut, whenever size_t can hold every table
   * entry: when Max_size_t_factorial is known and n is within it, or when
   * size_t is at least as wide as unsigned long.
   */
  lemma LookupExact(p: Platform, n: nat)
    requires p.Valid() && n <= MaxUlfactorial(p.UlongMax())
    requires (MaxSizeTFactorial(p) != 0 && n <= MaxSizeTFactorial(p)) || p.ulongBits <= p.sizeBits
    ensures LookupAsWritten(p, n) == Fact(n) == FactOrZero(p.SizeMax(), n)
  {
    TableIsFactorials(p.UlongMax());
    FitsSizeT(p, n);
    ModOnce(Fact(n), Pow2(p.sizeBits));
  }

  /** Under the same conditions, n! is at most SIZE_MAX. */
  lemma FitsSizeT(p: Platform, n: nat)
    requires p.Valid() && n <= MaxUlfactorial(p.UlongMax())
    requires (MaxSizeTFactorial(p) != 0 && n <= MaxSizeTFactorial(p)) || p.ulongBits <= p.sizeBits
    ensures Fact(n) <= p.SizeMax()
  {
    if MaxSizeTFactorial(p) != 0 && n <= MaxSizeTFactorial(p) {
      MaxSizeTFactorialIsLargest(p);
      FactMonotone(n, MaxSizeTFactorial(p));
    } else {
      Pow2Monotone(32, p.ulongBits);
      Pow2Of32();
      FactBoundaries();
      assert Fact(5) == 120;
      LastEntryFits(p.UlongMax());
      FactMonotone(n, MaxUlfactorial(p.UlongMax()));
      Pow2Monotone(p.ulongBits, p.sizeBits);
    }
  }

  /** Above a nonzero Max_size_t_factorial, n! does not fit, so 0 is the right answer. */
  lemma AboveMaxIsZero(p: Platform, n: nat)
    requires p.Valid() && MaxSizeTFactorial(p) != 0 && n > MaxSizeTFactorial(p)
    ensures FactOrZero(p.SizeMax(), n) == 0
  {
    MaxSizeTFactorialIsLargest(p);
    FactMonotone(MaxSizeTFactorial(p) + 1, n);
  }

  /**
   * With a 16-bit size_t and a 32-bit unsigned long, neither width test
   * matches, and 9! = 362880 is looked up in the table and cut to 16 bits
   * instead of being reported as too large.
   */
  lemma NarrowSizeTTruncates()
    ensures var p := Platform(16, 32, true);
      p.Valid() && MaxSizeTFactorial(p) == 0 && 9 <= MaxUlfactorial(p.UlongMax()) &&
      LookupAsWritten(p, 9) == 35200 && FactOrZero(p.SizeMax(), 9) == 0
  {
    var p := Platform(16, 32, true);
    Pow2Boundaries();
    UlongTable(p);
    TableIsFactorials(p.UlongMax());
    assert Fact(9) == 362880;
  }

  /**
   * factorial_size_t with the table path also checked against SIZE_MAX:
   * an entry too wide for size_t gives 0 rather than a truncated value.
   */
  method FactorialSizeT(p: Platform, n: nat) returns (r: nat)
    requires p.Valid() && n <= p.SizeMax()
    ensures r == FactOrZero(p.SizeMax(), n)
  {
    UlongTable(p);
    TableIsFactorials(p.UlongMax());
    if MaxSizeTFactorial(p) != 0 {
      if n > MaxSizeTFactorial(p) {
        AboveMaxIsZero(p, n);
        r := 0;
      } else {
        LookupExact(p, n);
        r := UlFactorials(p.UlongMax())[n];
      }
    } else if n > MaxUlfactorial(p.UlongMax()) {
      r := FactorialLoop(p, n);
    } else {
      var entry := UlFactorials(p.UlongMax())[n];
      r := if entry > p.SizeMax() then 0 else entry;
    }
  }
}
