/**
 * c/var-args-demo.c: c89_fake_snprintf, a small snprintf that knows
 * "%d", "%s" and "%%", and its helpers a_int and a_str, which write a
 * number or a string into a buffer of a given length, NUL-terminate it
 * and return the length the text would have had. The variable
 * arguments are a sequence of Arg values, taken in order; the format
 * string is an array of characters ending in its NUL.
 */
module VarArgsDemo {
  import opened MathDefs
  import Decimal

  datatype Arg = IntArg(n: int) | StrArg(s: string)

  const NUL: char := '\0'

  function Min(a: nat, b: nat): nat
  {
    if a <= b then a else b
  }

  /**
   * What a_int and a_str leave in buf[off ..] for a text of the given
   * length limit: the first min(|text|, len - 1) characters, then NUL.
   */
  ghost predicate Truncated(buf: seq<char>, off: nat, len: nat, text: string)
    requires 1 <= len && off + len <= |buf|
  {
    var k := Min(|text|, len - 1);
    buf[off..off + k] == text[..k] && buf[off + k] == NUL
  }

  // ---------------------------------------------------------------- a_int

  /** The digits of x at places d and above: the digits of x / d, none when x < d. */
  ghost function Above(x: nat, d: nat): string
    requires d >= 1
  {
    if x >= d then Decimal.Digits(x / d) else []
  }

  /** x / (10d) and x % (10d) in terms of q = x / d and r = x % d. */
  lemma PlaceSplit(x: nat, d: nat)
    requires d >= 1
    ensures x / (10 * d) == (x / d) / 10
    ensures x % (10 * d) == ((x / d) % 10) * d + x % d
  {
    var q, r := x / d, x % d;
    var a, b := q / 10, q % 10;
    assert x == q * d + r;
    assert q * d == a * (10 * d) + b * d;
    MulMono(b, 9, d);
    DivModUnique(x, 10 * d, a, b * d + r);
  }

  /** Reading one decimal place: (b * d + r) / d == b and the remainder is r. */
  lemma PlaceRead(b: nat, d: nat, r: nat)
    requires r < d
    ensures (b * d + r) / d == b && (b * d + r) % d == r
  {
    DivModUnique(b * d + r, d, b, r);
  }

  /**
   * One pass of a_int's loop at divisor d, with i == x % (10d): digit
   * i / d joins the digits above 10d exactly when x >= d, and what is
   * left of i is x % d.
   */
  lemma PlaceStep(x: nat, d: nat, i: nat)
    requires d >= 1 && i == x % (10 * d)
    ensures 0 <= i / d < 10 && 0 <= i % d
    ensures x >= d ==> Above(x, d) == Above(x, 10 * d) + [Decimal.DigitChar(i / d)] && i % d == x % d
    ensures x < d ==> Above(x, d) == Above(x, 10 * d) == [] && i == x % d
  {
    var q := PlaceArith(x, d, i);
    var c := i / d;
    if x >= d {
      if q >= 10 {
        assert Decimal.Digits(q) == Decimal.Digits(q / 10) + [Decimal.DigitChar(c)];
      } else {
        assert Decimal.Digits(q) == [Decimal.DigitChar(c)];
      }
    }
  }

  /** The arithmetic of one place, with q = x / d named. */
  lemma PlaceArith(x: nat, d: nat, i: nat) returns (q: nat)
    requires d >= 1 && i == x % (10 * d)
    ensures q == x / d && q / 10 == x / (10 * d)
    ensures i / d == q % 10 && i % d == x % d && 0 <= i % d
    ensures x >= d <==> q >= 1
    ensures x >= 10 * d <==> q >= 10
  {
    q := x / d;
    PlaceSplit(x, d);
    PlaceRead(q % 10, d, x % d);
    QuotientPositive(x, d);
    QuotientPositive(x, 10 * d);
  }

  /** x reaches m exactly when x / m is at least 1. */
  lemma QuotientPositive(x: nat, m: nat)
    requires m >= 1
    ensures x >= m <==> x / m >= 1
  {
    assert x == (x / m) * m + x % m;
    if x / m >= 1 {
      MulMono(1, x / m, m);
    }
  }

  /** After the loop (d == 1) the last digit completes the digits of x. */
  lemma FinalDigit(x: nat)
    ensures Decimal.Digits(x) == Above(x, 10) + [Decimal.DigitChar(x % 10)]
  {
  }

  /** Position-wise agreement gives agreement of the slices. */
  lemma SliceAgrees(buf: seq<char>, off: nat, text: string, k: nat)
    requires off + k <= |buf| && k <= |text|
    requires forall j :: 0 <= j < k ==> buf[off + j] == text[j]
    ensures buf[off..off + k] == text[..k]
  {
  }

  /** buf[off ..] holds the first digits of text, as far as len allows. */
  ghost predicate Holds(buf: seq<char>, off: nat, len: nat, text: string)
    requires off + len <= |buf|
  {
    forall j :: 0 <= j < |text| && j < len ==> buf[off + j] == text[j]
  }

  /** 10^k divided by 10 is 10^(k-1). */
  lemma Pow10Down(k: nat)
    requires k >= 1
    ensures Decimal.Pow10(k) / 10 == Decimal.Pow10(k - 1) && Decimal.Pow10(k - 1) >= 1
  {
  }

  /**
   * a_int for x >= 0: the digits of x, most significant first, go to
   * buf[off ..] as far as len allows, then the NUL, as Truncated says;
   * the digit count is returned. Nothing outside buf[off .. off + len)
   * changes. An int is below 2^31, so ten places from 10^9 down suffice.
   */
  method AInt(buf: array<char>, off: nat, len: nat, x: int) returns (p: nat)
    requires 0 <= x < 0x8000_0000 && 1 <= len && off + len <= buf.Length
    modifies buf
    ensures p == |Decimal.Digits(x)|
    ensures Truncated(buf[..], off, len, Decimal.Digits(x))
    ensures forall j :: 0 <= j < buf.Length && !(off <= j < off + len) ==> buf[j] == old(buf[j])
  {
    var i: nat := x;
    p := 0;
    var d: nat := 1000000000;
    ghost var k := 9;
    while d >= 10
      invariant 0 <= k <= 9 && d == Decimal.Pow10(k) && d >= 1
      invariant i == x % (10 * d)
      invariant p == |Above(x, 10 * d)| && Holds(buf[..], off, len, Above(x, 10 * d))
      invariant forall j :: 0 <= j < buf.Length && !(off <= j < off + len) ==> buf[j] == old(buf[j])
      decreases d
    {
      i, p := EmitPlace(buf, off, len, x, d, i, p);
      Pow10Down(k);
      d := d / 10;
      k := k - 1;
    }
    p := EmitLast(buf, off, len, x, i, p);
  }

  /**
   * One pass of a_int's loop at divisor d >= 10:
   * when x >= d, digit i / d is written at p if it fits and p moves on,
   * and i keeps what is below d.
   */
  method EmitPlace(buf: array<char>, off: nat, len: nat, x: nat, d: nat, i: nat, p: nat) returns (i2: nat, p2: nat)
    requires d >= 1 && i == x % (10 * d) && off + len <= buf.Length
    requires p == |Above(x, 10 * d)| && Holds(buf[..], off, len, Above(x, 10 * d))
    modifies buf
    ensures i2 == x % d && p2 == |Above(x, d)| && Holds(buf[..], off, len, Above(x, d))
    ensures forall j :: 0 <= j < buf.Length && !(off <= j < off + len) ==> buf[j] == old(buf[j])
  {
    PlaceStep(x, d, i);
    i2, p2 := i, p;
    if x >= d {
      var y: nat := i / d;
      if len > p {
        buf[off + p] := Decimal.DigitChar(y);
      }
      p2 := p + 1;
      i2 := i % d;
    }
  }

  /**
   * The end of a_int: the last digit, x % 10, is written at p whatever x
   * is (so 0 gives "0"), then the NUL at the end of what fits.
   */
  method EmitLast(buf: array<char>, off: nat, len: nat, x: nat, i: nat, p: nat) returns (p2: nat)
    requires i == x % 10 && 1 <= len && off + len <= buf.Length
    requires p == |Above(x, 10)| && Holds(buf[..], off, len, Above(x, 10))
    modifies buf
    ensures p2 == |Decimal.Digits(x)|
    ensures Truncated(buf[..], off, len, Decimal.Digits(x))
    ensures forall j :: 0 <= j < buf.Length && !(off <= j < off + len) ==> buf[j] == old(buf[j])
  {
    FinalDigit(x);
    ghost var text := Decimal.Digits(x);
    if len > p {
      buf[off + p] := Decimal.DigitChar(i);
    }
    p2 := p + 1;
    assert Holds(buf[..], off, len, text);
    var at := if len > p2 then p2 else len - 1;
    buf[off + at] := NUL;
    SliceAgrees(buf[..], off, text, at);
  }

  // ---------------------------------------------------------------- a_str

  /**
   * a_str: the characters of str go to buf[off ..] as far as len allows,
   * then the NUL, as Truncated says; strlen(str) is returned.
   */
  method AStr(buf: array<char>, off: nat, len: nat, str: string) returns (n: nat)
    requires NUL !in str && 1 <= len && off + len <= buf.Length
    modifies buf
    ensures n == |str|
    ensures Truncated(buf[..], off, len, str)
    ensures forall j :: 0 <= j < buf.Length && !(off <= j < off + len) ==> buf[j] == old(buf[j])
  {
    var i := 0;
    while i < |str|
      invariant 0 <= i <= |str|
      invariant forall j :: 0 <= j < i && j < len ==> buf[off + j] == str[j]
      invariant forall j :: 0 <= j < buf.Length && !(off <= j < off + len) ==> buf[j] == old(buf[j])
    {
      if len > i {
        buf[off + i] := str[i];
      }
      i := i + 1;
    }
    var at := if len > i then i else len - 1;
    buf[off + at] := NUL;
    SliceAgrees(buf[..], off, str, at);
    n := i;
  }

  // ------------------------------------------------------------ the format

  /**
   * One piece of a format (without its NUL) and what it prints: a plain
   * character prints itself; "%%" prints '%'; "%d" and "%s" print the
   * next argument; any other "%c" prints itself. width is how many format
   * characters the piece takes and used how many arguments.
   */
  datatype Piece = Piece(text: string, directive: bool, width: nat, used: nat)

  /** The first piece is well formed: a '%' has a character after it, and "%d" / "%s" have a matching argument. */
  predicate FirstOk(f: string, args: seq<Arg>)
    requires f != []
  {
    f[0] != '%' ||
    (|f| >= 2 &&
     (f[1] == 'd' ==> |args| >= 1 && args[0].IntArg? && 0 <= args[0].n < 0x8000_0000) &&
     (f[1] == 's' ==> |args| >= 1 && args[0].StrArg? && NUL !in args[0].s))
  }

  function First(f: string, args: seq<Arg>): (p: Piece)
    requires f != [] && FirstOk(f, args)
    ensures 1 <= p.width <= |f| && p.used <= |args|
    ensures p.directive ==> f[0] == '%' && p.width == 2 && p.used == 1
    ensures !p.directive ==> p.used == 0 && 1 <= |p.text| <= p.width
  {
    if f[0] != '%' then Piece([f[0]], false, 1, 0)
    else if f[1] == '%' then Piece("%", false, 2, 0)
    else if f[1] == 'd' then Piece(Decimal.Digits(args[0].n), true, 2, 1)
    else if f[1] == 's' then Piece(args[0].s, true, 2, 1)
    else Piece(f[..2], false, 2, 0)
  }

  /** Every piece of the format is well formed. */
  predicate Wf(f: string, args: seq<Arg>)
    decreases |f|
  {
    f == [] ||
    (FirstOk(f, args) &&
     var p := First(f, args);
     Wf(f[p.width..], args[p.used..]))
  }

  /** The text the format prints with the arguments, in full. */
  function Text(f: string, args: seq<Arg>): string
    requires Wf(f, args)
    decreases |f|
  {
    if f == [] then []
    else
      var p := First(f, args);
      p.text + Text(f[p.width..], args[p.used..])
  }

  /**
   * Every "%d" and "%s" of the format starts before position max of the
   * output, the text so far taking `at` characters: the length max - bpos
   * that c89_fake_snprintf hands to a_int and a_str is then at least 1.
   */
  predicate Fits(f: string, args: seq<Arg>, at: nat, max: nat)
    requires Wf(f, args)
    decreases |f|
  {
    f == [] ||
    var p := First(f, args);
    (p.directive ==> at < max) && Fits(f[p.width..], args[p.used..], at + |p.text|, max)
  }

  /** A text that fits the buffer leaves every directive room: Fits holds whenever at + |Text| < max. */
  lemma {:induction false} ShortTextFits(f: string, args: seq<Arg>, at: nat, max: nat)
    requires Wf(f, args) && at + |Text(f, args)| < max
    ensures Fits(f, args, at, max)
    decreases |f|
  {
    if f != [] {
      var p := First(f, args);
      ShortTextFits(f[p.width..], args[p.used..], at + |p.text|, max);
    }
  }

  /** A format without '%' is well formed with any arguments and prints itself. */
  lemma {:induction false} PlainFormat(f: string, args: seq<Arg>)
    requires '%' !in f
    ensures Wf(f, args) && Text(f, args) == f
    decreases |f|
  {
    if f != [] {
      assert '%' !in f[1..] by {
        forall c | c in f[1..] ensures c != '%' {
          assert c in f;
        }
      }
      PlainFormat(f[1..], args);
    }
  }

  /** The format as the source holds it: its characters, then the NUL, with no NUL before. */
  predicate FmtOk(fmt: string)
  {
    |fmt| >= 1 && fmt[|fmt| - 1] == NUL && NUL !in fmt[..|fmt| - 1]
  }

  function Body(fmt: string): string
    requires FmtOk(fmt)
  {
    fmt[..|fmt| - 1]
  }

  /**
   * What buf shows after the pieces that printed `done`: its first k
   * characters are those of done, then a NUL, with k < max unless k is 0.
   * Either everything is there, or done already reaches max and nothing
   * more will be written.
   */
  ghost predicate Shows(buf: seq<char>, max: nat, done: string, k: nat)
  {
    k <= |done| && k < |buf| && buf[..k] == done[..k] && buf[k] == NUL &&
    (k == 0 || k < max) && (k == |done| || |done| >= max)
  }

  /**
   * c89_fake_snprintf with the three corrections under Findings: a plain
   * character that does not fit still moves on in the format, "%c" for
   * any other c takes two format characters, and "%s" is given the room
   * left, max - bpos, as "%d" is. It returns the length of the full text,
   * and buf holds as much of that text as fits, NUL-terminated: all of it
   * when the text is shorter than buflen - 1. buf[buflen - 1] and beyond are
   * never written (save buf[0] when buflen is 1).
   */
  method FakeSnprintf(buf: array<char>, buflen: nat, fmt: string, args: seq<Arg>) returns (r: nat, ghost k: nat)
    requires 1 <= buflen <= buf.Length && FmtOk(fmt)
    requires Wf(Body(fmt), args) && Fits(Body(fmt), args, 0, buflen - 1)
    modifies buf
    ensures r == |Text(Body(fmt), args)|
    ensures k <= r && k < buflen && buf[..k] == Text(Body(fmt), args)[..k] && buf[k] == NUL
    ensures k == 0 || k < buflen - 1
    ensures r < buflen - 1 ==> k == r
    ensures forall j :: 0 < j < buf.Length && j >= buflen - 1 ==> buf[j] == old(buf[j])
  {
    ghost var f := Body(fmt);
    var max := buflen - 1;
    var fpos: nat, bpos: nat, argi: nat := 0, 0, 0;
    buf[0] := NUL;
    k := 0;
    ghost var done: string := [];
    while fmt[fpos] != NUL
      invariant fpos <= |f| && argi <= |args|
      invariant Account(f, fpos, args, argi, bpos, max, done)
      invariant bpos == |done| && Shows(buf[..], max, done, k)
      invariant forall j :: 0 < j < buf.Length && j >= max ==> buf[j] == old(buf[j])
      decreases |f| - fpos
    {
      assert fpos < |f|;
      Unfold(f[fpos..], args[argi..], bpos, max);
      ghost var piece;
      var fpos2, argi2, bpos2;
      fpos2, argi2, bpos2, piece, k := EmitPiece(buf, max, fmt, fpos, args, argi, bpos, done, k);
      Advance(f, fpos, fpos2, args, argi, argi2, bpos, max, done, piece);
      done := done + piece;
      fpos, argi, bpos := fpos2, argi2, bpos2;
    }
    Finished(f, fpos, args, argi, bpos, max, done);
    r := bpos;
  }

  /** One step through the format: its first piece, then the rest. */
  lemma Unfold(g: string, ga: seq<Arg>, at: nat, max: nat)
    requires g != [] && Wf(g, ga) && Fits(g, ga, at, max)
    ensures FirstOk(g, ga) && (First(g, ga).directive ==> at < max)
  {
  }

  /**
   * The loop's account of the format: what is left from fpos and argi
   * is well formed and leaves its directives room, and done followed by
   * its text is the whole text.
   */
  ghost predicate Account(f: string, fpos: nat, args: seq<Arg>, argi: nat, at: nat, max: nat, done: string)
  {
    fpos <= |f| && argi <= |args| && Wf(f, args) &&
    Wf(f[fpos..], args[argi..]) && Fits(f[fpos..], args[argi..], at, max) &&
    Text(f, args) == done + Text(f[fpos..], args[argi..])
  }

  /** Moving past the first piece of what is left keeps the account. */
  lemma Advance(f: string, fpos: nat, fpos2: nat, args: seq<Arg>, argi: nat, argi2: nat, at: nat, max: nat,
                done: string, piece: string)
    requires fpos < |f| && Account(f, fpos, args, argi, at, max, done) && FirstOk(f[fpos..], args[argi..])
    requires var p := First(f[fpos..], args[argi..]);
      fpos2 == fpos + p.width && argi2 == argi + p.used && piece == p.text
    ensures Account(f, fpos2, args, argi2, at + |piece|, max, done + piece)
  {
    var g, ga := f[fpos..], args[argi..];
    var g2, ga2 := f[fpos2..], args[argi2..];
    Regroup(f, fpos, fpos2, args, argi, argi2);
    StepOn(g, ga, g2, ga2, at, max, piece);
    assert fpos2 <= |f| && argi2 <= |args|;
    assert Wf(g2, ga2) && Fits(g2, ga2, at + |piece|, max);
    assert Text(f, args) == (done + piece) + Text(g2, ga2);
  }

  /** The account at the end of the format: done is the whole text. */
  lemma Finished(f: string, fpos: nat, args: seq<Arg>, argi: nat, at: nat, max: nat, done: string)
    requires fpos == |f| && Account(f, fpos, args, argi, at, max, done)
    ensures Text(f, args) == done
  {
    assert f[fpos..] == [];
  }

  /** Moving fpos and argi on: what is left of the format and the arguments, as slices. */
  lemma Regroup(f: string, fpos: nat, fpos2: nat, args: seq<Arg>, argi: nat, argi2: nat)
    requires fpos <= fpos2 <= |f| && argi <= argi2 <= |args|
    ensures f[fpos..][fpos2 - fpos..] == f[fpos2..]
    ensures args[argi..][argi2 - argi..] == args[argi2..]
  {
  }

  /** The first piece of g and ga, then the rest g2 and ga2. */
  lemma StepOn(g: string, ga: seq<Arg>, g2: string, ga2: seq<Arg>, at: nat, max: nat, piece: string)
    requires g != [] && Wf(g, ga) && Fits(g, ga, at, max) && FirstOk(g, ga)
    requires var p := First(g, ga); g2 == g[p.width..] && ga2 == ga[p.used..] && piece == p.text
    ensures Wf(g2, ga2) && Fits(g2, ga2, at + |piece|, max)
    ensures Text(g, ga) == piece + Text(g2, ga2)
  {
  }

  /**
   * One pass of c89_fake_snprintf's loop (corrected): the piece at fpos
   * is printed at bpos as far as it fits, and fpos, the argument index and
   * bpos move past it.
   */
  method EmitPiece(buf: array<char>, max: nat, fmt: string, fpos: nat, args: seq<Arg>, argi: nat, bpos: nat,
                   ghost done: string, ghost k: nat)
    returns (fpos2: nat, argi2: nat, bpos2: nat, ghost piece: string, ghost k2: nat)
    requires max < buf.Length && FmtOk(fmt) && fpos < |Body(fmt)| && argi <= |args|
    requires FirstOk(Body(fmt)[fpos..], args[argi..])
    requires First(Body(fmt)[fpos..], args[argi..]).directive ==> bpos < max
    requires bpos == |done| && Shows(buf[..], max, done, k)
    modifies buf
    ensures var p := First(Body(fmt)[fpos..], args[argi..]);
      fpos2 == fpos + p.width && argi2 == argi + p.used && piece == p.text
    ensures fpos < fpos2 <= |Body(fmt)| && argi2 <= |args|
    ensures bpos2 == bpos + |piece| && Shows(buf[..], max, done + piece, k2)
    ensures forall j :: 0 < j < buf.Length && j >= max ==> buf[j] == old(buf[j])
  {
    ghost var f := Body(fmt);
    assert f[fpos..][0] == fmt[fpos];
    if fmt[fpos] == '%' {
      assert f[fpos..][1] == fmt[fpos + 1];
      var c := fmt[fpos + 1];
      if c == '%' {
        k2 := EmitChars(buf, max, bpos, "%", done, k);
        bpos2, argi2, piece := bpos + 1, argi, "%";
      } else if c == 'd' || c == 's' {
        bpos2, piece, k2 := EmitArg(buf, max, bpos, c, args[argi], done, k);
        argi2 := argi + 1;
      } else {
        var two := fmt[fpos..fpos + 2];
        assert two == f[fpos..][..2];
        k2 := EmitChars(buf, max, bpos, two, done, k);
        piece := two;
        bpos2, argi2 := bpos + 2, argi;
      }
      fpos2 := fpos + 2;
    } else {
      var one := [fmt[fpos]];
      k2 := EmitChars(buf, max, bpos, one, done, k);
      piece := one;
      fpos2, argi2, bpos2 := fpos + 1, argi, bpos + 1;
    }
  }

  /**
   * A plain character, "%%" or an unknown "%c": its one or two characters
   * are written at bpos, then the NUL, when bpos + |piece| < max, and
   * nothing is written otherwise.
   */
  method EmitChars(buf: array<char>, max: nat, bpos: nat, piece: string, ghost done: string, ghost k: nat)
    returns (ghost k2: nat)
    requires 1 <= |piece| <= 2 && max < buf.Length
    requires bpos == |done| && Shows(buf[..], max, done, k)
    modifies buf
    ensures Shows(buf[..], max, done + piece, k2)
    ensures forall j :: 0 < j < buf.Length && j >= max ==> buf[j] == old(buf[j])
  {
    k2 := k;
    if bpos + |piece| < max {
      buf[bpos] := piece[0];
      if |piece| == 2 {
        buf[bpos + 1] := piece[1];
      }
      buf[bpos + |piece|] := NUL;
      k2 := bpos + |piece|;
      assert buf[..k2] == done + piece;
    }
  }

  /**
   * The "%d" and "%s" cases: a_int or a_str writes the argument's text at
   * bpos with room max - bpos (the corrected "%s" call), and bpos moves on
   * by the full length of that text.
   */
  method EmitArg(buf: array<char>, max: nat, bpos: nat, c: char, a: Arg, ghost done: string, ghost k: nat)
    returns (bpos2: nat, ghost piece: string, ghost k2: nat)
    requires max < buf.Length && bpos == |done| < max && Shows(buf[..], max, done, k)
    requires c == 'd' ==> a.IntArg? && 0 <= a.n < 0x8000_0000
    requires c == 's' ==> a.StrArg? && NUL !in a.s
    requires c == 'd' || c == 's'
    modifies buf
    ensures piece == (if c == 'd' then Decimal.Digits(a.n) else a.s)
    ensures bpos2 == bpos + |piece| && Shows(buf[..], max, done + piece, k2)
    ensures forall j :: 0 < j < buf.Length && j >= max ==> buf[j] == old(buf[j])
  {
    var n;
    if c == 'd' {
      n := AInt(buf, bpos, max - bpos, a.n);
      piece := Decimal.Digits(a.n);
    } else {
      n := AStr(buf, bpos, max - bpos, a.s);
      piece := a.s;
    }
    k2 := ArgShows(buf[..], old(buf[..]), max, bpos, done, k, piece);
    bpos2 := bpos + n;
  }

  /**
   * After a_int or a_str wrote text at bpos < max with room max - bpos,
   * buf shows done + text.
   */
  lemma ArgShows(buf: seq<char>, before: seq<char>, max: nat, bpos: nat, done: string, k: nat, text: string)
    returns (k2: nat)
    requires max < |before| == |buf| && bpos == |done| < max && Shows(before, max, done, k)
    requires Truncated(buf, bpos, max - bpos, text)
    requires forall j :: 0 <= j < bpos ==> buf[j] == before[j]
    ensures k2 == bpos + Min(|text|, max - bpos - 1) && Shows(buf, max, done + text, k2)
  {
    k2 := bpos + Min(|text|, max - bpos - 1);
    assert buf[..bpos] == before[..bpos];
    assert buf[..k2] == buf[..bpos] + buf[bpos..k2];
  }

  // ----------------------------------------------------------------- main

  /** BUF_LEN */
  const BufLen: nat := 80

  /** The text main's call prints: "%d%% %s!" with 100 and "awesome". */
  lemma DemoText()
    ensures Wf("%d%% %s!", [IntArg(100), StrArg("awesome")])
    ensures Text("%d%% %s!", [IntArg(100), StrArg("awesome")]) == "100% awesome!"
  {
    var s: seq<Arg> := [StrArg("awesome")];
    DemoPieces();
    DigitsOf100();
    PlainFormat("!", []);
    TextStr("awesome", "!", []);
    TextPlain(' ', "%s!", s);
    TextPercent(" %s!", s);
    TextInt(100, "%% %s!", s);
  }

  /** How main's format and its output break into pieces. */
  lemma DemoPieces()
    ensures "%s" + "!" == "%s!" && [StrArg("awesome")] + [] == [StrArg("awesome")]
    ensures [' '] + "%s!" == " %s!" && "%%" + " %s!" == "%% %s!" && "%d" + "%% %s!" == "%d%% %s!"
    ensures [IntArg(100)] + [StrArg("awesome")] == [IntArg(100), StrArg("awesome")]
    ensures "100" + ("%" + ([' '] + ("awesome" + "!"))) == "100% awesome!"
  {
  }

  lemma DigitsOf100()
    ensures Decimal.Digits(100) == "100"
  {
    assert Decimal.Digits(10) == "10";
  }

  /** A plain character prints itself. */
  lemma TextPlain(c: char, g: string, ga: seq<Arg>)
    requires c != '%' && Wf(g, ga)
    ensures Wf([c] + g, ga) && Text([c] + g, ga) == [c] + Text(g, ga)
  {
    assert ([c] + g)[1..] == g;
  }

  /** "%%" prints one '%'. */
  lemma TextPercent(g: string, ga: seq<Arg>)
    requires Wf(g, ga)
    ensures Wf("%%" + g, ga) && Text("%%" + g, ga) == "%" + Text(g, ga)
  {
    assert ("%%" + g)[2..] == g;
  }

  /** "%d" prints the decimal digits of its argument. */
  lemma TextInt(n: int, g: string, ga: seq<Arg>)
    requires 0 <= n < 0x8000_0000 && Wf(g, ga)
    ensures Wf("%d" + g, [IntArg(n)] + ga) && Text("%d" + g, [IntArg(n)] + ga) == Decimal.Digits(n) + Text(g, ga)
  {
    assert ("%d" + g)[2..] == g && ([IntArg(n)] + ga)[1..] == ga;
  }

  /** "%s" prints its argument. */
  lemma TextStr(str: string, g: string, ga: seq<Arg>)
    requires NUL !in str && Wf(g, ga)
    ensures Wf("%s" + g, [StrArg(str)] + ga) && Text("%s" + g, [StrArg(str)] + ga) == str + Text(g, ga)
  {
    assert ("%s" + g)[2..] == g && ([StrArg(str)] + ga)[1..] == ga;
  }

  /**
   * main with its default arguments: c89_fake_snprintf(buf, BUF_LEN,
   * "%d%% %s!", 100, "awesome") returns 13 and leaves "100% awesome!" in
   * buf, NUL-terminated.
   */
  method Demo(buf: array<char>) returns (r: nat)
    requires buf.Length >= BufLen
    modifies buf
    ensures r == 13 && buf[..13] == "100% awesome!" && buf[13] == NUL
  {
    var args := [IntArg(100), StrArg("awesome")];
    var fmt := "%d%% %s!" + [NUL];
    assert Body(fmt) == "%d%% %s!";
    DemoText();
    ShortTextFits("%d%% %s!", args, 0, BufLen - 1);
    ghost var k;
    r, k := FakeSnprintf(buf, BufLen, fmt, args);
  }

  // ------------------------------------------------------ the code as written

  /**
   * The plain-character branch of c89_fake_snprintf's loop as written, on
   * (fpos, bpos): when the character fits both move on, and when it does
   * not only bpos does.
   */
  function PlainStepAsWritten(fpos: nat, bpos: nat, max: nat): (nat, nat)
  {
    if bpos + 1 < max then (fpos + 1, bpos + 1) else (fpos, bpos + 1)
  }

  /** n passes of that branch. */
  function PlainStepsAsWritten(n: nat, fpos: nat, bpos: nat, max: nat): (nat, nat)
  {
    if n == 0 then (fpos, bpos)
    else
      var (f2, b2) := PlainStepAsWritten(fpos, bpos, max);
      PlainStepsAsWritten(n - 1, f2, b2, max)
  }

  /**
   * Once a plain character does not fit, fpos stays where it is for
   * every number of passes: the loop reads the same non-NUL character
   * again and again and never reaches the format's NUL.
   */
  lemma {:induction false} PlainStepsStuck(n: nat, fpos: nat, bpos: nat, max: nat)
    requires bpos + 1 >= max
    ensures PlainStepsAsWritten(n, fpos, bpos, max) == (fpos, bpos + n)
  {
    if n > 0 {
      PlainStepsStuck(n - 1, fpos, bpos + 1, max);
    }
  }

  /** With buflen 2 (max 1) the format "ab" never gets past its 'a'. */
  lemma TwoCharsStuck(n: nat)
    ensures PlainStepsAsWritten(n, 0, 0, 1).0 == 0
  {
    PlainStepsStuck(n, 0, 0, 1);
  }

  /**
   * The default case of the switch as written, on (fpos, bpos): when the
   * two characters fit, the copy moves fpos on by 2 and the `fpos += 2`
   * after the switch by 2 more; otherwise only by 2.
   */
  function OtherStepAsWritten(fpos: nat, bpos: nat, max: nat): (nat, nat)
  {
    if bpos + 2 < max then (fpos + 4, bpos + 2) else (fpos + 2, bpos + 2)
  }

  /**
   * "%qab" with buflen 80: the step over "%q" lands on the NUL, so "ab" is
   * never printed, where the full text is "%qab"; and for "%q" alone it
   * lands two places past the NUL at index 2.
   */
  lemma OtherSkipsTwo()
    ensures OtherStepAsWritten(0, 0, BufLen - 1).0 == 4 && ("%qab" + [NUL])[4] == NUL
    ensures Wf("%qab", []) && Text("%qab", []) == "%qab"
    ensures OtherStepAsWritten(0, 0, BufLen - 1).0 > |"%q" + [NUL]| - 1
  {
    var f := "%qab";
    assert f[2..] == "ab" && f[2..][1..] == "b" && f[2..][1..][1..] == [];
  }

  /**
   * The last index "%s" writes as written, a_str being given max instead
   * of max - bpos: bpos + strlen(s) when strlen(s) < max, and
   * bpos + max - 1 otherwise.
   */
  function StrEndAsWritten(bpos: nat, max: nat, s: string): nat
    requires max >= 1
  {
    bpos + if |s| < max then |s| else max - 1
  }

  /**
   * A string of max - 1 or more characters at bpos >= 2 runs past the
   * buffer's buflen = max + 1 slots; e.g. buflen 4, "ab%s" with "xyz"
   * writes buf[4].
   */
  lemma StrOverruns(bpos: nat, max: nat, s: string)
    requires max >= 1 && bpos >= 2 && |s| >= max - 1
    ensures StrEndAsWritten(bpos, max, s) >= max + 1
    ensures StrEndAsWritten(2, 3, "xyz") == 4
  {
  }
}
