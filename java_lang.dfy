/**
 * The few pieces of the Java standard library that the modelled classes
 * lean on: 64-bit `long` values, `String.startsWith`, `String.split` with a
 * one-character separator, and the decimal text form of `long`
 * (`Long.toString` and `Long.valueOf`).
 */
module JavaLang {
  import opened Wrappers

  const MinLong: int := -0x8000_0000_0000_0000
  const MaxLong: int := 0x7FFF_FFFF_FFFF_FFFF

  /** Java's `long`. */
  type Long = x: int | MinLong <= x <= MaxLong

  /** Java's `int`. */
  type Int32 = x: int | -0x8000_0000 <= x < 0x8000_0000

  /** `x + 1` on a Java `long`: Long.MAX_VALUE wraps round to Long.MIN_VALUE. */
  function IncrementLong(x: Long): (r: Long)
    ensures x < MaxLong ==> r == x + 1
    ensures x == MaxLong ==> r == MinLong
  {
    if x == MaxLong then MinLong else x + 1
  }

  predicate StartsWith(s: string, prefix: string)
  {
    |prefix| <= |s| && s[..|prefix|] == prefix
  }

  // ---------------------------------------------------------------------
  // String.split on a single (non-regex-special or escaped) character
  // ---------------------------------------------------------------------

  /** All pieces of `s` between occurrences of `sep`, empty pieces included. */
  function SplitAll(s: string, sep: char): (parts: seq<string>)
    ensures |parts| >= 1
    decreases |s|
  {
    if |s| == 0 then [""]
    else
      var init := SplitAll(s[..|s| - 1], sep);
      if s[|s| - 1] == sep then init + [""]
      else init[..|init| - 1] + [init[|init| - 1] + [s[|s| - 1]]]
  }

  function StripTrailingEmpty(parts: seq<string>): (r: seq<string>)
    ensures |r| <= |parts| && r == parts[..|r|]
    ensures |r| > 0 ==> r[|r| - 1] != ""
  {
    if |parts| > 0 && parts[|parts| - 1] == "" then StripTrailingEmpty(parts[..|parts| - 1])
    else parts
  }

  /**
   * `s.split(sep)` with Java's default limit 0: a string without the
   * separator is returned whole (so "" gives [""]); otherwise the pieces,
   * with every trailing empty piece removed.
   */
  function Split(s: string, sep: char): seq<string>
  {
    if sep !in s then [s] else StripTrailingEmpty(SplitAll(s, sep))
  }

  /** The pieces written one after another with `sep` between neighbours. */
  function Join(parts: seq<string>, sep: char): string
  {
    if |parts| == 0 then ""
    else if |parts| == 1 then parts[0]
    else Join(parts[..|parts| - 1], sep) + [sep] + parts[|parts| - 1]
  }

  /** A regrouping of concatenations, kept as a lemma of its own so that callers need not re-derive it inline (a proof-performance aid). */
  lemma AppendPair(before: string, id: string, num: string)
    ensures before + id + ":" + num == before + (id + ":" + num)
  {
  }

  /** A regrouping of concatenations, kept as a lemma of its own so that callers need not re-derive it inline (a proof-performance aid). */
  lemma AppendNothing(s: string)
    ensures s + "" == s
  {
  }

  /** One more piece: written after a separator, unless it is the first. */
  lemma JoinSnoc(parts: seq<string>, part: string, sep: char)
    ensures Join(parts + [part], sep) == if parts == [] then part else Join(parts, sep) + [sep] + part
  {
    assert (parts + [part])[..|parts|] == parts;
  }

  lemma {:induction false} SplitAllWithout(p: string, sep: char)
    requires sep !in p
    ensures SplitAll(p, sep) == [p]
    decreases |p|
  {
    if |p| > 0 {
      var init := p[..|p| - 1];
      assert sep !in init by {
        forall i | 0 <= i < |init| ensures init[i] != sep { assert init[i] == p[i]; }
      }
      SplitAllWithout(init, sep);
      assert init + [p[|p| - 1]] == p;
    }
  }

  /** One step of `SplitAll`, stated for a string with one more character. */
  lemma SplitAllSnoc(s: string, c: char, sep: char)
    ensures var init := SplitAll(s, sep);
            SplitAll(s + [c], sep) ==
              if c == sep then init + [""]
              else init[..|init| - 1] + [init[|init| - 1] + [c]]
  {
    assert (s + [c])[..|s|] == s;
  }

  lemma {:induction false} SplitAllAround(a: string, b: string, sep: char)
    ensures SplitAll(a + [sep] + b, sep) == SplitAll(a, sep) + SplitAll(b, sep)
    decreases |b|
  {
    if |b| == 0 {
      assert a + [sep] + b == a + [sep];
      SplitAllSnoc(a, sep, sep);
    } else {
      var b' := b[..|b| - 1];
      assert b == b' + [b[|b| - 1]];
      SplitAllAround(a, b', sep);
      SplitAllAroundStep(a, b', b[|b| - 1], sep);
    }
  }

  lemma SplitAllAroundStep(a: string, b: string, c: char, sep: char)
    requires SplitAll(a + [sep] + b, sep) == SplitAll(a, sep) + SplitAll(b, sep)
    ensures SplitAll(a + [sep] + (b + [c]), sep) == SplitAll(a, sep) + SplitAll(b + [c], sep)
  {
    var s := a + [sep] + b;
    assert a + [sep] + (b + [c]) == s + [c];
    if c == sep {
      SplitAllAroundSep(a, s, b, sep);
    } else {
      SplitAllAroundOther(a, s, b, c, sep);
    }
  }

  lemma SplitAllAroundSep(a: string, s: string, b: string, sep: char)
    requires SplitAll(s, sep) == SplitAll(a, sep) + SplitAll(b, sep)
    ensures SplitAll(s + [sep], sep) == SplitAll(a, sep) + SplitAll(b + [sep], sep)
  {
    var left := SplitAll(a, sep);
    var right := SplitAll(b, sep);
    SplitAllSnoc(s, sep, sep);
    SplitAllSnoc(b, sep, sep);
    assert (left + right) + [""] == left + (right + [""]);
  }

  lemma SplitAllAroundOther(a: string, s: string, b: string, c: char, sep: char)
    requires c != sep
    requires SplitAll(s, sep) == SplitAll(a, sep) + SplitAll(b, sep)
    ensures SplitAll(s + [c], sep) == SplitAll(a, sep) + SplitAll(b + [c], sep)
  {
    var left := SplitAll(a, sep);
    var right := SplitAll(b, sep);
    var joined := SplitAll(s, sep);
    var front := right[..|right| - 1];
    var tail := right[|right| - 1] + [c];
    assert joined[..|joined| - 1] == left + front && joined[|joined| - 1] + [c] == tail by {
      DropLastOfConcat(left, right);
    }
    assert SplitAll(s + [c], sep) == (left + front) + [tail] by {
      SplitAllSnoc(s, c, sep);
    }
    assert SplitAll(b + [c], sep) == front + [tail] by {
      SplitAllSnoc(b, c, sep);
    }
    assert (left + front) + [tail] == left + (front + [tail]);
  }

  lemma DropLastOfConcat<T>(l: seq<T>, r: seq<T>)
    requires |r| >= 1
    ensures (l + r)[..|l + r| - 1] == l + r[..|r| - 1]
    ensures (l + r)[|l + r| - 1] == r[|r| - 1]
  {
  }

  lemma {:induction false} SplitAllJoin(parts: seq<string>, sep: char)
    requires |parts| >= 1
    requires forall i :: 0 <= i < |parts| ==> sep !in parts[i]
    ensures SplitAll(Join(parts, sep), sep) == parts
    decreases |parts|
  {
    var last := parts[|parts| - 1];
    SplitAllWithout(last, sep);
    if |parts| > 1 {
      var init := parts[..|parts| - 1];
      SplitAllJoin(init, sep);
      SplitAllAround(Join(init, sep), last, sep);
      assert init + [last] == parts;
    }
  }

  lemma {:induction false} SepInJoin(parts: seq<string>, sep: char)
    requires |parts| >= 2
    ensures sep in Join(parts, sep)
  {
    var j := Join(parts[..|parts| - 1], sep);
    assert Join(parts, sep)[|j|] == sep;
  }

  /**
   * Splitting text built by `Join` gives back the pieces, provided no piece
   * holds the separator and the last piece is not empty (Java would drop it).
   */
  lemma SplitJoin(parts: seq<string>, sep: char)
    requires |parts| >= 1 && parts[|parts| - 1] != ""
    requires forall i :: 0 <= i < |parts| ==> sep !in parts[i]
    ensures Split(Join(parts, sep), sep) == parts
  {
    if sep in Join(parts, sep) {
      SplitAllJoin(parts, sep);
    } else if |parts| >= 2 {
      SepInJoin(parts, sep);
    }
  }

  /** Every piece `SplitAll` yields is free of the separator and made of characters of `s`. */
  lemma {:induction false} SplitAllPieces(s: string, sep: char)
    ensures forall i :: 0 <= i < |SplitAll(s, sep)| ==>
              sep !in SplitAll(s, sep)[i] && forall ch :: ch in SplitAll(s, sep)[i] ==> ch in s
    decreases |s|
  {
    if |s| > 0 {
      var init := s[..|s| - 1];
      SplitAllPieces(init, sep);
      assert forall ch :: ch in init ==> ch in s;
    }
  }

  /** `split` yields pieces free of the separator, made of characters of the input. */
  lemma SplitPieces(s: string, sep: char)
    ensures forall i :: 0 <= i < |Split(s, sep)| ==>
              sep !in Split(s, sep)[i] && forall ch :: ch in Split(s, sep)[i] ==> ch in s
  {
    if sep in s {
      SplitAllPieces(s, sep);
    }
  }

  // ---------------------------------------------------------------------
  // Decimal text of a long
  // ---------------------------------------------------------------------

  predicate IsDigit(c: char)
  {
    '0' <= c <= '9'
  }

  predicate AllDigits(s: string)
  {
    forall i :: 0 <= i < |s| ==> IsDigit(s[i])
  }

  function DigitChar(d: nat): (c: char)
    requires d < 10
    ensures IsDigit(c)
  {
    (d + '0' as int) as char
  }

  function DigitValue(c: char): (d: nat)
    requires IsDigit(c)
    ensures d < 10
  {
    c as int - '0' as int
  }

  /** The decimal digits of `n`, most significant first, without leading zeros. */
  function NatToDecimal(n: nat): (s: string)
    ensures |s| >= 1 && AllDigits(s)
  {
    if n < 10 then [DigitChar(n)] else NatToDecimal(n / 10) + [DigitChar(n % 10)]
  }

  /** The number a string of decimal digits denotes. */
  function DigitsValue(s: string): nat
    requires AllDigits(s)
  {
    if |s| == 0 then 0 else DigitsValue(s[..|s| - 1]) * 10 + DigitValue(s[|s| - 1])
  }

  lemma {:induction false} DigitsValueOfDecimal(n: nat)
    ensures DigitsValue(NatToDecimal(n)) == n
  {
    var s := NatToDecimal(n);
    if n < 10 {
      assert s[..0] == [];
    } else {
      DigitsValueOfDecimal(n / 10);
      assert s[..|s| - 1] == NatToDecimal(n / 10);
    }
  }

  /** Decimal text of an integer: a minus sign for negative values, then the digits. */
  function IntToString(n: int): (s: string)
    ensures |s| >= 1 && '.' !in s && ':' !in s && '/' !in s
    ensures AllDigits(s[1..]) && (IsDigit(s[0]) || s[0] == '-')
  {
    if n < 0 then "-" + NatToDecimal(-n) else NatToDecimal(n)
  }

  /** `Long.toString(v)`. */
  function LongToString(v: Long): string
  {
    IntToString(v)
  }

  /**
   * `Long.valueOf(s)` / `Long.parseLong(s)`: an optional `+` or `-`, then at
   * least one decimal digit, and a value inside the `long` range; anything
   * else is a NumberFormatException (None).
   */
  function ParseLong(s: string): (r: Option<Long>)
    ensures r.Some? ==> |s| >= 1
  {
    if |s| == 0 then None
    else
      var digits := if s[0] == '-' || s[0] == '+' then s[1..] else s;
      if |digits| == 0 || !AllDigits(digits) then None
      else
        var magnitude := DigitsValue(digits);
        var v: int := if s[0] == '-' then -(magnitude as int) else magnitude;
        if MinLong <= v <= MaxLong then Some(v) else None
  }

  /** What `Long.toString` writes, `Long.valueOf` reads back. */
  lemma ParseLongToString(v: Long)
    ensures ParseLong(LongToString(v)) == Some(v)
  {
    if v < 0 {
      DigitsValueOfDecimal(-(v as int));
      assert LongToString(v)[1..] == NatToDecimal(-(v as int));
    } else {
      DigitsValueOfDecimal(v);
    }
  }

  // -----------------------------------------------------------------------
  // Bits of two's-complement integers
  // -----------------------------------------------------------------------

  function Pow2(n: nat): (p: int)
    ensures p > 0
  {
    if n == 0 then 1 else 2 * Pow2(n - 1)
  }

  /**
   * Bit `i` of `x` written in two's complement: `(x >> i) & 1` in Java, for
   * any `i` below the width of `x`'s type.
   */
  function Bit(x: int, i: nat): int
  {
    (x / Pow2(i)) % 2
  }

  /** Bitwise exclusive-or of two naturals, one binary digit at a time. */
  function Xor(a: nat, b: nat): nat
    decreases a + b
  {
    if a == 0 then b
    else if b == 0 then a
    else 2 * Xor(a / 2, b / 2) + (if a % 2 == b % 2 then 0 else 1)
  }

  /** Each bit of `Xor(a, b)` is 1 exactly when the bits of `a` and `b` differ. */
  lemma {:induction false} XorBit(a: nat, b: nat, i: nat)
    ensures Bit(Xor(a, b), i) == (if Bit(a, i) == Bit(b, i) then 0 else 1)
    decreases a + b
  {
    if a == 0 || b == 0 {
      BitOfZero(i);
    } else {
      var rest := Xor(a / 2, b / 2);
      var r := 2 * rest + (if a % 2 == b % 2 then 0 else 1);
      assert Xor(a, b) == r;
      if i > 0 {
        XorBit(a / 2, b / 2, i - 1);
        BitOfHalf(r, i);
        BitOfHalf(a, i);
        BitOfHalf(b, i);
        assert r / 2 == rest;
      }
    }
  }

  /** Exclusive-or of two n-bit naturals is an n-bit natural. */
  lemma {:induction false} XorBound(a: nat, b: nat, n: nat)
    requires a < Pow2(n) && b < Pow2(n)
    ensures Xor(a, b) < Pow2(n)
    decreases a + b
  {
    if a != 0 && b != 0 {
      XorBound(a / 2, b / 2, n - 1);
    }
  }

  lemma BitOfZero(i: nat)
    ensures Bit(0, i) == 0
  {
  }

  /** Bit `i` of `x` is bit `i - 1` of `x / 2`. */
  lemma BitOfHalf(x: int, i: nat)
    requires i > 0
    ensures Bit(x, i) == Bit(x / 2, i - 1)
  {
    DivDiv(x, 2, Pow2(i - 1));
  }

  /** Bit `i` of `x >> n` is bit `i + n` of `x`. */
  lemma BitOfShift(x: int, n: nat, i: nat)
    ensures Bit(x / Pow2(n), i) == Bit(x, i + n)
  {
    Pow2Add(n, i);
    DivDiv(x, Pow2(n), Pow2(i));
  }

  /** Adding a multiple of 2^n leaves the bits below n unchanged. */
  lemma BitAddMultiple(x: int, k: int, n: nat, i: nat)
    requires i < n
    ensures Bit(x + k * Pow2(n), i) == Bit(x, i)
  {
    var p, t := Pow2(i), Pow2(n - i - 1);
    var m := k * t;
    assert Pow2(n) == p * (2 * t) by {
      Pow2Add(i, n - i);
    }
    assert k * Pow2(n) == (2 * m) * p by {
      MulRegroup(k, p, t);
    }
    DivMulAdd(x, 2 * m, p);
    ParityOfEvenShift(x / p, m);
  }

  lemma MulRegroup(k: int, p: int, t: int)
    ensures k * (p * (2 * t)) == (2 * (k * t)) * p
  {
  }

  lemma ParityOfEvenShift(y: int, m: int)
    ensures (y + 2 * m) % 2 == y % 2
  {
  }

  lemma {:induction false} Pow2Add(a: nat, b: nat)
    ensures Pow2(a + b) == Pow2(a) * Pow2(b)
  {
    if a > 0 {
      Pow2Add(a - 1, b);
    }
  }

  /** 2^32, the modulus of Java `int`. */
  lemma Pow2Of32()
    ensures Pow2(32) == 0x1_0000_0000
  {
    var p16 := Pow2(16);
    assert p16 == 0x1_0000 by {
      var p8 := Pow2(8);
      assert p8 == 256 by {
        var p4 := Pow2(4);
        assert p4 == 16 by {
          assert Pow2(2) == 4;
          Pow2Add(2, 2);
        }
        Pow2Add(4, 4);
      }
      Pow2Add(8, 8);
    }
    Pow2Add(16, 16);
  }

  /** 2^64, the modulus of Java `long`. */
  lemma Pow2Of64()
    ensures Pow2(64) == 0x1_0000_0000_0000_0000
  {
    Pow2Of32();
    Pow2Add(32, 32);
  }

  lemma DivModUnique(x: int, d: int, q: int, r: int)
    requires d > 0 && x == d * q + r && 0 <= r < d
    ensures x / d == q && x % d == r
  {
    var q0, r0 := x / d, x % d;
    var e := q - q0;
    assert d * e == r0 - r by {
      MulSub(d, q, q0);
    }
    MulSign(d, e);
  }

  lemma MulSub(d: int, a: int, b: int)
    ensures d * (a - b) == d * a - d * b
  {
  }

  /** A positive factor keeps the other factor's side of zero, at least as far as itself. */
  lemma MulSign(d: int, e: int)
    requires d > 0
    ensures e >= 1 ==> d * e >= d
    ensures e <= -1 ==> d * e <= -d
    ensures e >= 0 ==> d * e >= 0
  {
  }

  lemma DivMulAdd(x: int, m: int, d: int)
    requires d > 0
    ensures (x + m * d) / d == x / d + m
  {
    DivModUnique(x + m * d, d, x / d + m, x % d);
  }

  lemma DivDiv(x: int, p: int, q: int)
    requires p > 0 && q > 0
    ensures x / (p * q) == (x / p) / q
  {
    var a, r1 := x / p, x % p;
    var b, r2 := a / q, a % q;
    var r := p * r2 + r1;
    assert 0 <= p * r2 <= p * q - p by {
      MulBelow(p, r2, q);
    }
    assert x == (p * q) * b + r by {
      MulDistributes(p, q, b, r2);
    }
    DivModUnique(x, p * q, b, r);
  }

  lemma MulBelow(p: int, r: int, q: int)
    requires p > 0 && 0 <= r < q
    ensures 0 <= p * r <= p * q - p
  {
    MulSub(p, q, r);
    MulSign(p, q - r);
    MulSign(p, r);
  }

  lemma MulDistributes(p: int, q: int, b: int, r: int)
    ensures p * (q * b + r) == (p * q) * b + p * r
  {
  }
}
