/**
  Binary numbers and the 64-bit unsigned words of the signal decoder.

  A bit sequence is least significant bit first. A word is an integer below 2^64. The
  operators act on its 64 binary digits; that the shifts are the multiplication and division
  by powers of two that C++ defines them as is proved (ShlIsProduct, ShrIsQuotient).
*/
module BitWords {
  import opened IntegerFacts

  function Pow2(n: nat): (p: nat)
    ensures 0 < p
  {
    if n == 0 then 1 else 2 * Pow2(n - 1)
  }

  /** The number a bit sequence denotes. */
  function Number(bits: seq<bool>): nat {
    if bits == [] then 0 else (if bits[0] then 1 else 0) + 2 * Number(bits[1..])
  }

  /** The `n` low binary digits of `u`. */
  function Digits(u: nat, n: nat): (bits: seq<bool>)
    ensures |bits| == n
  {
    if n == 0 then [] else [u % 2 == 1] + Digits(u / 2, n - 1)
  }

  lemma {:induction false} NumberBound(bits: seq<bool>)
    ensures Number(bits) < Pow2(|bits|)
  {
    if bits != [] {
      NumberBound(bits[1..]);
    }
  }

  lemma {:induction false} NumberOfDigits(u: nat, n: nat)
    requires u < Pow2(n)
    ensures Number(Digits(u, n)) == u
  {
    if n > 0 {
      NumberOfDigits(u / 2, n - 1);
    }
  }

  lemma {:induction false} DigitsOfNumber(bits: seq<bool>)
    ensures Digits(Number(bits), |bits|) == bits
  {
    if bits != [] {
      DigitsOfNumber(bits[1..]);
      assert Number(bits) / 2 == Number(bits[1..]);
    }
  }

  lemma DoubleProduct(p: int, q: int)
    ensures 2 * p * q == 2 * (p * q)
  {}

  lemma {:induction false} NumberAppend(a: seq<bool>, b: seq<bool>)
    ensures Number(a + b) == Number(a) + Pow2(|a|) * Number(b)
  {
    if a == [] {
      assert a + b == b;
    } else {
      assert (a + b)[1..] == a[1..] + b;
      NumberAppend(a[1..], b);
      DoubleProduct(Pow2(|a| - 1), Number(b));
    }
  }

  lemma {:induction false} NumberConstant(bits: seq<bool>, bit: bool)
    requires forall i :: 0 <= i < |bits| ==> bits[i] == bit
    ensures Number(bits) == if bit then Pow2(|bits|) - 1 else 0
  {
    if bits != [] {
      NumberConstant(bits[1..], bit);
    }
  }

  lemma {:induction false} Pow2Add(a: nat, b: nat)
    ensures Pow2(a + b) == Pow2(a) * Pow2(b)
  {
    if a > 0 {
      Pow2Add(a - 1, b);
      DoubleProduct(Pow2(a - 1), Pow2(b));
    }
  }

  /** The top bit of a sequence decides which half of the range its number is in. */
  lemma TopBit(bits: seq<bool>)
    requires bits != []
    ensures bits[|bits| - 1] <==> Pow2(|bits| - 1) <= Number(bits)
    ensures Pow2(|bits|) == 2 * Pow2(|bits| - 1)
  {
    var low, top := bits[..|bits| - 1], bits[|bits| - 1..];
    assert bits == low + top;
    NumberAppend(low, top);
    NumberBound(low);
    assert Number(top) == if top[0] then 1 else 0;
  }

  lemma NumberSplit(bits: seq<bool>, k: nat)
    requires k <= |bits|
    ensures Number(bits[k..]) == Number(bits) / Pow2(k)
    ensures Number(bits[..k]) == Number(bits) % Pow2(k)
  {
    var low, high := bits[..k], bits[k..];
    assert bits == low + high;
    NumberAppend(low, high);
    NumberBound(low);
    QuotientRemainder(Number(bits), Number(low), Number(high), Pow2(k));
  }

  /** Dropping bits from below is division; keeping bits from below is remainder. */
  lemma NumberSlice(bits: seq<bool>, start: nat, len: nat)
    requires start + len <= |bits|
    ensures Number(bits[start..start + len]) == Number(bits) / Pow2(start) % Pow2(len)
  {
    NumberSplit(bits, start);
    NumberSplit(bits[start..], len);
    assert bits[start..][..len] == bits[start..start + len];
  }

  // ---------- words ----------

  type Word = u: int | 0 <= u < 0x1_0000_0000_0000_0000

  lemma Pow2Eight()
    ensures Pow2(8) == 0x100
  {}

  lemma Pow2Half()
    ensures Pow2(32) == 0x1_0000_0000
  {
    Pow2Eight();
    Pow2Add(8, 8);
    Pow2Add(16, 16);
  }

  lemma Pow2Word()
    ensures Pow2(64) == 0x1_0000_0000_0000_0000 == 2 * Pow2(63)
  {
    Pow2Half();
    Pow2Add(32, 32);
  }

  function Bits(w: Word): (bits: seq<bool>)
    ensures |bits| == 64
  {
    Digits(w, 64)
  }

  function FromBits(bits: seq<bool>): (w: Word)
    requires |bits| == 64
    ensures Bits(w) == bits && w == Number(bits)
  {
    NumberBound(bits);
    Pow2Word();
    DigitsOfNumber(bits);
    Number(bits)
  }

  function Or(v: Word, w: Word): (r: Word)
    ensures forall i :: 0 <= i < 64 ==> Bits(r)[i] == (Bits(v)[i] || Bits(w)[i])
  {
    FromBits(seq(64, i requires 0 <= i < 64 => Bits(v)[i] || Bits(w)[i]))
  }

  function And(v: Word, w: Word): (r: Word)
    ensures forall i :: 0 <= i < 64 ==> Bits(r)[i] == (Bits(v)[i] && Bits(w)[i])
  {
    FromBits(seq(64, i requires 0 <= i < 64 => Bits(v)[i] && Bits(w)[i]))
  }

  function Not(v: Word): (r: Word)
    ensures forall i :: 0 <= i < 64 ==> Bits(r)[i] == !Bits(v)[i]
  {
    FromBits(seq(64, i requires 0 <= i < 64 => !Bits(v)[i]))
  }

  function Shl(v: Word, n: nat): (r: Word)
    requires n < 64
    ensures forall i :: 0 <= i < 64 ==> Bits(r)[i] == (n <= i && Bits(v)[i - n])
  {
    FromBits(seq(64, i requires 0 <= i < 64 => n <= i && Bits(v)[i - n]))
  }

  function Shr(v: Word, n: nat): (r: Word)
    requires n < 64
    ensures forall i :: 0 <= i < 64 ==> Bits(r)[i] == (i + n < 64 && Bits(v)[i + n])
  {
    FromBits(seq(64, i requires 0 <= i < 64 => i + n < 64 && Bits(v)[i + n]))
  }

  /** static_cast from std::uint64_t to std::int64_t. */
  function ToSigned(w: Word): int {
    if w < 0x8000_0000_0000_0000 then w else w - 0x1_0000_0000_0000_0000
  }

  lemma WordOfBits(w: Word)
    ensures Number(Bits(w)) == w
  {
    Pow2Word();
    NumberOfDigits(w, 64);
  }

  lemma ScaledParts(r: nat, m: nat, q: nat, p: nat)
    requires r < m && 0 < p
    ensures (r + m * q) * p == p * r + (m * p) * q
    ensures p * r < m * p
  {
    assert p * (m - r) == m * p - p * r;
  }

  lemma ScaledResidue(v: nat, m: nat, p: nat)
    requires 0 < m && 0 < p
    ensures 0 < m * p && p * (v % m) == v * p % (m * p)
  {
    var q, r := v / m, v % m;
    assert v == r + m * q;
    ScaledParts(r, m, q, p);
    QuotientRemainder(v * p, p * r, q, m * p);
  }

  /** Shifting left multiplies by 2^n, modulo 2^64. */
  lemma ShlIsProduct(v: Word, n: nat)
    requires n < 64
    ensures Shl(v, n) == v * Pow2(n) % Pow2(64)
  {
    var zeros, low := seq(n, i => false), Bits(v)[..64 - n];
    assert Bits(Shl(v, n)) == zeros + low;
    NumberAppend(zeros, low);
    NumberConstant(zeros, false);
    NumberSplit(Bits(v), 64 - n);
    WordOfBits(v);
    WordOfBits(Shl(v, n));
    Pow2Add(64 - n, n);
    ScaledResidue(v, Pow2(64 - n), Pow2(n));
  }

  lemma Distribute(p: int, q: int)
    ensures p * (q - 1) == p * q - p
  {}

  lemma NumberExtended(bits: seq<bool>, high: seq<bool>, bit: bool)
    requires forall i :: 0 <= i < |high| ==> high[i] == bit
    ensures Number(bits + high) == Number(bits) + if bit then Pow2(|bits| + |high|) - Pow2(|bits|) else 0
  {
    hide Number, Pow2;
    NumberAppend(bits, high);
    NumberConstant(high, bit);
    if bit {
      Pow2Add(|bits|, |high|);
      Distribute(Pow2(|bits|), Pow2(|high|));
    }
  }

  /** Shifting right divides by 2^n. */
  lemma ShrIsQuotient(v: Word, n: nat)
    requires n < 64
    ensures Shr(v, n) == v / Pow2(n)
  {
    var high, zeros := Bits(v)[n..], seq(n, i => false);
    assert Bits(Shr(v, n)) == high + zeros;
    NumberExtended(high, zeros, false);
    NumberSplit(Bits(v), n);
    WordOfBits(v);
    WordOfBits(Shr(v, n));
  }

  /** Small words have no high bits. */
  lemma {:induction false} HighDigits(u: nat, k: nat, n: nat)
    requires u < Pow2(k) && k <= n
    ensures forall i :: k <= i < n ==> !Digits(u, n)[i]
    ensures forall i :: 0 <= i < k ==> Digits(u, n)[i] == Digits(u, k)[i]
  {
    if k > 0 {
      HighDigits(u / 2, k - 1, n - 1);
    } else if n > 0 {
      HighDigits(0, 0, n - 1);
    }
  }

  lemma {:induction false} OneHot(bits: seq<bool>, n: nat)
    requires n < |bits|
    requires forall i :: 0 <= i < |bits| ==> bits[i] == (i == n)
    ensures Number(bits) == Pow2(n)
  {
    if n == 0 {
      NumberConstant(bits[1..], false);
    } else {
      OneHot(bits[1..], n - 1);
    }
  }

  lemma OneBits()
    ensures forall i :: 0 <= i < 64 ==> Bits(1)[i] == (i == 0)
  {
    assert Pow2(1) == 2;
    HighDigits(1, 1, 64);
    assert Digits(1, 1)[0];
  }

  lemma ShlOne(n: nat)
    requires n < 64
    ensures Shl(1, n) == Pow2(n)
  {
    var one := seq(64, i => i == n);
    OneBits();
    assert Bits(Shl(1, n)) == one;
    WordOfBits(Shl(1, n));
    OneHot(one, n);
  }

  lemma {:induction false} LowDigits(u: nat, k: nat, n: nat)
    requires k <= n && u == Pow2(k) - 1
    ensures forall i :: 0 <= i < n ==> Digits(u, n)[i] == (i < k)
  {
    if k > 0 {
      LowDigits(u / 2, k - 1, n - 1);
    } else {
      HighDigits(0, 0, n);
    }
  }

  /** The mask (1 << n) - 1 has exactly the low `n` bits. */
  function LowMask(n: nat): (mask: Word)
    requires n < 64
    ensures forall i :: 0 <= i < 64 ==> Bits(mask)[i] == (i < n)
  {
    ShlOne(n);
    LowDigits(Pow2(n) - 1, n, 64);
    Shl(1, n) - 1
  }

  lemma ZeroBits()
    ensures forall i :: 0 <= i < 64 ==> !Bits(0)[i]
  {
    HighDigits(0, 0, 64);
  }

  /** Testing a word against a one-bit mask is testing that bit. */
  lemma TestBit(w: Word, n: nat)
    requires n < 64
    ensures And(w, Shl(1, n)) != 0 <==> Bits(w)[n]
  {
    OneBits();
    ZeroBits();
    var t := And(w, Shl(1, n));
    if Bits(w)[n] {
      assert Bits(t)[n];
    } else {
      WordOfBits(t);
      NumberConstant(Bits(t), false);
    }
  }

  lemma SignOfWord(w: Word)
    ensures ToSigned(w) == Number(Bits(w)) - if Bits(w)[63] then Pow2(|Bits(w)|) else 0
  {
    WordOfBits(w);
    TopBit(Bits(w));
    Pow2Word();
  }

  lemma NumberSigned(bits: seq<bool>, n: nat, sign: bool)
    requires bits != [] && n <= |bits|
    requires forall i :: n <= i < |bits| ==> bits[i] == sign
    requires n == |bits| ==> bits[n - 1] == sign
    ensures bits[|bits| - 1] == sign
    ensures Number(bits) - (if sign then Pow2(|bits|) else 0)
         == Number(bits[..n]) - (if sign then Pow2(n) else 0)
  {
    assert bits == bits[..n] + bits[n..];
    NumberExtended(bits[..n], bits[n..], sign);
  }

  /** Two's complement: when every bit past the first `n` equals `sign`, the word read as
      signed is the `n`-bit number, less 2^n for a negative sign. */
  lemma Extended(w: Word, bits: seq<bool>, sign: bool)
    requires |bits| <= 64 && bits == Bits(w)[..|bits|]
    requires forall i :: |bits| <= i < 64 ==> Bits(w)[i] == sign
    requires |bits| == 64 ==> bits[63] == sign
    ensures ToSigned(w) == Number(bits) - if sign then Pow2(|bits|) else 0
  {
    SignOfWord(w);
    NumberSigned(Bits(w), |bits|, sign);
  }
}
