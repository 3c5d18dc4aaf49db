/** JavaScript's bitwise operators on numbers: 32-bit two's complement, computed bit by bit. */
module JsBits {
  import opened LeanImt
  import Modular

  type byte = b: nat | b < 256

  const WORD: nat := 0x1_0000_0000

  function ToUint32(x: int): nat {
    x % WORD
  }

  function ToInt32(x: int): int {
    if x % WORD < 0x8000_0000 then x % WORD else x % WORD - WORD
  }

  function Or(a: nat, b: nat): nat {
    if a == 0 then b else 2 * Or(a / 2, b / 2) + (if a % 2 == 1 || b % 2 == 1 then 1 else 0)
  }

  function And(a: nat, b: nat): nat {
    if a == 0 then 0 else 2 * And(a / 2, b / 2) + (if a % 2 == 1 && b % 2 == 1 then 1 else 0)
  }

  // `x | y`, `x & y`, `x << k`, `x >> k` and `x >>> 0`
  function BitOr(x: int, y: int): int { ToInt32(Or(ToUint32(x), ToUint32(y))) }
  function BitAnd(x: int, y: int): int { ToInt32(And(ToUint32(x), ToUint32(y))) }
  function ShiftLeft(x: int, k: nat): int { ToInt32(ToUint32(x) * Pow2(k)) }
  function ShiftRight(x: int, k: nat): int { ToInt32(x) / Pow2(k) }  // Pow2(k) > 0, so `/` floors
  function Unsigned(x: int): nat { ToUint32(x) }

  // ----- what they compute -----

  // Bits that do not overlap add up.
  lemma {:induction false} OrDisjoint(hi: nat, k: nat, lo: nat)
    requires lo < Pow2(k)
    ensures Or(lo, hi * Pow2(k)) == lo + hi * Pow2(k)
    ensures Or(hi * Pow2(k), lo) == hi * Pow2(k) + lo
  {
    if k == 0 {
      OrZero(hi * Pow2(0));
    } else {
      var x := hi * Pow2(k - 1);
      assert hi * Pow2(k) == 2 * x by { DoubleRight(hi, Pow2(k - 1)); }
      OrDisjoint(hi, k - 1, lo / 2);
      OrStep(lo, x);
    }
  }

  lemma DoubleRight(a: nat, b: nat)
    ensures a * (2 * b) == 2 * (a * b)
  {
  }

  lemma OrBits(a: nat, b: nat)
    ensures Or(a, b) == 2 * Or(a / 2, b / 2) + (if a % 2 == 1 || b % 2 == 1 then 1 else 0)
  {
  }

  lemma Halve(x: nat)
    ensures 2 * x / 2 == x && 2 * x % 2 == 0
  {
  }

  lemma OrStep(lo: nat, x: nat)
    ensures Or(lo, 2 * x) == 2 * Or(lo / 2, x) + lo % 2
    ensures Or(2 * x, lo) == 2 * Or(x, lo / 2) + lo % 2
  {
    hide Or;
    OrBits(lo, 2 * x);
    OrBits(2 * x, lo);
    Halve(x);
  }

  lemma OrZero(a: nat)
    ensures Or(a, 0) == a && Or(0, a) == a
  {
  }

  lemma {:induction false} AndMask(a: nat, k: nat)
    ensures And(a, Pow2(k) - 1) == a % Pow2(k)
  {
    if k == 0 {
      AndZero(a);
    } else if a != 0 {
      AndMask(a / 2, k - 1);
      assert (Pow2(k) - 1) / 2 == Pow2(k - 1) - 1;
      ModHalves(a, Pow2(k - 1));
    }
  }

  lemma AndZero(a: nat)
    ensures And(a, 0) == 0
  {
  }

  lemma ModHalves(a: nat, m: nat)
    requires m > 0
    ensures a % (2 * m) == 2 * (a / 2 % m) + a % 2
  {
    var q, r := a / 2 / m, a / 2 % m;
    DoubleRight(q, m);
    Modular.ModUnique(a, q, 2 * r + a % 2, 2 * m);
  }

  lemma SameWord(x: int, y: int)
    requires ToUint32(x) == ToUint32(y)
    ensures ToInt32(x) == ToInt32(y)
  {
  }

  lemma WordOf(x: int)
    ensures ToUint32(ToInt32(x)) == ToUint32(x)
  {
  }

  lemma {:induction false} PowSplits(k: nat, j: nat)
    ensures Pow2(k) * Pow2(j) == Pow2(k + j)
  {
    if k == 0 {
      assert Pow2(0) * Pow2(j) == Pow2(j);
    } else {
      hide Pow2;
      PowSplits(k - 1, j);
      PowStep(k);
      PowStep(k + j);
      DoubleLeft(Pow2(k - 1), Pow2(j));
    }
  }

  lemma PowStep(k: nat)
    requires k > 0
    ensures Pow2(k) == 2 * Pow2(k - 1)
  {
  }

  lemma DoubleLeft(a: nat, b: nat)
    ensures (2 * a) * b == 2 * (a * b)
  {
  }

  lemma Pow2Values()
    ensures Pow2(0) == 1 && Pow2(2) == 4 && Pow2(4) == 16 && Pow2(6) == 64 && Pow2(8) == 256
    ensures Pow2(16) == 65536 && Pow2(24) == 16777216 && Pow2(32) == WORD
  {
    PowSplits(8, 8);
    PowSplits(16, 8);
    PowSplits(16, 16);
  }

  // Shifting a word up and or-ing bits into the gap is multiplying and adding, up to wrap-around.
  lemma ShiftIn(x: int, k: nat, lo: nat)
    requires k <= 32 && lo < Pow2(k)
    ensures BitOr(ShiftLeft(x, k), lo) == ToInt32(x * Pow2(k) + lo)
    ensures BitOr(lo, ShiftLeft(x, k)) == ToInt32(x * Pow2(k) + lo)
  {
    hide Pow2, Or, ToInt32, ToUint32;
    var p, q, u := Pow2(k), Pow2(32 - k), ToUint32(x);
    assert p * q == WORD by { PowSplits(k, 32 - k); Pow2Values(); }
    AtLeastFactor(p, q);
    ShiftedMod(u, p, q, 0);
    ShiftedMod(u, p, q, lo);
    var hi := u % q;
    LowWord(lo);
    WordOf(u * p);
    LowWord(hi * p + lo);
    OrDisjoint(hi, k, lo);
    WrapsShift(x, p, lo);
    SameWord(hi * p + lo, x * p + lo);
  }

  lemma LowWord(n: int)
    ensures ToUint32(n) == n % WORD
    ensures 0 <= n < WORD ==> ToUint32(n) == n
  {
  }

  lemma AtLeastFactor(p: nat, q: nat)
    requires q > 0
    ensures p <= p * q
  {
  }

  lemma ShiftedMod(u: nat, p: nat, q: nat, lo: nat)
    requires p > 0 && q > 0 && p * q == WORD && lo < p
    ensures ToUint32(u * p + lo) == u % q * p + lo < WORD
  {
    GapFits(u % q, p, q, lo);
    Regroup(u, u / q, q, u % q, p);
    Modular.ModUnique(u * p + lo, u / q, u % q * p + lo, WORD);
  }

  lemma GapFits(hi: nat, p: nat, q: nat, lo: nat)
    requires hi < q && lo < p
    ensures 0 <= hi * p + lo < p * q
  {
    Expand(hi, 1, p);
    Expand(hi + 1, q - 1 - hi, p);
    Modular.MulBounds(q - 1 - hi, p);
  }

  lemma Expand(a: int, b: int, p: int)
    ensures (a + b) * p == a * p + b * p
  {
  }

  lemma WrapsShift(x: int, p: nat, lo: nat)
    ensures ToUint32(x * p + lo) == ToUint32(ToUint32(x) * p + lo)
  {
    var wraps, u := x / WORD, ToUint32(x);
    Regroup(x, wraps, WORD, u, p);
    assert wraps * (p * WORD) == (wraps * p) * WORD;
    Modular.CongOf(x * p + lo, u * p + lo, wraps * p, WORD);
  }

  lemma Regroup(u: int, top: int, q: int, hi: int, p: int)
    requires u == top * q + hi
    ensures u * p == top * (p * q) + hi * p
  {
    Expand(top * q, hi, p);
    assert (top * q) * p == top * (p * q);
  }

  // The byte picked out of a wrapped accumulator is the byte of the unwrapped one.
  lemma PickByte(x: int, s: nat)
    requires s == 0 || s == 2 || s == 4
    ensures BitAnd(ShiftRight(ToInt32(x), s), 0xff) == x / Pow2(s) % 256
  {
    hide Pow2, ToInt32, BitAnd;
    var w := ToInt32(x);
    LowByte(ShiftRight(w, s));
    WordOf(x);
    WrapsTwice(x);
    WrapOutOfSight(x, w, s);
  }

  lemma LowByte(y: int)
    ensures BitAnd(y, 0xff) == y % 256
  {
    hide And, Pow2, ToInt32, ToUint32;
    Pow2Values();
    var u := ToUint32(y);
    AndMask(u, 8);
    LowWord(0xff);
    SmallWord(u % 256);
    ByteOfWord(y);
  }

  lemma SmallWord(n: nat)
    requires n < 0x8000_0000
    ensures ToInt32(n) == n
  {
  }

  lemma ByteOfWord(y: int)
    ensures ToUint32(y) % 256 == y % 256
  {
    Modular.CongOf(y, y % WORD, y / WORD * 0x100_0000, 256);
  }

  lemma WrapsTwice(x: int)
    ensures ToInt32(ToInt32(x)) == ToInt32(x) && ToUint32(x) == x % WORD && ToUint32(ToInt32(x)) == ToInt32(x) % WORD
  {
  }

  lemma WrapOutOfSight(x: int, y: int, s: nat)
    requires (s == 0 || s == 2 || s == 4) && x % WORD == y % WORD
    ensures x / Pow2(s) % 256 == y / Pow2(s) % 256
  {
    hide Pow2;
    Pow2Values();
    var c := x / WORD - y / WORD;
    match s {
      case 0 => SkipMultiples(y, c * 0x100_0000, 1);
      case 2 => SkipMultiples(y, c * 0x40_0000, 4);
      case 4 => SkipMultiples(y, c * 0x10_0000, 16);
    }
  }

  lemma SkipMultiples(y: int, c: int, d: nat)
    requires d == 1 || d == 4 || d == 16
    ensures (y + c * 256 * d) / d % 256 == y / d % 256
  {
    assert (y + c * 256 * d) / d == y / d + c * 256;
    Modular.CongOf(y / d + c * 256, y / d, c, 256);
  }
}
