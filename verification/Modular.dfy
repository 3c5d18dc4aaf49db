/** Arithmetic modulo the group order: the source's `mod`, congruences, greatest common divisors and the
    extended-Euclid inverse. */
module Modular {
  import opened Outcomes

  // JavaScript's bigint `%` takes the sign of the dividend.
  function Rem(x: int, m: int): int
    requires m > 0
  {
    if x >= 0 then x % m else -((-x) % m)
  }

  // `((x % m) + m) % m` is the residue in [0, m) for every x, negative ones included.
  function Mod(x: int, m: int): (r: int)
    requires m > 0
    ensures 0 <= r < m && r == x % m
  {
    var r := Rem(Rem(x, m) + m, m);
    ModOfRem(x, m);
    r
  }

  lemma ModOfRem(x: int, m: int)
    requires m > 0
    ensures Rem(Rem(x, m) + m, m) == x % m
  {
    if x >= 0 {
      ModUnique(x % m + m, 1, x % m, m);
    } else {
      var r := (-x) % m;
      if r == 0 {
        ModUnique(m, 1, 0, m);
        ModUnique(x, -((-x) / m), 0, m);
      } else {
        ModUnique(m - r, 0, m - r, m);
        ModUnique(x, -((-x) / m) - 1, m - r, m);
      }
    }
  }

  lemma ModUnique(a: int, q: int, r: int, m: int)
    requires m > 0 && 0 <= r < m && a == q * m + r
    ensures a % m == r
  {
    var d := a / m - q;
    assert d * m == r - a % m;
    MulBounds(d, m);
  }

  lemma MulBounds(d: int, m: int)
    requires m > 0
    ensures d >= 1 ==> d * m >= m
    ensures d <= -1 ==> d * m <= -m
    ensures d == 0 ==> d * m == 0
  {
  }

  // ----- congruence -----

  ghost predicate Cong(a: int, b: int, m: int)
    requires m > 0
  {
    a % m == b % m
  }

  lemma CongOf(a: int, b: int, k: int, m: int)
    requires m > 0 && a == b + k * m
    ensures Cong(a, b, m)
  {
    ModUnique(a, b / m + k, b % m, m);
  }

  lemma CongDiff(a: int, b: int, m: int) returns (k: int)
    requires m > 0 && Cong(a, b, m)
    ensures a == b + k * m
  {
    k := a / m - b / m;
  }

  lemma CongRefl(a: int, m: int)
    requires m > 0
    ensures Cong(a, a, m)
  {
  }

  lemma CongMod(a: int, m: int)
    requires m > 0
    ensures Cong(Mod(a, m), a, m)
  {
    ModUnique(Mod(a, m), 0, Mod(a, m), m);
  }

  lemma CongSym(a: int, b: int, m: int)
    requires m > 0 && Cong(a, b, m)
    ensures Cong(b, a, m)
  {
  }

  lemma CongTrans(a: int, b: int, c: int, m: int)
    requires m > 0 && Cong(a, b, m) && Cong(b, c, m)
    ensures Cong(a, c, m)
  {
  }

  lemma CongAdd(a: int, b: int, c: int, d: int, m: int)
    requires m > 0 && Cong(a, b, m) && Cong(c, d, m)
    ensures Cong(a + c, b + d, m)
  {
    hide Cong;
    var k := CongDiff(a, b, m);
    var l := CongDiff(c, d, m);
    assert a + c == b + d + (k + l) * m;
    CongOf(a + c, b + d, k + l, m);
  }

  lemma CongMul(a: int, b: int, c: int, d: int, m: int)
    requires m > 0 && Cong(a, b, m) && Cong(c, d, m)
    ensures Cong(a * c, b * d, m)
  {
    hide Cong;
    var k := CongDiff(a, b, m);
    var l := CongDiff(c, d, m);
    var t := b * l + k * d + k * l * m;
    assert (b + k * m) * (d + l * m) == b * d + t * m;
    CongOf(a * c, b * d, t, m);
  }

  // Multiply both sides by the same number.
  lemma CongScale(f: int, a: int, b: int, m: int)
    requires m > 0 && Cong(a, b, m)
    ensures Cong(f * a, f * b, m)
  {
    CongMul(f, f, a, b, m);
  }

  ghost predicate Invertible(x: int, m: int)
    requires m > 0
  {
    exists v: int :: Cong(x * v, 1, m)
  }

  // A factor that has an inverse can be cancelled.
  lemma CongCancel(f: int, a: int, b: int, m: int)
    requires m > 0 && Invertible(f, m) && Cong(f * a, f * b, m)
    ensures Cong(a, b, m)
  {
    hide Cong;
    var v: int :| Cong(f * v, 1, m);
    CongScale(v, f * a, f * b, m);
    assert v * (f * a) == f * v * a && v * (f * b) == f * v * b;
    CongRefl(a, m);
    CongRefl(b, m);
    CongMul(f * v, 1, a, a, m);
    CongMul(f * v, 1, b, b, m);
    CongSym(f * v * a, 1 * a, m);
    CongTrans(a, f * v * a, f * v * b, m);
    CongTrans(a, f * v * b, b, m);
  }

  lemma InvertibleProduct(x: int, y: int, m: int)
    requires m > 0 && Invertible(x, m) && Invertible(y, m)
    ensures Invertible(x * y, m)
  {
    hide Cong;
    var v: int :| Cong(x * v, 1, m);
    var w: int :| Cong(y * w, 1, m);
    CongMul(x * v, 1, y * w, 1, m);
    assert x * v * (y * w) == x * y * (v * w);
  }

  lemma InvertibleRespectsCong(x: int, y: int, m: int)
    requires m > 0 && Cong(x, y, m) && Invertible(x, m)
    ensures Invertible(y, m)
  {
    hide Cong;
    var v: int :| Cong(x * v, 1, m);
    CongRefl(v, m);
    CongMul(x, y, v, v, m);
    CongSym(x * v, y * v, m);
    CongTrans(y * v, x * v, 1, m);
  }

  lemma InverseUnique(x: int, v: int, w: int, m: int)
    requires m > 0 && Cong(x * v, 1, m) && Cong(x * w, 1, m) && 0 <= v < m && 0 <= w < m
    ensures v == w
  {
    CongSym(x * w, 1, m);
    CongTrans(x * v, 1, x * w, m);
    CongCancel(x, v, w, m);
    ModUnique(v, 0, v, m);
    ModUnique(w, 0, w, m);
  }

  // ----- greatest common divisors -----

  function Gcd(a: nat, b: nat): nat
    decreases b
  {
    if b == 0 then a else Gcd(b, a % b)
  }

  lemma {:induction false} GcdDivides(a: nat, b: nat) returns (k: nat, l: nat)
    ensures a == k * Gcd(a, b) && b == l * Gcd(a, b)
    decreases b
  {
    if b == 0 {
      k, l := 1, 0;
    } else {
      var l', r := GcdDivides(b, a % b);
      var q, g := a / b, Gcd(a, b);
      k, l := q * l' + r, l';
      assert a == q * b + a % b;
      assert q * (l' * g) + r * g == (q * l' + r) * g;
    }
  }

  lemma {:induction false} Bezout(a: nat, b: nat) returns (s: int, t: int)
    ensures a * s + b * t == Gcd(a, b)
    decreases b
  {
    if b == 0 {
      s, t := 1, 0;
    } else {
      var s', t' := Bezout(b, a % b);
      var q := a / b;
      s, t := t', s' - q * t';
      assert a == q * b + a % b;
      assert b * s' + (a - q * b) * t' == a * t' + b * (s' - q * t');
    }
  }

  lemma CoprimeInverts(x: int, m: int)
    requires m > 0 && Gcd(x % m, m) == 1
    ensures Invertible(x, m)
  {
    hide Cong, Gcd;
    var a, q := x % m, x / m;
    var s, t := Bezout(a, m);
    assert x * s == q * m * s + a * s by { assert x == q * m + a; }
    assert x * s == 1 + (q * s - t) * m;
    CongOf(x * s, 1, q * s - t, m);
  }

  lemma InverseMeansCoprime(x: int, v: int, m: int)
    requires m > 0 && Cong(x * v, 1, m)
    ensures Gcd(x % m, m) == 1
  {
    hide Cong, Gcd;
    var a, g, q := x % m, Gcd(x % m, m), x / m;
    var j := CongDiff(x * v, 1, m);
    var k, l := GcdDivides(a, m);
    assert x * v == q * m * v + a * v by { assert x == q * m + a; }
    var i := q * v - j;
    assert i * m + a * v == 1;
    assert i * m == i * l * g && a * v == k * v * g;
    assert (i * l + k * v) * g == 1;
    UnitFactor(i * l + k * v, g);
  }

  // x has an inverse modulo m exactly when gcd(x mod m, m) is 1.
  lemma InvertibleIffCoprime(x: int, m: int)
    requires m > 0
    ensures Invertible(x, m) <==> Gcd(x % m, m) == 1
  {
    hide Cong, Gcd;
    if Gcd(x % m, m) == 1 {
      CoprimeInverts(x, m);
    }
    if Invertible(x, m) {
      var v: int :| Cong(x * v, 1, m);
      InverseMeansCoprime(x, v, m);
    }
  }

  lemma UnitFactor(f: int, g: nat)
    requires f * g == 1
    ensures g == 1
  {
    if g > 0 { MulBounds(f, g); }
  }

  ghost predicate IsPrime(m: int) {
    m >= 2 && forall d: int :: 1 < d < m ==> m % d != 0
  }

  // Modulo a prime everything but 0 has an inverse.
  lemma PrimeInverts(x: int, m: int)
    requires IsPrime(m) && x % m != 0
    ensures Invertible(x, m)
  {
    var a, g := x % m, Gcd(x % m, m);
    var k, l := GcdDivides(a, m);
    if g > 0 {
      MulBounds(k, g);
      ModUnique(m, l, 0, g);
    }
    InvertibleIffCoprime(x, m);
  }

  // ----- the inverse -----

  ghost function Inverse(x: int, m: int): (r: Option<int>)
    requires m > 0
    ensures r.Some? <==> Invertible(x, m)
    ensures r.Some? ==> 0 <= r.value < m && Cong(x * r.value, 1, m)
  {
    if Invertible(x, m) then
      var v: int :| Cong(x * v, 1, m);
      CongMod(v, m);
      CongScale(x, Mod(v, m), v, m);
      Some(Mod(v, m))
    else None
  }

  // The extended Euclid loop finds the inverse in [0, m) exactly when there is one, and throws otherwise.
  method ModInverse(x: int, m: int) returns (inv: Option<int>)
    requires m > 0
    ensures inv == Inverse(x, m)
  {
    hide Cong, Invertible;
    var oldR, r := Mod(x, m), m;
    var oldS, s := 1, 0;
    EuclidStart(x, m);
    while r != 0
      invariant oldR >= 0 && r >= 0
      invariant Cong(x * oldS, oldR, m) && Cong(x * s, r, m)
      invariant Gcd(oldR, r) == Gcd(x % m, m)
      decreases r
    {
      var q := oldR / r;
      EuclidStep(x, m, oldR, r, oldS, s);
      oldR, r := r, oldR - q * r;
      oldS, s := s, oldS - q * s;
    }
    InvertibleIffCoprime(x, m);
    if oldR != 1 {
      return None;
    }
    CongMod(oldS, m);
    CongScale(x, Mod(oldS, m), oldS, m);
    CongTrans(x * Mod(oldS, m), x * oldS, 1, m);
    InverseUnique(x, Mod(oldS, m), Inverse(x, m).value, m);
    inv := Some(Mod(oldS, m));
  }

  lemma EuclidStart(x: int, m: int)
    requires m > 0
    ensures Cong(x * 1, Mod(x, m), m) && Cong(x * 0, m, m)
  {
    hide Cong;
    assert x * 1 == x && x * 0 == 0;
    CongMod(x, m);
    CongSym(Mod(x, m), x, m);
    CongOf(0, m, -1, m);
  }

  lemma EuclidStep(x: int, m: int, oldR: nat, r: nat, oldS: int, s: int)
    requires m > 0 && r > 0 && Cong(x * oldS, oldR, m) && Cong(x * s, r, m)
    ensures var q := oldR / r;
            && oldR - q * r == oldR % r
            && Cong(x * (oldS - q * s), oldR - q * r, m)
            && Gcd(r, oldR % r) == Gcd(oldR, r)
  {
    hide Cong, Gcd;
    CombineCong(x, m, oldR, r, oldS, s, oldR / r);
    Division(oldR, r);
    GcdStep(oldR, r);
  }

  lemma Division(a: nat, b: nat)
    requires b > 0
    ensures a - a / b * b == a % b
  {
  }

  lemma GcdStep(a: nat, b: nat)
    requires b > 0
    ensures Gcd(a, b) == Gcd(b, a % b)
  {
  }

  lemma CombineCong(x: int, m: int, a: int, b: int, s: int, t: int, q: int)
    requires m > 0 && Cong(x * s, a, m) && Cong(x * t, b, m)
    ensures Cong(x * (s - q * t), a - q * b, m)
  {
    hide Cong;
    CongScale(-q, x * t, b, m);
    CongAdd(x * s, a, -q * (x * t), -q * b, m);
    assert x * (s - q * t) == x * s + -q * (x * t);
    assert a + -q * b == a - q * b;
  }
}
