/** Powers of natural numbers. */
module Powers {
  function Pow(b: nat, e: nat): nat {
    if e == 0 then 1 else b * Pow(b, e - 1)
  }

  lemma MulAssociates(a: int, b: int, c: int)
    ensures a * (b * c) == a * b * c
  {
  }

  lemma MulGrows(a: nat, b: nat)
    requires 0 < a
    ensures b <= a * b
  {
  }

  lemma {:induction false} PowAdd(b: nat, m: nat, n: nat)
    ensures Pow(b, m + n) == Pow(b, m) * Pow(b, n)
  {
    if m == 0 {
    } else {
      PowAdd(b, m - 1, n);
      MulAssociates(b, Pow(b, m - 1), Pow(b, n));
    }
  }

  lemma {:induction false} PowPositive(b: nat, e: nat)
    requires b > 0
    ensures Pow(b, e) > 0
  {
    if e == 0 {
    } else {
      PowPositive(b, e - 1);
    }
  }

  lemma {:induction false} PowMonotonic(b: nat, m: nat, n: nat)
    requires b > 0 && m <= n
    ensures Pow(b, m) <= Pow(b, n)
  {
    if m == n {
    } else {
      PowMonotonic(b, m, n - 1);
      MulGrows(b, Pow(b, n - 1));
    }
  }

  lemma {:induction false} PowMul(b: nat, m: nat, n: nat)
    ensures Pow(Pow(b, m), n) == Pow(b, m * n)
  {
    if n == 0 {
    } else {
      PowMul(b, m, n - 1);
      assert m * n == m + m * (n - 1);
      PowAdd(b, m, m * (n - 1));
    }
  }

  // ----- Digits and their weights

  /** The sum of the digits times the powers of the base, the last digit counting once. */
  function Weighted(base: nat, ds: seq<nat>): nat {
    if ds == [] then 0 else ds[0] * Pow(base, |ds| - 1) + Weighted(base, ds[1..])
  }

  lemma Distribute(a: int, b: int, c: int, d: int)
    ensures a * (b * c) + (d * b) == (a * c + d) * b
  {
  }

  lemma {:induction false} WeightedLast(base: nat, ds: seq<nat>, d: nat)
    ensures Weighted(base, ds + [d]) == Weighted(base, ds) * base + d
  {
    if ds == [] {
      assert ([d])[1..] == [];
      assert Pow(base, 0) == 1;
    } else {
      var all := ds + [d];
      WeightedLast(base, ds[1..], d);
      assert all[1..] == ds[1..] + [d];
      assert Pow(base, |ds|) == base * Pow(base, |ds| - 1);
      Distribute(ds[0], base, Pow(base, |ds| - 1), Weighted(base, ds[1..]));
    }
  }

  // ----- Modulo a positive number

  lemma DivModUnique(n: int, m: int, q: int, r: int)
    requires 0 < m && 0 <= r < m && n == m * q + r
    ensures n / m == q && n % m == r
  {
    var e := n / m - q;
    assert m * e == r - n % m;
    OnlyZeroMultiple(m, e);
  }

  lemma OnlyZeroMultiple(d: int, e: int)
    requires 0 < d && -d < d * e < d
    ensures e == 0
  {
  }

  lemma ModMul(a: nat, b: nat, m: nat)
    requires 0 < m
    ensures (a % m * b) % m == (a * b) % m
    ensures (b * (a % m)) % m == (b * a) % m
  {
    var q, r := a / m, (a % m * b) % m;
    assert a * b == (m * q + a % m) * b == m * (q * b) + a % m * b;
    var k := (a % m * b) / m;
    assert a % m * b == m * k + r;
    assert a * b == m * (q * b + k) + r;
    DivModUnique(a * b, m, q * b + k, r);
    assert b * (a % m) == a % m * b && b * a == a * b;
  }

  lemma ModCongruent(a: nat, b: nat, c: nat, m: nat)
    requires 0 < m && a % m == b % m
    ensures (a * c) % m == (b * c) % m
  {
    ModMul(a, c, m);
    ModMul(b, c, m);
  }

  lemma {:induction false} PowMod(b: nat, e: nat, m: nat)
    requires 0 < m
    ensures Pow(b % m, e) % m == Pow(b, e) % m
  {
    if e == 0 {
    } else {
      PowMod(b, e - 1, m);
      ModMul(b, Pow(b % m, e - 1), m);
      ModCongruent(Pow(b % m, e - 1), Pow(b, e - 1), b, m);
      assert b * Pow(b % m, e - 1) == Pow(b % m, e - 1) * b;
      assert b * Pow(b, e - 1) == Pow(b, e - 1) * b;
    }
  }

  lemma Recombine(n: nat, a: nat, b: nat, q: nat, r: nat, q2: nat, r2: nat)
    requires r < a && r2 < b && n == a * q + r && q == b * q2 + r2
    ensures a * b > 0 && n == a * b * q2 + (a * r2 + r) && a * r2 + r < a * b
  {
    assert a * (b * q2 + r2) == a * b * q2 + a * r2;
    assert a * r2 <= a * (b - 1);
  }

  lemma DivDiv(n: nat, a: nat, b: nat)
    requires a > 0 && b > 0
    ensures a * b > 0 && n / a / b == n / (a * b)
  {
    var q, r := n / a, n % a;
    var q2, r2 := q / b, q % b;
    Recombine(n, a, b, q, r, q2, r2);
    DivModUnique(n, a * b, q2, a * r2 + r);
  }
}
