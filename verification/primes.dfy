/** Divisibility, primality and the ascending list of primes below a bound: the
    mathematical reference the sieve is proved against. */
module Primes {

  /** `d` divides `n` (for a positive `d`). */
  predicate Divides(d: int, n: int)
    requires d > 0
  {
    n % d == 0
  }

  /** Trial division: some `e >= lo` with `e * e <= n` divides `n`. */
  predicate HasSmallDivisorFrom(n: int, lo: int)
    requires lo >= 1
    decreases n - lo
  {
    lo * lo <= n && (Divides(lo, n) || HasSmallDivisorFrom(n, lo + 1))
  }

  /** `n` is prime: at least 2, and no `d >= 2` with `d * d <= n` divides it.
      `PrimeMeans` shows this is the usual definition. */
  predicate Prime(n: int) {
    n >= 2 && !HasSmallDivisorFrom(n, 2)
  }

  /** The primes below `n`, in ascending order. */
  function PrimesBelow(n: nat): (ps: seq<int>)
  {
    if n == 0 then [] else PrimesBelow(n - 1) + (if Prime(n - 1) then [n - 1] else [])
  }

  /** Some `d` in `[2, k)` is a proper divisor of `n`. */
  ghost predicate HasProperDivisorBelow(n: int, k: int) {
    exists d :: 2 <= d < k && d < n && Divides(d, n)
  }

  lemma {:induction false} HasSmallDivisorFromMeans(n: int, lo: int)
    requires lo >= 1
    ensures HasSmallDivisorFrom(n, lo) <==> exists e :: lo <= e && e * e <= n && Divides(e, n)
    decreases n - lo
  {
    if lo * lo <= n {
      HasSmallDivisorFromMeans(n, lo + 1);
    } else {
      forall e | lo <= e
        ensures e * e > n
      {
        MulLe(e, lo, e);
        MulLe(lo, lo, e);
      }
    }
  }

  /** `Prime` is the textbook definition: no number strictly between 1 and `n`
      divides `n`. */
  lemma PrimeMeans(n: int)
    ensures Prime(n) <==> n >= 2 && forall d :: 2 <= d < n ==> !Divides(d, n)
  {
    HasSmallDivisorFromMeans(n, 2);
    if n >= 2 && !Prime(n) {
      var e :| 2 <= e && e * e <= n && Divides(e, n);
      MulLe(e, 2, e);
      assert e < n;
    }
    if n >= 2 && exists d :: 2 <= d < n && Divides(d, n) {
      var d :| 2 <= d < n && Divides(d, n);
      var e := RootDivisor(n, d);
      assert 2 <= e && e * e <= n && Divides(e, n);
    }
  }

  /** A proper divisor `d` of `n` has a partner `n / d` that is a divisor too; the
      smaller of the two is at most the square root of `n`. */
  lemma RootDivisor(n: int, d: int) returns (e: int)
    requires 2 <= d < n && Divides(d, n)
    ensures 2 <= e < n && e * e <= n && Divides(e, n)
  {
    var c := n / d;
    assert n == d * c;
    MulSign(d, c - 1);
    assert c >= 2;
    MulLe(c, 2, d);
    DividesProduct(c, d);
    if d <= c {
      MulLe(d, d, c);
      e := d;
    } else {
      MulLe(c, c, d);
      e := c;
    }
  }

  /** Below `end`, a number is composite exactly when it has a proper divisor no
      larger than `root`, provided `root` is the integer square root of `end`. */
  lemma CompositeBelowRoot(n: int, end: int, root: int)
    requires 0 <= n < end && 0 <= root && root * root <= end < (root + 1) * (root + 1)
    ensures HasProperDivisorBelow(n, root + 1) <==> n >= 2 && !Prime(n)
  {
    PrimeMeans(n);
    if n >= 2 && !Prime(n) {
      HasSmallDivisorFromMeans(n, 2);
      var e :| 2 <= e && e * e <= n && Divides(e, n);
      MulLe(e, 2, e);
      SquareMono(root + 1, e);
      assert 2 <= e < root + 1 && e < n && Divides(e, n);
    }
  }

  /** For `p >= 2`, allowing `p` itself as a divisor adds exactly its multiples
      above `p`. */
  lemma ProperDivisorStep(n: int, p: int)
    requires p >= 2
    ensures HasProperDivisorBelow(n, p + 1) <==> HasProperDivisorBelow(n, p) || (p < n && Divides(p, n))
  {
    if HasProperDivisorBelow(n, p + 1) && !HasProperDivisorBelow(n, p) {
      var d :| 2 <= d < p + 1 && d < n && Divides(d, n);
      assert d == p;
    }
  }

  /** If `p` has a proper divisor below it, its multiples gain nothing new by
      allowing `p` as a divisor. */
  lemma CompositeStep(n: int, p: int)
    requires p >= 2 && HasProperDivisorBelow(p, p)
    ensures HasProperDivisorBelow(n, p + 1) <==> HasProperDivisorBelow(n, p)
  {
    ProperDivisorStep(n, p);
    if p < n && Divides(p, n) {
      var d :| 2 <= d < p && d < p && Divides(d, p);
      DividesTransitive(d, p, n);
      assert d < n && Divides(d, n);
    }
  }

  /** For `p >= 2`, `p` is prime exactly when nothing in `[2, p)` divides it. */
  lemma PrimeIffNoProperDivisor(p: int)
    requires p >= 2
    ensures Prime(p) <==> !HasProperDivisorBelow(p, p)
  {
    PrimeMeans(p);
  }

  // ---- the ascending list of primes ----

  lemma {:induction false} PrimesBelowSpec(n: nat)
    ensures forall i :: 0 <= i < |PrimesBelow(n)| ==> 0 <= PrimesBelow(n)[i] < n
    ensures forall i, j :: 0 <= i < j < |PrimesBelow(n)| ==> PrimesBelow(n)[i] < PrimesBelow(n)[j]
    ensures forall x :: x in PrimesBelow(n) <==> 0 <= x < n && Prime(x)
  {
    if n > 0 {
      var ps := PrimesBelow(n - 1);
      PrimesBelowSpec(n - 1);
      var tail := if Prime(n - 1) then [n - 1] else [];
      assert PrimesBelow(n) == ps + tail;
      forall i | 0 <= i < |PrimesBelow(n)|
        ensures 0 <= PrimesBelow(n)[i] < n
      {
        if i < |ps| {
          assert PrimesBelow(n)[i] == ps[i];
        }
      }
      forall i, j | 0 <= i < j < |PrimesBelow(n)|
        ensures PrimesBelow(n)[i] < PrimesBelow(n)[j]
      {
        assert PrimesBelow(n)[i] == ps[i];
        if j < |ps| {
          assert PrimesBelow(n)[j] == ps[j];
        }
      }
    }
  }

  /** The list for a smaller bound is a prefix of the list for a larger one. */
  lemma {:induction false} PrimesBelowPrefix(a: nat, b: nat)
    requires a <= b
    ensures |PrimesBelow(a)| <= |PrimesBelow(b)|
    ensures PrimesBelow(b)[..|PrimesBelow(a)|] == PrimesBelow(a)
    decreases b
  {
    if a < b {
      PrimesBelowPrefix(a, b - 1);
    }
  }

  /** The prime at position `i` has exactly `i` primes below it: it is the
      `i`-th smallest prime, counting from zero. */
  lemma {:induction false} PrimesBelowRank(n: nat, i: nat)
    requires i < |PrimesBelow(n)|
    ensures 0 <= PrimesBelow(n)[i] < n
    ensures PrimesBelow(PrimesBelow(n)[i]) == PrimesBelow(n)[..i]
    decreases n
  {
    var ps := PrimesBelow(n - 1);
    if i < |ps| {
      PrimesBelowRank(n - 1, i);
      assert PrimesBelow(n)[..i] == ps[..i];
    } else {
      assert PrimesBelow(n)[..i] == ps;
    }
  }

  /** Apart from 2 every prime is odd, so there are at most `n / 2` primes below
      `n`. */
  lemma {:induction false} PrimesBelowHalf(n: nat)
    ensures |PrimesBelow(n)| <= n / 2
  {
    if n <= 4 {
      assert PrimesBelow(4) == [2, 3];
    } else {
      PrimesBelowHalf(n - 1);
      if (n - 1) % 2 == 0 {
        assert !Prime(n - 1);
      }
    }
  }

  /** A prime below `end` is followed in the list for `end` by at least itself. */
  lemma PrimesBelowGrows(p: nat, end: nat)
    requires Prime(p) && p < end
    ensures |PrimesBelow(end)| > |PrimesBelow(p)|
  {
    PrimesBelowPrefix(p + 1, end);
  }

  /** The primes below 32, computed a few numbers at a time. */
  lemma PrimesBelow32()
    ensures PrimesBelow(32) == [2, 3, 5, 7, 11, 13, 17, 19, 23, 29, 31]
  {
    PrimesFrom0To8();
    PrimesFrom8To16();
    assert PrimesBelow(16) == [2, 3, 5, 7, 11, 13];
    PrimesFrom16To24();
    assert PrimesBelow(24) == [2, 3, 5, 7, 11, 13, 17, 19, 23];
    PrimesFrom24To32();
  }

  /** The 15 primes below 48. */
  lemma PrimesBelow48()
    ensures PrimesBelow(48) == [2, 3, 5, 7, 11, 13, 17, 19, 23, 29, 31, 37, 41, 43, 47]
  {
    PrimesBelow32();
    PrimesFrom32To40();
    assert PrimesBelow(40) == [2, 3, 5, 7, 11, 13, 17, 19, 23, 29, 31, 37];
    PrimesFrom40To48();
  }

  /** The 18 primes below 64. */
  lemma PrimesBelow64()
    ensures PrimesBelow(64) == [2, 3, 5, 7, 11, 13, 17, 19, 23, 29, 31, 37, 41, 43, 47, 53, 59, 61]
  {
    PrimesBelow48();
    PrimesFrom48To56();
    assert PrimesBelow(56) == [2, 3, 5, 7, 11, 13, 17, 19, 23, 29, 31, 37, 41, 43, 47, 53];
    PrimesFrom56To64();
  }

  lemma PrimesFrom16To24()
    ensures PrimesBelow(24) == PrimesBelow(16) + [17, 19, 23]
  {
    PrimesFrom16To20();
    PrimesFrom20To24();
  }

  lemma PrimesFrom24To32()
    ensures PrimesBelow(32) == PrimesBelow(24) + [29, 31]
  {
    PrimesFrom24To28();
    PrimesFrom28To32();
  }

  lemma PrimesFrom32To40()
    ensures PrimesBelow(40) == PrimesBelow(32) + [37]
  {
    PrimesFrom32To36();
    PrimesFrom36To40();
  }

  lemma PrimesFrom40To48()
    ensures PrimesBelow(48) == PrimesBelow(40) + [41, 43, 47]
  {
    PrimesFrom40To44();
    PrimesFrom44To48();
  }

  lemma PrimesFrom48To56()
    ensures PrimesBelow(56) == PrimesBelow(48) + [53]
  {
    PrimesFrom48To52();
    PrimesFrom52To56();
  }

  lemma PrimesFrom56To64()
    ensures PrimesBelow(64) == PrimesBelow(56) + [59, 61]
  {
    PrimesFrom56To60();
    PrimesFrom60To64();
  }

  lemma PrimesFrom0To8()
    ensures PrimesBelow(8) == [2, 3, 5, 7]
  {
    assert Prime(2);
    assert Prime(3);
    assert !Prime(4);
    assert Prime(5);
    assert !Prime(6);
    assert Prime(7);
  }

  lemma PrimesFrom8To16()
    ensures PrimesBelow(16) == PrimesBelow(8) + [11, 13]
  {
    assert !Prime(8);
    assert !Prime(9);
    assert !Prime(10);
    assert Prime(11);
    assert !Prime(12);
    assert Prime(13);
    assert !Prime(14);
    assert !Prime(15);
  }

  lemma PrimesFrom16To20()
    ensures PrimesBelow(20) == PrimesBelow(16) + [17, 19]
  {
    assert !Prime(16);
    assert Prime(17);
    assert !Prime(18);
    assert Prime(19);
  }

  lemma PrimesFrom20To24()
    ensures PrimesBelow(24) == PrimesBelow(20) + [23]
  {
    assert !Prime(20);
    assert !Prime(21);
    assert !Prime(22);
    assert Prime(23);
  }

  lemma PrimesFrom24To28()
    ensures PrimesBelow(28) == PrimesBelow(24) + []
  {
    assert !Prime(24);
    assert !Prime(25);
    assert !Prime(26);
    assert !Prime(27);
  }

  lemma PrimesFrom28To32()
    ensures PrimesBelow(32) == PrimesBelow(28) + [29, 31]
  {
    assert !Prime(28);
    assert Prime(29);
    assert !Prime(30);
    assert Prime(31);
  }

  lemma PrimesFrom32To36()
    ensures PrimesBelow(36) == PrimesBelow(32) + []
  {
    assert !Prime(32);
    assert !Prime(33);
    assert !Prime(34);
    assert !Prime(35);
  }

  lemma PrimesFrom36To40()
    ensures PrimesBelow(40) == PrimesBelow(36) + [37]
  {
    assert !Prime(36);
    assert Prime(37);
    assert !Prime(38);
    assert !Prime(39);
  }

  lemma PrimesFrom40To44()
    ensures PrimesBelow(44) == PrimesBelow(40) + [41, 43]
  {
    assert !Prime(40);
    assert Prime(41);
    assert !Prime(42);
    assert Prime(43);
  }

  lemma PrimesFrom44To48()
    ensures PrimesBelow(48) == PrimesBelow(44) + [47]
  {
    assert !Prime(44);
    assert !Prime(45);
    assert !Prime(46);
    assert Prime(47);
  }

  lemma PrimesFrom48To52()
    ensures PrimesBelow(52) == PrimesBelow(48) + []
  {
    assert !Prime(48);
    assert !Prime(49);
    assert !Prime(50);
    assert !Prime(51);
  }

  lemma PrimesFrom52To56()
    ensures PrimesBelow(56) == PrimesBelow(52) + [53]
  {
    assert !Prime(52);
    assert Prime(53);
    assert !Prime(54);
    assert !Prime(55);
  }

  lemma PrimesFrom56To60()
    ensures PrimesBelow(60) == PrimesBelow(56) + [59]
  {
    assert !Prime(56);
    assert !Prime(57);
    assert !Prime(58);
    assert Prime(59);
  }

  lemma PrimesFrom60To64()
    ensures PrimesBelow(64) == PrimesBelow(60) + [61]
  {
    assert !Prime(60);
    assert Prime(61);
    assert !Prime(62);
    assert !Prime(63);
  }

  // ---- arithmetic ----

  lemma MulLe(a: int, b: int, c: int)
    requires 0 <= a && b <= c
    ensures a * b <= a * c
  {
  }

  /** Squaring is monotonic on non-negative numbers. */
  lemma SquareMono(a: int, b: int)
    requires 0 <= a
    ensures a <= b ==> a * a <= b * b
  {
    if a <= b {
      MulLe(a, a, b);
      MulLe(b, a, b);
    }
  }

  /** The sign of `d * t` for positive `d`, as facts linear arithmetic can use. */
  lemma MulSign(d: int, t: int)
    requires d > 0
    ensures t >= 1 ==> d * t >= d
    ensures t <= -1 ==> d * t <= -d
    ensures t == 0 ==> d * t == 0
  {
    if t >= 1 {
      MulLe(d, 1, t);
    } else if t <= -1 {
      MulLe(d, t, -1);
    }
  }

  lemma DividesProduct(d: int, k: int)
    requires d > 0
    ensures Divides(d, d * k)
  {
    var q := (d * k) / d;
    var r := (d * k) % d;
    assert d * k == d * q + r;
    assert r == d * (k - q);
    MulSign(d, k - q);
  }

  lemma DividesTransitive(d: int, p: int, n: int)
    requires d > 0 && p > 0 && Divides(d, p) && Divides(p, n)
    ensures Divides(d, n)
  {
    var a := p / d;
    var b := n / p;
    assert p == d * a && n == p * b;
    assert n == d * (a * b);
    DividesProduct(d, a * b);
  }

  /** No multiple of `p` lies strictly between a multiple `m` and `m + p`. */
  lemma NoMultipleBetween(p: int, m: int, n: int)
    requires p > 0 && Divides(p, m) && m < n < m + p
    ensures !Divides(p, n)
  {
    var a := m / p;
    var b := n / p;
    assert m == p * a;
    assert n - m == p * (b - a) + n % p;
    MulSign(p, b - a);
  }

  lemma DividesNext(p: int, n: int)
    requires p > 0 && Divides(p, n)
    ensures Divides(p, n + p)
  {
    var a := n / p;
    assert n + p == p * (a + 1);
    DividesProduct(p, a + 1);
  }
}
