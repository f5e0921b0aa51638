/** The Sieve of Eratosthenes over a packed bit set, as
    `numbertheory/SieveOfErastosthenes.java` computes it.
    Number `n` is bit `n % 32` of word `n / 32`; a set bit means "known not to be
    prime", so every number starts out reported as prime (0 and 1 included). */
module Sieve {
  import opened JavaInt
  import opened Primes

  /** The state of a sieve object: the marked bit set and the list of primes
      found, of which the first `primesLen` slots are filled. */
  datatype Sieve = Sieve(primeBitSet: seq<bv32>, primes: seq<int>, primesLen: int)

  /** What `calculateUpTo` produces: a sieve, or the prime it found no free slot
      of the list for (the Java code throws an index-out-of-bounds exception). */
  datatype Outcome = Done(sieve: Sieve) | PrimeListOverflow(prime: int)

  /** The answer of a lookup, or the index-out-of-bounds (or null) failure the Java
      code raises for an index outside the arrays. */
  datatype Lookup<T> = Answer(value: T) | OutOfBounds

  /** A newly constructed sieve, before `calculateUpTo`: no bits, no primes. */
  const Unsieved: Sieve := Sieve([], [], 0)

  // ---- the packed bit set ----

  /** The word holding number `n` (`number >> 5`). */
  function WordIndex(n: nat): (w: nat)
    ensures 32 * w <= n < 32 * w + 32
  {
    n / 32
  }

  /** The bit of that word holding number `n` (`number % 32`). */
  function BitIndex(n: nat): (b: nat)
    ensures b < 32 && n == 32 * WordIndex(n) + b
  {
    n % 32
  }

  /** The bit of `n` is set: `n` has been marked as not prime. */
  predicate Marked(bits: seq<bv32>, n: nat)
    requires n < 32 * |bits|
  {
    bits[WordIndex(n)] & ((1 as bv32) << BitIndex(n)) != 0
  }

  /** Setting bit `a` of a word leaves every other bit as it was. */
  lemma SetBitEffect(x: bv32, a: nat, b: nat)
    requires a < 32 && b < 32
    ensures (x | ((1 as bv32) << a)) & ((1 as bv32) << b) != 0 <==> a == b || x & ((1 as bv32) << b) != 0
  {
  }

  /** Marks `n` as not prime; every other number keeps its mark. */
  function SetNonPrime(bits: seq<bv32>, n: nat): (r: seq<bv32>)
    requires n < 32 * |bits|
    ensures |r| == |bits|
    ensures forall k :: 0 <= k < 32 * |bits| ==> (Marked(r, k) <==> k == n || Marked(bits, k))
  {
    var w := WordIndex(n);
    var r := bits[w := bits[w] | ((1 as bv32) << BitIndex(n))];
    assert forall k :: 0 <= k < 32 * |bits| ==> (Marked(r, k) <==> k == n || Marked(bits, k)) by {
      forall k | 0 <= k < 32 * |bits|
        ensures Marked(r, k) <==> k == n || Marked(bits, k)
      {
        if WordIndex(k) == w {
          SetBitEffect(bits[w], BitIndex(n), BitIndex(k));
        }
      }
    }
    r
  }

  /** All words zero: nothing is marked. */
  lemma NothingMarked(bits: seq<bv32>)
    requires forall i :: 0 <= i < |bits| ==> bits[i] == 0
    ensures forall n :: 0 <= n < 32 * |bits| ==> !Marked(bits, n)
  {
  }

  // ---- calculateUpTo ----

  /** Bounds this model accepts for `calculateUpTo`: below them every `int`
      computation of the method stays in range (larger bounds overflow the
      marking loop's `num += prime`). */
  const SieveLimit: int := 0x7FFF_0000

  /** The bound actually sieved: `maxNumber` rounded up past the next multiple
      of 32 (`((maxNumber >> 5) + 1) << 5`). */
  function RoundedMax(maxNumber: nat): (r: nat)
    ensures r % 32 == 0 && maxNumber < r <= maxNumber + 32
  {
    32 * (maxNumber / 32 + 1)
  }

  /** `(int) Math.sqrt(n)`: the integer square root of `n`. */
  function FloorSqrt(n: nat): (r: nat)
    ensures r * r <= n < (r + 1) * (r + 1)
  {
    if n == 0 then 0
    else
      var s := FloorSqrt(n - 1);
      assert (s + 2) * (s + 2) == (s + 1) * (s + 1) + 2 * s + 3;
      if (s + 1) * (s + 1) <= n then s + 1 else s
  }

  /** The marking loop: sets the bit of every multiple of `p` from `2 * p` up
      to `end`, stepping by `p`, and of nothing else. For `p == 2` this is also
      the first loop of `calculateUpTo`, which starts at `prime + 2`. */
  method MarkMultiples(bits: seq<bv32>, p: nat, end: nat) returns (r: seq<bv32>)
    requires 2 <= p && p * p <= end && end == 32 * |bits| && end <= SieveLimit
    ensures |r| == |bits|
    ensures forall n :: 0 <= n < end ==> (Marked(r, n) <==> Marked(bits, n) || (p < n && Divides(p, n)))
  {
    SquareMono(46341, p);
    r := bits;
    var num := 2 * p;
    DividesProduct(p, 1);
    DividesProduct(p, 2);
    forall n | p < n < num
      ensures !Divides(p, n)
    {
      NoMultipleBetween(p, p, n);
    }
    while num < end
      invariant |r| == |bits|
      invariant p < num && Divides(p, num)
      invariant forall n :: 0 <= n < end ==> (Marked(r, n) <==> Marked(bits, n) || (p < n < num && Divides(p, n)))
      decreases end - num
    {
      r := SetNonPrime(r, num);
      forall n | 0 <= n < end
        ensures Marked(r, n) <==> Marked(bits, n) || (p < n < num + p && Divides(p, n))
      {
        if num < n < num + p {
          NoMultipleBetween(p, num, n);
        }
      }
      assert InRange(num + p, W32);
      DividesNext(p, num);
      num := num + p;
    }
  }

  /** The number of bits of a sieve: every number below it has an answer. */
  function Bound(s: Sieve): nat {
    32 * |s.primeBitSet|
  }

  /** A sieve as `calculateUpTo` leaves it: exactly the numbers from 2 up that
      are not prime are marked, and the list holds the primes below the bound,
      in ascending order, followed by unused zero slots. */
  ghost predicate Sieved(s: Sieve) {
    && (forall n :: 0 <= n < Bound(s) ==> (Marked(s.primeBitSet, n) <==> n >= 2 && !Prime(n)))
    && 0 <= s.primesLen <= |s.primes|
    && s.primes[..s.primesLen] == PrimesBelow(Bound(s))
    && (forall i :: s.primesLen <= i < |s.primes| ==> s.primes[i] == 0)
  }

  /** The marks are those of sifting with every number in `[2, k)`. */
  ghost predicate SiftedBelow(bits: seq<bv32>, k: int) {
    forall n :: 0 <= n < 32 * |bits| ==> (Marked(bits, n) <==> HasProperDivisorBelow(n, k))
  }

  /** The list holds the primes below `k`, then unused zero slots. */
  ghost predicate ListedBelow(primes: seq<int>, count: int, k: nat) {
    && 0 <= count <= |primes|
    && primes[..count] == PrimesBelow(k)
    && (forall i :: count <= i < |primes| ==> primes[i] == 0)
  }

  /** Appending the next candidate `p` to the list when it is prime keeps the
      list exact. */
  lemma ListStep(p: nat)
    ensures PrimesBelow(p + 1) == PrimesBelow(p) + (if Prime(p) then [p] else [])
  {
  }

  /** The loop of `calculateUpTo` over the candidates from 3 up to the square
      root of the bound: each one still unmarked is prime, is listed, and has its
      multiples marked. */
  method SiftUpToRoot(s: Sieve, root: nat) returns (r: Outcome)
    requires 5 <= root < Bound(s) <= SieveLimit && root * root <= Bound(s)
    requires SiftedBelow(s.primeBitSet, 3) && ListedBelow(s.primes, s.primesLen, 3)
    ensures r.Done? ==> |r.sieve.primeBitSet| == |s.primeBitSet| && |r.sieve.primes| == |s.primes|
    ensures r.Done? ==> SiftedBelow(r.sieve.primeBitSet, root + 1)
    ensures r.Done? ==> ListedBelow(r.sieve.primes, r.sieve.primesLen, root + 1)
    ensures r.PrimeListOverflow? ==> Prime(r.prime) && r.prime <= root
    ensures r.PrimeListOverflow? ==> |PrimesBelow(r.prime)| == |s.primes|
  {
    var end := Bound(s);
    var bits, primes, count := s.primeBitSet, s.primes, s.primesLen;
    var p := 3;
    while p <= root
      invariant 3 <= p <= root + 1
      invariant |bits| == |s.primeBitSet| && |primes| == |s.primes|
      invariant SiftedBelow(bits, p) && ListedBelow(primes, count, p)
    {
      PrimeIffNoProperDivisor(p);
      if !Marked(bits, p) {
        if count == |primes| {
          return PrimeListOverflow(p);
        }
        primes := primes[count := p];
        count := count + 1;
        SquareMono(p, root);
        bits := MarkMultiples(bits, p, end);
        forall n | 0 <= n < end
          ensures Marked(bits, n) <==> HasProperDivisorBelow(n, p + 1)
        {
          ProperDivisorStep(n, p);
        }
      } else {
        forall n | 0 <= n < end
          ensures HasProperDivisorBelow(n, p + 1) <==> HasProperDivisorBelow(n, p)
        {
          CompositeStep(n, p);
        }
      }
      ListStep(p);
      p := p + 1;
    }
    r := Done(Sieve(bits, primes, count));
  }

  /** The last loop of `calculateUpTo`: above the square root every number
      still unmarked is prime and is listed. */
  method CollectAboveRoot(s: Sieve, root: nat) returns (r: Outcome)
    requires 0 <= root < Bound(s) && root * root <= Bound(s) < (root + 1) * (root + 1)
    requires SiftedBelow(s.primeBitSet, root + 1) && ListedBelow(s.primes, s.primesLen, root + 1)
    ensures r.Done? ==> r.sieve.primeBitSet == s.primeBitSet && |r.sieve.primes| == |s.primes|
    ensures r.Done? ==> ListedBelow(r.sieve.primes, r.sieve.primesLen, Bound(s))
    ensures r.PrimeListOverflow? ==> Prime(r.prime) && r.prime < Bound(s)
    ensures r.PrimeListOverflow? ==> |PrimesBelow(r.prime)| == |s.primes|
  {
    var end := Bound(s);
    var primes, count := s.primes, s.primesLen;
    var p := root + 1;
    while p < end
      invariant root + 1 <= p <= end
      invariant |primes| == |s.primes| && ListedBelow(primes, count, p)
    {
      CompositeBelowRoot(p, end, root);
      if !Marked(s.primeBitSet, p) {
        if count == |primes| {
          return PrimeListOverflow(p);
        }
        primes := primes[count := p];
        count := count + 1;
      }
      ListStep(p);
      p := p + 1;
    }
    r := Done(Sieve(s.primeBitSet, primes, count));
  }

  /** The start of `calculateUpTo`: a cleared bit set rounded up to whole
      words, every even number from 4 up marked, and 2 stored as the first
      prime of a list of `RoundedMax(maxNumber) / slotDivisor` slots. */
  method MarkEvens(maxNumber: int, slotDivisor: int) returns (s: Sieve)
    requires 0 <= maxNumber < SieveLimit
    requires slotDivisor == 2 || slotDivisor == 4
    ensures Bound(s) == RoundedMax(maxNumber) && |s.primes| == RoundedMax(maxNumber) / slotDivisor
    ensures SiftedBelow(s.primeBitSet, 3) && ListedBelow(s.primes, s.primesLen, 3)
  {
    var len := maxNumber / 32 + 1;
    var bits := seq(len, _ => 0 as bv32);
    var end := 32 * len;
    var primes := seq(end / slotDivisor, _ => 0);
    NothingMarked(bits);
    bits := MarkMultiples(bits, 2, end);
    forall n | 0 <= n < end
      ensures Marked(bits, n) <==> HasProperDivisorBelow(n, 3)
    {
      ProperDivisorStep(n, 2);
    }
    primes := primes[0 := 2];
    assert PrimesBelow(3) == [2];
    s := Sieve(bits, primes, 1);
  }

  /** `calculateUpTo` with a list of `RoundedMax(maxNumber) / slotDivisor`
      slots. It succeeds exactly when the primes below the rounded bound fit;
      otherwise it stops at the first prime without a slot. */
  method Sift(maxNumber: int, slotDivisor: int) returns (r: Outcome)
    requires 0 <= maxNumber < SieveLimit
    requires slotDivisor == 2 || slotDivisor == 4
    ensures r.Done? <==> |PrimesBelow(RoundedMax(maxNumber))| <= RoundedMax(maxNumber) / slotDivisor
    ensures r.Done? ==> Sieved(r.sieve) && Bound(r.sieve) == RoundedMax(maxNumber)
    ensures r.Done? ==> |r.sieve.primes| == RoundedMax(maxNumber) / slotDivisor
    ensures r.PrimeListOverflow? ==> Prime(r.prime) && r.prime < RoundedMax(maxNumber)
    ensures r.PrimeListOverflow? ==> |PrimesBelow(r.prime)| == RoundedMax(maxNumber) / slotDivisor
  {
    var s := MarkEvens(maxNumber, slotDivisor);
    var end := Bound(s);
    var root := FloorSqrt(end);
    SquareMono(root + 1, 5);
    MulLe(root, 2, root);
    r := SiftUpToRoot(s, root);
    if r.Done? {
      r := CollectAboveRoot(r.sieve, root);
    }
    if r.Done? {
      SiftedIsSieved(r.sieve, root);
    } else {
      PrimesBelowGrows(r.prime, end);
    }
  }

  /** Sifting up to the square root and listing up to the bound is the whole
      job. */
  lemma SiftedIsSieved(s: Sieve, root: nat)
    requires root * root <= Bound(s) < (root + 1) * (root + 1)
    requires SiftedBelow(s.primeBitSet, root + 1) && ListedBelow(s.primes, s.primesLen, Bound(s))
    ensures Sieved(s)
  {
    forall n | 0 <= n < Bound(s)
      ensures Marked(s.primeBitSet, n) <==> n >= 2 && !Prime(n)
    {
      CompositeBelowRoot(n, Bound(s), root);
    }
  }

  /** `calculateUpTo` as written: the list gets a quarter of the rounded bound
      as slots. */
  method CalculateUpTo(maxNumber: int) returns (r: Outcome)
    requires 0 <= maxNumber < SieveLimit
    ensures r.Done? <==> |PrimesBelow(RoundedMax(maxNumber))| <= RoundedMax(maxNumber) / 4
    ensures r.Done? ==> Sieved(r.sieve) && Bound(r.sieve) == RoundedMax(maxNumber)
    ensures r.Done? ==> |r.sieve.primes| == RoundedMax(maxNumber) / 4
    ensures r.PrimeListOverflow? ==> Prime(r.prime) && |PrimesBelow(r.prime)| == RoundedMax(maxNumber) / 4
  {
    r := Sift(maxNumber, 4);
  }

  /** For every bound below 64 the quarter-size list is too short: the 11 primes
      below 32 do not fit in 8 slots, nor the 18 primes below 64 in 16, so
      `calculateUpTo` as written fails. */
  lemma QuarterListTooShort(maxNumber: nat)
    requires maxNumber < 64
    ensures |PrimesBelow(RoundedMax(maxNumber))| > RoundedMax(maxNumber) / 4
  {
    if maxNumber < 32 {
      assert RoundedMax(maxNumber) == 32;
      PrimesBelow32();
    } else {
      assert RoundedMax(maxNumber) == 64;
      PrimesBelow64();
    }
  }

  /** `calculateUpTo` with half the rounded bound as slots, which always
      suffices: apart from 2 every prime is odd. */
  method CalculateUpToCorrected(maxNumber: int) returns (s: Sieve)
    requires 0 <= maxNumber < SieveLimit
    ensures Sieved(s) && Bound(s) == RoundedMax(maxNumber)
    ensures |s.primes| == RoundedMax(maxNumber) / 2
  {
    PrimesBelowHalf(RoundedMax(maxNumber));
    var r := Sift(maxNumber, 2);
    s := r.sieve;
  }

  // ---- lookups ----

  /** `getNumberOfPrimes`: how many primes lie below the bound. */
  function NumberOfPrimes(s: Sieve): (r: int)
    requires Sieved(s)
    ensures r == |PrimesBelow(Bound(s))|
  {
    s.primesLen
  }

  /** `getPrimeAtIndex`: the `index`-th smallest prime while `index` is below
      the count; an unused slot reads as 0; outside the list the Java code
      throws. */
  function PrimeAtIndex(s: Sieve, index: int): (r: Lookup<int>)
    requires Sieved(s)
    ensures r.Answer? <==> 0 <= index < |s.primes|
    ensures 0 <= index < s.primesLen ==> Prime(r.value) && r.value < Bound(s)
    ensures 0 <= index < s.primesLen ==> |PrimesBelow(r.value)| == index
    ensures s.primesLen <= index < |s.primes| ==> r.value == 0
  {
    if 0 <= index < |s.primes| then
      if index < s.primesLen then
        PrimesBelowSpec(Bound(s));
        PrimesBelowRank(Bound(s), index);
        assert s.primes[index] == PrimesBelow(Bound(s))[index];
        Answer(s.primes[index])
      else
        Answer(s.primes[index])
    else
      OutOfBounds
  }

  /** `isPrime`: whether the bit of `num` is clear. Every number from 2 up below
      the bound is answered correctly; 0 and 1 are reported as prime; outside
      the bit set the Java code throws. */
  function IsPrime(s: Sieve, num: int): (r: Lookup<bool>)
    requires Sieved(s)
    ensures r.Answer? <==> 0 <= num < Bound(s)
    ensures r.Answer? ==> (r.value <==> num < 2 || Prime(num))
  {
    if 0 <= num < Bound(s) then Answer(!Marked(s.primeBitSet, num)) else OutOfBounds
  }

  /** The two views of a sieve agree: from 2 up, a number is reported prime
      exactly when it is in the list of primes found. */
  lemma ReportedIffListed(s: Sieve, num: int)
    requires Sieved(s) && 2 <= num < Bound(s)
    ensures IsPrime(s, num) == Answer(true) <==> num in s.primes[..s.primesLen]
  {
    PrimesBelowSpec(Bound(s));
  }

  /** The list is ascending: a later index holds a larger prime. */
  lemma PrimesAscending(s: Sieve, i: int, j: int)
    requires Sieved(s) && 0 <= i < j < s.primesLen
    ensures PrimeAtIndex(s, i).value < PrimeAtIndex(s, j).value
  {
    PrimesBelowSpec(Bound(s));
    assert s.primes[i] == PrimesBelow(Bound(s))[i];
    assert s.primes[j] == PrimesBelow(Bound(s))[j];
  }

  /** A sieved state is determined by its bound and the length of its list
      (which `calculateUpTo` fixes from the bound): two of them answer every
      lookup alike. */
  lemma SievedDeterminedByBound(s: Sieve, t: Sieve, num: int, index: int)
    requires Sieved(s) && Sieved(t) && Bound(s) == Bound(t) && |s.primes| == |t.primes|
    ensures IsPrime(s, num) == IsPrime(t, num)
    ensures NumberOfPrimes(s) == NumberOfPrimes(t)
    ensures PrimeAtIndex(s, index) == PrimeAtIndex(t, index)
  {
    if 0 <= index < NumberOfPrimes(s) {
      assert s.primes[index] == PrimesBelow(Bound(s))[index] == t.primes[index];
    }
  }

  /** A sieve before `calculateUpTo` lists nothing and answers no number. */
  lemma UnsievedAnswersNothing(num: int)
    ensures Sieved(Unsieved) && NumberOfPrimes(Unsieved) == 0
    ensures IsPrime(Unsieved, num) == OutOfBounds
  {
  }
}
