/** The sequential prime-sieve benchmark: the Sieve of Eratosthenes over a flag
    array of `limit + 1` entries, crossing off multiples of each surviving factor
    from its square on, while the square does not exceed `limit`. */
module PrimeSieve {

  predicate Divides(d: int, k: int)
    requires d > 0
  {
    k % d == 0
  }

  /** The reference definition: at least 2 and no divisor strictly between 1 and itself. */
  predicate IsPrime(p: int) {
    p >= 2 && forall d :: 2 <= d < p ==> !Divides(d, p)
  }

  /** `k` is still flagged once every factor below `f` has been processed: it is at
      least 2 and no `d` in `[2, f)` with `d * d <= k` divides it. */
  predicate Survives(k: int, f: int) {
    k >= 2 && forall d :: 2 <= d < f && d * d <= k ==> !Divides(d, k)
  }

  lemma MulSign(d: int, t: int)
    requires d > 0
    ensures t >= 1 ==> d * t >= d
    ensures t <= -1 ==> d * t <= -d
  {
  }

  lemma MulLeft(a: int, b: int, c: int)
    requires a >= 0 && b <= c
    ensures a * b <= a * c
  {
  }

  /** Quotient and remainder are unique. */
  lemma DivMod(k: int, d: int, q: int, r: int)
    requires d > 0 && k == d * q + r && 0 <= r < d
    ensures k / d == q && k % d == r
  {
    var q', r' := k / d, k % d;
    assert d * (q - q') == r' - r;
    MulSign(d, q - q');
  }

  lemma MulDivides(d: int, c: int)
    requires d > 0
    ensures Divides(d, d * c)
  {
    DivMod(d * c, d, c, 0);
  }

  lemma DividesWitness(d: int, k: int)
    requires d > 0 && Divides(d, k)
    ensures k == d * (k / d)
  {
  }

  /** Divisibility is transitive. */
  lemma DividesTrans(d: int, f: int, k: int)
    requires d > 0 && f > 0
    ensures Divides(d, f) && Divides(f, k) ==> Divides(d, k)
  {
    if Divides(d, f) && Divides(f, k) {
      DividesWitness(d, f);
      DividesWitness(f, k);
      var a, b := f / d, k / f;
      assert k == d * (a * b);
      MulDivides(d, a * b);
    }
  }

  lemma SquareBelow(d: int, f: int, k: int)
    requires 1 <= d && 1 <= f
    ensures d * d <= f && f * f <= k ==> d * d <= k
  {
    MulSign(f, f);
  }

  lemma MulMonotone(a: int, b: int)
    requires 0 <= a <= b
    ensures a * a <= b * b
  {
    MulLeft(a, a, b);
    MulLeft(b, a, b);
  }

  /** Between two consecutive multiples of `f` lies no other. */
  lemma NoMultipleBetween(f: int, m: int, k: int)
    requires f > 0 && Divides(f, m) && m < k < m + f
    ensures !Divides(f, k)
  {
    DividesWitness(f, m);
    DivMod(k, f, m / f, k - m);
  }

  lemma MultipleNext(f: int, m: int)
    requires f > 0 && Divides(f, m)
    ensures Divides(f, m + f)
  {
    DividesWitness(f, m);
    DivMod(m + f, f, m / f + 1, 0);
  }

  /** Crossing off the multiples of `f` from `f * f` on turns survivors of `f` into survivors of `f + 1`. */
  lemma SurvivesNext(k: int, f: int)
    requires f >= 2
    ensures Survives(k, f + 1) == (Survives(k, f) && !(f * f <= k && Divides(f, k)))
  {
  }

  /** A factor that did not survive has a smaller divisor, which already crossed off
      every multiple of it from its square on. */
  lemma CompositeSkip(k: int, f: int)
    requires f >= 2 && !Survives(f, f) && Survives(k, f)
    ensures !(f * f <= k && Divides(f, k))
  {
    var d :| 2 <= d < f && d * d <= f && Divides(d, f);
    DividesTrans(d, f, k);
    SquareBelow(d, f, k);
  }

  /** A composite `k` has a divisor `e >= 2` with `e * e <= k`. */
  lemma SmallDivisor(k: int, d: int) returns (e: int)
    requires 2 <= d < k && Divides(d, k)
    ensures 2 <= e && e * e <= k && Divides(e, k)
  {
    DividesWitness(d, k);
    var c := k / d;
    MulSign(d, c);
    assert c >= 2;
    assert Divides(c, k) by {
      assert k == c * d;
      MulDivides(c, d);
    }
    if d <= c {
      MulLeft(d, d, c);
      e := d;
    } else {
      MulLeft(c, c, d);
      e := c;
    }
  }

  /** Once `f * f` exceeds `k`, surviving every factor below `f` is being prime. */
  lemma SurvivesIsPrime(k: int, f: int)
    requires 2 <= f && 0 <= k < f * f
    ensures Survives(k, f) == IsPrime(k)
  {
    if IsPrime(k) {
      forall d | 2 <= d < f && d * d <= k
        ensures !Divides(d, k)
      {
        assert 2 * d <= d * d;
      }
    }
    if Survives(k, f) && !IsPrime(k) {
      var d :| 2 <= d < k && Divides(d, k);
      var e := SmallDivisor(k, d);
      if e >= f {
        MulMonotone(f, e);
      }
    }
  }

  /** `[idx for idx, prime in enumerate(flags) if prime]`. */
  function TrueIndices(flags: seq<bool>): (r: seq<int>)
    ensures forall x :: x in r <==> 0 <= x < |flags| && flags[x]
    ensures forall i, j :: 0 <= i < j < |r| ==> r[i] < r[j]
  {
    if flags == [] then []
    else
      var init := TrueIndices(flags[..|flags| - 1]);
      assert forall i :: 0 <= i < |init| ==> init[i] in init;
      init + (if flags[|flags| - 1] then [|flags| - 1] else [])
  }

  /** Every flag agrees with survival of every factor below `f`. */
  predicate SievedBelow(flags: seq<bool>, f: int) {
    forall k :: 0 <= k < |flags| ==> flags[k] == Survives(k, f)
  }

  /** Inside the crossing-off loop for `f`: the multiples of `f` from `f * f` up to `m` are cleared. */
  predicate CrossedBelow(flags: seq<bool>, f: int, m: int)
    requires f > 0
  {
    forall k :: 0 <= k < |flags| ==> flags[k] == (Survives(k, f) && !(f * f <= k < m && Divides(f, k)))
  }

  lemma CrossStart(flags: seq<bool>, f: int)
    requires f > 0 && SievedBelow(flags, f)
    ensures CrossedBelow(flags, f, f * f)
  {
  }

  lemma CrossStep(flags: seq<bool>, f: int, m: int)
    requires f > 0 && CrossedBelow(flags, f, m) && Divides(f, m) && 0 <= f * f <= m < |flags|
    ensures CrossedBelow(flags[m := false], f, m + f) && Divides(f, m + f)
  {
    forall k | m < k < m + f {
      NoMultipleBetween(f, m, k);
    }
    MultipleNext(f, m);
  }

  lemma CrossDone(flags: seq<bool>, f: int, m: int)
    requires f >= 2 && CrossedBelow(flags, f, m) && m >= |flags|
    ensures SievedBelow(flags, f + 1)
  {
    forall k | 0 <= k < |flags| {
      SurvivesNext(k, f);
    }
  }

  /** A factor that is no longer flagged crosses off nothing new. */
  lemma SkipComposite(flags: seq<bool>, f: int)
    requires 2 <= f < |flags| && SievedBelow(flags, f) && !flags[f]
    ensures SievedBelow(flags, f + 1)
  {
    forall k | 0 <= k < |flags|
      ensures flags[k] == Survives(k, f + 1)
    {
      SurvivesNext(k, f);
      if Survives(k, f) {
        CompositeSkip(k, f);
      }
    }
  }

  /** When the loop stops, the flags are exactly primality. */
  lemma SievedPrimes(flags: seq<bool>, f: int)
    requires 2 <= f && |flags| <= f * f && SievedBelow(flags, f)
    ensures forall k :: 0 <= k < |flags| ==> flags[k] == IsPrime(k)
  {
    forall k | 0 <= k < |flags| {
      SurvivesIsPrime(k, f);
    }
  }

  /** `for multiple in range(factor * factor, len(flags), factor): flags[multiple] = False`. */
  method CrossOff(isPrime: array<bool>, factor: int)
    requires 2 <= factor && SievedBelow(isPrime[..], factor)
    modifies isPrime
    ensures SievedBelow(isPrime[..], factor + 1)
  {
    var multiple := factor * factor;
    CrossStart(isPrime[..], factor);
    MulDivides(factor, factor);
    while multiple < isPrime.Length
      invariant factor * factor <= multiple && Divides(factor, multiple)
      invariant CrossedBelow(isPrime[..], factor, multiple)
      decreases isPrime.Length - multiple
    {
      CrossStep(isPrime[..], factor, multiple);
      isPrime[multiple] := false;
      multiple := multiple + factor;
    }
    CrossDone(isPrime[..], factor, multiple);
  }

  /** `sieve(limit)`: exactly the primes up to `limit`, in ascending order. */
  method Sieve(limit: int) returns (primes: seq<int>)
    ensures limit < 2 ==> primes == []
    ensures forall p :: p in primes <==> 2 <= p <= limit && IsPrime(p)
    ensures forall i, j :: 0 <= i < j < |primes| ==> primes[i] < primes[j]
  {
    if limit < 2 {
      return [];
    }
    var isPrime := new bool[limit + 1](_ => true);
    isPrime[0], isPrime[1] := false, false;
    var factor := 2;
    while factor * factor <= limit
      invariant 2 <= factor <= limit
      invariant SievedBelow(isPrime[..], factor)
      decreases limit - factor
    {
      if isPrime[factor] {
        CrossOff(isPrime, factor);
      } else {
        SkipComposite(isPrime[..], factor);
      }
      factor := factor + 1;
    }
    SievedPrimes(isPrime[..], factor);
    primes := TrueIndices(isPrime[..]);
  }
}
