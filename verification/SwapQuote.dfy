/** The constant-product quote of the liquidity manager. */
module SwapQuote {
  import opened Words

  const BASIS := 10_000

  datatype Pool = Pool(reserveA: nat, reserveB: nat, feeBps: nat)

  // ----- The computation as written, in 32- and 64-bit arithmetic -----

  /** The fee is subtracted from 10000 in 32 bits, the product taken in 64. */
  function Net64(x: nat, feeBps: nat): nat {
    (x * ((BASIS - feeBps) % TWO_TO_THE_32)) % TWO_TO_THE_64 / BASIS
  }

  function Denominator64(reserveIn: nat, feeBps: nat, x: nat): nat {
    (reserveIn + Net64(x, feeBps)) % TWO_TO_THE_64
  }

  function Quote64(reserveIn: nat, reserveOut: nat, feeBps: nat, x: nat): nat
    requires reserveIn > 0 && reserveOut > 0 ==> Denominator64(reserveIn, feeBps, x) != 0
  {
    if reserveIn == 0 || reserveOut == 0 then 0
    else (Net64(x, feeBps) * reserveOut) % TWO_TO_THE_64 / Denominator64(reserveIn, feeBps, x)
  }

  class LiquidityManager {
    var pools: seq<Pool>

    constructor ()
      ensures pools == []
    {
      pools := [];
    }

    /** A denominator that wraps to 0 divides by zero. While the denominator does not wrap at all,
        less than the reserve is paid out and the product of the reserves does not fall; while nothing
        wraps, the quote is the one that a run of swaps moves the reserves by. */
    method CalculateSwap(id: nat, amountIn: nat, isTokenA: bool) returns (amountOut: nat)
      requires id < |pools| && pools[id].reserveA > 0 && pools[id].reserveB > 0 ==>
                 Denominator64(if isTokenA then pools[id].reserveA else pools[id].reserveB,
                               pools[id].feeBps, amountIn) != 0
      ensures id >= |pools| ==> amountOut == 0
      ensures id < |pools| && isTokenA ==>
                Quoted(pools[id].reserveA, pools[id].reserveB, pools[id].feeBps, amountIn, amountOut)
      ensures id < |pools| && !isTokenA ==>
                Quoted(pools[id].reserveB, pools[id].reserveA, pools[id].feeBps, amountIn, amountOut)
      ensures id < |pools| && isTokenA && Fits(pools[id].reserveA, pools[id].reserveB, pools[id].feeBps, amountIn) ==>
                var p, q := pools[id], Apply(pools[id], Swap(true, amountIn));
                q.reserveA == p.reserveA + amountIn && q.reserveB == p.reserveB - amountOut
      ensures id < |pools| && !isTokenA && Fits(pools[id].reserveB, pools[id].reserveA, pools[id].feeBps, amountIn) ==>
                var p, q := pools[id], Apply(pools[id], Swap(false, amountIn));
                q.reserveB == p.reserveB + amountIn && q.reserveA == p.reserveA - amountOut
    {
      if id >= |pools| { return 0; }
      var pool := pools[id];
      var reserveIn := if isTokenA then pool.reserveA else pool.reserveB;
      var reserveOut := if isTokenA then pool.reserveB else pool.reserveA;
      QuoteContract(reserveIn, reserveOut, pool.feeBps, amountIn);
      amountOut := ComputeAmountOut(reserveIn, reserveOut, pool.feeBps, amountIn);
    }
  }

  /** What a quote of y for an amount x promises. */
  predicate Quoted(reserveIn: nat, reserveOut: nat, feeBps: nat, x: nat, y: nat) {
    && (reserveIn > 0 && reserveOut > 0 ==> Denominator64(reserveIn, feeBps, x) != 0)
    && y == Quote64(reserveIn, reserveOut, feeBps, x)
    && (Fits(reserveIn, reserveOut, feeBps, x) ==> y == Quote(reserveIn, reserveOut, feeBps, x))
    && (reserveIn + Net64(x, feeBps) < TWO_TO_THE_64 ==> Sound(reserveIn, reserveOut, feeBps, x, y))
  }

  /** The arithmetic of CalculateSwap once the pool is found. */
  method ComputeAmountOut(reserveIn: nat, reserveOut: nat, feeBps: nat, amountIn: nat) returns (amountOut: nat)
    requires reserveIn > 0 && reserveOut > 0 ==> Denominator64(reserveIn, feeBps, amountIn) != 0
    ensures amountOut == Quote64(reserveIn, reserveOut, feeBps, amountIn)
  {
    if reserveIn == 0 || reserveOut == 0 { return 0; }
    var net := Net64(amountIn, feeBps);
    amountOut := (net * reserveOut) % TWO_TO_THE_64 / ((reserveIn + net) % TWO_TO_THE_64);
  }

  // ----- The same over the naturals -----

  function Net(x: nat, feeBps: nat): (n: nat)
    requires feeBps <= BASIS
  {
    x * (BASIS - feeBps) / BASIS
  }

  function Quote(reserveIn: nat, reserveOut: nat, feeBps: nat, x: nat): nat
    requires feeBps <= BASIS
  {
    if reserveIn == 0 || reserveOut == 0 then 0
    else Share(reserveIn, reserveOut, Net(x, feeBps))
  }

  /** What a net amount n buys. */
  function Share(i: nat, o: nat, n: nat): nat
    requires i > 0
  {
    n * o / (i + n)
  }

  /** No intermediate value reaches 2^64. */
  predicate Fits(reserveIn: nat, reserveOut: nat, feeBps: nat, x: nat) {
    feeBps <= BASIS && x * (BASIS - feeBps) < TWO_TO_THE_64 &&
    Net(x, feeBps) * reserveOut < TWO_TO_THE_64 && reserveIn + Net(x, feeBps) < TWO_TO_THE_64
  }

  /** A caller's way to see that nothing wraps. */
  lemma SmallAmountsFit(reserveIn: nat, reserveOut: nat, feeBps: nat, x: nat)
    requires feeBps <= 10_000 && x * 10_000 < TWO_TO_THE_64
    requires x * reserveOut < TWO_TO_THE_64 && reserveIn + x < TWO_TO_THE_64
    ensures Fits(reserveIn, reserveOut, feeBps, x)
  {
    NetAtMost(x, feeBps);
    MulMonotonic(BASIS - feeBps, BASIS, x);
    MulMonotonic(Net(x, feeBps), x, reserveOut);
  }

  /** A quote is below the reserve it is paid from, and the product of the reserves does not fall;
      the latter only for a fee of at most the whole. */
  predicate Sound(reserveIn: nat, reserveOut: nat, feeBps: nat, x: nat, y: nat) {
    (reserveOut > 0 ==> y < reserveOut) &&
    (feeBps <= BASIS ==> (reserveIn + x) * (reserveOut - y) >= reserveIn * reserveOut)
  }

  lemma QuoteContract(i: nat, o: nat, feeBps: nat, x: nat)
    requires i > 0 && o > 0 ==> Denominator64(i, feeBps, x) != 0
    ensures Quoted(i, o, feeBps, x, Quote64(i, o, feeBps, x))
  {
    if Fits(i, o, feeBps, x) {
      QuoteIsExact(i, o, feeBps, x);
    }
    if i + Net64(x, feeBps) < TWO_TO_THE_64 {
      SoundWithoutDenominatorWrap(i, o, feeBps, x);
    }
  }

  lemma RemainderAtMost(x: nat, m: nat)
    requires m > 0
    ensures x % m <= x
  {
  }

  lemma Net64AtMost(x: nat, feeBps: nat)
    requires feeBps <= BASIS
    ensures Net64(x, feeBps) <= x
  {
    var r := BASIS - feeBps;
    Small(r, TWO_TO_THE_32);
    RemainderAtMost(x * r, TWO_TO_THE_64);
    DivisionBounds(x * r % TWO_TO_THE_64, BASIS);
    MulMonotonic(r, BASIS, x);
  }

  /** Other products may wrap, that only lowers the quote. */
  lemma SoundWithoutDenominatorWrap(i: nat, o: nat, feeBps: nat, x: nat)
    requires i + Net64(x, feeBps) < TWO_TO_THE_64
    requires i > 0 && o > 0 ==> Denominator64(i, feeBps, x) != 0
    ensures Sound(i, o, feeBps, x, Quote64(i, o, feeBps, x))
  {
    var n, y := Net64(x, feeBps), Quote64(i, o, feeBps, x);
    if i > 0 && o > 0 {
      Small(i + n, TWO_TO_THE_64);
      RemainderAtMost(n * o, TWO_TO_THE_64);
      QuotientMonotonic(n * o % TWO_TO_THE_64, n * o, i + n);
      ShareBounds(i, o, n);
      if feeBps <= BASIS {
        Net64AtMost(x, feeBps);
        ProductKept(i, o, n, x, Share(i, o, n), y);
      }
    } else {
      assert i * o == 0 && y == 0;
      assert (i + x) * o >= 0;
    }
  }

  /** While the numerator does not wrap, less than the reserve is paid out if and only if the
      denominator does not wrap either. */
  lemma BelowReserveIff(i: uint64, o: uint64, feeBps: nat, x: nat)
    requires i > 0 && o > 0 && Denominator64(i, feeBps, x) != 0
    requires Net64(x, feeBps) * o < TWO_TO_THE_64
    ensures Quote64(i, o, feeBps, x) < o <==> i + Net64(x, feeBps) < TWO_TO_THE_64
  {
    var n := Net64(x, feeBps);
    Small(n * o, TWO_TO_THE_64);
    if i + n < TWO_TO_THE_64 {
      SoundWithoutDenominatorWrap(i, o, feeBps, x);
    } else {
      var d := i + n - TWO_TO_THE_64;
      Net64Below(x, feeBps);
      WrapsOnce(i + n, d);
      MulMonotonic(d, n, o);
      assert o * d == d * o;
      AtMostQuotient(n * o, d, o);
    }
  }

  lemma Net64Below(x: nat, feeBps: nat)
    ensures Net64(x, feeBps) < TWO_TO_THE_64
  {
  }

  lemma WrapsOnce(x: nat, d: nat)
    requires x == TWO_TO_THE_64 + d && d < TWO_TO_THE_64
    ensures x % TWO_TO_THE_64 == d
  {
  }

  lemma QuotientMonotonic(a: nat, b: nat, d: nat)
    requires d > 0 && a <= b
    ensures a / d <= b / d
  {
    var q := a / d;
    DivisionBounds(a, d);
    assert q * d <= b;
    AtMostQuotient(b, d, q);
  }

  lemma ProductKept(i: nat, o: nat, n: nat, x: nat, z: nat, y: nat)
    requires y <= z <= o && n <= x && z * i <= n * (o - z)
    ensures (i + x) * (o - y) >= i * o
  {
    MulMonotonic(n, x, o - z);
    assert (i + x) * (o - z) == i * o - i * z + x * (o - z);
    assert i * z == z * i;
    MulMonotonic(o - z, o - y, i + x);
    assert (o - y) * (i + x) == (i + x) * (o - y) && (o - z) * (i + x) == (i + x) * (o - z);
  }

  /** A denominator that wraps to 0: the one case in which the code divides by zero. */
  lemma DenominatorWrapsToZero()
    ensures Denominator64(TWO_TO_THE_64 - 1, BASIS - 1, BASIS) == 0
  {
    assert Net64(BASIS, BASIS - 1) == 1;
  }

  /** Past 0 a wrapped denominator pays out more than there is. */
  lemma WrappedDenominatorPaysTooMuch()
    ensures Denominator64(TWO_TO_THE_64 - 1, BASIS - 2, BASIS) == 1
    ensures Quote64(TWO_TO_THE_64 - 1, 1, BASIS - 2, BASIS) == 2
  {
    assert Net64(BASIS, BASIS - 2) == 2;
  }

  lemma Small(x: nat, m: nat)
    requires x < m
    ensures x % m == x
  {
  }

  lemma QuoteIsExact(reserveIn: nat, reserveOut: nat, feeBps: nat, x: nat)
    requires Fits(reserveIn, reserveOut, feeBps, x)
    ensures reserveIn > 0 ==> Denominator64(reserveIn, feeBps, x) != 0
    ensures Quote64(reserveIn, reserveOut, feeBps, x) == Quote(reserveIn, reserveOut, feeBps, x)
  {
    var r, n := BASIS - feeBps, Net(x, feeBps);
    Small(r, TWO_TO_THE_32);
    Small(x * r, TWO_TO_THE_64);
    Small(n * reserveOut, TWO_TO_THE_64);
    Small(reserveIn + n, TWO_TO_THE_64);
  }

  // ----- Arithmetic -----

  lemma DivisionBounds(n: nat, d: nat)
    requires d > 0
    ensures n / d * d <= n < (n / d + 1) * d
  {
    assert n == n / d * d + n % d;
    assert (n / d + 1) * d == n / d * d + d;
  }

  lemma AtMostQuotient(n: nat, d: nat, q: nat)
    requires d > 0 && q * d <= n
    ensures q <= n / d
  {
    DivisionBounds(n, d);
    if q > n / d {
      MulMonotonic(n / d + 1, q, d);
      assert false;
    }
  }

  lemma MulMonotonic(a: int, b: int, c: nat)
    requires a <= b
    ensures a * c <= b * c
  {
    assert (b - a) * c >= 0;
    assert (b - a) * c == b * c - a * c;
  }

  lemma NetAtMost(x: nat, feeBps: nat)
    requires feeBps <= BASIS
    ensures Net(x, feeBps) <= x
  {
    var r := BASIS - feeBps;
    DivisionBounds(x * r, BASIS);
    MulMonotonic(r, BASIS, x);
  }

  lemma NetMonotonic(x: nat, x': nat, feeBps: nat)
    requires feeBps <= BASIS && x <= x'
    ensures Net(x, feeBps) <= Net(x', feeBps)
  {
    var r := BASIS - feeBps;
    MulMonotonic(x, x', r);
    DivisionBounds(x * r, BASIS);
    AtMostQuotient(x' * r, BASIS, Net(x, feeBps));
  }

  /** Rounding down twice never gives more than rounding down once. */
  lemma NetSuperadditive(x: nat, y: nat, feeBps: nat)
    requires feeBps <= BASIS
    ensures Net(x, feeBps) + Net(y, feeBps) <= Net(x + y, feeBps)
  {
    var r := BASIS - feeBps;
    DivisionBounds(x * r, BASIS);
    DivisionBounds(y * r, BASIS);
    assert (x + y) * r == x * r + y * r;
    AtMostQuotient((x + y) * r, BASIS, Net(x, feeBps) + Net(y, feeBps));
  }

  /** The two facts all else follows from: less than the reserve goes out, and what the payment
      is worth at the new price covers it. */
  lemma ShareBounds(i: nat, o: nat, n: nat)
    requires i > 0 && o > 0
    ensures var y := Share(i, o, n); y < o && y * i <= n * (o - y)
  {
    var y := Share(i, o, n);
    DivisionBounds(n * o, i + n);
    assert y * (i + n) == y * i + y * n;
    assert n * (o - y) == n * o - n * y;
    assert n * y == y * n;
    assert o * (i + n) == o * i + n * o && o * i > 0;
    if o <= y {
      MulMonotonic(o, y, i + n);
      assert false;
    }
  }

  // ----- The quote without its divisions -----

  lemma QuotientIff(n: nat, d: nat, q: nat)
    requires d > 0
    ensures n / d == q <==> q * d <= n < (q + 1) * d
  {
    DivisionBounds(n, d);
    if q * d <= n < (q + 1) * d {
      AtMostQuotient(n, d, q);
      if q + 1 <= n / d {
        MulMonotonic(q + 1, n / d, d);
        assert false;
      }
    }
  }

  /** n is what is left of x after a fee of feeBps parts in 10000, rounded down. */
  predicate IsNet(x: nat, feeBps: nat, n: nat)
    requires feeBps <= 10_000
  {
    n * 10_000 <= x * (10_000 - feeBps) < (n + 1) * 10_000
  }

  lemma NetIff(x: nat, feeBps: nat, n: nat)
    requires feeBps <= 10_000
    ensures Net(x, feeBps) == n <==> IsNet(x, feeBps, n)
  {
    QuotientIff(x * (10_000 - feeBps), 10_000, n);
  }

  /** The quote is the largest amount y worth no more than the net payment n at the new price. */
  lemma QuoteIff(i: nat, o: nat, feeBps: nat, x: nat, n: nat, y: nat)
    requires feeBps <= 10_000 && i > 0 && o > 0 && IsNet(x, feeBps, n)
    ensures Quote(i, o, feeBps, x) == y <==> y * (i + n) <= n * o < (y + 1) * (i + n)
  {
    NetIff(x, feeBps, n);
    QuotientIff(n * o, i + n, y);
  }

  /** An empty reserve on either side quotes nothing. */
  lemma EmptyReserveQuotesNothing(i: nat, o: nat, feeBps: nat, x: nat)
    requires feeBps <= 10_000 && (i == 0 || o == 0)
    ensures Quote(i, o, feeBps, x) == 0 == Quote64(i, o, feeBps, x)
  {
  }

  /** A fee above the whole wraps in 32 bits: 10000 pay like nearly 2^32. */
  lemma FeeAboveWholeWraps()
    ensures Net64(10_000, 10_001) == TWO_TO_THE_32 - 1
  {
  }

  /** The two sides of a pool are not interchangeable. */
  lemma QuoteOfBothSides()
    ensures Quote(1000, 2000, 0, 100) == 181 && Quote(2000, 1000, 0, 100) == 47
  {
    NetIff(100, 0, 100);
    QuoteIff(1000, 2000, 0, 100, 100, 181);
    QuoteIff(2000, 1000, 0, 100, 100, 47);
  }

  // ----- Properties of one quote and of two -----

  lemma OutputBelowReserve(i: nat, o: nat, feeBps: nat, x: nat)
    requires feeBps <= BASIS && o > 0
    ensures Quote(i, o, feeBps, x) < o
  {
    if i > 0 {
      ShareBounds(i, o, Net(x, feeBps));
    }
  }

  /** The product of the reserves never falls. */
  lemma ProductNeverFalls(i: nat, o: nat, feeBps: nat, x: nat)
    requires feeBps <= BASIS
    ensures Quote(i, o, feeBps, x) <= o
    ensures (i + x) * (o - Quote(i, o, feeBps, x)) >= i * o
  {
    var y := Quote(i, o, feeBps, x);
    if i > 0 && o > 0 {
      ShareBounds(i, o, Net(x, feeBps));
      NetAtMost(x, feeBps);
      MulMonotonic(Net(x, feeBps), x, o - y);
      assert (i + x) * (o - y) == i * o - i * y + x * (o - y);
      assert i * y == y * i;
    } else {
      assert i * o == 0;
      assert (i + x) * (o - y) >= 0;
    }
  }

  /** Selling what was bought never returns more than was paid. */
  lemma RoundTripNeverGains(i: nat, o: nat, feeBps: nat, x: nat)
    requires feeBps <= BASIS && i > 0 && o > 0
    ensures var y := Quote(i, o, feeBps, x); y <= o && Quote(o - y, i + x, feeBps, y) <= x
  {
    var a := Net(x, feeBps);
    var y := Quote(i, o, feeBps, x);
    var b := Net(y, feeBps);
    ShareBounds(i, o, a);
    NetAtMost(x, feeBps);
    NetAtMost(y, feeBps);
    Covered(i, o - y, a, b, x, y);
    var p := o - y;
    DivisionBounds(b * (i + x), p + b);
    Repaid(i, p, x, b, Share(p, i + x, b));
    assert Quote(p, i + x, feeBps, y) == Share(p, i + x, b);
  }

  lemma Covered(i: nat, p: nat, a: nat, b: nat, x: nat, y: nat)
    requires b <= y && a <= x && y * i <= a * p
    ensures b * i <= x * p
  {
    MulMonotonic(b, y, i);
    MulMonotonic(a, x, p);
  }

  lemma Repaid(i: nat, p: nat, x: nat, b: nat, z: nat)
    requires p > 0 && b * i <= x * p && z * (p + b) <= b * (i + x)
    ensures z <= x
  {
    assert b * (i + x) == b * i + b * x;
    assert x * (p + b) == x * p + b * x;
    assert (x + 1) * (p + b) == x * (p + b) + (p + b);
    if x < z {
      MulMonotonic(x + 1, z, p + b);
      assert false;
    }
  }

  lemma QuoteMonotonic(i: nat, o: nat, feeBps: nat, x: nat, x': nat)
    requires feeBps <= BASIS && x <= x'
    ensures Quote(i, o, feeBps, x) <= Quote(i, o, feeBps, x')
  {
    if i > 0 && o > 0 {
      NetMonotonic(x, x', feeBps);
      ShareMonotonic(i, o, Net(x, feeBps), Net(x', feeBps));
    }
  }

  lemma ShareMonotonic(i: nat, o: nat, n: nat, n': nat)
    requires i > 0 && o > 0 && n <= n'
    ensures Share(i, o, n) <= Share(i, o, n')
  {
    var y := Share(i, o, n);
    ShareBounds(i, o, n);
    MulMonotonic(n, n', o - y);
    assert n' * (o - y) == n' * o - n' * y;
    assert y * (i + n') == y * i + n' * y;
    AtMostQuotient(n' * o, i + n', y);
  }

  /** Two swaps in a row never pay more than one of the same total. */
  lemma SplittingNeverGains(i: nat, o: nat, feeBps: nat, x1: nat, x2: nat)
    requires feeBps <= BASIS && i > 0 && o > 0
    ensures var y1 := Quote(i, o, feeBps, x1);
            y1 <= o && y1 + Quote(i + x1, o - y1, feeBps, x2) <= Quote(i, o, feeBps, x1 + x2)
  {
    var a, b, c := Net(x1, feeBps), Net(x2, feeBps), Net(x1 + x2, feeBps);
    var y1 := Quote(i, o, feeBps, x1);
    ShareBounds(i, o, a);
    NetAtMost(x1, feeBps);
    NetSuperadditive(x1, x2, feeBps);
    var p := o - y1;
    var y2 := Quote(i + x1, p, feeBps, x2);
    ShareBounds(i + x1, p, b);
    var r := p - y2;
    SplitCovers(i, o, a, b, c, x1, y1, y2);
    AtMostQuotient(c * o, i + c, y1 + y2);
  }

  lemma SplitCovers(i: nat, o: nat, a: nat, b: nat, c: nat, x1: nat, y1: nat, y2: nat)
    requires y1 + y2 <= o && a <= x1 && a + b <= c
    requires y1 * i <= a * (o - y1)
    requires y2 * (i + x1) <= b * (o - y1 - y2)
    ensures (y1 + y2) * (i + c) <= c * o
  {
    var p, r := o - y1, o - y1 - y2;
    MulMonotonic(i + a, i + x1, y2);
    assert y2 * (i + a) <= b * r;
    assert y2 * (i + a) == y2 * i + y2 * a;
    assert a * p == a * r + a * y2;
    assert y1 * i + y2 * i <= a * r + b * r;
    MulMonotonic(a + b, c, r);
    assert (a + b) * r == a * r + b * r;
    assert (y1 + y2) * i == y1 * i + y2 * i;
    assert (y1 + y2) * i <= c * r;
    assert c * o == c * r + c * (y1 + y2);
    assert (y1 + y2) * (i + c) == (y1 + y2) * i + c * (y1 + y2);
  }

  // ----- Runs of swaps in both directions -----

  datatype Swap = Swap(isTokenA: bool, amountIn: nat)

  function Apply(p: Pool, s: Swap): (q: Pool)
    requires p.feeBps <= BASIS
    ensures q.feeBps == p.feeBps
  {
    if s.isTokenA then
      ProductNeverFalls(p.reserveA, p.reserveB, p.feeBps, s.amountIn);
      Pool(p.reserveA + s.amountIn, p.reserveB - Quote(p.reserveA, p.reserveB, p.feeBps, s.amountIn), p.feeBps)
    else
      ProductNeverFalls(p.reserveB, p.reserveA, p.feeBps, s.amountIn);
      Pool(p.reserveA - Quote(p.reserveB, p.reserveA, p.feeBps, s.amountIn), p.reserveB + s.amountIn, p.feeBps)
  }

  function Run(p: Pool, swaps: seq<Swap>): (q: Pool)
    requires p.feeBps <= BASIS
    decreases |swaps|
  {
    if swaps == [] then p else Run(Apply(p, swaps[0]), swaps[1..])
  }

  lemma ApplyKeepsProduct(p: Pool, s: Swap)
    requires p.feeBps <= BASIS
    ensures var q := Apply(p, s); q.reserveA * q.reserveB >= p.reserveA * p.reserveB
  {
    var a, b, x := p.reserveA, p.reserveB, s.amountIn;
    if s.isTokenA {
      ProductNeverFalls(a, b, p.feeBps, x);
    } else {
      ProductNeverFalls(b, a, p.feeBps, x);
      Commutes(a, b);
      Commutes(Apply(p, s).reserveA, Apply(p, s).reserveB);
    }
  }

  lemma Commutes(a: int, b: int)
    ensures a * b == b * a
  {
  }

  lemma {:induction false} RunProductNeverFalls(p: Pool, swaps: seq<Swap>)
    requires p.feeBps <= BASIS
    ensures var q := Run(p, swaps); q.reserveA * q.reserveB >= p.reserveA * p.reserveB
    decreases |swaps|
  {
    if swaps != [] {
      ApplyKeepsProduct(p, swaps[0]);
      RunProductNeverFalls(Apply(p, swaps[0]), swaps[1..]);
    }
  }

  /** No run of swaps takes out of one reserve without leaving more in the other. */
  lemma NoFreeLunch(p: Pool, swaps: seq<Swap>)
    requires p.feeBps <= BASIS && p.reserveA > 0 && p.reserveB > 0
    ensures var q := Run(p, swaps);
            (q.reserveA < p.reserveA ==> q.reserveB > p.reserveB) &&
            (q.reserveB < p.reserveB ==> q.reserveA > p.reserveA)
  {
    var q := Run(p, swaps);
    RunProductNeverFalls(p, swaps);
    Commutes(p.reserveA, p.reserveB);
    Commutes(q.reserveA, q.reserveB);
    LargerProduct(p.reserveA, p.reserveB, q.reserveA, q.reserveB);
    LargerProduct(p.reserveB, p.reserveA, q.reserveB, q.reserveA);
  }

  lemma LargerProduct(a: nat, b: nat, a': nat, b': nat)
    requires b > 0 && a' * b' >= a * b
    ensures a' < a ==> b' > b
  {
    if a' < a {
      Commutes(b', a');
      Commutes(b, a');
      assert (a' + 1) * b == a' * b + b;
      MulMonotonic(a' + 1, a, b);
      if b' <= b {
        MulMonotonic(b', b, a');
        assert false;
      }
    }
  }
}
