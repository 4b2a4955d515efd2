/** The linear congruential generator of `stdlib.c` and its full period. */
module Random {
  import opened Words
  import opened Powers

  const MULTIPLIER := 0x015A_4E35
  const INCREMENT := 1

  /** The seed update both generators share, in 32-bit unsigned arithmetic. */
  function Next(seed: nat): (s: nat)
    ensures s < WORD
  {
    (MULTIPLIER * seed + INCREMENT) % WORD
  }

  function Iterate(n: nat, seed: nat): nat {
    if n == 0 then seed else Next(Iterate(n - 1, seed))
  }

  class Generator {
    /** `ulSeed`. */
    var seed: nat

    ghost predicate Valid()
      reads this
    {
      seed < WORD
    }

    constructor ()
      ensures Valid() && seed == 1
    {
      seed := 1;
    }

    method Seed(s: nat)
      requires s < WORD
      modifies this
      ensures Valid() && seed == s
    {
      seed := s;
    }

    /** `std_rand`: bits 16 to 30 of the new seed. */
    method Rand() returns (r: nat)
      requires Valid()
      modifies this
      ensures Valid() && seed == Next(old(seed))
      ensures r == OutputBits(seed) < 0x8000
    {
      seed := Next(seed);
      r := (seed / 0x1_0000) % 0x8000;
    }

    /** Calls of `std_rand` one after the other. */
    method RandTimes(n: nat) returns (results: seq<nat>)
      requires Valid()
      modifies this
      ensures Valid() && seed == Iterate(n, old(seed))
      ensures |results| == n && forall i :: 0 <= i < n ==> results[i] == Draw(i, old(seed))
    {
      results := [];
      for i := 0 to n
        invariant Valid() && seed == Iterate(i, old(seed)) && |results| == i
        invariant forall j :: 0 <= j < i ==> results[j] == Draw(j, old(seed))
      {
        var r := Rand();
        results := results + [r];
      }
    }

    /** `std_random`: the high halves of two successive seeds. */
    method Random() returns (r: nat)
      requires Valid()
      modifies this
      ensures Valid() && seed == Next(Next(old(seed)))
      ensures r / 0x1_0000 == Next(old(seed)) / 0x1_0000 && r % 0x1_0000 == seed / 0x1_0000 && r < WORD
    {
      seed := Next(seed);
      var hi := seed - seed % 0x1_0000;
      seed := Next(seed);
      var lo := seed / 0x1_0000;
      r := hi + lo;
      HalvesJoin(hi / 0x1_0000, lo);
    }
  }

  /** Two 16-bit halves put together are read back by one division. */
  lemma HalvesJoin(hi: int, lo: int)
    requires 0 <= lo < 0x1_0000
    ensures (hi * 0x1_0000 + lo) / 0x1_0000 == hi && (hi * 0x1_0000 + lo) % 0x1_0000 == lo
  {
  }

  function OutputBits(seed: nat): nat {
    (seed / 0x1_0000) % 0x8000
  }

  /** 1 + a + ... + a^(n-1). */
  function Geometric(a: nat, n: nat): nat {
    if n == 0 then 0 else a * Geometric(a, n - 1) + 1
  }

  lemma {:induction false} PowAdd(a: nat, m: nat, n: nat)
    ensures Power(a, m + n) == Power(a, m) * Power(a, n)
  {
    if m > 0 {
      PowAdd(a, m - 1, n);
      MulAssoc(a, Power(a, m - 1), Power(a, n));
    }
  }

  lemma {:induction false} GeometricAdd(a: nat, m: nat, n: nat)
    ensures Geometric(a, m + n) == Power(a, n) * Geometric(a, m) + Geometric(a, n)
    decreases n
  {
    if n > 0 {
      GeometricAdd(a, m, n - 1);
      MulAssoc(a, Power(a, n - 1), Geometric(a, m));
      GeometricStep(a, Power(a, n - 1) * Geometric(a, m), Geometric(a, n - 1));
    }
  }

  lemma GeometricStep(a: nat, x: int, y: int)
    ensures a * (x + y) == a * x + a * y
  {
    MulCommute(a, x + y);
    MulDistribute(x, y, a);
    MulCommute(a, x);
    MulCommute(a, y);
  }

  lemma OneModFourTimes(a: nat, x: nat)
    requires a % 4 == 1
    ensures (a * x) % 4 == x % 4 && (a * x) % 2 == x % 2
  {
    MulAssoc(4, a / 4, x);
    MulDistribute(4 * (a / 4), 1, x);
    AddMultiple(a / 4 * x, x);
  }

  lemma AddMultiple(q: int, x: int)
    ensures (4 * q + x) % 4 == x % 4 && (4 * q + x) % 2 == x % 2
  {
    SplitQuotient(q + x / 4, 4, x % 4);
    SplitQuotient(2 * q + x / 2, 2, x % 2);
  }

  lemma SuccessorParity(x: int, y: int)
    requires x % 2 == y % 2
    ensures (x + 1) % 2 == (y + 1) % 2
  {
  }

  lemma EvenTimes(c: nat, s: nat)
    requires c % 2 == 0
    ensures (c * s + 1) % 2 == 1
  {
    MulDouble(c / 2, s);
  }

  lemma {:induction false} PowIsOneModFour(a: nat, n: nat)
    requires a % 4 == 1
    ensures Power(a, n) % 4 == 1
  {
    if n > 0 {
      PowIsOneModFour(a, n - 1);
      OneModFourTimes(a, Power(a, n - 1));
    }
  }

  lemma {:induction false} GeometricParity(a: nat, n: nat)
    requires a % 4 == 1
    ensures Geometric(a, n) % 2 == n % 2
  {
    if n > 0 {
      GeometricParity(a, n - 1);
      OneModFourTimes(a, Geometric(a, n - 1));
      SuccessorParity(a * Geometric(a, n - 1), n - 1);
    }
  }

  predicate Divides(d: nat, n: int)
    requires d > 0
  {
    n % d == 0
  }

  lemma DoubleDivides(d: nat, n: int)
    requires d > 0
    ensures Divides(2 * d, 2 * n) <==> Divides(d, n)
  {
    var q := n / d;
    FloorBounds(n, d);
    var r := n - q * d;
    assert n % d == r;
    assert 2 * n == q * (2 * d) + 2 * r by { MulDouble(q, d); }
    SplitQuotient(q, 2 * d, 2 * r);
  }

  lemma MultipleOf(d: nat, q: int)
    requires d > 0
    ensures Divides(d, q * d)
  {
    SplitQuotient(q, d, 0);
  }

  lemma QuotientOf(d: nat, n: int) returns (q: int)
    requires d > 0 && Divides(d, n)
    ensures n == q * d
  {
    q := n / d;
  }

  /** An odd factor does not change divisibility by a power of two. */
  lemma {:induction false} OddFactorDivides(k: nat, x: nat, odd: nat)
    requires odd % 2 == 1
    ensures Divides(Pow2(k), x * odd) <==> Divides(Pow2(k), x)
    decreases k
  {
    if k > 0 {
      var h := odd / 2;
      OddTimes(x, odd, h);
      if x % 2 == 0 {
        var y := x / 2;
        MulDouble(y, odd);
        OddFactorDivides(k - 1, y, odd);
        DoubleDivides(Pow2(k - 1), y);
        DoubleDivides(Pow2(k - 1), y * odd);
      } else {
        OddIsNotDivisible(k, x);
        OddIsNotDivisible(k, x * odd);
      }
    }
  }

  lemma OddTimes(x: nat, odd: nat, h: nat)
    requires odd == 2 * h + 1
    ensures x * odd == 2 * (x * h) + x && x * odd >= 0 && (x * odd) % 2 == x % 2
  {
    MulMonotone(0, x, odd);
    MulCommute(x, odd);
    MulDistribute(2 * h, 1, x);
    MulDouble(h, x);
    MulCommute(h, x);
  }

  lemma OddIsNotDivisible(k: nat, x: nat)
    requires k > 0 && x % 2 == 1
    ensures !Divides(Pow2(k), x)
  {
    if Divides(Pow2(k), x) {
      var q := QuotientOf(Pow2(k), x);
      MulDouble(q, Pow2(k - 1));
    }
  }

  /** For a multiplier that is 1 mod 4 the partial sums have exactly as many factors of two as their length. */
  lemma {:induction false} GeometricDivisibility(a: nat, k: nat, n: nat)
    requires a % 4 == 1
    ensures Divides(Pow2(k), Geometric(a, n)) <==> Divides(Pow2(k), n)
    decreases k
  {
    if k > 0 {
      GeometricParity(a, n);
      if n % 2 == 1 {
        OddIsNotDivisible(k, n);
        OddIsNotDivisible(k, Geometric(a, n));
      } else {
        var h := n / 2;
        HalfSum(a, h);
        GeometricDivisibility(a, k - 1, h);
        OddFactorDivides(k - 1, Geometric(a, h), Power(a, h) / 2 + 1);
        DoubleDivides(Pow2(k - 1), h);
        DoubleDivides(Pow2(k - 1), Geometric(a, h) * (Power(a, h) / 2 + 1));
      }
    }
  }

  lemma HalfSum(a: nat, h: nat)
    requires a % 4 == 1
    ensures Geometric(a, 2 * h) == 2 * (Geometric(a, h) * (Power(a, h) / 2 + 1)) && (Power(a, h) / 2 + 1) % 2 == 1
  {
    PowIsOneModFour(a, h);
    GeometricAdd(a, h, h);
    OddPlusOne(Power(a, h), Geometric(a, h));
  }

  lemma OddPlusOne(p: nat, g: nat)
    requires p % 4 == 1
    ensures p * g + g == 2 * (g * (p / 2 + 1)) && (p / 2 + 1) % 2 == 1
  {
    var c := p / 2 + 1;
    assert p + 1 == 2 * c;
    MulDistribute(p, 1, g);
    MulDouble(c, g);
    MulCommute(g, c);
  }

  /** Closed form of the iterated update, before reduction. */
  function Unreduced(n: nat, seed: nat): nat {
    Power(MULTIPLIER, n) * seed + Geometric(MULTIPLIER, n)
  }

  lemma ReduceInside(a: nat, x: nat, c: nat, m: nat)
    requires m > 0
    ensures (a * (x % m) + c) % m == (a * x + c) % m
  {
    var q, r := x / m, x % m;
    var inner := a * r + c;
    assert a * x + c == (a * q) * m + inner by {
      MulAssoc(a, q, m);
      MulDistribute(q * m, r, a);
      MulCommute(a, x);
    }
    var t := inner / m;
    assert a * x + c == (a * q + t) * m + inner % m by { MulDistribute(a * q, t, m); }
    SplitQuotient(a * q + t, m, inner % m);
  }

  lemma {:induction false} IterateClosedForm(n: nat, seed: nat)
    requires seed < WORD
    ensures Iterate(n, seed) == Unreduced(n, seed) % WORD
  {
    if n == 0 {
      SmallQuotient(seed, WORD);
    } else {
      IterateClosedForm(n - 1, seed);
      ReduceInside(MULTIPLIER, Unreduced(n - 1, seed), INCREMENT, WORD);
      UnreducedStep(n, seed);
    }
  }

  lemma UnreducedStep(n: nat, seed: nat)
    requires n > 0
    ensures Unreduced(n, seed) == MULTIPLIER * Unreduced(n - 1, seed) + INCREMENT
  {
    MulAssoc(MULTIPLIER, Power(MULTIPLIER, n - 1), seed);
  }

  /** a^n - 1 == (a - 1) * (1 + a + ... + a^(n-1)). */
  lemma {:induction false} GeometricClosed(a: nat, n: nat)
    requires a > 0
    ensures Power(a, n) == (a - 1) * Geometric(a, n) + 1
  {
    if n > 0 {
      GeometricClosed(a, n - 1);
      ClosedStep(a, Geometric(a, n - 1));
    }
  }

  lemma ClosedStep(a: int, g: int)
    ensures a * ((a - 1) * g + 1) == (a - 1) * (a * g + 1) + 1
  {
    MulAssoc(a, a - 1, g);
    MulAssoc(a - 1, a, g);
    MulCommute(a, a - 1);
  }

  /** After n steps the seed has moved by Geometric(n) times an odd number. */
  lemma Displacement(n: nat, seed: nat)
    requires seed < WORD
    ensures Unreduced(n, seed) - seed == Geometric(MULTIPLIER, n) * ((MULTIPLIER - 1) * seed + 1)
    ensures ((MULTIPLIER - 1) * seed + 1) % 2 == 1
  {
    GeometricClosed(MULTIPLIER, n);
    EvenTimes(MULTIPLIER - 1, seed);
    MoveOut(MULTIPLIER - 1, Geometric(MULTIPLIER, n), seed);
  }

  lemma MoveOut(c: nat, g: nat, s: nat)
    ensures (c * g + 1) * s + g - s == g * (c * s + 1)
  {
    MulDistribute(c * g, 1, s);
    MulAssoc(c, g, s);
    MulCommute(g, s);
    MulAssoc(c, s, g);
    MulDistribute(c * s, 1, g);
    MulCommute(g, c * s + 1);
  }

  lemma ModulusIsPower()
    ensures Pow2(32) == WORD
  {
    assert Pow2(8) == 0x100;
    Pow2Add(8, 8);
    assert Pow2(16) == 0x1_0000;
    Pow2Add(16, 16);
  }

  /** A displacement by Geometric(a, n) times an odd number vanishes modulo 2^k exactly when 2^k divides n. */
  lemma DisplacementVanishes(a: nat, k: nat, n: nat, odd: nat)
    requires a % 4 == 1 && odd % 2 == 1
    ensures Divides(Pow2(k), Geometric(a, n) * odd) <==> Divides(Pow2(k), n)
  {
    OddFactorDivides(k, Geometric(a, n), odd);
    GeometricDivisibility(a, k, n);
  }

  /** The seed comes back after n steps exactly when n is a multiple of 2^32. */
  lemma ReturnTime(n: nat, seed: nat)
    requires seed < WORD
    ensures Iterate(n, seed) == seed <==> n % WORD == 0
  {
    var odd := (MULTIPLIER - 1) * seed + 1;
    IterateClosedForm(n, seed);
    Displacement(n, seed);
    ModulusIsPower();
    DisplacementVanishes(MULTIPLIER, 32, n, odd);
    SameResidue(Unreduced(n, seed), seed, WORD);
  }

  lemma SameResidue(u: int, s: nat, m: nat)
    requires s < m
    ensures u % m == s <==> Divides(m, u - s)
  {
    FloorBounds(u, m);
    if u % m == s {
      MultipleOf(m, u / m);
    } else if Divides(m, u - s) {
      SplitQuotient((u - s) / m, m, s);
    }
  }

  lemma {:induction false} IterateAdd(m: nat, n: nat, seed: nat)
    ensures Iterate(m + n, seed) == Iterate(m, Iterate(n, seed))
  {
    if m > 0 {
      IterateAdd(m - 1, n, seed);
    }
  }

  lemma IterateBound(n: nat, seed: nat)
    requires seed < WORD
    ensures Iterate(n, seed) < WORD
  {
  }

  /** Within one period no state is visited twice. */
  lemma NoEarlyRepeat(i: nat, j: nat, seed: nat)
    requires seed < WORD && i < j < WORD
    ensures Iterate(i, seed) != Iterate(j, seed)
  {
    IterateAdd(j - i, i, seed);
    IterateBound(i, seed);
    ReturnTime(j - i, Iterate(i, seed));
    SmallQuotient(j - i, WORD);
  }

  /** The states visited by the first n updates. */
  ghost function Visited(n: nat, seed: nat): set<nat> {
    set i | 0 <= i < n :: Iterate(i, seed)
  }

  lemma {:induction false} VisitedSize(n: nat, seed: nat)
    requires seed < WORD && n <= WORD
    ensures |Visited(n, seed)| == n
  {
    if n == 0 {
      assert Visited(0, seed) == {};
    } else {
      VisitedSize(n - 1, seed);
      assert Visited(n, seed) == Visited(n - 1, seed) + {Iterate(n - 1, seed)};
      forall i | 0 <= i < n - 1 ensures Iterate(i, seed) != Iterate(n - 1, seed) {
        NoEarlyRepeat(i, n - 1, seed);
      }
    }
  }

  ghost function Below(n: nat): (s: set<nat>)
    ensures forall x :: x in s <==> 0 <= x < n
    ensures |s| == n
  {
    if n == 0 then {} else Below(n - 1) + {n - 1}
  }

  lemma FullSubset(a: set<nat>, b: set<nat>)
    requires a <= b && |a| == |b|
    ensures a == b
  {
    assert b == a + (b - a);
    assert |b - a| == 0;
  }

  /** Full period: from any seed every 32-bit state is reached in fewer than 2^32 updates, and by only one count. */
  lemma FullPeriod(seed: nat, target: nat)
    requires seed < WORD && target < WORD
    ensures exists n: nat ::
              n < WORD && Iterate(n, seed) == target
              && (forall m: nat :: m < WORD && Iterate(m, seed) == target ==> m == n)
  {
    AllVisited(WORD, seed);
    var n := Reached(WORD, seed, target);
    forall m: nat | m < WORD && Iterate(m, seed) == target ensures m == n {
      SameIndex(m, n, seed);
    }
  }

  lemma VisitedBelow(n: nat, seed: nat, modulus: nat)
    requires seed < WORD && modulus == WORD
    ensures Visited(n, seed) <= Below(modulus)
  {
    forall i | 0 <= i < n ensures Iterate(i, seed) in Below(modulus) {
      IterateBound(i, seed);
    }
  }

  lemma AllVisited(modulus: nat, seed: nat)
    requires seed < WORD && modulus == WORD
    ensures Visited(modulus, seed) == Below(modulus)
  {
    VisitedSize(modulus, seed);
    VisitedBelow(modulus, seed, modulus);
    FullSubset(Visited(modulus, seed), Below(modulus));
  }

  lemma Reached(modulus: nat, seed: nat, target: nat) returns (n: nat)
    requires Visited(modulus, seed) == Below(modulus) && target < modulus
    ensures n < modulus && Iterate(n, seed) == target
  {
    assert target in Below(modulus);
    n := IndexOf(modulus, seed, target);
  }

  lemma IndexOf(n: nat, seed: nat, target: nat) returns (i: nat)
    requires target in Visited(n, seed)
    ensures i < n && Iterate(i, seed) == target
  {
    i :| 0 <= i < n && Iterate(i, seed) == target;
  }

  lemma SameIndex(m: nat, n: nat, seed: nat)
    requires seed < WORD && m < WORD && n < WORD && Iterate(m, seed) == Iterate(n, seed)
    ensures m == n
  {
    if m < n {
      NoEarlyRepeat(m, n, seed);
    } else if n < m {
      NoEarlyRepeat(n, m, seed);
    }
  }

  /** Every 15-bit value of `std_rand` turns up, whatever the seed. */
  lemma EveryOutputOccurs(seed: nat, value: nat)
    requires seed < WORD && value < 0x8000
    ensures exists n: nat :: n < WORD && OutputBits(Iterate(n, seed)) == value
  {
    var target := value * 0x1_0000;
    FullPeriod(seed, target);
    assert OutputBits(target) == value;
  }

  /** `std_random` takes two updates a call, so its state comes back after exactly 2^31 calls. */
  lemma RandomReturnTime(calls: nat, seed: nat)
    requires seed < WORD
    ensures Iterate(2 * calls, seed) == seed <==> calls % (WORD / 2) == 0
  {
    ReturnTime(2 * calls, seed);
    DoubleDivides(WORD / 2, calls);
  }

  // ----- the sequences of results

  /** What the call of `std_rand` after n others returns. */
  function Draw(n: nat, seed: nat): nat {
    OutputBits(Iterate(n + 1, seed))
  }

  /** The bits from 16 up to, not including, k. */
  function Field(k: nat, x: nat): nat {
    x % Pow2(k) / 0x1_0000
  }

  lemma EqualResidues(u: int, v: int, m: nat)
    requires m > 0
    ensures u % m == v % m <==> Divides(m, u - v)
  {
    FloorBounds(u, m);
    FloorBounds(v, m);
    EqualParts(u / m, u % m, v / m, v % m, m);
  }

  lemma EqualParts(p: int, r: int, q: int, s: int, m: nat)
    requires 0 <= r < m && 0 <= s < m
    ensures r == s <==> Divides(m, p * m + r - (q * m + s))
  {
    MulDistribute(p, q, m);
    MulDistribute(p - q, 1, m);
    if r >= s {
      SplitQuotient(p - q, m, r - s);
    } else {
      SplitQuotient(p - q - 1, m, m + r - s);
    }
  }

  /** Reducing by a multiple of the modulus first changes nothing. */
  lemma ReduceTwice(u: nat, m: nat, c: nat, cm: nat)
    requires m > 0 && cm > 0 && cm == c * m
    ensures u % cm % m == u % m
  {
    var q, v := u / cm, u % cm;
    DividedParts(u, cm, q, v);
    DropMultiple(u, v, q, c, m, cm);
  }

  lemma DropMultiple(u: int, v: int, q: int, c: int, m: nat, cm: int)
    requires m > 0 && u == q * cm + v && cm == c * m
    ensures v % m == u % m
  {
    MulAssoc(q, c, m);
    MultipleOf(m, q * c);
    EqualResidues(u, v, m);
  }

  /** The low k bits of the seed come back exactly after multiples of 2^k steps. */
  lemma LowBitsReturn(k: nat, n: nat, seed: nat)
    requires seed < WORD && k <= 32
    ensures Iterate(n, seed) % Pow2(k) == seed % Pow2(k) <==> Divides(Pow2(k), n)
  {
    IterateClosedForm(n, seed);
    Displacement(n, seed);
    DisplacementVanishes(MULTIPLIER, k, n, (MULTIPLIER - 1) * seed + 1);
    EqualResidues(Unreduced(n, seed), seed, Pow2(k));
    ModulusIsPower();
    Pow2Add(32 - k, k);
    ReduceTwice(Unreduced(n, seed), Pow2(k), Pow2(32 - k), WORD);
  }

  /** Some multiple of n is half of 2^(k+1) unless n is a multiple of it. */
  lemma {:induction false} HalfMultiple(k: nat, n: nat) returns (c: nat, q: int)
    requires !Divides(Pow2(k + 1), n)
    ensures c * n == q * Pow2(k + 1) + Pow2(k)
    decreases k
  {
    var h := n / 2;
    if n % 2 == 1 || k == 0 {
      assert Divides(2, n) <==> n % 2 == 0;
      c, q := Pow2(k), h;
      MulDistribute(2 * h, 1, Pow2(k));
      MulCommute(Pow2(k), n);
      MulDouble(h, Pow2(k));
    } else {
      DoubleDivides(Pow2(k), h);
      c, q := HalfMultiple(k - 1, h);
      MulDouble(c, h);
      MulDouble(q, Pow2(k));
    }
  }

  /** Such a multiple is divisible by 2^k and not by 2^(k+1). */
  lemma HalfIsNotWhole(k: nat, q: int, n: nat)
    requires n == q * Pow2(k + 1) + Pow2(k)
    ensures Divides(Pow2(k), n) && !Divides(Pow2(k + 1), n)
  {
    SplitQuotient(q, Pow2(k + 1), Pow2(k));
    MulDouble(q, Pow2(k));
    MulDistribute(2 * q, 1, Pow2(k));
    MultipleOf(Pow2(k), 2 * q + 1);
  }

  /** Numbers that differ in bit k, and in no bit below it, have different fields. */
  lemma FieldDiffers(k: nat, x: nat, y: nat)
    requires k >= 16 && x % Pow2(k) == y % Pow2(k) && x % Pow2(k + 1) != y % Pow2(k + 1)
    ensures Field(k + 1, x) != Field(k + 1, y)
  {
    LowHalf(k, x);
    LowHalf(k, y);
  }

  /** The low 16 bits are the same before and after cutting off the bits from k. */
  lemma LowHalf(k: nat, x: nat)
    requires k >= 16
    ensures x % Pow2(k) % 0x1_0000 == x % 0x1_0000 && x % Pow2(k + 1) % 0x1_0000 == x % 0x1_0000
  {
    SixteenBits(k - 16);
    SixteenBits(k - 15);
    ReduceTwice(x, 0x1_0000, Pow2(k - 16), Pow2(k));
    ReduceTwice(x, 0x1_0000, Pow2(k - 15), Pow2(k + 1));
  }

  lemma SixteenBits(n: nat)
    ensures Pow2(n + 16) == Pow2(n) * 0x1_0000
  {
    assert Pow2(8) == 0x100;
    Pow2Add(8, 8);
    Pow2Add(n, 16);
  }

  /** A sequence repeats after so many steps. */
  ghost predicate HasPeriod(f: nat -> nat, period: nat) {
    forall i: nat, j: nat :: j == i + period ==> f(j) == f(i)
  }

  lemma {:induction false} PeriodTimes(f: nat -> nat, period: nat, c: nat, n: int)
    requires HasPeriod(f, period) && n == c * period
    ensures n >= 0 && f(n) == f(0)
    decreases c
  {
    if c > 0 {
      MulDistribute(c - 1, 1, period);
      PeriodTimes(f, period, c - 1, n - period);
    }
  }

  /** The bits from 16 up to k have a period exactly when it is a multiple of 2^k, for every k up to 32. */
  lemma FieldPeriod(f: nat -> nat, k: nat, period: nat, seed: nat)
    requires seed < WORD && 16 < k <= 32 && forall i: nat :: f(i) == Field(k, Iterate(i, seed))
    ensures HasPeriod(f, period) <==> Divides(Pow2(k), period)
  {
    if Divides(Pow2(k), period) {
      forall i: nat, j: nat | j == i + period ensures f(j) == f(i) {
        IterateAdd(period, i, seed);
        IterateBound(i, seed);
        LowBitsReturn(k, period, Iterate(i, seed));
      }
    } else {
      NoShorterPeriod(f, k, period, seed);
    }
  }

  lemma NoShorterPeriod(f: nat -> nat, k: nat, period: nat, seed: nat)
    requires seed < WORD && 16 < k <= 32 && !Divides(Pow2(k), period)
    requires forall i: nat :: f(i) == Field(k, Iterate(i, seed))
    ensures !HasPeriod(f, period)
  {
    var c, q := HalfMultiple(k - 1, period);
    var n := c * period;
    MulMonotone(0, c, period);
    FieldChanges(k - 1, q, n, seed);
    assert f(n) != f(0);
    if HasPeriod(f, period) {
      PeriodTimes(f, period, c, n);
    }
  }

  lemma FieldChanges(k: nat, q: int, n: nat, seed: nat)
    requires seed < WORD && 16 <= k < 32 && n == q * Pow2(k + 1) + Pow2(k)
    ensures Field(k + 1, Iterate(n, seed)) != Field(k + 1, seed)
  {
    HalfIsNotWhole(k, q, n);
    LowBitsReturn(k, n, seed);
    LowBitsReturn(k + 1, n, seed);
    FieldDiffers(k, Iterate(n, seed), seed);
  }

  /** The result of `std_rand` is bits 16 to 30 of the seed. */
  lemma OutputField(x: nat)
    ensures OutputBits(x) == Field(31, x)
  {
    SixteenBits(15);
    assert Pow2(8) == 0x100 && Pow2(7) == 0x80;
    Pow2Add(8, 7);
    CutThenDivide(x, 0x1_0000, 0x8000);
  }

  lemma CutThenDivide(x: nat, d: nat, m: nat)
    requires d > 0 && m > 0 && m * d > 0
    ensures x / d % m == x % (m * d) / d
  {
    var q, r := x / d, x % d;
    DividedParts(x, d, q, r);
    var p, s := q / m, q % m;
    DividedParts(q, m, p, s);
    MulDistribute(p * m, s, d);
    MulAssoc(p, m, d);
    MulMonotone(s + 1, m, d);
    MulMonotone(0, s, d);
    MulDistribute(s, 1, d);
    SplitQuotient(p, m * d, s * d + r);
    SplitQuotient(s, d, r);
  }

  /** The results of `std_rand` repeat after 2^31 calls, and after no smaller number. */
  lemma RandPeriod(period: nat, seed: nat)
    requires seed < WORD
    ensures HasPeriod(n => Draw(n, seed), period) <==> period % 0x8000_0000 == 0
  {
    var first := Iterate(1, seed);
    forall n: nat ensures Draw(n, seed) == Field(31, Iterate(n, first)) {
      IterateAdd(n, 1, seed);
      OutputField(Iterate(n + 1, seed));
    }
    FieldPeriod(n => Draw(n, seed), 31, period, first);
    ModulusIsPower();
  }

  /** What `std_random` takes from each seed, its high half, repeats after 2^32 updates and no smaller number. */
  lemma HighHalfPeriod(period: nat, seed: nat)
    requires seed < WORD
    ensures HasPeriod(n => Iterate(n, seed) / 0x1_0000, period) <==> period % WORD == 0
  {
    ModulusIsPower();
    forall n: nat ensures Iterate(n, seed) / 0x1_0000 == Field(32, Iterate(n, seed)) {
      IterateBound(n, seed);
      SmallQuotient(Iterate(n, seed), WORD);
    }
    FieldPeriod(n => Iterate(n, seed) / 0x1_0000, 32, period, seed);
  }

  /** The first results after start-up, or after `std_srand(1)`. */
  lemma FirstDraws(seed: nat)
    requires seed == 1
    ensures Draw(0, seed) == 346 && Draw(1, seed) == 130
  {
    assert Iterate(1, seed) == 0x015A_4E36;
    assert Next(0x015A_4E36) == 0x8082_A52F;
    assert Iterate(2, seed) == Next(Iterate(1, seed));
  }
}
