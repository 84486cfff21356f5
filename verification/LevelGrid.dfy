/**
 The price arithmetic of one book side: a price is mapped to a level index by an unsigned 32-bit
 subtraction, a division by the tick size, a cut to 16 bits and a mask. All results here allow the
 subtraction and the addition to wrap.
 */
module LevelGrid {
  import opened Words

  /** `maxLevels` is the template parameter; the other two are set at run time. */
  datatype Grid = Grid(maxLevels: int, refPrice: int, tickSize: int) {
    ghost predicate Valid() {
      && 1 <= maxLevels <= TWO16
      && 0 <= refPrice < TWO32
      && 1 <= tickSize < TWO32
    }

    function PriceToLevel(price: int): nat
      requires Valid()
    {
      LevelAt(Distance(price))
    }

    /** The unsigned 32-bit distance of a price from the reference. */
    function Distance(price: int): nat {
      (price - refPrice) % TWO32
    }

    function LevelAt(distance: nat): nat
      requires Valid()
    {
      Masked(distance / tickSize)
    }

    /** The cast to 16 bits and the mask. */
    function Masked(ticks: nat): (level: nat)
      requires Valid()
      ensures level <= ticks
    {
      BitAnd(ticks % TWO16, maxLevels - 1)
    }

    function LevelToPrice(level: nat): int {
      (refPrice + level * tickSize) % TWO32
    }

    /** The price `j` ticks away from the reference, wrapped to 32 bits. */
    function TickPrice(j: int): int {
      (refPrice + j * tickSize) % TWO32
    }
  }

  /** The distance of a price at some offset from the reference is the offset, up to the wrap. */
  lemma WrappedDistance(g: Grid, offset: int)
    ensures g.Distance((g.refPrice + offset) % TWO32) == offset % TWO32
    ensures 0 <= offset < TWO32 ==> g.Distance((g.refPrice + offset) % TWO32) == offset
    ensures -1 * TWO32 <= offset < 0 ==> g.Distance((g.refPrice + offset) % TWO32) == TWO32 + offset
    ensures offset >= TWO32 ==> g.Distance((g.refPrice + offset) % TWO32) < offset
  {
  }

  lemma MaskedBelow(g: Grid, ticks: nat, bound: nat)
    requires g.Valid() && ticks < bound
    ensures g.Masked(ticks) < bound
  {
  }

  lemma LevelBelowBound(g: Grid, distance: nat, bound: nat)
    requires g.Valid() && distance < bound * g.tickSize
    ensures g.LevelAt(distance) < bound
  {
    MaskedBelow(g, distance / g.tickSize, bound) by {
      QuotientBelow(distance, g.tickSize, bound);
    }
  }

  lemma QuotientBelow(x: nat, t: int, q: int)
    requires t > 0 && x < q * t
    ensures x / t < q
  {
    var p := x / t;
    assert x == t * p + x % t;
    assert q * t == t * q;
    assert t * (q - p) == t * q - t * p;
    FactorBound(t, q - p);
  }

  lemma ProductMonotone(a: int, b: int, t: int)
    requires a <= b && t >= 1
    ensures a * t <= b * t
    ensures a < b ==> a * t < b * t
  {
    assert b * t - a * t == (b - a) * t;
  }

  /** The level computed for the price `j` ticks at or above the reference. */
  lemma LevelAbove(g: Grid, j: int)
    requires g.Valid()
    requires 0 <= j && j * g.tickSize < TWO32
    ensures g.PriceToLevel(g.TickPrice(j)) == g.Masked(j)
  {
    ProductMonotone(0, j, g.tickSize);
    WrappedDistance(g, j * g.tickSize);
    DivModUnique(j * g.tickSize, g.tickSize, j, 0);
  }

  /** A price between two ticks has the level of the tick below it, seen from the reference upwards and around the wrap. */
  lemma PriceBetweenTicks(g: Grid, j: nat, rest: nat)
    requires g.Valid() && rest < g.tickSize && j * g.tickSize + rest < TWO32
    ensures g.PriceToLevel((g.refPrice + j * g.tickSize + rest) % TWO32) == g.PriceToLevel(g.TickPrice(j))
  {
    ProductMonotone(0, j, g.tickSize);
    LevelAbove(g, j);
    WrappedDistance(g, j * g.tickSize + rest);
    DivModUnique(j * g.tickSize + rest, g.tickSize, j, rest);
  }

  lemma QuotientOfRest(whole: nat, t: int, j: int)
    requires t > 0 && j * t <= whole
    ensures j <= whole / t && (whole - j * t) / t == whole / t - j
  {
    var q, r := whole / t, whole % t;
    assert whole == t * q + r;
    assert t * (q - j) == t * q - j * t;
    FactorBound(t, q - j);
    DivModUnique(whole - j * t, t, q - j, r);
  }

  lemma TickPriceBelow(g: Grid, j: int)
    ensures g.TickPrice(-j) == (g.refPrice - j * g.tickSize) % TWO32
  {
    assert (-j) * g.tickSize == -(j * g.tickSize);
  }

  /** Below the reference the subtraction wraps, so levels count down from floor(2^32 / tick). */
  lemma LevelBelow(g: Grid, j: int)
    requires g.Valid()
    requires 1 <= j && j * g.tickSize <= TWO32
    ensures j <= TWO32 / g.tickSize
    ensures g.PriceToLevel(g.TickPrice(-j)) == g.Masked(TWO32 / g.tickSize - j)
  {
    TickPriceBelow(g, j);
    ProductMonotone(1, j, g.tickSize);
    WrappedDistance(g, -(j * g.tickSize));
    QuotientOfRest(TWO32, g.tickSize, j);
  }

  /** For a power of two, cutting to 16 bits and masking is one remainder. */
  lemma MaskedIsRemainder(g: Grid, ticks: nat)
    requires g.Valid() && IsPow2(g.maxLevels)
    ensures g.Masked(ticks) == ticks % g.maxLevels
  {
    var k: nat :| g.maxLevels == Pow2(k);
    MaskIsRemainder(ticks % TWO16, k);
    Pow2Sixteen();
    if k > 16 {
      Pow2Monotone(16, k);
    }
    Pow2Divides(k, 16);
    ModOfMod(ticks, Pow2(k), Pow2(16 - k));
  }

  /**
   One level comes back from its own price exactly when its offset from the reference fits in 32 bits
   and the mask keeps it. The price itself may wrap.
   */
  lemma LevelRoundTrip(g: Grid, level: int)
    requires g.Valid() && 0 <= level < g.maxLevels
    ensures g.PriceToLevel(g.LevelToPrice(level)) == level
            <==> level * g.tickSize < TWO32 && BitAnd(level, g.maxLevels - 1) == level
  {
    if level * g.tickSize < TWO32 {
      LevelAbove(g, level);
      MaskOfLevel(g, level);
    } else {
      WrappedLevelIsLower(g, level);
    }
  }

  lemma MaskOfLevel(g: Grid, level: nat)
    requires g.Valid() && level < g.maxLevels
    ensures g.Masked(level) == BitAnd(level, g.maxLevels - 1)
    ensures g.LevelToPrice(level) == g.TickPrice(level)
  {
    DivModUnique(level, TWO16, 0, level);
  }

  lemma WrappedLevelIsLower(g: Grid, level: nat)
    requires g.Valid() && level * g.tickSize >= TWO32
    ensures g.PriceToLevel(g.LevelToPrice(level)) < level
  {
    WrappedDistance(g, level * g.tickSize);
    LevelBelowBound(g, g.Distance(g.LevelToPrice(level)), level);
  }

  ghost predicate RoundTrips(g: Grid, level: int)
    requires g.Valid() && 0 <= level
  {
    g.PriceToLevel(g.LevelToPrice(level)) == level
  }

  /**
   Every level comes back from its own price exactly when the number of levels is a power of two
   and the highest level's offset fits in 32 bits.
   */
  lemma AllLevelsRoundTrip(g: Grid)
    requires g.Valid()
    ensures (forall level :: 0 <= level < g.maxLevels ==> RoundTrips(g, level))
            <==> IsPow2(g.maxLevels) && (g.maxLevels - 1) * g.tickSize < TWO32
  {
    var m := g.maxLevels - 1;
    MaskIsIdentityIffPow2(m);
    forall level | 0 <= level <= m
      ensures RoundTrips(g, level) <==> level * g.tickSize < TWO32 && BitAnd(level, m) == level
      ensures level * g.tickSize <= m * g.tickSize
    {
      LevelRoundTrip(g, level);
      ProductMonotone(level, m, g.tickSize);
    }
    if forall level :: 0 <= level < g.maxLevels ==> RoundTrips(g, level) {
      assert RoundTrips(g, m);
      forall level: nat | level <= m
        ensures BitAnd(level, m) == level
      {
        assert RoundTrips(g, level);
      }
    }
  }

  /** The ticks a and b share a level exactly when their distance is a multiple of the depth. */
  ghost predicate SharesByDepth(g: Grid, a: nat, b: nat)
    requires g.Valid()
  {
    g.PriceToLevel(g.TickPrice(a)) == g.PriceToLevel(g.TickPrice(b)) <==> (a - b) % g.maxLevels == 0
  }

  /** With a power of two as depth, all tick-aligned prices at or above the reference share levels by the depth. */
  lemma AlignedPricesShareLevel(g: Grid, a: nat, b: nat)
    requires g.Valid() && IsPow2(g.maxLevels)
    requires a * g.tickSize < TWO32 && b * g.tickSize < TWO32
    ensures SharesByDepth(g, a, b)
  {
    LevelAbove(g, a);
    LevelAbove(g, b);
    MaskedIsRemainder(g, a);
    MaskedIsRemainder(g, b);
    SameRemainder(a, b, g.maxLevels);
  }

  /** All tick-aligned prices at or above the reference share levels by the depth alone. */
  ghost predicate AlignedSharing(g: Grid)
    requires g.Valid()
  {
    forall a: nat, b: nat :: a * g.tickSize < TWO32 && b * g.tickSize < TWO32 ==> SharesByDepth(g, a, b)
  }

  ghost predicate KeepsLevel(g: Grid, level: nat)
    requires g.Valid()
  {
    level * g.tickSize < TWO32 ==> BitAnd(level, g.maxLevels - 1) == level
  }

  /** The mask keeps every level whose offset fits in 32 bits. */
  ghost predicate KeepsLevels(g: Grid)
    requires g.Valid()
  {
    forall level: nat :: level < g.maxLevels ==> KeepsLevel(g, level)
  }

  /** The ticks of the first turn, and what the mask makes of them. */
  lemma FirstTurn(g: Grid, a: nat)
    requires g.Valid() && a < g.maxLevels && a * g.tickSize < TWO32
    ensures g.PriceToLevel(g.TickPrice(a)) == BitAnd(a, g.maxLevels - 1)
  {
    LevelAbove(g, a);
    MaskOfLevel(g, a);
  }

  lemma FirstTurnIsInjective(g: Grid, a: nat, b: nat)
    requires g.Valid() && AlignedSharing(g)
    requires b < a < g.maxLevels && a * g.tickSize < TWO32
    ensures BitAnd(a, g.maxLevels - 1) != BitAnd(b, g.maxLevels - 1)
  {
    ProductMonotone(b, a, g.tickSize);
    FirstTurn(g, a);
    FirstTurn(g, b);
    assert SharesByDepth(g, a, b);
    DivModUnique(a - b, g.maxLevels, 0, a - b);
  }

  /** A level that the mask lowered would be shared with the lower one, which the mask keeps. */
  lemma {:induction false} SharingKeepsLevel(g: Grid, level: nat)
    requires g.Valid() && AlignedSharing(g)
    requires level < g.maxLevels && level * g.tickSize < TWO32
    ensures BitAnd(level, g.maxLevels - 1) == level
  {
    var lower := BitAnd(level, g.maxLevels - 1);
    if lower < level {
      ProductMonotone(lower, level, g.tickSize);
      SharingKeepsLevel(g, lower);
      FirstTurnIsInjective(g, level, lower);
    }
  }

  /** If all offsets fit, the mask keeps every level exactly when the depth is a power of two. */
  lemma KeepsLevelsIffPow2(g: Grid)
    requires g.Valid() && (g.maxLevels - 1) * g.tickSize < TWO32
    ensures KeepsLevels(g) <==> IsPow2(g.maxLevels)
  {
    var m := g.maxLevels - 1;
    MaskIsIdentityIffPow2(m);
    if KeepsLevels(g) {
      forall l: nat | l <= m
        ensures BitAnd(l, m) == l
      {
        assert KeepsLevel(g, l);
        ProductMonotone(l, m, g.tickSize);
      }
    }
  }

  /** Within the first turn two ticks share a level only if they are the same tick. */
  lemma KeptLevelsShareByDepth(g: Grid, a: nat, b: nat)
    requires g.Valid() && KeepsLevels(g) && a < g.maxLevels && b < g.maxLevels
    requires a * g.tickSize < TWO32 && b * g.tickSize < TWO32
    ensures SharesByDepth(g, a, b)
  {
    assert KeepsLevel(g, a) && KeepsLevel(g, b);
    FirstTurn(g, a);
    FirstTurn(g, b);
    SameRemainder(a, b, g.maxLevels);
    DivModUnique(a, g.maxLevels, 0, a);
    DivModUnique(b, g.maxLevels, 0, b);
  }

  /**
   For any number of levels: tick-aligned prices at or above the reference share levels by the depth alone exactly
   when the mask keeps every level whose offset fits in 32 bits; if all offsets fit, exactly when the depth is a
   power of two.
   */
  lemma AlignedSharingIff(g: Grid)
    requires g.Valid()
    ensures AlignedSharing(g) <==> KeepsLevels(g)
    ensures (g.maxLevels - 1) * g.tickSize < TWO32 ==> (AlignedSharing(g) <==> IsPow2(g.maxLevels))
  {
    if (g.maxLevels - 1) * g.tickSize < TWO32 {
      KeepsLevelsIffPow2(g);
    }
    if AlignedSharing(g) {
      forall level: nat | level < g.maxLevels
        ensures KeepsLevel(g, level)
      {
        if level * g.tickSize < TWO32 {
          SharingKeepsLevel(g, level);
        }
      }
    }
    if KeepsLevels(g) {
      forall a: nat, b: nat | a * g.tickSize < TWO32 && b * g.tickSize < TWO32
        ensures SharesByDepth(g, a, b)
      {
        if (g.maxLevels - 1) * g.tickSize < TWO32 {
          AlignedPricesShareLevel(g, a, b);
        } else {
          OnlyFirstTurnFits(g, a);
          OnlyFirstTurnFits(g, b);
          KeptLevelsShareByDepth(g, a, b);
        }
      }
    }
  }

  lemma OnlyFirstTurnFits(g: Grid, a: nat)
    requires g.Valid() && (g.maxLevels - 1) * g.tickSize >= TWO32 && a * g.tickSize < TWO32
    ensures a < g.maxLevels
  {
    if a >= g.maxLevels {
      ProductMonotone(g.maxLevels - 1, a, g.tickSize);
    }
  }

  /** The level of every tick of a window around the reference, by one closed form. */
  function WindowLevel(g: Grid, j: int): int
    requires g.Valid()
  {
    (if j < 0 then TWO32 / g.tickSize + j else j) % g.maxLevels
  }

  lemma WindowLevelIsLevel(g: Grid, j: int)
    requires g.Valid() && IsPow2(g.maxLevels)
    requires g.maxLevels * g.tickSize <= TWO32 && -1 * g.maxLevels < j < g.maxLevels
    ensures g.PriceToLevel(g.TickPrice(j)) == WindowLevel(g, j)
  {
    if j < 0 {
      ProductMonotone(-j, g.maxLevels, g.tickSize);
      LevelBelow(g, -j);
      MaskedIsRemainder(g, TWO32 / g.tickSize + j);
    } else {
      ProductMonotone(j, g.maxLevels, g.tickSize);
      LevelAbove(g, j);
      MaskedIsRemainder(g, j);
    }
  }

  ghost predicate Collide(g: Grid, i: int, j: int)
    requires g.Valid()
  {
    g.PriceToLevel(g.TickPrice(i)) == g.PriceToLevel(g.TickPrice(j))
  }

  /**
   A window of `maxLevels` consecutive ticks, `below` of them under the reference and at least one not,
   maps one-to-one exactly when the depth divides floor(2^32 / tick).
   */
  lemma StraddlingWindow(g: Grid, below: int)
    requires g.Valid() && IsPow2(g.maxLevels)
    requires g.maxLevels * g.tickSize <= TWO32
    requires 1 <= below < g.maxLevels
    ensures (forall i, j :: -1 * below <= i < j < g.maxLevels - below ==> !Collide(g, i, j))
            <==> TWO32 / g.tickSize % g.maxLevels == 0
  {
    if TWO32 / g.tickSize % g.maxLevels == 0 {
      forall i, j | -1 * below <= i < j < g.maxLevels - below
        ensures !Collide(g, i, j)
      {
        WithoutSeamNoCollision(g, i, j);
      }
    } else {
      var i, j := SeamCollision(TWO32 / g.tickSize, g.maxLevels, below);
      SeamCollides(g, i, j);
    }
  }

  lemma CollideIff(g: Grid, i: int, j: int)
    requires g.Valid() && IsPow2(g.maxLevels) && g.maxLevels * g.tickSize <= TWO32
    requires -1 * g.maxLevels < i < g.maxLevels && -1 * g.maxLevels < j < g.maxLevels
    ensures Collide(g, i, j) <==> WindowLevel(g, i) == WindowLevel(g, j)
  {
    WindowLevelIsLevel(g, i);
    WindowLevelIsLevel(g, j);
  }

  lemma WindowLevelWithoutSeam(g: Grid, j: int)
    requires g.Valid() && TWO32 / g.tickSize % g.maxLevels == 0
    ensures WindowLevel(g, j) == j % g.maxLevels
  {
    var q := TWO32 / g.tickSize;
    assert (q + j) - j == q;
    SameRemainder(q + j, j, g.maxLevels);
  }

  lemma WithoutSeamNoCollision(g: Grid, i: int, j: int)
    requires g.Valid() && IsPow2(g.maxLevels) && g.maxLevels * g.tickSize <= TWO32
    requires TWO32 / g.tickSize % g.maxLevels == 0
    requires -1 * g.maxLevels < i < j < g.maxLevels && j - i < g.maxLevels
    ensures !Collide(g, i, j)
  {
    CollideIff(g, i, j);
    WindowLevelWithoutSeam(g, i);
    WindowLevelWithoutSeam(g, j);
    if i % g.maxLevels == j % g.maxLevels {
      CloseSameRemainder(i, j, g.maxLevels);
      assert false;
    }
  }

  lemma SeamCollides(g: Grid, i: int, j: int)
    requires g.Valid() && IsPow2(g.maxLevels) && g.maxLevels * g.tickSize <= TWO32
    requires -1 * g.maxLevels < i < 0 <= j < g.maxLevels && j - i == TWO32 / g.tickSize % g.maxLevels
    ensures Collide(g, i, j)
  {
    CollideIff(g, i, j);
    SeamShift(TWO32 / g.tickSize, g.maxLevels, i, j);
  }

  lemma SeamShift(q: int, n: int, i: int, j: int)
    requires n > 0 && j - i == q % n
    ensures (q + i) % n == j % n
  {
    DivModUnique(q - q % n, n, q / n, 0);
    SameRemainder(q + i, j, n);
  }

  /** If the depth leaves a remainder, some tick below the reference reuses the level of one above it. */
  lemma SeamCollision(q: int, n: int, below: int) returns (i: int, j: int)
    requires 1 <= below < n && q % n != 0
    ensures -1 * below <= i < 0 <= j < n - below && j - i == q % n
  {
    var r := q % n;
    if r <= n - below {
      i, j := -1, r - 1;
    } else if r >= below {
      i, j := -1 * below, r - below;
    } else {
      i, j := -1 * r, 0;
    }
  }
}
