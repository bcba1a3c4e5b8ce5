/** The integer part of `buildCompassRoseTicks` in scripts.js: which angles
    get a tick and how long, opaque and wide each tick is. The endpoint
    coordinates (cosine and sine of the angle) are not modelled. */
module CompassRose {

  /** Outer radius of the rose; each tick runs inwards from it. */
  const OuterRadius: int := 156

  /** The visual weight of a tick, decided by the angle's significance. */
  datatype TickClass = Major | Medium | Minor | Fine

  /** One tick line: its angle in degrees and the three attributes the
      source sets on it. */
  datatype Tick = Tick(deg: int, length: int, opacity: real, strokeWidth: real)

  /** The class of an angle, in the source's priority order: a multiple of
      90 before a multiple of 45 before a multiple of 10. */
  function ClassOf(deg: int): (c: TickClass)
    ensures c == Major <==> deg % 90 == 0
    ensures c == Medium <==> deg % 45 == 0 && deg % 90 != 0
    ensures c == Minor <==> deg % 10 == 0 && deg % 45 != 0
    ensures c == Fine <==> deg % 10 != 0 && deg % 45 != 0
  {
    if deg % 90 == 0 then Major
    else if deg % 45 == 0 then Medium
    else if deg % 10 == 0 then Minor
    else Fine
  }

  function Length(c: TickClass): int {
    match c
    case Major => 20
    case Medium => 13
    case Minor => 8
    case Fine => 4
  }

  function Opacity(c: TickClass): real {
    match c
    case Major => 0.8
    case Medium => 0.5
    case Minor => 0.28
    case Fine => 0.14
  }

  function StrokeWidth(c: TickClass): real {
    match c
    case Major => 2.5
    case Medium => 1.5
    case Minor => 1.0
    case Fine => 1.0
  }

  /** The tick for one angle, computed as the source does: three flags and
      three independent chains of conditionals. */
  function TickAt(deg: int): (t: Tick)
    ensures t.deg == deg
    ensures t.length == Length(ClassOf(deg))
    ensures t.opacity == Opacity(ClassOf(deg))
    ensures t.strokeWidth == StrokeWidth(ClassOf(deg))
  {
    var isMaj := deg % 90 == 0;
    var isMed := deg % 45 == 0;
    var isMn := deg % 10 == 0;
    Tick(deg,
         if isMaj then 20 else if isMed then 13 else if isMn then 8 else 4,
         if isMaj then 0.8 else if isMed then 0.5 else if isMn then 0.28 else 0.14,
         if isMaj then 2.5 else if isMed then 1.5 else 1.0)
  }

  /** The full pass: one tick every 5 degrees, in ascending order. */
  ghost predicate IsRose(ts: seq<Tick>) {
    && |ts| == 72
    && forall i :: 0 <= i < |ts| ==> ts[i] == TickAt(5 * i)
  }

  /** The loop of `buildCompassRoseTicks`: every degree from 0 to 359,
      skipping those that are not multiples of 5. */
  method BuildRoseTicks() returns (ts: seq<Tick>)
    ensures IsRose(ts)
    ensures forall i, j :: 0 <= i < j < |ts| ==> ts[i].deg < ts[j].deg
    ensures forall i :: 0 <= i < |ts| ==> 0 <= ts[i].deg < 360 && ts[i].deg % 5 == 0
  {
    ts := [];
    for deg := 0 to 360
      invariant |ts| == (deg + 4) / 5
      invariant forall i :: 0 <= i < |ts| ==> ts[i] == TickAt(5 * i)
    {
      if deg % 5 != 0 {
        continue;
      }
      ts := ts + [TickAt(deg)];
    }
  }

  /** Every tick's length is one of the four class lengths, so its inner end
      lies between radius 136 and radius 152. */
  lemma InnerRadiusBounds(deg: int)
    ensures TickAt(deg).length in {4, 8, 13, 20}
    ensures 136 <= OuterRadius - TickAt(deg).length <= 152
  {
  }

  /** Minor and fine ticks differ only in length and opacity. */
  lemma MinorAndFineShareWidth(d1: int, d2: int)
    requires ClassOf(d1) == Minor && ClassOf(d2) == Fine
    ensures TickAt(d1).strokeWidth == TickAt(d2).strokeWidth == 1.0
    ensures TickAt(d1).length > TickAt(d2).length
  {
  }

  /** Significance of a class, from fine (0) to major (3). */
  function Rank(c: TickClass): nat {
    match c
    case Major => 3
    case Medium => 2
    case Minor => 1
    case Fine => 0
  }

  /** A more significant angle never gets a shorter, fainter or thinner tick. */
  lemma WeightIsMonotone(c1: TickClass, c2: TickClass)
    requires Rank(c1) < Rank(c2)
    ensures Length(c1) < Length(c2)
    ensures Opacity(c1) < Opacity(c2)
    ensures StrokeWidth(c1) <= StrokeWidth(c2)
  {
  }

  /** Division by a fixed modulus: the quotient and remainder are unique. */
  lemma DivMod90(x: int, m: int, u: int)
    requires 0 <= u < 90 && x == 90 * m + u
    ensures x / 90 == m && x % 90 == u
  {
  }

  lemma DivMod45(x: int, m: int, u: int)
    requires 0 <= u < 45 && x == 45 * m + u
    ensures x / 45 == m && x % 45 == u
  {
  }

  lemma DivMod18(x: int, m: int, u: int)
    requires 0 <= u < 18 && x == 18 * m + u
    ensures x / 18 == m && x % 18 == u
  {
  }

  lemma DivMod10(x: int, m: int, u: int)
    requires 0 <= u < 10 && x == 10 * m + u
    ensures x / 10 == m && x % 10 == u
  {
  }

  lemma DivMod2(x: int, m: int, u: int)
    requires 0 <= u < 2 && x == 2 * m + u
    ensures x / 2 == m && x % 2 == u
  {
  }

  /** Reducing an angle to its quadrant keeps its residues mod 45 and 10. */
  lemma QuadrantResidues(deg: int)
    ensures (deg % 90) % 90 == deg % 90
    ensures (deg % 90) % 45 == deg % 45
    ensures (deg % 90) % 10 == deg % 10
  {
    QuadrantResidue45(deg);
    QuadrantResidue10(deg);
  }

  lemma QuadrantResidue45(deg: int)
    ensures (deg % 90) % 45 == deg % 45
  {
    var q, r := deg / 90, deg % 90;
    if r < 45 {
      DivMod45(r, 0, r);
      DivMod45(deg, 2 * q, r);
    } else {
      DivMod45(r, 1, r - 45);
      DivMod45(deg, 2 * q + 1, r - 45);
    }
  }

  lemma QuadrantResidue10(deg: int)
    ensures (deg % 90) % 10 == deg % 10
  {
    var q, r := deg / 90, deg % 90;
    var t, u := r / 10, r % 10;
    DivMod10(deg, 9 * q + t, u);
  }

  /** The class of an angle depends only on its position within its
      90-degree quadrant. */
  lemma ClassOfQuadrant(deg: int)
    ensures ClassOf(deg) == ClassOf(deg % 90)
  {
    QuadrantResidues(deg);
  }

  /** Turning the rose by a quarter turn maps ticks onto ticks of the same
      class. */
  lemma QuarterTurnSymmetry(deg: int)
    ensures ClassOf(deg + 90) == ClassOf(deg)
  {
    ClassOfQuadrant(deg);
    ClassOfQuadrant(deg + 90);
    assert (deg + 90) % 90 == deg % 90;
  }

  /** Mirroring the rose about its north-south axis maps ticks onto ticks of
      the same class. */
  lemma MirrorSymmetry(deg: int)
    ensures ClassOf(360 - deg) == ClassOf(deg)
  {
    var q, r := deg / 90, deg % 90;
    ClassOfQuadrant(deg);
    ClassOfQuadrant(360 - deg);
    if r == 0 {
      DivMod90(360 - deg, 4 - q, 0);
    } else {
      DivMod90(360 - deg, 3 - q, 90 - r);
      MirrorInQuadrant(r);
    }
  }

  /** Within a quadrant, the angles `r` and `90 - r` have the same class. */
  lemma MirrorInQuadrant(r: int)
    requires 0 < r < 90
    ensures ClassOf(90 - r) == ClassOf(r)
  {
    DivMod90(r, 0, r);
    DivMod90(90 - r, 0, 90 - r);
    if r < 45 {
      DivMod45(r, 0, r);
      DivMod45(90 - r, 1, 45 - r);
    } else if r == 45 {
      DivMod45(r, 1, 0);
    } else {
      DivMod45(r, 1, r - 45);
      DivMod45(90 - r, 0, 90 - r);
    }
    var t, u := r / 10, r % 10;
    if u == 0 {
      DivMod10(90 - r, 9 - t, 0);
    } else {
      DivMod10(90 - r, 8 - t, 10 - u);
    }
  }

  /** Number of the first `n` ticks of the rose that fall in class `c`. */
  function CountUpTo(c: TickClass, n: nat): nat {
    if n == 0 then 0
    else CountUpTo(c, n - 1) + (if ClassOf(5 * (n - 1)) == c then 1 else 0)
  }

  /** Number of ticks of `ts` in class `c`. */
  function CountClass(ts: seq<Tick>, c: TickClass): nat {
    if |ts| == 0 then 0
    else CountClass(ts[..|ts| - 1], c) + (if ClassOf(ts[|ts| - 1].deg) == c then 1 else 0)
  }

  lemma {:induction false} CountPrefix(ts: seq<Tick>, c: TickClass, n: nat)
    requires n <= |ts|
    requires forall i :: 0 <= i < |ts| ==> ts[i] == TickAt(5 * i)
    ensures CountClass(ts[..n], c) == CountUpTo(c, n)
  {
    if n > 0 {
      CountPrefix(ts, c, n - 1);
      assert ts[..n][..n - 1] == ts[..n - 1];
    }
  }

  /** Closed forms of `CountUpTo`: tick `k` is at `5 * k` degrees, so it is
      major when `k % 18 == 0`, medium when `k % 18 == 9`, minor when `k` is
      even but not major, and fine when `k` is odd but not medium. */
  function ClosedCount(c: TickClass, n: nat): int {
    match c
    case Major => (n + 17) / 18
    case Medium => (n + 8) / 18
    case Minor => (n + 1) / 2 - (n + 17) / 18
    case Fine => n / 2 - (n + 8) / 18
  }

  /** The classes of the eighteen ticks of the first quadrant, by index. */
  lemma ClassOfFirstQuadrant(r: nat)
    requires r < 18
    ensures ClassOf(5 * r) == if r == 0 then Major else if r == 9 then Medium else if r % 2 == 0 then Minor else Fine
  {
    var d := 5 * r;
    DivMod90(d, 0, d);
    if r < 9 {
      DivMod45(d, 0, d);
    } else {
      DivMod45(d, 1, d - 45);
    }
    var t, b := r / 2, r % 2;
    DivMod10(d, t, 5 * b);
  }

  lemma ClassOfStep(k: nat)
    ensures ClassOf(5 * k) == Major <==> k % 18 == 0
    ensures ClassOf(5 * k) == Medium <==> k % 18 == 9
    ensures ClassOf(5 * k) == Minor <==> k % 2 == 0 && k % 18 != 0
    ensures ClassOf(5 * k) == Fine <==> k % 2 == 1 && k % 18 != 9
  {
    var q, r := k / 18, k % 18;
    DivMod90(5 * k, q, 5 * r);
    ClassOfQuadrant(5 * k);
    ClassOfFirstQuadrant(r);
    var t, b := r / 2, r % 2;
    DivMod2(k, 9 * q + t, b);
  }

  /** How the closed forms grow from `k` to `k + 1` ticks, in terms of the
      position of tick `k` within its 90-degree block. */
  lemma ClosedCountStep(k: nat)
    ensures (k + 18) / 18 == (k + 17) / 18 + (if k % 18 == 0 then 1 else 0)
    ensures (k + 9) / 18 == (k + 8) / 18 + (if k % 18 == 9 then 1 else 0)
    ensures (k + 2) / 2 == (k + 1) / 2 + (if k % 2 == 0 then 1 else 0)
    ensures (k + 1) / 2 == k / 2 + (if k % 2 == 1 then 1 else 0)
  {
    Div18Step(k);
    Div2Step(k);
  }

  lemma Div18Step(k: nat)
    ensures (k + 18) / 18 == (k + 17) / 18 + (if k % 18 == 0 then 1 else 0)
    ensures (k + 9) / 18 == (k + 8) / 18 + (if k % 18 == 9 then 1 else 0)
  {
    var q, r := k / 18, k % 18;
    DivMod18(k + 18, q + 1, r);
    if r == 0 {
      DivMod18(k + 17, q, 17);
    } else {
      DivMod18(k + 17, q + 1, r - 1);
    }
    if r <= 8 {
      DivMod18(k + 9, q, r + 9);
      DivMod18(k + 8, q, r + 8);
    } else if r == 9 {
      DivMod18(k + 9, q + 1, 0);
      DivMod18(k + 8, q, 17);
    } else {
      DivMod18(k + 9, q + 1, r - 9);
      DivMod18(k + 8, q + 1, r - 10);
    }
  }

  lemma Div2Step(k: nat)
    ensures (k + 2) / 2 == (k + 1) / 2 + (if k % 2 == 0 then 1 else 0)
    ensures (k + 1) / 2 == k / 2 + (if k % 2 == 1 then 1 else 0)
  {
    var h, b := k / 2, k % 2;
    DivMod2(k + 2, h + 1, b);
    if b == 0 {
      DivMod2(k + 1, h, 1);
    } else {
      DivMod2(k + 1, h + 1, 0);
    }
  }

  lemma {:induction false} CountUpToClosed(c: TickClass, n: nat)
    ensures CountUpTo(c, n) == ClosedCount(c, n)
  {
    if n > 0 {
      var k := n - 1;
      CountUpToClosed(c, k);
      ClassOfStep(k);
      ClosedCountStep(k);
      assert CountUpTo(c, n) == CountUpTo(c, k) + (if ClassOf(5 * k) == c then 1 else 0);
      match c
      case Major =>
        assert ClosedCount(c, n) == (k + 18) / 18 && ClosedCount(c, k) == (k + 17) / 18;
      case Medium =>
        assert ClosedCount(c, n) == (k + 9) / 18 && ClosedCount(c, k) == (k + 8) / 18;
      case Minor =>
        assert ClosedCount(c, n) == (k + 2) / 2 - (k + 18) / 18;
        assert ClosedCount(c, k) == (k + 1) / 2 - (k + 17) / 18;
      case Fine =>
        assert ClosedCount(c, n) == (k + 1) / 2 - (k + 9) / 18;
        assert ClosedCount(c, k) == k / 2 - (k + 8) / 18;
    }
  }

  /** A full rose has 4 major, 4 medium, 32 minor and 32 fine ticks. */
  lemma ClassCounts(ts: seq<Tick>)
    requires IsRose(ts)
    ensures CountClass(ts, Major) == 4
    ensures CountClass(ts, Medium) == 4
    ensures CountClass(ts, Minor) == 32
    ensures CountClass(ts, Fine) == 32
  {
    assert ts[..72] == ts;
    CountPrefix(ts, Major, 72);
    CountPrefix(ts, Medium, 72);
    CountPrefix(ts, Minor, 72);
    CountPrefix(ts, Fine, 72);
    CountUpToClosed(Major, 72);
    CountUpToClosed(Medium, 72);
    CountUpToClosed(Minor, 72);
    CountUpToClosed(Fine, 72);
  }
}
