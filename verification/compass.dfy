/** The heading normalizer of scripts.js: `DIRS` and `headingToDir`.

    A heading is a `real` standing in for the JavaScript number. The source
    computes `DIRS[Math.round(h / 22.5) % 16]`, where `Math.round` rounds
    ties towards +infinity and `%` truncates (its result keeps the sign of
    the dividend). A negative index reads `undefined`, which is `None` here.
    The index `-0` (from `-16 % 16`, say) reads element 0, exactly as the
    integer 0 does. */
module Compass {
  import opened Wrappers

  /** The sixteen direction labels, clockwise from north. */
  const Dirs: seq<string> :=
    ["N", "NNE", "NE", "ENE", "E", "ESE", "SE", "SSE",
     "S", "SSW", "SW", "WSW", "W", "WNW", "NW", "NNW"]

  /** Width in degrees of the sector each label covers. */
  const SectorWidth: real := 22.5

  /** `Math.round`: the nearest integer, halves rounded up. */
  function JsRound(x: real): (k: int)
    ensures (k as real) - 0.5 <= x < (k as real) + 0.5
  {
    (x + 0.5).Floor
  }

  /** The JavaScript remainder `a % 16` on integers: it truncates towards
      zero, so a negative dividend gives a result in (-16, 0]. */
  function JsRem16(a: int): (r: int)
    ensures a >= 0 ==> 0 <= r < 16
    ensures a < 0 ==> -16 < r <= 0
    ensures (a - r) % 16 == 0
  {
    if a >= 0 then a % 16 else -((-a) % 16)
  }

  /** The sector number `Math.round(h / 22.5)` before wrapping. */
  function Sector(h: real): int {
    JsRound(h / SectorWidth)
  }

  /** `headingToDir(h)` as written: `None` where the array index is
      negative and JavaScript yields `undefined`. */
  function HeadingToDir(h: real): (r: Option<string>)
    ensures r.Some? <==> (Sector(h) >= 0 || Sector(h) % 16 == 0)
    ensures r.Some? ==> r.value in Dirs
  {
    var i := JsRem16(Sector(h));
    if i >= 0 then Some(Dirs[i]) else None
  }

  /** Every heading from -11.25 degrees upwards has a label; this covers all
      readings the orientation handler produces. */
  lemma DefinedAboveMinusHalfSector(h: real)
    requires h >= -11.25
    ensures HeadingToDir(h).Some?
    ensures HeadingToDir(h).value in Dirs
  {
  }

  /** Label `Dirs[i]` covers the half-open sector of width 22.5 degrees
      centred on `22.5 * i`, for headings inside one turn. */
  lemma SectorLabel(h: real, i: int)
    requires 0 <= i < 16
    requires SectorWidth * (i as real) - 11.25 <= h < SectorWidth * (i as real) + 11.25
    ensures HeadingToDir(h) == Some(Dirs[i])
  {
    SectorBounds(h);
    var k := Sector(h);
    assert (k as real) < (i as real) + 1.0 && (i as real) < (k as real) + 1.0;
    assert k == i;
    LabelOfSector(h);
  }

  /** Conversely, within one turn starting at -11.25 degrees, label
      `Dirs[i]` is given only to headings in sector `i`. */
  lemma LabelSector(h: real, i: int)
    requires -11.25 <= h < 348.75
    requires 0 <= i < 16
    requires HeadingToDir(h) == Some(Dirs[i])
    ensures SectorWidth * (i as real) - 11.25 <= h < SectorWidth * (i as real) + 11.25
  {
    SectorBounds(h);
    var k := Sector(h);
    assert -1.0 < (k as real) < 16.0;
    LabelOfSector(h);
    DirsDistinct(k, i);
  }

  /** Sectors 0 to 15 index the labels directly. */
  lemma LabelOfSector(h: real)
    requires 0 <= Sector(h) < 16
    ensures HeadingToDir(h) == Some(Dirs[Sector(h)])
  {
    var k := Sector(h);
    assert k % 16 == k;
    assert JsRem16(k) == k;
  }

  /** Sector `k` is the heading interval of width 22.5 centred on `22.5 * k`. */
  lemma SectorBounds(h: real)
    ensures SectorWidth * (Sector(h) as real) - 11.25 <= h < SectorWidth * (Sector(h) as real) + 11.25
  {
    var x := h / SectorWidth;
    assert h == SectorWidth * x;
  }

  /** The sixteen labels are pairwise different. */
  lemma DirsDistinct(a: int, b: int)
    requires 0 <= a < 16 && 0 <= b < 16
    requires Dirs[a] == Dirs[b]
    ensures a == b
  {
  }

  /** The last half sector of the turn wraps back to north. */
  lemma NorthWrapsAround(h: real)
    requires 348.75 <= h < 371.25
    ensures HeadingToDir(h) == Some("N")
  {
  }

  /** Adding a full turn moves the rounded sector by exactly 16. */
  lemma SectorShift(h: real)
    ensures Sector(h + 360.0) == Sector(h) + 16
  {
  }

  /** A full turn does not change the label of any heading from -11.25
      degrees upwards. */
  lemma PeriodicAboveMinusHalfSector(h: real)
    requires h >= -11.25
    ensures HeadingToDir(h + 360.0) == HeadingToDir(h)
  {
    SectorShift(h);
    var k := Sector(h);
    assert k >= 0;
    assert (k + 16) % 16 == k % 16;
    assert JsRem16(k + 16) == JsRem16(k);
  }

  /** Concrete labels, including the tie at 11.25 degrees that rounds up. */
  lemma KnownHeadings()
    ensures HeadingToDir(0.0) == Some("N")
    ensures HeadingToDir(11.25) == Some("NNE")
    ensures HeadingToDir(22.5) == Some("NNE")
    ensures HeadingToDir(359.0) == Some("N")
    ensures HeadingToDir(360.0) == Some("N")
  {
    SectorLabel(0.0, 0);
    SectorLabel(11.25, 1);
    SectorLabel(22.5, 1);
    NorthWrapsAround(359.0);
    NorthWrapsAround(360.0);
  }

  /** Truncation in the source: -30 degrees has no label, although the same
      direction written as 330 degrees is "NNW". A whole negative turn such
      as -360 degrees still reads "N" because `-16 % 16` is `-0`. */
  lemma NegativeHeadingUndefined()
    ensures Sector(-30.0) == -1
    ensures HeadingToDir(-30.0) == None
    ensures HeadingToDir(330.0) == Some("NNW")
    ensures HeadingToDir(-360.0) == Some("N")
  {
  }

  /** The evidently intended normalizer: a mathematical (Euclidean) modulo,
      so every heading, of either sign, gets a label. */
  function HeadingToDirMod(h: real): (r: string)
    ensures r in Dirs
  {
    Dirs[Sector(h) % |Dirs|]
  }

  /** The corrected normalizer is periodic for every heading. */
  lemma PeriodicMod(h: real)
    ensures HeadingToDirMod(h + 360.0) == HeadingToDirMod(h)
  {
    SectorShift(h);
    assert (Sector(h) + 16) % 16 == Sector(h) % 16;
  }

  /** Wherever the code as written produces a label, it is the label of the
      corrected normalizer; they differ only where the source yields
      `undefined`. */
  lemma AsWrittenAgreesWithMod(h: real)
    ensures HeadingToDir(h).Some? ==> HeadingToDir(h).value == HeadingToDirMod(h)
    ensures HeadingToDir(h).None? ==> Sector(h) < 0
  {
  }
}
