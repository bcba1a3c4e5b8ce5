# PointMe.live page scripts — a Dafny model

This project models the decision logic of the PointMe.live shared browser
script (`scripts.js`). It covers four pieces:

- **Heading normalizer** (`Compass`): `DIRS` and `headingToDir`. They map a
  compass heading in degrees to one of sixteen direction labels. The model
  keeps JavaScript's rounding (`Math.round`, ties towards +infinity) and its
  truncating `%`.
- **Compass rose ticks** (`CompassRose`): the integer part of
  `buildCompassRoseTicks`. One tick is drawn every 5 degrees, and its
  length, opacity and stroke width depend on the angle's class.
- **Orientation session** (`Orientation`): `startCompass` and its
  `deviceorientation` handler. The browser is a record of what feature
  detection finds and how the permission request settles. The result is the
  ordered trace of callbacks and listener registration, plus the boolean
  the session resolves to.
- **Active navigation link** (`NavHighlight`): the page-load handler that
  takes the last `/`-separated segment of the path, or "index.html" when it
  is empty, and adds the class "active" to every link whose `href` names
  that page.

`Wrappers` holds the `Option` type that stands for JavaScript's
`undefined`/`null`.

A few points on how JavaScript semantics are modelled:

- `DIRS[-0]`: the source index `Math.round(h / 22.5) % 16` is `-0` when the
  rounded value is a negative multiple of 16. A property access with `-0`
  reads element `"0"`, so `headingToDir(-360)` is "N". The integer model
  gets this for free, because `-0` and `0` are the same integer. So the
  as-written normalizer is defined exactly when the rounded sector is
  non-negative or a multiple of 16 (`Compass.HeadingToDir`), and is
  `undefined` otherwise.
- Event fields: `webkitCompassHeading` that is undefined or null is `None`.
  `alpha` that is null is `None`.

## Model

| member | source | states |
|---|---|---|
| Compass.JsRound | scripts.js:28 | `Math.round` gives the integer k with k - 1/2 <= x < k + 1/2, so ties go up |
| Compass.JsRem16 | scripts.js:28 | JavaScript `% 16` keeps the sign of the dividend: in [0,16) for non-negative input, in (-16,0] for negative input, and always congruent to the input mod 16 |
| Compass.HeadingToDir | scripts.js:24-29 | `headingToDir` has a label exactly when the rounded sector is >= 0 or a multiple of 16; any label it gives is one of the 16 `DIRS` |
| Compass.DefinedAboveMinusHalfSector | scripts.js:27-29 | every heading >= -11.25 gets a label from `DIRS` |
| Compass.SectorLabel | scripts.js:24-29 | every heading in the half-open sector [22.5 i - 11.25, 22.5 i + 11.25) gets label i |
| Compass.LabelSector | scripts.js:24-29 | within [-11.25, 348.75), label i is given only to headings in sector i, so each label covers exactly its sector |
| Compass.SectorBounds | scripts.js:28 | rounded sector k is exactly the heading interval [22.5 k - 11.25, 22.5 k + 11.25) |
| Compass.NorthWrapsAround | scripts.js:24-29 | headings in [348.75, 371.25) are "N" again |
| Compass.SectorShift | scripts.js:28 | adding 360 degrees moves the rounded sector by exactly 16 |
| Compass.PeriodicAboveMinusHalfSector | scripts.js:27-29 | for h >= -11.25, h + 360 gets the same label as h |
| Compass.KnownHeadings | scripts.js:27-29 | 0 -> "N", 11.25 -> "NNE" (tie rounds up), 22.5 -> "NNE", 359 -> "N", 360 -> "N" |
| Compass.NegativeHeadingUndefined | scripts.js:28 | -30 gives an undefined label while 330 gives "NNW"; -360 still gives "N" |
| Compass.HeadingToDirMod | scripts.js:27-29 | with a Euclidean modulo, every heading gets one of the 16 labels |
| Compass.PeriodicMod | scripts.js:27-29 | the corrected normalizer gives h and h + 360 the same label, for every h |
| Compass.AsWrittenAgreesWithMod | scripts.js:27-29 | where the source gives a label it is the corrected one; they differ only for negative rounded sectors |
| CompassRose.ClassOf | scripts.js:82-87 | the priority order: major iff the angle is a multiple of 90; medium iff a multiple of 45 but not of 90; minor iff a multiple of 10 but not of 45; fine otherwise |
| CompassRose.TickAt | scripts.js:82-87 | the source's three conditional chains give each tick the length, opacity and stroke width of its class: (20, 0.8, 2.5), (13, 0.5, 1.5), (8, 0.28, 1), (4, 0.14, 1) |
| CompassRose.BuildRoseTicks | scripts.js:79-87 | the loop over 0..359 that skips non-multiples of 5 yields a full rose (`IsRose`: exactly 72 ticks, the i-th at 5 i degrees), strictly ascending, all multiples of 5 in [0, 360) |
| CompassRose.InnerRadiusBounds | scripts.js:78-85 | tick length is in {4, 8, 13, 20}, so the inner end at radius 156 - length lies in [136, 152] |
| CompassRose.MinorAndFineShareWidth | scripts.js:85-87 | minor and fine ticks share stroke width 1, and minor ticks are longer |
| CompassRose.WeightIsMonotone | scripts.js:85-87 | a more significant class never gets a shorter, fainter or thinner tick |
| CompassRose.ClassOfQuadrant | scripts.js:82-84 | an angle's class depends only on its position within its 90-degree quadrant |
| CompassRose.QuarterTurnSymmetry | scripts.js:82-87 | turning by 90 degrees preserves the class |
| CompassRose.MirrorSymmetry | scripts.js:82-87 | mirroring about north-south (deg -> 360 - deg) preserves the class |
| CompassRose.ClassOfFirstQuadrant | scripts.js:82-87 | among the first eighteen ticks, index 0 is major, 9 is medium, the other even indices are minor and the odd ones fine |
| CompassRose.ClassOfStep | scripts.js:79-84 | the k-th tick (at 5 k degrees) is major iff k % 18 == 0, medium iff k % 18 == 9, minor iff k is even and not major, and fine iff k is odd and not medium |
| CompassRose.CountUpToClosed | scripts.js:79-87 | closed-form count of each class among the first n ticks |
| CompassRose.ClassCounts | scripts.js:79-87 | a full pass has 4 major, 4 medium, 32 minor and 32 fine ticks |
| Orientation.StartCompass | scripts.js:35-72 | the session resolves to `true` iff the event type exists and either no permission is needed or it was answered "granted"; the listener is registered iff the result is `true` |
| Orientation.StartedShape | scripts.js:57-71 | on success the trace ends with the granted callback (exactly when supplied) and then the listener; its only status is "Requesting…" |
| Orientation.FailureShape | scripts.js:39-55 | on failure there is no granted callback and no listener; with a status callback, the last message is a warning |
| Orientation.RequestComesFirst | scripts.js:39-43 | "Requesting sensor permission…" is the first effect exactly when a permission step exists and a status callback was given |
| Orientation.FailureMessages | scripts.js:44-54 | the thrown, refused and unsupported cases each emit their own message, including the thrown error's message |
| Orientation.UnsupportedDevice | scripts.js:52-55 | without the event type: the unsupported message (when listened for), no listener, and `false`, whatever the permission flags say |
| Orientation.EventHeading | scripts.js:59-67 | a present `webkitCompassHeading` wins unchanged; otherwise a non-null `alpha` gives 360 - alpha; otherwise the event is ignored |
| Orientation.EventHeadingInRange | scripts.js:60-65 | readings in [0, 360] give a heading in [0, 360] |
| Orientation.CollectHeadings | scripts.js:59-68 | the listener reports at most once per event, once for every event exactly when every event carries a reading, and only headings that some event produced, in order |
| Orientation.SessionReports | scripts.js:57-68 | `onHeading` sees nothing unless the session started and the callback was supplied; once both hold it sees every event's heading in order, one report per event exactly when every event carries a reading, and never more reports than events |
| Orientation.HeadingsComplete | scripts.js:59-68 | every event is reported exactly when every event carries a reading |
| Orientation.HeadingsBounded | scripts.js:59-68 | the number of reports never exceeds the number of events |
| Orientation.HeadingsInRange | scripts.js:59-68 | over in-range readings, every reported heading lies in [0, 360] |
| NavHighlight.Split | scripts.js:14 | `split('/')` returns at least one piece, no piece contains `/`, and there is exactly one piece iff the path has no `/` |
| NavHighlight.JoinSplit | scripts.js:14 | joining the pieces with `/` gives back the path |
| NavHighlight.SplitJoin | scripts.js:14 | splitting a `/`-join of slash-free pieces gives back the pieces |
| NavHighlight.LastPieceIsLastSegment | scripts.js:14 | `split('/').pop()` is the slash-free suffix that is the whole path or follows its last `/` |
| NavHighlight.LastSegmentUnique | scripts.js:14 | a path has only one such last segment |
| NavHighlight.CurrentPage | scripts.js:14 | the page is the last segment, or "index.html" when that segment is empty; never empty, never contains `/` |
| NavHighlight.PageFromLastSegment | scripts.js:14 | the page is determined by the last segment alone |
| NavHighlight.FileInDirectory | scripts.js:14 | `dir/name` is page `name` for any directory |
| NavHighlight.DirectoryIsIndex | scripts.js:14 | a path ending in `/` is "index.html" |
| NavHighlight.PathWithoutSeparator | scripts.js:14 | a path without `/` is its own page; the empty path is "index.html" |
| NavHighlight.MarkActive | scripts.js:15-19 | a link ends up with "active" iff it had it or its `href` names the page; no link loses a class or gains any other; links not naming the page are untouched |
| NavHighlight.HighlightActive | scripts.js:14-19 | the whole step: "active" iff already active or the `href` names the current page of the path |
| NavHighlight.MarkActiveIdempotent | scripts.js:15-19 | highlighting twice is the same as highlighting once |
| NavHighlight.DirectoryHighlightsIndex | scripts.js:14-17 | on a path ending in `/`, a link is highlighted iff its `href` is "index.html" or "./index.html" |

## Left out

- `calcQibla` (scripts.js:124-135): built on `atan2`, `sin`, `cos` and `tan`. Dafny has no trigonometry, so a model would only restate axioms.
- Tick endpoint coordinates and their `toFixed(1)` formatting (scripts.js:81, 89-92): cosine and sine over floating point.
- SVG element creation, attribute setting and the `-ticks` group lookup (scripts.js:76-77, 94-101): DOM plumbing.
- The navigation toggle (scripts.js:7-11) and `initFullscreenBtn` (scripts.js:106-121): event wiring to the DOM and the Fullscreen API.
- The `await`, promise and `addEventListener` mechanics of `startCompass`: only the settled outcome of each branch is modelled.
- Callbacks that throw. An `onStatus` that throws inside the `try` block would be caught and reported as a permission error. The model assumes callbacks return normally.
- Orientation.StartCompass: a permission request that throws or rejects with `null` or `undefined` is not modelled. With `onStatus` supplied, reading `e.message` then throws inside the `catch`, so `startCompass` rejects instead of resolving `false`. The model's `Throws(message)` always carries a string, so it resolves `false`. A thrown object without a `message` property, which the source renders as "undefined", corresponds to `Throws("undefined")`.
- Orientation.EventHeading: `alpha` being `undefined` (which would give `NaN`) is not modelled. The device-orientation event interface declares `alpha` as a nullable number.
- Compass.HeadingToDir: `h / 22.5` is exact real arithmetic. IEEE double rounding, `NaN` and infinities are not modelled.
- Orientation.EventHeading: `360 - alpha` is exact real arithmetic. IEEE double rounding, `NaN` and infinities are not modelled.

## Findings

| source | as written | input that shows it | evidently intended | confidence | as-written member | corrected member |
|---|---|---|---|---|---|---|
| scripts.js:28 | `Math.round(h / 22.5) % 16` uses JavaScript's truncating `%`, so a negative sector gives a negative array index and `undefined` | h = -30: the sector is -1, `-1 % 16` is -1, and `DIRS[-1]` is `undefined`, while 330 gives "NNW" | a mathematical modulo, so every heading gets a label and the mapping is periodic for every h | not executed; low impact, because the page's own handler produces headings in [0, 360] | Compass.NegativeHeadingUndefined | Compass.HeadingToDirMod |
