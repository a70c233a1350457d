# Aviary airfoil core in Dafny

Aviary is a small interactive airfoil visualiser. Its C# program (Program.cs)
loads a 2-D airfoil coordinate file (`.dat`), walks the points to total the top
and bottom surface lengths and areas of a wing, and draws everything with
Raylib. A Python script (turnitintoadatfile.py) turns an HTML-canvas path
(`ctx.moveTo(160.000000, -120.000000);` ...) into such a `.dat` file.

This project models the logic of that core, without the drawing:

- **AirfoilLoader**: `getAirfoil`, as the method `GetAirfoil` with its
  `while` loop over the file's lines. It is proved equal to the function
  `Load`, and the loader's properties are lemmas about `Load`:
  - the first line, trimmed, is the name;
  - only the line `""` is skipped;
  - six-space runs become double spaces;
  - a trimmed line containing `" -"` is split on single spaces, otherwise on
    double spaces, falling back to single spaces when that gives one piece;
  - a missing second piece and a `float.Parse` failure are errors;
  - a point is `(x - 0.5, y * (flip ? -1 : 1))`.
- **Strings**: the ordinal string operations both programs rely on, with C#
  and Python semantics: `Trim`/`strip`, `Contains`, `Split` keeping empty
  pieces, `Join`, `Replace`, scanning left to right without overlap.
- **Geometry**: `perp`, `normal`, `averageVector` and `normalizeVector` over
  real numbers. A zero magnitude is the result None.
- **WingMetrics**: the per-frame loop of `Main` (`AccumulateWingMetrics`). It
  keeps a `lastPoint` cursor, adds each panel's length to the top or the bottom
  total, and multiplies the totals by the wing width. The frame's rotation
  origin, angle of attack, airfoil scale and wing width are a parameter, a
  `Setting`, so one call covers any frame, whatever key input set them to.
- **Atmosphere**: the altitude guard of `AirPressureAtAltitude`.
- **CanvasConverter**: the script's loop (`ConvertFile`), proved equal to the
  function `Convert`:
  - slice the text between the first `(` and the last two characters;
  - split it at `", "`;
  - remove `.000000` and read each field with `int()`;
  - add 480 to the second value;
  - format the values, join them with `" \t"`, join the records with `"\n"`
    under `OUTPUT AIRFOIL`.
- **DatRoundTrip**: the two programs together. The file the script writes,
  read back line by line by the loader, is the airfoil `OUTPUT AIRFOIL` with
  one point per converted line, in order.

Parameters stand for the parts that are floating point or foreign code:
- `float.Parse` is `parse: string -> Option<real>`;
- the Euclidean magnitude is `magnitude`;
- `rotate` and `Vector2.Distance` are `rotate` and `distance`;
- `MathF.Pow(T / T0, g*M/(R*L))` is `powerTerm`;
- `str(round(i / 960, 3))` is `format`.

The lemmas state only what holds for every choice of these parameters, or they
name the assumption they need, for example `IsMagnitude` or `PlainFormat`.

Three behaviours of the code, as the model states them:
- Program.cs:104-106 computes the edge normal as `normalize(-dx, dy*s)`. This
  vector is not perpendicular to its edge in general
  (`Geometry.NormalNotPerpendicular`).
- Program.cs:306 tests the current point twice (`currentAirfoil[i].Y < 0 ||
  currentAirfoil[i].Y < 0`), so only the current point decides whether a panel
  counts as bottom. `WingMetrics.IsOnBottom` models that.
- `normalizeVector` (Program.cs:132-139) divides by the magnitude, which gives
  NaN components for the zero vector. The model returns None there.

## Model

| member | source | states |
|---|---|---|
| AirfoilLoader.GetAirfoil | Program.cs:10-40 | The imperative loader, with its loop over lines 1 .. n-1, its early exit on a failing line and its list of points, returns exactly `Load` of the lines. |
| AirfoilLoader.LoadWith | Program.cs:12-15 | Loading fails with NoLines exactly when there are no lines. Otherwise the name is `lines[0]` trimmed, there are fewer points than lines, and a line failure carries the name and an index in 1 .. n-1. |
| AirfoilLoader.ReadPoint | Program.cs:17-37 | One iteration of the loop body, with its reassignments of `line` and `pointPosition`, gives the outcome `ParseLine` defines: skipped, a point, or the line's error. The split on `" "` when the trimmed line contains `" -"`, otherwise on `"  "` and on `" "` again below two pieces, gives `Pieces`. A failing `float.Parse` is named, the first field before the second. |
| AirfoilLoader.PointsUpTo | Program.cs:15-38 | After lines 1 .. n-1 there are at most n-1 points, and a failure index lies in 1 .. n-1. |
| AirfoilLoader.FailurePersists | Program.cs:36-37 | Once a line fails, no later line changes the result: the exception ends the loop. |
| AirfoilLoader.LoadKept | Program.cs:15-37 | The load succeeds exactly when every line after the name reads. Its points then correspond one to one, in file order, to the non-empty lines after the name. |
| AirfoilLoader.LoadFirstFailure | Program.cs:15-36 | A failing load reports the first failing line and that line's own error; every earlier line read. |
| AirfoilLoader.LoadEveryLine | Program.cs:15-37 | When every line after the name reads as a point, there are exactly n-1 points and point j-1 is that of line j. |
| AirfoilLoader.PointsEveryLine | Program.cs:15-37 | The same for any line reader and any prefix of the lines. |
| AirfoilLoader.PointsUpToKept | Program.cs:15-37 | For any reader that skips exactly the empty line: success exactly when every line reads, one point per kept line in order, otherwise the first failing line. |
| AirfoilLoader.SkippedIffEmpty | Program.cs:18-21 | A line is skipped exactly when it is `""`. The six-space replacement never empties a non-empty line. |
| AirfoilLoader.ReaderSkipsEmpty | Program.cs:20-21 | The loader's reader skips exactly the empty line. |
| AirfoilLoader.WhitespaceLineFails | Program.cs:18-34 | A non-empty line of whitespace only is not skipped. It fails with MissingSecondField, the `pointPosition[1]` index error. |
| AirfoilLoader.NoSpaceLineFails | Program.cs:30-34 | A line without a space, such as a tab-separated one, fails with MissingSecondField after the fallback split. |
| AirfoilLoader.FieldsNoneIff | Program.cs:22-34 | A line has no second piece exactly when its trimmed text holds no space. |
| AirfoilLoader.DoubleSpaceMinusFields | Program.cs:22-26 | `a + "  " + b` with `b` starting with `-` contains `" -"`, so it is split on single spaces, and its fields are `a` and the empty piece. |
| AirfoilLoader.DoubleSpaceBeforeMinusFails | Program.cs:18-36 | Hence `"0.5  -0.3"`, and the same with six spaces, fails with `Unparsable("")` whenever `float.Parse` rejects `""` and accepts the first number. |
| AirfoilLoader.DoubleSpaceFields | Program.cs:30-34 | Two numbers separated by a double space, the second not negative, give exactly those two fields. |
| AirfoilLoader.SixSpacesBecomeTwo | Program.cs:18 | A six-space run between two numbers becomes a double space, and a double space is left alone. |
| AirfoilLoader.SixSpacesSeparatedPoint | Program.cs:18-36 | A line of two numbers separated by six spaces, the second not negative, reads as the point of the two numbers. |
| AirfoilLoader.PairReads | Program.cs:36 | A line that tokenises to two fields that both parse reads as their point. |
| AirfoilLoader.PointOfFlip | Program.cs:36 | Toggling flip keeps every line outcome, keeps x and negates y. |
| AirfoilLoader.PointsUpToMirrored | Program.cs:15-37 | Readers that differ only by the sign of y give the same failures, the same x and opposite y for every point. |
| AirfoilLoader.LoadFlip | Program.cs:36 | Toggling `flipAirfoil` leaves the outcome, the name, the error and every x unchanged, and negates every y. |
| AirfoilLoader.KeptAllNonEmpty | Program.cs:20-21 | When no line is empty, no line is skipped. |
| Strings.TrimStartShape | Program.cs:13 | TrimStart keeps a suffix, drops only white space, and stops at the first character that is not white space. |
| Strings.TrimEndShape | Program.cs:13 | TrimEnd keeps a prefix, drops only white space, and stops at the last character that is not white space. |
| Strings.TrimWithShape | Program.cs:13 | Trim leaves the slice of the text between a leading and a trailing run of white space, and that slice neither starts nor ends with white space. |
| Strings.TrimWithStable | Program.cs:25-26 | Text that neither starts nor ends with white space is its own trim. |
| Strings.TrimWithAllSpace | Program.cs:22-34 | Text of white space only trims to `""`. |
| Strings.TrimWithIdempotent | Program.cs:24-26 | Trimming a trimmed piece again changes nothing. |
| Strings.TrimLeading | Program.cs:33-34 | A leading white-space character is trimmed away. |
| Strings.ContainsWitness | Program.cs:22 | `Contains` found an occurrence at some index. |
| Strings.ContainsFrom | Program.cs:22 | An occurrence at any index is found by `Contains`. |
| Strings.ContainsChar | Program.cs:22 | For a one-character needle, `Contains` is membership. |
| Strings.Split | Program.cs:24 | The first piece is a prefix of the text without the separator, and a single piece is the whole text. |
| Strings.SplitJoin | Program.cs:30 | Joining the pieces of a split with its separator gives the text back: nothing is lost and empty pieces are kept. |
| Strings.SplitPiecesFree | Program.cs:30 | No piece of a split holds the separator. |
| Strings.SplitCount | Program.cs:31-32 | A split gives two or more pieces exactly when the separator occurs. |
| Strings.SplitConcat | Program.cs:24 | The split scans left to right: the first occurrence ends the first piece. |
| Strings.SplitAbsent | Program.cs:31-32 | Text without the separator is one piece. |
| Strings.JoinSplitChar | turnitintoadatfile.py:23 | Pieces without a one-character separator, joined with it and split at it, come back unchanged. |
| Strings.JoinAvoidsChar | turnitintoadatfile.py:21 | A character in neither the pieces nor the separator is not in the join. |
| Strings.JoinRegroup | turnitintoadatfile.py:21 | A join with `" \t"` is a join with `" "` of the pieces after the first, each behind a tab. |
| Strings.ReplaceIsSplitJoin | Program.cs:18 | `Replace` replaces each non-overlapping occurrence found left to right: it is splitting at the pattern and joining with the replacement. |
| Strings.ReplaceAbsent | Program.cs:18 | Text without the pattern is unchanged. |
| Strings.ReplaceEmpty | Program.cs:18-20 | With a non-empty replacement, the result is `""` exactly when the text is. |
| Strings.ReplaceKeeps | Program.cs:18 | Replacing white space with white space leaves white space only. |
| Geometry.NormalizeVector | Program.cs:132-139 | Normalising fails exactly when the magnitude is zero; otherwise the result times the magnitude is the vector. |
| Geometry.NormalizeNonZero | Program.cs:132-139 | For a proper magnitude, it fails exactly on the zero vector and the magnitude is positive otherwise. |
| Geometry.Perp | Program.cs:98-101 | `perp` fails exactly when it normalises a swapped vector of zero magnitude; a normalised result, times the sign and the magnitude, is the swapped vector. |
| Geometry.PerpInvolution | Program.cs:98-101 | Without normalisation `perp` never fails, and `perp(perp(v, f), f) == v`. |
| Geometry.PerpFlip | Program.cs:98-101 | With flip, `perp` is the negation of the unflipped `perp`, and the two fail together. |
| Geometry.NormalFlip | Program.cs:102-108 | `normal(s, e, true)` has the x of `normal(s, e, false)` and its y negated, and the two fail together. |
| Geometry.Normal | Program.cs:102-108 | `normal` fails exactly when `(-dx, dy*s)` has magnitude zero; otherwise the result times that magnitude is `(-dx, dy*s)`. |
| Geometry.NormalDirection | Program.cs:102-108 | The unflipped normal is `(-dx, dy)` divided by its positive magnitude. It fails exactly when start and end coincide. |
| Geometry.NormalNotPerpendicular | Program.cs:104-106 | For the edge (0,0)-(1,2) the normal has a non-zero dot product with the edge. |
| Geometry.AverageVector | Program.cs:128-131 | The midpoint is as far from v1 as from v2, and twice it is v1 + v2. |
| Atmosphere.AirPressureAtAltitude | Program.cs:64-82 | The pressure fails exactly when the altitude exceeds 11000 m, with the out-of-range error for that altitude. |
| Atmosphere.BoundaryAccepted | Program.cs:74-75 | Exactly 11000 m is accepted and anything above it is rejected. |
| Atmosphere.PressureAtSeaLevel | Program.cs:69-80 | At altitude 0 the temperature ratio is one, so for a sea-level temperature other than absolute zero (where the source's `0 / 0` is NaN) the pressure is 101325 Pa. |
| Atmosphere.PressureFalls | Program.cs:77-80 | Within range, for a positive sea-level temperature that stays non-negative up to the higher altitude, the temperature falls linearly with altitude, so a power term that grows with the temperature for positive T0 gives a pressure that never rises with altitude. |
| WingMetrics.AccumulateWingMetrics | Program.cs:303-360 | The loop with its `lastPoint` cursor fails only for an empty airfoil. Otherwise it gives the top and bottom totals and the areas of `MetricsOf`. |
| WingMetrics.TopBottomPartition | Program.cs:306-310 | Top length plus bottom length is the sum of all panel lengths. |
| WingMetrics.StepAddsToOneSide | Program.cs:306-310 | Each step adds its panel to exactly one side, chosen by the current point's `y < 0`, and leaves the other side alone. |
| WingMetrics.FirstPanelIsEmpty | Program.cs:269-310 | The first step measures point 0 against itself, so it adds nothing when a point's distance to itself is zero. |
| WingMetrics.AreaIsTotalTimesWidth | Program.cs:358-360 | The wing area is the total panel length times the wing width. |
| WingMetrics.NothingBelow | Program.cs:306-310 | With no point below the chord line, the bottom length is 0 and the top length is the total. |
| WingMetrics.TotalsGrow | Program.cs:308-310 | With non-negative distances, neither total shrinks as the walk goes on. |
| CanvasConverter.ConvertFile | turnitintoadatfile.py:13-23 | The script's loop, which appends to `final` and stops at the first line that raises, returns exactly `Convert` of the text. |
| CanvasConverter.ConvertOne | turnitintoadatfile.py:15-21 | One iteration of the loop, with the slice of the stripped line, the split at `", "`, the reading of the fields and the in-place `splitstring[1] += 480` with its IndexError, gives `ConvertSection` of its line. |
| CanvasConverter.FindChar | turnitintoadatfile.py:15 | `find("(")` is -1 exactly when there is no `(`; otherwise it is the index of the first `(`. |
| CanvasConverter.SliceBound | turnitintoadatfile.py:15 | A Python slice bound within the text is kept, a negative bound counts from the end, and a bound past either end is clamped to the length or to 0, as the `-2` of a line shorter than two characters is. |
| CanvasConverter.CanvasCoordinateText | turnitintoadatfile.py:15 | The coordinate text of `cmd(<text>);` is exactly `<text>`. |
| CanvasConverter.SplitTwoFields | turnitintoadatfile.py:16 | Two comma-free fields joined by `", "` split back into those two fields. |
| CanvasConverter.ParseValues | turnitintoadatfile.py:17 | Successfully parsed values are as many as the fields. |
| CanvasConverter.ParseValuesAll | turnitintoadatfile.py:17 | The fields parse exactly when every field is accepted, and each value is its own field's. |
| CanvasConverter.FirstRejected | turnitintoadatfile.py:17 | A failure names the first rejected field; every earlier field is accepted. |
| CanvasConverter.PyIntRejectsResidue | turnitintoadatfile.py:17 | `int()` raises on any character left over after trimming its white space that is not a digit, an underscore or a leading sign. |
| CanvasConverter.PyIntKeepsSeparator | turnitintoadatfile.py:17 | `int()` does not skip the separator U+001C, which `strip()` removes: `int("\u001C160")` raises. |
| CanvasConverter.PyIntDec | turnitintoadatfile.py:17 | `int(str(n)) == n` for every integer n (CPython's 4300-digit limit on `str` and `int` is not modelled). |
| CanvasConverter.FieldValueDec | turnitintoadatfile.py:17 | `int((str(n) + ".000000").replace(".000000", "")) == n`. |
| CanvasConverter.ShiftSecond | turnitintoadatfile.py:18 | Only the second value changes, by +480; the first and all later values stay. |
| CanvasConverter.FormatAll | turnitintoadatfile.py:19 | One formatted text per value, in order. |
| CanvasConverter.RecordOfTwo | turnitintoadatfile.py:18-21 | The record of values `[a, b]` is `format(a) + " \t" + format(b + 480)`. |
| CanvasConverter.CanvasLineConverts | turnitintoadatfile.py:15-21 | A line `cmd(a.000000, b.000000);` converts to `format(a) + " \t" + format(b + 480)`. |
| CanvasConverter.CanvasLineValues | turnitintoadatfile.py:15-17 | Such a line's values are `[a, b]`. |
| CanvasConverter.Sections | turnitintoadatfile.py:14 | `file.strip().split("\n")` has at least one line. |
| CanvasConverter.RecordsUpTo | turnitintoadatfile.py:14-21 | After n lines there are n records, or a failure at a line index below n. |
| CanvasConverter.FailurePersists | turnitintoadatfile.py:14-21 | Once a line raises, later lines change nothing. |
| CanvasConverter.RecordsAll | turnitintoadatfile.py:14-21 | The records exist exactly when every line converts; then record k is line k's. Otherwise the failure is the first line that raised. |
| CanvasConverter.ConvertSucceedsIff | turnitintoadatfile.py:14-23 | output.dat is written exactly when every line of the stripped input converts. Otherwise the error is the first failing line's. |
| CanvasConverter.RecordOnOneLine | turnitintoadatfile.py:21 | A record holds no line break when the formatted values hold none. |
| CanvasConverter.OutputLines | turnitintoadatfile.py:21-23 | Split at `"\n"`, the output is the header `OUTPUT AIRFOIL` followed by one record per input line, in order, with no extra line. |
| CanvasConverter.RecordLines | turnitintoadatfile.py:21-23 | The same for any conversion whose records hold no line break. |
| DatRoundTrip.DatFileRoundTrip | turnitintoadatfile.py:13-23 | The written file, split into lines and loaded, is the airfoil `OUTPUT AIRFOIL` with one point per input line. Each point is `(parse(format(a)) - 0.5, ±parse(format(b + 480)))`, provided `format` writes no white space and `float.Parse` accepts it. |
| DatRoundTrip.RecordTokens | Program.cs:18-34 | A record `x0 + " \t" + x1 + ...` of white-space-free pieces has nothing to replace and no `" -"`. It falls to the single-space fallback and tokenises back to exactly `(x0, x1)`. |
| DatRoundTrip.RecordReadsBack | turnitintoadatfile.py:18-21 | A converted record is non-empty and tokenises to the first formatted value and the shifted second one. |
| DatRoundTrip.TabbedPieces | Program.cs:22-32 | Trimmed text whose spaces all stand before tabs is split on single spaces. |
| DatRoundTrip.TabbedUnreplaced | Program.cs:18 | Such text has no six-space run to replace. |
| DatRoundTrip.JoinedSpacesBeforeTabs | turnitintoadatfile.py:21 | In a `" \t"` join of space-free pieces, every space stands before a tab. |
| DatRoundTrip.NoSpaceThen | Program.cs:22 | Such text contains no space followed by anything but a tab, so no `" -"` and no `"  "`. |
| DatRoundTrip.RecordSpaceSplit | Program.cs:24 | Split at single spaces, a record gives its first piece and each later piece behind its tab. |
| DatRoundTrip.TabbedFields | Program.cs:33-34 | The trimmed fields are the first two pieces without the tab. |
| DatRoundTrip.RecordEnds | Program.cs:22 | A record begins and ends with a character that is not white space, so trimming keeps it. |
| DatRoundTrip.RecordLinesLoad | Program.cs:12-38 | A trimmed header followed by lines that each read as their record's point loads as that header with those points. |
| DatRoundTrip.RecordLineReads | Program.cs:18-36 | The line holding a converted record reads as the point of its first and shifted second value. |
| DatRoundTrip.HeaderTrimmed | Program.cs:13 | `"OUTPUT AIRFOIL"` is its own trim, so it is the loaded name. |

## Left out

- Rendering, the window, the camera, the grid, key input and the stats text
  (Program.cs:51-59, 223-229, 238-268, 283-301, 327-354, 362 onwards) are
  calls into Raylib. The chord end points (Program.cs:271-281) only feed that
  drawing.
- The file I/O is left out. `File.ReadAllLines` becomes the lines as a
  sequence; in the round trip it is a split of the text at `"\n"`. The
  script opens output.dat in text mode, so on Windows each `"\n"` is written
  as `"\r\n"`; ReadAllLines ends a line at `"\n"`, `"\r\n"` and `"\r"`, so
  it yields the same lines either way (the file has no trailing newline and
  its records hold no `"\r"`). The text-mode translation itself, the script's
  `open`/`write` and `print` are not modelled.
- Floating point is not modelled. Coordinates are unbounded reals, and every
  float formula is a parameter: `MathF.Pow` in the pressure, the sqrt in
  `normalizeVector`, sin/cos in `rotate`, `Vector2.Distance`, and
  `round(i / 960, 3)`. So single-precision rounding, NaN and infinity are not
  modelled.
- `AirDensity`, `DynamicAirPressure`, `coefficientOfLift`,
  `findCirculationAtPoint`, `vortexVelocity` and `angle` are pure float
  formulas that nothing here depends on, and are not part of this model.
- `AirfoilLoader.Load`: the numeric result of `float.Parse` (under any culture),
  because it is the abstract partial function `parse`.
- `Geometry.NormalizeVector`: does not claim unit length, because the magnitude
  is an abstract function, not a square root.
- `DatRoundTrip.DatFileRoundTrip`: holds only for a `format` that writes
  non-empty text without white space and values `parse` accepts. That is what
  `str(round(v / 960, 3))` gives, and what `float.Parse` accepts under a
  culture whose decimal separator is `.` (under fr-FR, for example,
  `float.Parse("0.375")` throws); neither is modelled.
- `CanvasConverter.PyInt`: Python's `int()` also accepts non-ASCII Unicode
  digits, which the model does not. CPython 3.11 and later (and the 3.7.14,
  3.8.14, 3.9.14 and 3.10.7 releases) also raise ValueError on a decimal
  numeral of more than 4300 digits; the model reads numerals of any length.
  Canvas coordinates are far shorter.
- `Deg2Rad` and `Rad2Deg` (Program.cs:41-50) only feed `rotate`, which is a
  parameter, so they are not part of this model.
- `Atmosphere.PressureFalls`: says nothing for a sea-level temperature at or
  below absolute zero, where `(T / T0)^k` is not monotone in T and the source
  has no guard.
- `Strings.Split`: requires a non-empty separator, because every call passes a
  constant one.
