/**
 * getAirfoil of Program.cs: the loader of an airfoil coordinate (.dat)
 * file, given the file's lines. The first line, trimmed, is the airfoil's
 * name; every later line is skipped when empty and otherwise tokenised into
 * two fields that float.Parse turns into a point. float.Parse is the
 * partial function `parse`; its failure (a FormatException) and the index
 * past the end of the pieces (an IndexOutOfRangeException) are errors.
 */
module AirfoilLoader {
  import opened Wrappers
  import opened Strings
  import opened Geometry

  datatype Airfoil = Airfoil(name: string, points: seq<Vec>)

  /** Why one line cannot be turned into a point. */
  datatype LineError =
    | MissingSecondField          // pointPosition[1] does not exist
    | Unparsable(field: string)   // float.Parse rejects the field

  /** Why the file cannot be loaded. The name is assigned to the ref
      parameter before any line is read, so a line failure still carries it. */
  datatype LoadError =
    | NoLines                                            // lines[0] of an empty file
    | LineFailure(name: string, index: nat, error: LineError)

  const SixSpaces: string := "      "
  const TwoSpaces: string := "  "

  /** Text with no whitespace character at all. */
  predicate NoWhite(s: string) {
    forall i :: 0 <= i < |s| ==> !IsWhiteSpace(s[i])
  }

  /** pointPosition before its first two entries are trimmed: the trimmed
      line split on single spaces when it contains " -", otherwise on double
      spaces, falling back to single spaces when that gives one piece. */
  function Pieces(line: string): (r: seq<string>)
    ensures |r| >= 1
  {
    var t := Trim(line);
    if Contains(t, " -") then Split(t, " ")
    else
      var double := Split(t, TwoSpaces);
      if |double| < 2 then Split(t, " ") else double
  }

  /** The first two pieces trimmed, or None when there is no second piece. */
  function FirstTwo(p: seq<string>): Option<(string, string)>
  {
    if |p| < 2 then None else Some((Trim(p[0]), Trim(p[1])))
  }

  /** The two trimmed fields of a line. */
  function Fields(line: string): Option<(string, string)>
  {
    FirstTwo(Pieces(line))
  }

  /** The point of two parsed coordinates: x shifted by -0.5, y multiplied
      by (flip ? -1 : 1), which is y negated on flip. */
  function Point(x: real, y: real, flip: bool): Vec
  {
    Vec(x - 0.5, if flip then -y else y)
  }

  /** The shape of one line after the six-space runs are replaced: empty
      (skipped), without a second piece, or two trimmed fields. */
  datatype LineShape = Blank | Single | Pair(first: string, second: string)

  function Tokenize(raw: string): LineShape
  {
    var line := Replace(raw, SixSpaces, TwoSpaces);
    if line == "" then Blank
    else
      match Fields(line)
      case None => Single
      case Some((a, b)) => Pair(a, b)
  }

  /** The point of a line's shape, or why there is none. The first field is
      parsed before the second. */
  function PointOf(shape: LineShape, flip: bool, parse: string -> Option<real>): Result<Option<Vec>, LineError>
  {
    match shape
    case Blank => Success(None)
    case Single => Failure(MissingSecondField)
    case Pair(a, b) =>
      match parse(a)
      case None => Failure(Unparsable(a))
      case Some(x) =>
        match parse(b)
        case None => Failure(Unparsable(b))
        case Some(y) => Success(Some(Point(x, y, flip)))
  }

  /** What reading one line gives: skipped (None), a point, or an error. */
  type LineOutcome = Result<Option<Vec>, LineError>

  /** One line of the file. */
  function ParseLine(raw: string, flip: bool, parse: string -> Option<real>): LineOutcome
  {
    PointOf(Tokenize(raw), flip, parse)
  }

  /** The reader getAirfoil applies to each line. */
  function Reader(flip: bool, parse: string -> Option<real>): (read: string -> LineOutcome)
    ensures forall raw :: read(raw) == ParseLine(raw, flip, parse)
  {
    raw => ParseLine(raw, flip, parse)
  }

  /** The points read from lines 1 .. n-1, or the index and error of the
      first line among them that fails. */
  function PointsUpTo(lines: seq<string>, n: nat, read: string -> LineOutcome)
    : (r: Result<seq<Vec>, (nat, LineError)>)
    requires 1 <= n <= |lines|
    ensures r.Success? ==> |r.value| <= n - 1
    ensures r.Failure? ==> 1 <= r.error.0 < n
    decreases n
  {
    if n == 1 then Success([])
    else
      match PointsUpTo(lines, n - 1, read)
      case Failure(e) => Failure(e)
      case Success(ps) =>
        match read(lines[n - 1])
        case Failure(e) => Failure((n - 1, e))
        case Success(None) => Success(ps)
        case Success(Some(p)) => Success(ps + [p])
  }

  /** Once a line fails, the loader stops: later lines change nothing. */
  lemma {:induction false} FailurePersists(lines: seq<string>, n: nat, m: nat, read: string -> LineOutcome)
    requires 1 <= n <= m <= |lines|
    requires PointsUpTo(lines, n, read).Failure?
    ensures PointsUpTo(lines, m, read) == PointsUpTo(lines, n, read)
    decreases m
  {
    if m > n {
      FailurePersists(lines, n, m - 1, read);
    }
  }

  /** The whole file read with any line reader: its name and the points of
      all later lines, or the first line that fails. */
  function LoadWith(lines: seq<string>, read: string -> LineOutcome): (r: Result<Airfoil, LoadError>)
    ensures r == Failure(NoLines) <==> |lines| == 0
    ensures r.Success? ==> r.value.name == Trim(lines[0]) && |r.value.points| < |lines|
    ensures r.Failure? && |lines| > 0 ==>
      r.error.LineFailure? && r.error.name == Trim(lines[0]) && 1 <= r.error.index < |lines|
  {
    if |lines| == 0 then Failure(NoLines)
    else
      var name := Trim(lines[0]);
      match PointsUpTo(lines, |lines|, read)
      case Failure((i, e)) => Failure(LineFailure(name, i, e))
      case Success(ps) => Success(Airfoil(name, ps))
  }

  /** getAirfoil's result: the file read with the line reader it applies. */
  function Load(lines: seq<string>, flip: bool, parse: string -> Option<real>): Result<Airfoil, LoadError> {
    LoadWith(lines, Reader(flip, parse))
  }

  /** The body of getAirfoil's loop for one line: the six-space runs are
      replaced, an empty line is skipped, the trimmed line is split on single
      spaces when it contains " -" and otherwise on double spaces, falling
      back to single spaces, and the two trimmed fields are parsed: the point
      is the first number moved by half a chord to the left and the second
      number, negated when the airfoil is flipped. */
  method ReadPoint(raw: string, flipAirfoil: bool, parse: string -> Option<real>)
    returns (r: Result<Option<Vec>, LineError>)
    ensures r == ParseLine(raw, flipAirfoil, parse)
  {
    var line := raw;
    line := Replace(line, SixSpaces, TwoSpaces);
    if line == "" {
      return Success(None);
    }
    var pointPosition: seq<string>;
    if Contains(Trim(line), " -") {
      pointPosition := Split(Trim(line), " ");
    } else {
      pointPosition := Split(Trim(line), TwoSpaces);
      if |pointPosition| < 2 {
        pointPosition := Split(Trim(line), " ");
      }
    }
    assert pointPosition == Pieces(line);
    if |pointPosition| < 2 {
      return Failure(MissingSecondField);
    }
    pointPosition := pointPosition[0 := Trim(pointPosition[0])];
    pointPosition := pointPosition[1 := Trim(pointPosition[1])];
    assert Tokenize(raw) == Pair(pointPosition[0], pointPosition[1]);
    var x := parse(pointPosition[0]);
    if x.None? {
      return Failure(Unparsable(pointPosition[0]));
    }
    var y := parse(pointPosition[1]);
    if y.None? {
      return Failure(Unparsable(pointPosition[1]));
    }
    var pointVector := Vec(x.value - 0.5, if flipAirfoil then -y.value else y.value);
    return Success(Some(pointVector));
  }

  /** getAirfoil over the lines of the file. */
  method GetAirfoil(lines: seq<string>, flipAirfoil: bool, parse: string -> Option<real>)
    returns (r: Result<Airfoil, LoadError>)
    ensures r == Load(lines, flipAirfoil, parse)
  {
    if |lines| == 0 {
      return Failure(NoLines);
    }
    var airfoilName := Trim(lines[0]);
    var points: seq<Vec> := [];
    var i := 1;
    while i < |lines|
      invariant 1 <= i <= |lines|
      invariant PointsUpTo(lines, i, Reader(flipAirfoil, parse)) == Success(points)
    {
      var outcome := ReadPoint(lines[i], flipAirfoil, parse);
      if outcome.Failure? {
        FailurePersists(lines, i + 1, |lines|, Reader(flipAirfoil, parse));
        return Failure(LineFailure(airfoilName, i, outcome.error));
      }
      if outcome.value.Some? {
        points := points + [outcome.value.value];
      }
      i := i + 1;
    }
    return Success(Airfoil(airfoilName, points));
  }

  /** The lines that are not skipped, in order. */
  function Kept(ls: seq<string>): (r: seq<string>)
    ensures |r| <= |ls|
  {
    if ls == [] then []
    else if ls[|ls| - 1] == "" then Kept(ls[..|ls| - 1])
    else Kept(ls[..|ls| - 1]) + [ls[|ls| - 1]]
  }

  /** When every line after the name reads as a point, there is one point
      per line, in order. */
  lemma {:induction false} PointsEveryLine(lines: seq<string>, n: nat, read: string -> LineOutcome)
    requires 1 <= n <= |lines|
    requires forall j :: 1 <= j < n ==> read(lines[j]).Success? && read(lines[j]).value.Some?
    ensures PointsUpTo(lines, n, read).Success?
    ensures var ps := PointsUpTo(lines, n, read).value;
      |ps| == n - 1 && forall j :: 1 <= j < n ==> read(lines[j]) == Success(Some(ps[j - 1]))
    decreases n
  {
    if n > 1 {
      PointsEveryLine(lines, n - 1, read);
    }
  }

  /** The loader's view of PointsEveryLine. */
  lemma LoadEveryLine(lines: seq<string>, flip: bool, parse: string -> Option<real>)
    requires |lines| >= 1
    requires forall j :: 1 <= j < |lines| ==>
      ParseLine(lines[j], flip, parse).Success? && ParseLine(lines[j], flip, parse).value.Some?
    ensures Load(lines, flip, parse).Success?
    ensures var ps := Load(lines, flip, parse).value.points;
      |ps| == |lines| - 1 && forall j :: 1 <= j < |lines| ==> ParseLine(lines[j], flip, parse) == Success(Some(ps[j - 1]))
  {
    PointsEveryLine(lines, |lines|, Reader(flip, parse));
  }

  /** A line of two fields that both parse reads as their point. */
  lemma PairReads(raw: string, a: string, b: string, flip: bool, parse: string -> Option<real>)
    requires Tokenize(raw) == Pair(a, b)
    requires parse(a).Some? && parse(b).Some?
    ensures ParseLine(raw, flip, parse) == Success(Some(Point(parse(a).value, parse(b).value, flip)))
  {
  }

  /** No line of a file without empty lines is skipped. */
  lemma {:induction false} KeptAllNonEmpty(ls: seq<string>)
    requires forall k :: 0 <= k < |ls| ==> ls[k] != ""
    ensures Kept(ls) == ls
    decreases |ls|
  {
    if ls != [] {
      KeptAllNonEmpty(ls[..|ls| - 1]);
    }
  }

  /** A line is skipped exactly when it is the empty string. */
  lemma SkippedIffEmpty(raw: string, flip: bool, parse: string -> Option<real>)
    ensures ParseLine(raw, flip, parse) == Success(None) <==> raw == ""
  {
    ReplaceEmpty(raw, SixSpaces, TwoSpaces);
    assert PointOf(Tokenize(raw), flip, parse) == Success(None) <==> Tokenize(raw) == Blank;
  }

  /** Reading succeeds exactly when every later line reads; then there is
      one point per line that is not skipped, in order; otherwise the error
      names the first failing line. */
  lemma {:induction false} PointsUpToKept(lines: seq<string>, n: nat, read: string -> LineOutcome)
    requires 1 <= n <= |lines|
    requires forall raw :: read(raw) == Success(None) <==> raw == ""
    ensures PointsUpTo(lines, n, read).Success? <==> forall j :: 1 <= j < n ==> read(lines[j]).Success?
    ensures PointsUpTo(lines, n, read).Success? ==>
      var ps := PointsUpTo(lines, n, read).value;
      var kept := Kept(lines[1..n]);
      |ps| == |kept| && forall k :: 0 <= k < |ps| ==> read(kept[k]) == Success(Some(ps[k]))
    ensures PointsUpTo(lines, n, read).Failure? ==>
      var j := PointsUpTo(lines, n, read).error.0;
      read(lines[j]) == Failure(PointsUpTo(lines, n, read).error.1) &&
      forall j' :: 1 <= j' < j ==> read(lines[j']).Success?
    decreases n
  {
    if n > 1 {
      PointsUpToKept(lines, n - 1, read);
      var kept := Kept(lines[1..n]);
      var before := Kept(lines[1..n - 1]);
      assert lines[1..n][..n - 2] == lines[1..n - 1];
      assert lines[1..n][n - 2] == lines[n - 1];
      if lines[n - 1] == "" {
        assert kept == before;
      } else {
        assert kept == before + [lines[n - 1]];
      }
    }
  }

  /** The reader skips exactly the empty lines. */
  lemma ReaderSkipsEmpty(flip: bool, parse: string -> Option<real>)
    ensures forall raw :: Reader(flip, parse)(raw) == Success(None) <==> raw == ""
  {
    forall raw
      ensures Reader(flip, parse)(raw) == Success(None) <==> raw == ""
    {
      SkippedIffEmpty(raw, flip, parse);
    }
  }

  /** The loader succeeds exactly when every line after the name reads; then
      its points are those of the non-empty lines, in file order. */
  lemma LoadKept(lines: seq<string>, flip: bool, parse: string -> Option<real>)
    requires |lines| > 0
    ensures Load(lines, flip, parse).Success? <==>
      forall j :: 1 <= j < |lines| ==> ParseLine(lines[j], flip, parse).Success?
    ensures Load(lines, flip, parse).Success? ==>
      var ps := Load(lines, flip, parse).value.points;
      var kept := Kept(lines[1..]);
      |ps| == |kept| && forall k :: 0 <= k < |ps| ==> ParseLine(kept[k], flip, parse) == Success(Some(ps[k]))
  {
    var read := Reader(flip, parse);
    ReaderSkipsEmpty(flip, parse);
    PointsUpToKept(lines, |lines|, read);
    assert lines[1..|lines|] == lines[1..];
    var r := PointsUpTo(lines, |lines|, read);
    assert Load(lines, flip, parse).Success? == r.Success?;
    if r.Success? {
      var kept := Kept(lines[1..]);
      forall k | 0 <= k < |r.value|
        ensures ParseLine(kept[k], flip, parse) == Success(Some(r.value[k]))
      {
        assert read(kept[k]) == Success(Some(r.value[k]));
      }
    }
  }

  /** A failing load names the first line after the name that fails, with
      that line's error. */
  lemma LoadFirstFailure(lines: seq<string>, flip: bool, parse: string -> Option<real>)
    requires |lines| > 0
    ensures Load(lines, flip, parse).Failure? ==>
      var i := Load(lines, flip, parse).error.index;
      ParseLine(lines[i], flip, parse) == Failure(Load(lines, flip, parse).error.error) &&
      forall j :: 1 <= j < i ==> ParseLine(lines[j], flip, parse).Success?
  {
    ReaderSkipsEmpty(flip, parse);
    PointsUpToKept(lines, |lines|, Reader(flip, parse));
  }

  /** Two line outcomes that differ only by the sign of the point's y. */
  predicate Mirrored(p: LineOutcome, q: LineOutcome) {
    p.Failure? == q.Failure? &&
    (p.Failure? ==> p.error == q.error) &&
    (p.Success? ==>
       p.value.Some? == q.value.Some? &&
       (p.value.Some? ==> p.value.value.x == q.value.value.x && p.value.value.y == -q.value.value.y))
  }

  /** Toggling flip keeps every outcome of a line and negates the y of its point. */
  lemma PointOfFlip(shape: LineShape, parse: string -> Option<real>)
    ensures Mirrored(PointOf(shape, true, parse), PointOf(shape, false, parse))
  {
  }

  /** Readers that differ only by the sign of y read the same lines with the
      same outcome, the same x and the opposite y. */
  lemma {:induction false} PointsUpToMirrored(lines: seq<string>, n: nat, read1: string -> LineOutcome, read2: string -> LineOutcome)
    requires 1 <= n <= |lines|
    requires forall raw :: Mirrored(read1(raw), read2(raw))
    ensures PointsUpTo(lines, n, read1).Failure? <==> PointsUpTo(lines, n, read2).Failure?
    ensures PointsUpTo(lines, n, read1).Failure? ==> PointsUpTo(lines, n, read1).error == PointsUpTo(lines, n, read2).error
    ensures PointsUpTo(lines, n, read1).Success? ==>
      var ps := PointsUpTo(lines, n, read1).value;
      var qs := PointsUpTo(lines, n, read2).value;
      |ps| == |qs| && forall k :: 0 <= k < |ps| ==> ps[k].x == qs[k].x && ps[k].y == -qs[k].y
    decreases n
  {
    if n > 1 {
      PointsUpToMirrored(lines, n - 1, read1, read2);
      assert Mirrored(read1(lines[n - 1]), read2(lines[n - 1]));
    }
  }

  /** Toggling flipAirfoil leaves the outcome, the name and every x alone
      and negates every y. */
  lemma LoadFlip(lines: seq<string>, parse: string -> Option<real>)
    ensures Load(lines, true, parse).Failure? <==> Load(lines, false, parse).Failure?
    ensures Load(lines, true, parse).Failure? ==> Load(lines, true, parse).error == Load(lines, false, parse).error
    ensures Load(lines, true, parse).Success? ==>
      var a := Load(lines, true, parse).value;
      var b := Load(lines, false, parse).value;
      a.name == b.name && |a.points| == |b.points| &&
      forall k :: 0 <= k < |a.points| ==> a.points[k].x == b.points[k].x && a.points[k].y == -b.points[k].y
  {
    if |lines| > 0 {
      var read1 := Reader(true, parse);
      var read2 := Reader(false, parse);
      forall raw
        ensures Mirrored(read1(raw), read2(raw))
      {
        PointOfFlip(Tokenize(raw), parse);
      }
      PointsUpToMirrored(lines, |lines|, read1, read2);
    }
  }

  /** A line has no second field exactly when its trimmed text contains no
      space: " -" and a double space both contain one, and a single-space
      split of text with a space gives two pieces. */
  lemma FieldsNoneIff(line: string)
    ensures Fields(line).None? <==> ' ' !in Trim(line)
  {
    var t := Trim(line);
    ContainsChar(t, ' ');
    SplitCount(t, " ");
    if Contains(t, " -") {
      ContainsPrefix(t, " -", " ");
    } else if |Split(t, TwoSpaces)| >= 2 {
      SplitCount(t, TwoSpaces);
      ContainsPrefix(t, TwoSpaces, " ");
    }
  }

  /** A line without a space (a tab-separated line, or a single number)
      is not skipped and fails for want of a second field. */
  lemma NoSpaceLineFails(raw: string, flip: bool, parse: string -> Option<real>)
    requires raw != "" && ' ' !in raw
    ensures ParseLine(raw, flip, parse) == Failure(MissingSecondField)
  {
    if Contains(raw, SixSpaces) {
      ContainsHead(raw, SixSpaces);
    }
    ReplaceAbsent(raw, SixSpaces, TwoSpaces);
    var i := TrimWithShape(raw, IsWhiteSpace);
    var t := Trim(raw);
    assert forall k :: 0 <= k < |t| ==> t[k] == raw[i + k];
    FieldsNoneIff(raw);
  }

  /** A non-empty line of whitespace only is not skipped: it fails for want
      of a second field. */
  lemma WhitespaceLineFails(raw: string, flip: bool, parse: string -> Option<real>)
    requires raw != ""
    requires forall i :: 0 <= i < |raw| ==> IsWhiteSpace(raw[i])
    ensures ParseLine(raw, flip, parse) == Failure(MissingSecondField)
  {
    var line := Replace(raw, SixSpaces, TwoSpaces);
    ReplaceEmpty(raw, SixSpaces, TwoSpaces);
    ReplaceKeeps(raw, SixSpaces, TwoSpaces, IsWhiteSpace);
    TrimWithAllSpace(line, IsWhiteSpace);
    FieldsNoneIff(line);
  }

  /** Text whose only spaces are one double space does not hold a six-space run. */
  lemma NoSixSpaces(a: string, b: string)
    requires NoWhite(a) && NoWhite(b)
    ensures !Contains(a + TwoSpaces + b, SixSpaces)
  {
    var s := a + TwoSpaces + b;
    forall i: nat
      ensures !OccursAt(s, SixSpaces, i)
    {
      if i + 6 <= |s| {
        var k := if i == |a| || i == |a| + 1 then i + 2 else i;
        assert s[i..i + 6][k - i] == s[k] != ' ';
      }
    }
    NotContainsAnywhere(s, SixSpaces);
  }

  /** A six-space run between two numbers becomes a double space, and a
      double space is kept. */
  lemma SixSpacesBecomeTwo(a: string, b: string)
    requires NoWhite(a) && NoWhite(b)
    ensures Replace(a + SixSpaces + b, SixSpaces, TwoSpaces) == a + TwoSpaces + b
    ensures Replace(a + TwoSpaces + b, SixSpaces, TwoSpaces) == a + TwoSpaces + b
  {
    ReplaceIsSplitJoin(a + SixSpaces + b, SixSpaces, TwoSpaces);
    NoMatchInHead(a, SixSpaces);
    SplitConcat(a, SixSpaces, b);
    if Contains(b, SixSpaces) {
      ContainsHead(b, SixSpaces);
    }
    SplitAbsent(b, SixSpaces);
    assert Split(a + SixSpaces + b, SixSpaces) == [a, b];
    NoSixSpaces(a, b);
    ReplaceAbsent(a + TwoSpaces + b, SixSpaces, TwoSpaces);
  }

  /** Trimming leaves text without whitespace unchanged. */
  lemma TrimNoWhite(s: string)
    requires NoWhite(s)
    ensures Trim(s) == s
  {
    TrimWithStable(s, IsWhiteSpace);
  }

  /** Two numbers separated by a double space, the second starting with a
      minus sign: the line is split on single spaces and the second field is
      the empty piece between the two spaces. */
  lemma DoubleSpaceMinusFields(a: string, b: string)
    requires a != [] && b != [] && NoWhite(a) && NoWhite(b) && b[0] == '-'
    ensures Fields(a + TwoSpaces + b) == Some((a, ""))
  {
    var s := a + TwoSpaces + b;
    DoubleSpaceMinusTrimmed(a, b);
    SpaceSplitHead(a, b);
    assert Pieces(s) == Split(s, " ");
    TrimNoWhite(a);
    TrimNoWhite("");
  }

  /** The line is its own trim and contains " -". */
  lemma DoubleSpaceMinusTrimmed(a: string, b: string)
    requires a != [] && b != [] && NoWhite(a) && NoWhite(b) && b[0] == '-'
    ensures Trim(a + TwoSpaces + b) == a + TwoSpaces + b
    ensures Contains(a + TwoSpaces + b, " -")
  {
    var s := a + TwoSpaces + b;
    assert s[0] == a[0] && s[|s| - 1] == b[|b| - 1];
    TrimWithStable(s, IsWhiteSpace);
    assert s[|a| + 1..|a| + 3] == " -";
    ContainsFrom(s, " -", |a| + 1);
  }

  /** Split on single spaces, a text with no space followed by two spaces
      gives that text and then the empty piece. */
  lemma SpaceSplitHead(a: string, b: string)
    requires ' ' !in a
    ensures var p := Split(a + TwoSpaces + b, " "); |p| >= 2 && p[0] == a && p[1] == []
  {
    var s := a + TwoSpaces + b;
    NoMatchInChar(a, ' ');
    assert s == a + " " + (" " + b);
    SplitConcat(a, " ", " " + b);
    assert " " + b == [] + " " + b;
    SplitConcat([], " ", b);
  }

  /** Two numbers separated by a double space, the second not starting with
      a minus sign: the fields are the two numbers. */
  lemma DoubleSpaceFields(a: string, b: string)
    requires a != [] && b != [] && NoWhite(a) && NoWhite(b) && b[0] != '-'
    ensures Fields(a + TwoSpaces + b) == Some((a, b))
  {
    var s := a + TwoSpaces + b;
    assert s[0] == a[0] && s[|s| - 1] == b[|b| - 1];
    TrimWithStable(s, IsWhiteSpace);
    forall i: nat
      ensures !OccursAt(s, " -", i)
    {
      if i + 2 <= |s| {
        assert s[i..i + 2][0] == s[i] && s[i..i + 2][1] == s[i + 1];
      }
    }
    NotContainsAnywhere(s, " -");
    NoMatchInHead(a, TwoSpaces);
    SplitConcat(a, TwoSpaces, b);
    if Contains(b, TwoSpaces) {
      ContainsHead(b, TwoSpaces);
    }
    SplitAbsent(b, TwoSpaces);
    assert Split(s, TwoSpaces) == [a, b];
    TrimNoWhite(a);
    TrimNoWhite(b);
  }

  /** "0.5  -0.3": a double space before a minus sign leaves an empty second
      field, and reading fails on it whenever float.Parse rejects "" and
      accepts the first number. Six spaces there behave the same. */
  lemma DoubleSpaceBeforeMinusFails(a: string, b: string, flip: bool, parse: string -> Option<real>)
    requires a != [] && b != [] && NoWhite(a) && NoWhite(b) && b[0] == '-'
    requires parse(a).Some? && parse("").None?
    ensures ParseLine(a + TwoSpaces + b, flip, parse) == Failure(Unparsable(""))
    ensures ParseLine(a + SixSpaces + b, flip, parse) == Failure(Unparsable(""))
  {
    SixSpacesBecomeTwo(a, b);
    DoubleSpaceMinusFields(a, b);
    assert Tokenize(a + TwoSpaces + b) == Pair(a, "");
    assert Tokenize(a + SixSpaces + b) == Pair(a, "");
  }

  /** Two numbers separated by six spaces, the second not negative, read as
      the point of the two numbers. */
  lemma SixSpacesSeparatedPoint(a: string, b: string, flip: bool, parse: string -> Option<real>)
    requires a != [] && b != [] && NoWhite(a) && NoWhite(b) && b[0] != '-'
    requires parse(a).Some? && parse(b).Some?
    ensures ParseLine(a + SixSpaces + b, flip, parse) == Success(Some(Point(parse(a).value, parse(b).value, flip)))
  {
    SixSpacesBecomeTwo(a, b);
    DoubleSpaceFields(a, b);
    assert Tokenize(a + SixSpaces + b) == Pair(a, b);
  }
}
