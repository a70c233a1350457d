/**
 * The two halves of the repository together: the records
 * turnitintoadatfile.py writes to output.dat are lines getAirfoil of
 * Program.cs reads back, one point per record. File.ReadAllLines is modelled
 * as a split of the file's text at "\n".
 */
module DatRoundTrip {
  import opened Wrappers
  import opened Strings
  import opened Geometry
  import opened AirfoilLoader
  import opened CanvasConverter

  /** Every space of s is followed by a tab. */
  predicate SpacesBeforeTabs(s: string) {
    forall i :: 0 <= i < |s| && s[i] == ' ' ==> i + 1 < |s| && s[i + 1] == '\t'
  }

  /** Pieces without spaces joined with " \t" have every space before a tab. */
  lemma {:induction false} JoinedSpacesBeforeTabs(xs: seq<string>)
    requires forall k :: 0 <= k < |xs| ==> ' ' !in xs[k]
    ensures SpacesBeforeTabs(Join(xs, OutputSeparator))
    decreases |xs|
  {
    if |xs| >= 2 {
      JoinedSpacesBeforeTabs(xs[1..]);
      var rest := Join(xs[1..], OutputSeparator);
      var s := Join(xs, OutputSeparator);
      var n := |xs[0]|;
      assert s == xs[0] + OutputSeparator + rest;
      forall i | 0 <= i < |s| && s[i] == ' '
        ensures i + 1 < |s| && s[i + 1] == '\t'
      {
        if i >= n + 2 {
          assert s[i] == rest[i - n - 2];
          assert s[i + 1] == rest[i + 1 - n - 2];
        }
      }
    } else if |xs| == 1 {
      assert ' ' !in xs[0];
    }
  }

  /** Text whose spaces all stand before tabs holds no space followed by
      anything but a tab. */
  lemma NoSpaceThen(s: string, t: string)
    requires SpacesBeforeTabs(s)
    requires |t| >= 2 && t[0] == ' ' && t[1] != '\t'
    ensures !Contains(s, t)
  {
    forall i: nat
      ensures !OccursAt(s, t, i)
    {
      if i + |t| <= |s| {
        assert s[i..i + |t|][0] == s[i] && s[i..i + |t|][1] == s[i + 1];
      }
    }
    NotContainsAnywhere(s, t);
  }

  /** No whitespace in any piece. */
  predicate AllPlain(xs: seq<string>) {
    forall k :: 0 <= k < |xs| ==> xs[k] != [] && NoWhite(xs[k])
  }

  /** Pieces without whitespace hold no space. */
  lemma PlainNoSpace(xs: seq<string>)
    requires AllPlain(xs)
    ensures forall k :: 0 <= k < |xs| ==> ' ' !in xs[k]
  {
    assert IsWhiteSpace(' ');
    forall k | 0 <= k < |xs|
      ensures ' ' !in xs[k]
    {
      assert NoWhite(xs[k]);
    }
  }

  /** A record begins and ends with a character that is not whitespace. */
  lemma RecordEnds(xs: seq<string>)
    requires |xs| >= 1 && AllPlain(xs)
    ensures var s := Join(xs, OutputSeparator);
      s != [] && !IsWhiteSpace(s[0]) && !IsWhiteSpace(s[|s| - 1])
  {
    var s := Join(xs, OutputSeparator);
    var last := xs[|xs| - 1];
    assert NoWhite(xs[0]) && xs[0] != [];
    assert NoWhite(last) && last != [];
    JoinHead(xs, OutputSeparator);
    JoinLast(xs, OutputSeparator);
    assert s[0] == xs[0][0];
    assert s[|s| - 1] == last[|last| - 1];
  }

  /** Split at single spaces, a record gives its first piece and each later
      piece behind its tab. */
  lemma RecordSpaceSplit(xs: seq<string>)
    requires |xs| >= 1
    requires forall k :: 0 <= k < |xs| ==> ' ' !in xs[k]
    ensures Split(Join(xs, OutputSeparator), " ") == [xs[0]] + PrefixAll("\t", xs[1..])
  {
    var ys := [xs[0]] + PrefixAll("\t", xs[1..]);
    assert OutputSeparator == [' ', '\t'];
    JoinRegroup(xs, ' ', '\t');
    forall k | 0 <= k < |ys|
      ensures ' ' !in ys[k]
    {
      if k > 0 {
        assert ys[k] == "\t" + xs[k];
      }
    }
    JoinSplitChar(ys, ' ');
  }

  /** Trimmed text whose spaces all stand before tabs is split on single
      spaces: it holds neither " -" nor a double space. */
  lemma TabbedPieces(s: string)
    requires Trim(s) == s && SpacesBeforeTabs(s)
    ensures Pieces(s) == Split(s, " ")
  {
    NoSpaceThen(s, " -");
    NoSpaceThen(s, TwoSpaces);
    SplitAbsent(s, TwoSpaces);
  }

  /** Text whose spaces all stand before tabs has no six-space run to replace. */
  lemma TabbedUnreplaced(s: string)
    requires SpacesBeforeTabs(s)
    ensures Replace(s, SixSpaces, TwoSpaces) == s
  {
    NoSpaceThen(s, SixSpaces);
    ReplaceAbsent(s, SixSpaces, TwoSpaces);
  }

  /** The first piece and the second after its tab, trimmed. */
  lemma TabbedFields(xs: seq<string>)
    requires |xs| >= 2 && NoWhite(xs[0]) && NoWhite(xs[1])
    ensures FirstTwo([xs[0]] + PrefixAll("\t", xs[1..])) == Some((xs[0], xs[1]))
  {
    var p := [xs[0]] + PrefixAll("\t", xs[1..]);
    assert p[0] == xs[0] && p[1] == "\t" + xs[1];
    TrimNoWhite(xs[0]);
    TrimTab(xs[1]);
  }

  /** Trimming a tab and a whitespace-free text leaves the text. */
  lemma TrimTab(b: string)
    requires NoWhite(b)
    ensures Trim("\t" + b) == b
  {
    TrimLeading('\t', b, IsWhiteSpace);
    TrimNoWhite(b);
  }

  /** A line that is not empty, has nothing to replace and has two fields
      tokenises to them. */
  lemma FieldsTokenize(s: string, a: string, b: string)
    requires s != "" && Replace(s, SixSpaces, TwoSpaces) == s
    requires Fields(s) == Some((a, b))
    ensures Tokenize(s) == Pair(a, b)
  {
  }

  /** A record reads as the pair of its first two pieces. */
  lemma RecordTokens(xs: seq<string>)
    requires |xs| >= 2 && AllPlain(xs)
    ensures Tokenize(Join(xs, OutputSeparator)) == Pair(xs[0], xs[1])
  {
    var s := Join(xs, OutputSeparator);
    PlainNoSpace(xs);
    JoinedSpacesBeforeTabs(xs);
    RecordEnds(xs);
    TrimWithStable(s, IsWhiteSpace);
    RecordSpaceSplit(xs);
    TabbedPieces(s);
    TabbedUnreplaced(s);
    assert NoWhite(xs[0]) && NoWhite(xs[1]);
    TabbedFields(xs);
    FieldsTokenize(s, xs[0], xs[1]);
  }

  /** What the converter's formatting must give for its records to read
      back: text that is not empty and holds no whitespace, such as
      str(round(v / 960, 3)). */
  ghost predicate PlainFormat(format: int -> string) {
    forall v :: format(v) != [] && NoWhite(format(v))
  }

  /** The record of at least two parsed values is not empty and reads as
      the pair of the first value and the shifted second value. */
  lemma RecordReadsBack(values: Result<seq<int>, string>, format: int -> string)
    requires PlainFormat(format)
    requires RecordOf(values, format).Success?
    ensures values.Success?
    ensures |values.value| >= 2
    ensures RecordOf(values, format).value != ""
    ensures Tokenize(RecordOf(values, format).value)
         == Pair(format(values.value[0]), format(values.value[1] + YOffset))
  {
    var texts := FormatAll(ShiftSecond(values.value), format);
    assert RecordOf(values, format).value == Join(texts, OutputSeparator);
    forall k | 0 <= k < |texts|
      ensures texts[k] != [] && NoWhite(texts[k])
    {
      assert texts[k] == format(ShiftSecond(values.value)[k]);
    }
    JoinHead(texts, OutputSeparator);
    RecordTokens(texts);
  }

  /** output.dat, read line by line, loads as the airfoil "OUTPUT AIRFOIL"
      with one point per converted section, in order: its x is the parsed
      first value of the section and its y the parsed shifted second
      value, whenever float.Parse accepts what the converter formats. */
  lemma DatFileRoundTrip(file: string, format: int -> string, flip: bool, parse: string -> Option<real>)
    requires PlainFormat(format)
    requires forall v :: parse(format(v)).Some?
    requires Convert(file, format).Success?
    ensures LoadsAs(Split(Convert(file, format).value, "\n"), Header, MapSeq(Sections(file), SectionValues), format, flip, parse)
  {
    var sections := Sections(file);
    var lines := Split(Convert(file, format).value, "\n");
    NewlineFree(format);
    OutputLines(file, format);
    var values := MapSeq(sections, SectionValues);
    assert |lines| == |values| + 1 && lines[0] == Header;
    forall k | 0 <= k < |values|
      ensures RecordOf(values[k], format) == Success(lines[k + 1])
    {
      assert ConvertSection(sections[k], format) == Success(lines[k + 1]);
    }
    HeaderTrimmed();
    RecordLinesRead(lines, values, format, flip, parse);
    RecordLinesLoad(lines, values, format, flip, parse);
  }

  /** The lines load as the airfoil of the given name with one point per
      entry of values: x is the parsed first value, y the parsed shifted
      second value. */
  ghost predicate LoadsAs(lines: seq<string>, name: string, values: seq<Result<seq<int>, string>>,
                          format: int -> string, flip: bool, parse: string -> Option<real>)
  {
    var r := Load(lines, flip, parse);
    r.Success? && r.value.name == name && |r.value.points| == |values| &&
    forall k :: 0 <= k < |values| ==>
      values[k].Success? && |values[k].value| >= 2 &&
      parse(format(values[k].value[0])).Some? && parse(format(values[k].value[1] + YOffset)).Some? &&
      r.value.points[k] == Point(parse(format(values[k].value[0])).value, parse(format(values[k].value[1] + YOffset)).value, flip)
  }

  /** f applied to each element, in order. */
  function MapSeq<A, B>(xs: seq<A>, f: A -> B): (r: seq<B>)
    ensures |r| == |xs| && forall k :: 0 <= k < |xs| ==> r[k] == f(xs[k])
  {
    if |xs| == 0 then [] else [f(xs[0])] + MapSeq(xs[1..], f)
  }

  /** Lines after a trimmed name, each read as the point of its record's
      formatted values, load as one point per record. */
  lemma RecordLinesLoad(lines: seq<string>, values: seq<Result<seq<int>, string>>, format: int -> string,
                        flip: bool, parse: string -> Option<real>)
    requires |lines| == |values| + 1 && Trim(lines[0]) == lines[0]
    requires forall j :: 1 <= j < |lines| ==> RecordLine(lines[j], values[j - 1], format, flip, parse)
    ensures LoadsAs(lines, lines[0], values, format, flip, parse)
  {
    forall j | 1 <= j < |lines|
      ensures ParseLine(lines[j], flip, parse).Success? && ParseLine(lines[j], flip, parse).value.Some?
    {
      assert RecordLine(lines[j], values[j - 1], format, flip, parse);
    }
    LoadEveryLine(lines, flip, parse);
    var ps := Load(lines, flip, parse).value.points;
    forall k | 0 <= k < |values|
      ensures values[k].Success? && |values[k].value| >= 2
      ensures parse(format(values[k].value[0])).Some? && parse(format(values[k].value[1] + YOffset)).Some?
      ensures ps[k] == Point(parse(format(values[k].value[0])).value, parse(format(values[k].value[1] + YOffset)).value, flip)
    {
      assert RecordLine(lines[k + 1], values[k], format, flip, parse);
      assert ParseLine(lines[k + 1], flip, parse) == Success(Some(ps[k]));
    }
  }

  /** Each line after the first reads as the point of its record's
      formatted values. */
  lemma RecordLinesRead(lines: seq<string>, values: seq<Result<seq<int>, string>>, format: int -> string,
                        flip: bool, parse: string -> Option<real>)
    requires PlainFormat(format)
    requires forall v :: parse(format(v)).Some?
    requires |lines| == |values| + 1
    requires forall k :: 0 <= k < |values| ==> RecordOf(values[k], format) == Success(lines[k + 1])
    ensures forall j :: 1 <= j < |lines| ==> RecordLine(lines[j], values[j - 1], format, flip, parse)
  {
    forall j | 1 <= j < |lines|
      ensures RecordLine(lines[j], values[j - 1], format, flip, parse)
    {
      RecordLineReads(values[j - 1], lines[j], format, flip, parse);
    }
  }

  /** The converter's formatting never yields a line break. */
  lemma NewlineFree(format: int -> string)
    requires PlainFormat(format)
    ensures forall v :: '\n' !in format(v)
  {
    forall v
      ensures '\n' !in format(v)
    {
      assert NoWhite(format(v)) && IsWhiteSpace('\n');
    }
  }

  /** The line reads as the point of the formatted values: x from the
      first, y from the shifted second. */
  ghost predicate RecordLine(line: string, value: Result<seq<int>, string>, format: int -> string,
                             flip: bool, parse: string -> Option<real>)
  {
    value.Success? && |value.value| >= 2 &&
    parse(format(value.value[0])).Some? && parse(format(value.value[1] + YOffset)).Some? &&
    ParseLine(line, flip, parse)
      == Success(Some(Point(parse(format(value.value[0])).value, parse(format(value.value[1] + YOffset)).value, flip)))
  }

  /** The record of parsed values reads as the point of its formatted
      values. */
  lemma RecordLineReads(value: Result<seq<int>, string>, line: string, format: int -> string,
                        flip: bool, parse: string -> Option<real>)
    requires PlainFormat(format)
    requires forall v :: parse(format(v)).Some?
    requires RecordOf(value, format) == Success(line)
    ensures RecordLine(line, value, format, flip, parse)
  {
    assert line == RecordOf(value, format).value;
    SameTokens(line, RecordOf(value, format).value);
    RecordReadsBack(value, format);
    var a := format(value.value[0]);
    var b := format(value.value[1] + YOffset);
    assert parse(a).Some? && parse(b).Some?;
    PairReads(line, a, b, flip, parse);
  }

  /** Equal lines have equal shapes. */
  lemma SameTokens(a: string, b: string)
    requires a == b
    ensures Tokenize(a) == Tokenize(b)
  {
  }

  /** The header is its own trimmed name. */
  lemma HeaderTrimmed()
    ensures Trim(Header) == Header
  {
    assert Header[0] == 'O' && Header[|Header| - 1] == 'L';
    TrimWithStable(Header, IsWhiteSpace);
  }
}
