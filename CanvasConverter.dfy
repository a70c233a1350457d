/**
 * turnitintoadatfile.py: converts the lines of an HTML-canvas path
 * (`ctx.moveTo(160.000000, -120.000000);`) into the lines of an airfoil
 * coordinate file. Each line's text between the first "(" and the last two
 * characters is split at ", ", ".000000" is removed from every field, the
 * fields are read with int(), 480 is added to the second value, and the
 * values are formatted and joined with " \t" under the header
 * "OUTPUT AIRFOIL". The formatting str(round(value / 960, 3)) is floating
 * point and is the parameter `format`.
 */
module CanvasConverter {
  import opened Wrappers
  import opened Strings

  const Header: string := "OUTPUT AIRFOIL"
  const Zeros: string := ".000000"
  const FieldSeparator: string := ", "
  const OutputSeparator: string := " \t"
  /** The offset added to the second value of every record. */
  const YOffset: int := 480

  /** Why a section cannot be converted. */
  datatype ConvertError =
    | NotAnInteger(field: string)   // int() raises ValueError
    | MissingSecondValue            // splitstring[1] raises IndexError

  /** The section (line of the stripped input) that raised, and why. */
  datatype ConvertFailure = ConvertFailure(section: nat, error: ConvertError)

  /** Python's str.isspace for one character: C#'s white space plus the
      separators U+001C..U+001F. */
  predicate IsPySpace(c: char) {
    IsWhiteSpace(c) || ('\U{1C}' <= c <= '\U{1F}')
  }

  /** Python's str.strip(). */
  function Strip(s: string): string {
    TrimWith(s, IsPySpace)
  }

  /** Python's str.find for one character: the first index of c, or -1. */
  function FindChar(s: string, c: char): (r: int)
    ensures r == -1 <==> c !in s
    ensures r != -1 ==> 0 <= r < |s| && s[r] == c && forall k :: 0 <= k < r ==> s[k] != c
  {
    if s == [] then -1
    else if s[0] == c then 0
    else
      var r := FindChar(s[1..], c);
      if r == -1 then -1 else r + 1
  }

  /** One bound of a Python slice: a negative bound counts from the end,
      and the result is clamped to the text. */
  function SliceBound(i: int, length: nat): (r: nat)
    ensures r <= length
    ensures 0 <= i <= length ==> r == i
    ensures i > length ==> r == length
    ensures i < 0 && 0 <= length + i ==> r == length + i
    ensures i < 0 && length + i < 0 ==> r == 0
  {
    var j := if i < 0 then length + i else i;
    if j < 0 then 0 else if j > length then length else j
  }

  /** Python's s[start:stop]. */
  function Slice(s: string, start: int, stop: int): (r: string)
    ensures |r| <= |s|
  {
    var a := SliceBound(start, |s|);
    var b := SliceBound(stop, |s|);
    if a >= b then [] else s[a..b]
  }

  /** beautifulstring: the stripped section from just after its first "("
      up to, and excluding, its last two characters. */
  function CoordinateText(section: string): string {
    var s := Strip(section);
    Slice(s, FindChar(s, '(') + 1, -2)
  }

  predicate IsDigit(c: char) {
    '0' <= c <= '9'
  }

  function DigitValue(c: char): nat
    requires IsDigit(c)
  {
    c as int - '0' as int
  }

  /** The digits of a decimal integer literal, single underscores allowed
      between digits. */
  predicate IsDigitGroups(d: string) {
    |d| > 0 && IsDigit(d[0]) && IsDigit(d[|d| - 1]) &&
    (forall i :: 0 <= i < |d| ==> IsDigit(d[i]) || d[i] == '_') &&
    (forall i :: 0 <= i < |d| - 1 ==> d[i] == '_' ==> d[i + 1] != '_')
  }

  /** The value of a digit string, underscores ignored. */
  function DigitsValue(d: string): nat
    requires forall i :: 0 <= i < |d| ==> IsDigit(d[i]) || d[i] == '_'
  {
    if d == [] then 0
    else if d[|d| - 1] == '_' then DigitsValue(d[..|d| - 1])
    else 10 * DigitsValue(d[..|d| - 1]) + DigitValue(d[|d| - 1])
  }

  /** Python's int() on a string, in base 10: surrounding white space, an
      optional sign and digit groups; None where int() raises ValueError.
      int() skips the ASCII white space \t \n \v \f \r and space and the
      Unicode white space, but not U+001C..U+001F, which str.strip() removes:
      its white space is IsWhiteSpace. */
  function PyInt(s: string): (r: Option<int>)
  {
    var t := Trim(s);
    if |t| > 0 && (t[0] == '-' || t[0] == '+') then
      var d := t[1..];
      if IsDigitGroups(d) then Some(if t[0] == '-' then -(DigitsValue(d) as int) else DigitsValue(d)) else None
    else if IsDigitGroups(t) then Some(DigitsValue(t))
    else None
  }

  /** The integer a field holds once the six-place zero fraction ".000000"
      of the canvas text is removed. */
  function FieldValue(field: string): Option<int> {
    PyInt(Replace(field, Zeros, ""))
  }

  /** [value(i) for i in fields]: the values, or the first field `value`
      rejects. The script's `value` is FieldValue. */
  function ParseValues(fields: seq<string>, value: string -> Option<int>): (r: Result<seq<int>, string>)
    ensures r.Success? ==> |r.value| == |fields|
  {
    if fields == [] then Success([])
    else
      match value(fields[0])
      case None => Failure(fields[0])
      case Some(v) =>
        match ParseValues(fields[1..], value)
        case Failure(f) => Failure(f)
        case Success(vs) => Success([v] + vs)
  }

  /** The values with YOffset added to the second one; the others stay. */
  function ShiftSecond(values: seq<int>): (r: seq<int>)
    requires |values| >= 2
    ensures |r| == |values| && r[1] == values[1] + YOffset
    ensures forall k :: 0 <= k < |values| && k != 1 ==> r[k] == values[k]
  {
    values[1 := values[1] + YOffset]
  }

  /** Each value written as text by `format`, in order. */
  function FormatAll(values: seq<int>, format: int -> string): (r: seq<string>)
    ensures |r| == |values| && forall k :: 0 <= k < |values| ==> r[k] == format(values[k])
  {
    seq(|values|, k requires 0 <= k < |values| => format(values[k]))
  }

  /** The record of a section's parsed values: at least two are needed, the
      second is shifted, and all are formatted and joined. */
  function RecordOf(values: Result<seq<int>, string>, format: int -> string): Result<string, ConvertError>
  {
    match values
    case Failure(f) => Failure(NotAnInteger(f))
    case Success(vs) =>
      if |vs| < 2 then Failure(MissingSecondValue)
      else Success(Join(FormatAll(ShiftSecond(vs), format), OutputSeparator))
  }

  /** The values of one section's coordinate text. */
  function SectionValues(section: string): Result<seq<int>, string> {
    ParseValues(Split(CoordinateText(section), FieldSeparator), FieldValue)
  }

  /** The record of one section. */
  function ConvertSection(section: string, format: int -> string): Result<string, ConvertError>
  {
    RecordOf(SectionValues(section), format)
  }

  /** The lines of the file once the white space at its two ends is removed. */
  function Sections(file: string): (r: seq<string>)
    ensures |r| >= 1
  {
    Split(Strip(file), "\n")
  }

  /** The conversion the script applies to each section. */
  function Converter(format: int -> string): (convert: string -> Result<string, ConvertError>)
    ensures forall section :: convert(section) == ConvertSection(section, format)
  {
    section => ConvertSection(section, format)
  }

  /** final after the first n sections, or the first section that raised. */
  function RecordsUpTo(sections: seq<string>, n: nat, convert: string -> Result<string, ConvertError>)
    : (r: Result<seq<string>, ConvertFailure>)
    requires n <= |sections|
    ensures r.Success? ==> |r.value| == n
    ensures r.Failure? ==> r.error.section < n
  {
    if n == 0 then Success([])
    else
      match RecordsUpTo(sections, n - 1, convert)
      case Failure(e) => Failure(e)
      case Success(rs) =>
        match convert(sections[n - 1])
        case Failure(e) => Failure(ConvertFailure(n - 1, e))
        case Success(record) => Success(rs + [record])
  }

  /** The text written to output.dat. */
  function Convert(file: string, format: int -> string): Result<string, ConvertFailure>
  {
    var sections := Sections(file);
    match RecordsUpTo(sections, |sections|, Converter(format))
    case Failure(e) => Failure(e)
    case Success(records) => Success(Header + "\n" + Join(records, "\n"))
  }

  /** Once a section raises, the script stops: later sections change nothing. */
  lemma {:induction false} FailurePersists(sections: seq<string>, n: nat, m: nat,
                                           convert: string -> Result<string, ConvertError>)
    requires n <= m <= |sections|
    requires RecordsUpTo(sections, n, convert).Failure?
    ensures RecordsUpTo(sections, m, convert) == RecordsUpTo(sections, n, convert)
    decreases m
  {
    if m > n {
      FailurePersists(sections, n, m - 1, convert);
    }
  }

  /** The body of the script's loop for one section: beautifulstring is
      g[g.find("(") + 1:-2] of the stripped section g, it is split at ", ",
      the fields are read, the second value is shifted in place (IndexError
      without one) and the values are formatted and joined. */
  method ConvertOne(section: string, format: int -> string) returns (r: Result<string, ConvertError>)
    ensures r == ConvertSection(section, format)
  {
    var g := Strip(section);
    var beautifulstring := Slice(g, FindChar(g, '(') + 1, -2);
    assert beautifulstring == CoordinateText(section);
    var splitstring := Split(beautifulstring, FieldSeparator);
    var values := ParseValues(splitstring, FieldValue);
    assert values == SectionValues(section);
    assert ConvertSection(section, format) == RecordOf(values, format);
    if values.Failure? {
      return Failure(NotAnInteger(values.error));
    }
    var ints := values.value;
    if |ints| < 2 {
      return Failure(MissingSecondValue);
    }
    ints := ints[1 := ints[1] + YOffset];
    assert ints == ShiftSecond(values.value);
    var texts := FormatAll(ints, format);
    return Success(Join(texts, OutputSeparator));
  }

  /** The whole script, from the canvas text to the text written to output.dat. */
  method ConvertFile(file: string, format: int -> string) returns (r: Result<string, ConvertFailure>)
    ensures r == Convert(file, format)
  {
    var final: seq<string> := [];
    var sections := Sections(file);
    ghost var convert := Converter(format);
    for k := 0 to |sections|
      invariant RecordsUpTo(sections, k, convert) == Success(final)
    {
      var record := ConvertOne(sections[k], format);
      assert convert(sections[k]) == record;
      if record.Failure? {
        RecordsStopAt(sections, k, convert);
        ConvertOfRecords(file, format);
        return Failure(ConvertFailure(k, record.error));
      }
      RecordsStep(sections, k, convert, final);
      final := final + [record.value];
    }
    ConvertOfRecords(file, format);
    return Success(Header + "\n" + Join(final, "\n"));
  }

  /** One more section that converts adds its record. */
  lemma RecordsStep(sections: seq<string>, k: nat, convert: string -> Result<string, ConvertError>,
                    final: seq<string>)
    requires k < |sections|
    requires RecordsUpTo(sections, k, convert) == Success(final)
    requires convert(sections[k]).Success?
    ensures RecordsUpTo(sections, k + 1, convert) == Success(final + [convert(sections[k]).value])
  {
  }

  /** A section that raises is the failure of the whole file. */
  lemma RecordsStopAt(sections: seq<string>, k: nat, convert: string -> Result<string, ConvertError>)
    requires k < |sections|
    requires RecordsUpTo(sections, k, convert).Success?
    requires convert(sections[k]).Failure?
    ensures RecordsUpTo(sections, |sections|, convert) == Failure(ConvertFailure(k, convert(sections[k]).error))
  {
    FailurePersists(sections, k + 1, |sections|, convert);
  }

  /** Convert in terms of the records of all sections. */
  lemma ConvertOfRecords(file: string, format: int -> string)
    ensures var rs := RecordsUpTo(Sections(file), |Sections(file)|, Converter(format));
      (rs.Failure? ==> Convert(file, format) == Failure(rs.error)) &&
      (rs.Success? ==> Convert(file, format) == Success(Header + "\n" + Join(rs.value, "\n")))
  {
  }

  /** The decimal digit of 0 .. 9. */
  function DigitChar(d: nat): (c: char)
    requires d < 10
    ensures IsDigit(c) && DigitValue(c) == d
  {
    ('0' as int + d) as char
  }

  /** Python's str() of a natural number. */
  function NatDec(n: nat): (r: string)
    ensures |r| > 0 && forall i :: 0 <= i < |r| ==> IsDigit(r[i])
  {
    if n < 10 then [DigitChar(n)] else NatDec(n / 10) + [DigitChar(n % 10)]
  }

  /** Python's str() of an integer. */
  function Dec(n: int): (r: string)
    ensures |r| > 0 && forall i :: 0 <= i < |r| ==> IsDigit(r[i]) || (i == 0 && r[i] == '-')
  {
    if n < 0 then "-" + NatDec(-n) else NatDec(n)
  }

  /** Reading the digits of a natural number back gives the number. */
  lemma {:induction false} NatDecValue(n: nat)
    ensures IsDigitGroups(NatDec(n)) && DigitsValue(NatDec(n)) == n
  {
    var r := NatDec(n);
    if n >= 10 {
      NatDecValue(n / 10);
      assert r[..|r| - 1] == NatDec(n / 10);
    } else {
      assert r[..|r| - 1] == [];
    }
  }

  /** int(str(n)) == n. */
  lemma PyIntDec(n: int)
    ensures PyInt(Dec(n)) == Some(n)
  {
    var r := Dec(n);
    assert IsDigit(r[|r| - 1]);
    assert IsDigit(r[0]) || r[0] == '-';
    TrimWithStable(r, IsWhiteSpace);
    assert Trim(r) == r;
    if n < 0 {
      NatDecValue(-n);
      assert r[1..] == NatDec(-n);
      assert r[0] == '-';
    } else {
      NatDecValue(n);
      assert r == NatDec(n);
    }
  }

  /** int() raises on any residue: a character of the trimmed text that is
      neither a digit nor an underscore, nor a leading sign. */
  lemma PyIntRejectsResidue(s: string, i: nat)
    requires var t := Trim(s);
      i < |t| && !IsDigit(t[i]) && t[i] != '_' && (i > 0 || (t[0] != '-' && t[0] != '+'))
    ensures PyInt(s).None?
  {
    var t := Trim(s);
    if i > 0 && (t[0] == '-' || t[0] == '+') {
      assert t[1..][i - 1] == t[i];
    }
  }

  /** int() does not skip the separator U+001C that strip() removes. */
  lemma PyIntKeepsSeparator()
    ensures PyInt("\U{1C}160").None?
  {
    var s := "\U{1C}160";
    assert !IsWhiteSpace(s[0]) && !IsWhiteSpace(s[|s| - 1]);
    TrimWithStable(s, IsWhiteSpace);
    PyIntRejectsResidue(s, 0);
  }

  /** The fields convert exactly when `value` accepts every one of them,
      and then each value is its field's. */
  lemma {:induction false} ParseValuesAll(fields: seq<string>, value: string -> Option<int>)
    ensures ParseValues(fields, value).Success? <==> forall k :: 0 <= k < |fields| ==> value(fields[k]).Some?
    ensures ParseValues(fields, value).Success? ==>
      forall k :: 0 <= k < |fields| ==> ParseValues(fields, value).value[k] == value(fields[k]).value
  {
    if fields != [] {
      ParseValuesAll(fields[1..], value);
      assert forall k :: 1 <= k < |fields| ==> fields[k] == fields[1..][k - 1];
    }
  }

  /** A failure names the first field `value` rejects. */
  lemma {:induction false} FirstRejected(fields: seq<string>, value: string -> Option<int>) returns (j: nat)
    requires ParseValues(fields, value).Failure?
    ensures j < |fields| && fields[j] == ParseValues(fields, value).error
    ensures value(fields[j]).None?
    ensures forall k :: 0 <= k < j ==> value(fields[k]).Some?
  {
    if value(fields[0]).None? {
      j := 0;
    } else {
      var i := FirstRejected(fields[1..], value);
      j := i + 1;
      assert forall k :: 1 <= k < j ==> fields[k] == fields[1..][k - 1];
    }
  }

  /** The coordinate text of `cmd(<text>);` is the text. */
  lemma CanvasCoordinateText(cmd: string, text: string)
    requires '(' !in cmd
    requires cmd == [] || !IsPySpace(cmd[0])
    ensures CoordinateText(cmd + "(" + text + ");") == text
  {
    var s := cmd + "(" + text + ");";
    CanvasStripped(cmd, text);
    CanvasOpening(cmd, text);
    assert s[|cmd| + 1..|s| - 2] == text;
    assert Slice(s, |cmd| + 1, -2) == text;
  }

  /** strip() leaves `cmd(<text>);` as it is. */
  lemma CanvasStripped(cmd: string, text: string)
    requires cmd == [] || !IsPySpace(cmd[0])
    ensures Strip(cmd + "(" + text + ");") == cmd + "(" + text + ");"
  {
    var s := cmd + "(" + text + ");";
    assert s[0] == if cmd == [] then '(' else cmd[0];
    assert s[|s| - 1] == ';';
    TrimWithStable(s, IsPySpace);
  }

  /** The first "(" of `cmd(<text>);` is the one after cmd. */
  lemma CanvasOpening(cmd: string, text: string)
    requires '(' !in cmd
    ensures FindChar(cmd + "(" + text + ");", '(') == |cmd|
  {
    var s := cmd + "(" + text + ");";
    assert s[|cmd|] == '(';
  }

  /** Two fields without a comma split back at ", ". */
  lemma SplitTwoFields(a: string, b: string)
    requires ',' !in a && ',' !in b
    ensures Split(a + FieldSeparator + b, FieldSeparator) == [a, b]
  {
    NoMatchInHead(a, FieldSeparator);
    SplitConcat(a, FieldSeparator, b);
    if Contains(b, FieldSeparator) {
      ContainsHead(b, FieldSeparator);
    }
    SplitAbsent(b, FieldSeparator);
  }

  /** int(field.replace(".000000", "")) of str(n) + ".000000" is n. */
  lemma FieldValueDec(n: int)
    ensures FieldValue(Dec(n) + Zeros) == Some(n)
  {
    var d := Dec(n);
    ReplaceIsSplitJoin(d + Zeros, Zeros, "");
    NoMatchInHead(d, Zeros);
    assert d + Zeros == d + Zeros + [];
    SplitConcat(d, Zeros, []);
    assert Split([], Zeros) == [[]];
    assert Replace(d + Zeros, Zeros, "") == d;
    PyIntDec(n);
  }

  /** A canvas path line `cmd(a.000000, b.000000);` becomes the record of a
      and b + 480. */
  lemma CanvasLineConverts(cmd: string, a: int, b: int, format: int -> string)
    requires '(' !in cmd
    requires cmd == [] || !IsPySpace(cmd[0])
    ensures ConvertSection(cmd + "(" + Dec(a) + Zeros + FieldSeparator + Dec(b) + Zeros + ");", format)
         == Success(format(a) + OutputSeparator + format(b + YOffset))
  {
    CanvasLineValues(cmd, a, b);
    RecordOfTwo(a, b, format);
  }

  /** The values of a canvas call on two decimal coordinates are the two
      coordinates. */
  lemma CanvasLineValues(cmd: string, a: int, b: int)
    requires '(' !in cmd
    requires cmd == [] || !IsPySpace(cmd[0])
    ensures SectionValues(cmd + "(" + Dec(a) + Zeros + FieldSeparator + Dec(b) + Zeros + ");") == Success([a, b])
  {
    var fa := Dec(a) + Zeros;
    var fb := Dec(b) + Zeros;
    var section := cmd + "(" + Dec(a) + Zeros + FieldSeparator + Dec(b) + Zeros + ");";
    assert section == cmd + "(" + (fa + FieldSeparator + fb) + ");";
    CanvasCoordinateText(cmd, fa + FieldSeparator + fb);
    DecFieldNoComma(a);
    DecFieldNoComma(b);
    SplitTwoFields(fa, fb);
    TwoDecFields(a, b);
    SectionValuesOf(section, fa + FieldSeparator + fb, fa, fb, [a, b]);
  }

  /** A decimal field holds no comma. */
  lemma DecFieldNoComma(n: int)
    ensures ',' !in Dec(n) + Zeros
  {
  }

  /** The values of a section, from its coordinate text and its fields. */
  lemma SectionValuesOf(section: string, text: string, fa: string, fb: string, values: seq<int>)
    requires CoordinateText(section) == text
    requires Split(text, FieldSeparator) == [fa, fb]
    requires ParseValues([fa, fb], FieldValue) == Success(values)
    ensures SectionValues(section) == Success(values)
  {
  }

  /** Decimal fields with the zeros read back as their values. */
  lemma TwoDecFields(a: int, b: int)
    ensures ParseValues([Dec(a) + Zeros, Dec(b) + Zeros], FieldValue) == Success([a, b])
  {
    FieldValueDec(a);
    FieldValueDec(b);
    ParseTwo(Dec(a) + Zeros, Dec(b) + Zeros, a, b, FieldValue);
  }

  /** Two fields `value` accepts give their two values. */
  lemma ParseTwo(fa: string, fb: string, a: int, b: int, value: string -> Option<int>)
    requires value(fa) == Some(a) && value(fb) == Some(b)
    ensures ParseValues([fa, fb], value) == Success([a, b])
  {
    var fields := [fa, fb];
    var rest := [fb];
    assert fields[1..] == rest && rest[1..] == [];
    assert ParseValues(rest[1..], value) == Success([]);
    assert ParseValues(rest, value).Success?;
    assert ParseValues(rest, value).value == [b] + [];
    assert [b] + [] == [b];
    assert ParseValues(fields, value).Success?;
    assert ParseValues(fields, value).value == [a] + [b];
    assert [a] + [b] == [a, b];
  }

  /** The record of the values a and b. */
  lemma RecordOfTwo(a: int, b: int, format: int -> string)
    ensures RecordOf(Success([a, b]), format) == Success(format(a) + OutputSeparator + format(b + YOffset))
  {
    assert ShiftSecond([a, b]) == [a, b + YOffset];
    var texts := FormatAll([a, b + YOffset], format);
    assert texts == [format(a), format(b + YOffset)];
    assert texts[1..] == [format(b + YOffset)];
    assert Join(texts, OutputSeparator) == format(a) + OutputSeparator + Join([format(b + YOffset)], OutputSeparator);
  }

  /** The records are those of all sections exactly when every section
      converts; otherwise the failure is the first section that raised. */
  lemma {:induction false} RecordsAll(sections: seq<string>, n: nat,
                                      convert: string -> Result<string, ConvertError>)
    requires n <= |sections|
    ensures RecordsUpTo(sections, n, convert).Success? <==>
      forall k :: 0 <= k < n ==> convert(sections[k]).Success?
    ensures RecordsUpTo(sections, n, convert).Success? ==>
      forall k :: 0 <= k < n ==> convert(sections[k]) == Success(RecordsUpTo(sections, n, convert).value[k])
    ensures RecordsUpTo(sections, n, convert).Failure? ==>
      var e := RecordsUpTo(sections, n, convert).error;
      convert(sections[e.section]) == Failure(e.error) &&
      forall k :: 0 <= k < e.section ==> convert(sections[k]).Success?
  {
    if n > 0 {
      RecordsAll(sections, n - 1, convert);
    }
  }

  /** A record holds no line break when the formatted values hold none. */
  lemma RecordOnOneLine(section: string, format: int -> string)
    requires forall v :: '\n' !in format(v)
    ensures ConvertSection(section, format).Success? ==> '\n' !in ConvertSection(section, format).value
  {
    var values := SectionValues(section);
    if values.Success? && |values.value| >= 2 {
      var texts := FormatAll(ShiftSecond(values.value), format);
      JoinAvoidsChar(texts, OutputSeparator, '\n');
    }
  }

  /** The script writes its output exactly when every section converts. */
  lemma ConvertSucceedsIff(file: string, format: int -> string)
    ensures Convert(file, format).Success? <==>
      forall k :: 0 <= k < |Sections(file)| ==> ConvertSection(Sections(file)[k], format).Success?
    ensures Convert(file, format).Failure? ==>
      var e := Convert(file, format).error;
      e.section < |Sections(file)| &&
      ConvertSection(Sections(file)[e.section], format) == Failure(e.error) &&
      forall k :: 0 <= k < e.section ==> ConvertSection(Sections(file)[k], format).Success?
  {
    var sections := Sections(file);
    RecordsAll(sections, |sections|, Converter(format));
  }

  /** Read back line by line, output.dat is the header followed by one
      record per section, in order. */
  lemma OutputLines(file: string, format: int -> string)
    requires forall v :: '\n' !in format(v)
    requires Convert(file, format).Success?
    ensures var sections := Sections(file);
      var lines := Split(Convert(file, format).value, "\n");
      |lines| == |sections| + 1 && lines[0] == Header &&
      forall k :: 0 <= k < |sections| ==> ConvertSection(sections[k], format) == Success(lines[k + 1])
  {
    var sections := Sections(file);
    var convert := Converter(format);
    forall section | convert(section).Success?
      ensures '\n' !in convert(section).value
    {
      RecordOnOneLine(section, format);
    }
    RecordLines(sections, convert);
  }

  /** The generic form of OutputLines, for any conversion whose records hold
      no line break. */
  lemma RecordLines(sections: seq<string>, convert: string -> Result<string, ConvertError>)
    requires |sections| >= 1
    requires forall section :: convert(section).Success? ==> '\n' !in convert(section).value
    requires RecordsUpTo(sections, |sections|, convert).Success?
    ensures var lines := Split(Header + "\n" + Join(RecordsUpTo(sections, |sections|, convert).value, "\n"), "\n");
      |lines| == |sections| + 1 && lines[0] == Header &&
      forall k :: 0 <= k < |sections| ==> convert(sections[k]) == Success(lines[k + 1])
  {
    RecordsAll(sections, |sections|, convert);
    var records := RecordsUpTo(sections, |sections|, convert).value;
    var xs := [Header] + records;
    assert xs[0] == Header && xs[1..] == records;
    assert Join(xs, "\n") == Header + "\n" + Join(records, "\n");
    forall k | 0 <= k < |xs|
      ensures '\n' !in xs[k]
    {
      if k > 0 {
        assert convert(sections[k - 1]) == Success(xs[k]);
      }
    }
    JoinSplitChar(xs, '\n');
  }
}
