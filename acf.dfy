/**
 * Translation of the WordPress ACF API response into program definitions
 * (src/utils/api-acf.js).
 */
module AcfApi {
  import opened Js

  // ---------------------------------------------------------------------
  // Decimal text
  // ---------------------------------------------------------------------

  predicate IsDigit(c: char) {
    '0' <= c <= '9'
  }

  /** The characters `Number.parseInt` skips before the number (StrWhiteSpaceChar). */
  predicate IsJsWhitespace(c: char) {
    var u := c as int;
    u == 0x09 || u == 0x0A || u == 0x0B || u == 0x0C || u == 0x0D || u == 0x20 ||
    u == 0xA0 || u == 0x1680 || 0x2000 <= u <= 0x200A || u == 0x2028 || u == 0x2029 ||
    u == 0x202F || u == 0x205F || u == 0x3000 || u == 0xFEFF
  }

  /** `s` without its leading whitespace. */
  function TrimStart(s: string): string {
    if |s| > 0 && IsJsWhitespace(s[0]) then TrimStart(s[1..]) else s
  }

  /** TrimStart drops exactly the leading whitespace: the rest starts with something else. */
  lemma {:induction false} TrimStartDropsLeadingWhitespace(s: string)
    ensures var r := TrimStart(s);
      |r| <= |s| && r == s[|s| - |r|..] &&
      (forall i :: 0 <= i < |s| - |r| ==> IsJsWhitespace(s[i])) &&
      (|r| == 0 || !IsJsWhitespace(r[0]))
  {
    if |s| > 0 && IsJsWhitespace(s[0]) {
      var t := s[1..];
      TrimStartDropsLeadingWhitespace(t);
      var r := TrimStart(s);
      assert r == TrimStart(t);
      forall i | 1 <= i < |s| - |r|
        ensures IsJsWhitespace(s[i])
      {
        assert s[i] == t[i - 1];
      }
      assert t[|t| - |r|..] == s[|s| - |r|..];
    }
  }

  /** The longest prefix of `s` made of decimal digits. */
  function DigitPrefix(s: string): string {
    if |s| > 0 && IsDigit(s[0]) then [s[0]] + DigitPrefix(s[1..]) else []
  }

  /** DigitPrefix is a prefix of digits that no further digit follows. */
  lemma {:induction false} DigitPrefixIsDigitRun(s: string)
    ensures var r := DigitPrefix(s);
      |r| <= |s| && r == s[..|r|] &&
      (forall i :: 0 <= i < |r| ==> IsDigit(r[i])) &&
      (|r| == |s| || !IsDigit(s[|r|]))
  {
    if |s| > 0 && IsDigit(s[0]) {
      var t := s[1..];
      DigitPrefixIsDigitRun(t);
      var r := DigitPrefix(s);
      var rt := DigitPrefix(t);
      assert r == [s[0]] + rt;
      assert s[..|r|] == [s[0]] + t[..|rt|];
      forall i | 0 <= i < |r|
        ensures IsDigit(r[i])
      {
        if i > 0 {
          assert r[i] == rt[i - 1];
        }
      }
      if |r| < |s| {
        assert s[|r|] == t[|rt|];
      }
    }
  }

  /** The value of one decimal digit. */
  function DigitValue(c: char): nat
    requires IsDigit(c)
  {
    c as int - '0' as int
  }

  /** The value of a string of decimal digits. */
  function DigitsValue(s: string): nat
    requires forall i :: 0 <= i < |s| ==> IsDigit(s[i])
  {
    if |s| == 0 then 0
    else
      assert IsDigit(s[|s| - 1]);
      DigitsValue(s[..|s| - 1]) * 10 + DigitValue(s[|s| - 1])
  }

  /** The decimal digit for `d`. */
  function DigitChar(d: int): char
    requires 0 <= d < 10
  {
    ('0' as int + d) as char
  }

  /** The shortest decimal numeral of `n`. */
  function Digits(n: nat): (r: string)
    ensures |r| > 0 && forall i :: 0 <= i < |r| ==> IsDigit(r[i])
  {
    if n < 10 then [DigitChar(n)] else Digits(n / 10) + [DigitChar(n % 10)]
  }

  /** `String(n)` for an integer `n`. */
  function DecimalString(n: int): string {
    if n < 0 then "-" + Digits(-n) else Digits(n)
  }

  /** `Number.parseInt(s, 10)`: whitespace, then a signed digit run. */
  function ParseDecimal(s: string): Value {
    ParseSigned(TrimStart(s))
  }

  /** An optional sign and as many digits as follow it; NaN without any. */
  function ParseSigned(t: string): Value {
    if |t| > 0 && t[0] == '-' then Negate(ParseUnsigned(t[1..]))
    else if |t| > 0 && t[0] == '+' then ParseUnsigned(t[1..])
    else ParseUnsigned(t)
  }

  /** As many digits as there are at the start; NaN without any. */
  function ParseUnsigned(body: string): Value {
    var digits := DigitPrefix(body);
    if |digits| == 0 then NaN
    else
      DigitPrefixIsDigitRun(body);
      Num(DigitsValue(digits))
  }

  /** The negated number; NaN stays NaN. */
  function Negate(v: Value): Value {
    if v.Num? then Num(-v.n) else v
  }

  /** `items.join(",")`. */
  function Join(items: seq<string>): string {
    if |items| == 0 then ""
    else if |items| == 1 then items[0]
    else Join(items[..|items| - 1]) + "," + items[|items| - 1]
  }

  /** `String(v)`. */
  function ToJsString(v: Value): string {
    match v
    case Undefined => "undefined"
    case Null => "null"
    case Bool(b) => if b then "true" else "false"
    case Num(n) => DecimalString(n)
    case NaN => "NaN"
    case Str(s) => s
    case List(items) => Join(items)
  }

  /**
   * parseInt: `undefined` for null, undefined and the empty string;
   * otherwise `Number.parseInt` of the value's string form.
   */
  function ParseInt(v: Value): (r: Value)
    ensures r.Undefined? <==> LooseNull(v) || v == Str("")
    ensures r.Undefined? || r.Num? || r.NaN?
  {
    if LooseNull(v) || v == Str("") then Undefined else ParseDecimal(ToJsString(v))
  }

  /** The digits of a numeral are read back as its value. */
  lemma {:induction false} DigitsValueOfDigits(n: nat)
    ensures DigitsValue(Digits(n)) == n
  {
    if n >= 10 {
      var d := Digits(n);
      assert d[..|d| - 1] == Digits(n / 10);
      DigitsValueOfDigits(n / 10);
    }
  }

  /** Reading digits stops at the first non-digit. */
  lemma {:induction false} DigitPrefixStopsAtNonDigit(d: string, rest: string)
    requires forall i :: 0 <= i < |d| ==> IsDigit(d[i])
    requires |rest| == 0 || !IsDigit(rest[0])
    ensures DigitPrefix(d + rest) == d
  {
    if |d| > 0 {
      assert (d + rest)[1..] == d[1..] + rest;
      DigitPrefixStopsAtNonDigit(d[1..], rest);
    } else {
      assert d + rest == rest;
    }
  }

  /** Leading whitespace is skipped up to the first other character. */
  lemma {:induction false} TrimStartSkips(w: string, s: string)
    requires forall i :: 0 <= i < |w| ==> IsJsWhitespace(w[i])
    requires |s| == 0 || !IsJsWhitespace(s[0])
    ensures TrimStart(w + s) == s
  {
    if |w| > 0 {
      assert (w + s)[1..] == w[1..] + s;
      TrimStartSkips(w[1..], s);
    } else {
      assert w + s == s;
    }
  }

  /** A digit or a minus sign is not whitespace. */
  lemma NotWhitespace(c: char)
    requires IsDigit(c) || c == '-'
    ensures !IsJsWhitespace(c)
  {
  }

  /** Leading whitespace does not change what `Number.parseInt` reads. */
  lemma ParseDecimalSkipsWhitespace(w: string, s: string)
    requires forall i :: 0 <= i < |w| ==> IsJsWhitespace(w[i])
    requires |s| == 0 || !IsJsWhitespace(s[0])
    ensures ParseDecimal(w + s) == ParseSigned(s)
  {
    TrimStartSkips(w, s);
  }

  /** A digit run is read as its value, up to the first non-digit. */
  lemma ParseUnsignedReadsDigits(d: string, rest: string)
    requires |d| > 0 && forall i :: 0 <= i < |d| ==> IsDigit(d[i])
    requires |rest| == 0 || !IsDigit(rest[0])
    ensures ParseUnsigned(d + rest) == Num(DigitsValue(d))
  {
    DigitPrefixStopsAtNonDigit(d, rest);
  }

  /** Without a sign, a digit run is read as its value. */
  lemma ParseSignedReadsDigits(d: string, rest: string)
    requires |d| > 0 && forall i :: 0 <= i < |d| ==> IsDigit(d[i])
    requires |rest| == 0 || !IsDigit(rest[0])
    ensures ParseSigned(d + rest) == Num(DigitsValue(d))
  {
    ParseUnsignedReadsDigits(d, rest);
    assert (d + rest)[0] == d[0];
  }

  /** A minus sign and a digit run are read as the negated value. */
  lemma ParseSignedReadsNegative(d: string, rest: string)
    requires |d| > 0 && forall i :: 0 <= i < |d| ==> IsDigit(d[i])
    requires |rest| == 0 || !IsDigit(rest[0])
    ensures ParseSigned("-" + (d + rest)) == Num(-(DigitsValue(d) as int))
  {
    ParseUnsignedReadsDigits(d, rest);
    var t := "-" + (d + rest);
    assert |t| > 0 && t[0] == '-';
    assert t[1..] == d + rest;
  }

  /**
   * `Number.parseInt` reads back the numeral of any integer, after leading
   * whitespace and up to the first non-digit after it.
   */
  lemma ParseDecimalReadsNumeral(n: int, w: string, rest: string)
    requires forall i :: 0 <= i < |w| ==> IsJsWhitespace(w[i])
    requires |rest| == 0 || !IsDigit(rest[0])
    ensures ParseDecimal(w + (DecimalString(n) + rest)) == Num(n)
  {
    if n < 0 {
      var d := Digits(-n);
      DigitsValueOfDigits(-n);
      var s := "-" + (d + rest);
      assert DecimalString(n) + rest == s;
      assert s[0] == '-';
      NotWhitespace(s[0]);
      ParseDecimalSkipsWhitespace(w, s);
      ParseSignedReadsNegative(d, rest);
    } else {
      var d := Digits(n);
      DigitsValueOfDigits(n);
      var s := d + rest;
      assert DecimalString(n) + rest == s;
      assert s[0] == d[0];
      NotWhitespace(s[0]);
      ParseDecimalSkipsWhitespace(w, s);
      ParseSignedReadsDigits(d, rest);
    }
  }

  /**
   * parseInt reads back the numeral of any integer, after leading whitespace
   * and before any text that does not start with a digit.
   */
  lemma ParseIntReadsNumeral(n: int, w: string, rest: string)
    requires forall i :: 0 <= i < |w| ==> IsJsWhitespace(w[i])
    requires |rest| == 0 || !IsDigit(rest[0])
    ensures ParseInt(Str(w + DecimalString(n) + rest)) == Num(n)
  {
    assert w + DecimalString(n) + rest == w + (DecimalString(n) + rest);
    ParseDecimalReadsNumeral(n, w, rest);
  }

  /** A number survives parseInt, and so does its decimal text. */
  lemma ParseIntRoundTrip(n: int)
    ensures ParseInt(Num(n)) == Num(n)
    ensures ParseInt(Str(DecimalString(n))) == Num(n)
  {
    ParseDecimalReadsNumeral(n, "", "");
    assert "" + (DecimalString(n) + "") == DecimalString(n);
  }

  /** The play length `'10'` of the API's example is read as 10. */
  lemma ParseIntTen()
    ensures ParseInt(Str("10")) == Num(10)
  {
    assert Digits(10) == Digits(1) + [DigitChar(0)];
    assert DecimalString(10) == "10";
    ParseIntRoundTrip(10);
  }

  /** A boolean is read as its text, which has no digits: NaN. */
  lemma ParseIntBoolIsNaN(b: bool)
    ensures ParseInt(Bool(b)) == NaN
  {
    var t := if b then "true" else "false";
    assert ToJsString(Bool(b)) == t;
    assert !IsJsWhitespace(t[0]) && !IsDigit(t[0]);
    ParseDecimalSkipsWhitespace("", t);
    assert "" + t == t;
    assert DigitPrefix(t) == [];
  }

  // ---------------------------------------------------------------------
  // convertBlanks (src/utils/api-acf.js:21-23)
  // ---------------------------------------------------------------------

  /** convertBlanks: the empty string becomes `undefined`; anything else is kept. */
  function ConvertBlanks(v: Value): (r: Value)
    ensures r != Str("")
    ensures v != Str("") ==> r == v
    ensures v == Str("") ==> r.Undefined?
  {
    if v != Str("") then v else Undefined
  }

  // ---------------------------------------------------------------------
  // fixGuidHack (src/utils/api-acf.js:32-34)
  // ---------------------------------------------------------------------

  /** `pattern` occurs in `s` at index `i`. */
  predicate OccursAt(s: string, pattern: string, i: nat) {
    i + |pattern| <= |s| && s[i..i + |pattern|] == pattern
  }

  /** `s.indexOf(pattern, from)`, `None` for -1. */
  function IndexOf(s: string, pattern: string, from: nat): (r: Option<nat>)
    ensures r.Some? ==>
      from <= r.value && OccursAt(s, pattern, r.value) &&
      forall j :: from <= j < r.value ==> !OccursAt(s, pattern, j)
    ensures r.None? ==> forall j :: from <= j ==> !OccursAt(s, pattern, j)
    decreases |s| - from
  {
    if from + |pattern| > |s| then None
    else if s[from..from + |pattern|] == pattern then Some(from)
    else IndexOf(s, pattern, from + 1)
  }

  /** `s.replace(pattern, replacement)` with a string pattern: the first occurrence only. */
  function ReplaceFirst(s: string, pattern: string, replacement: string): (r: string)
    ensures IndexOf(s, pattern, 0).None? ==> r == s
  {
    match IndexOf(s, pattern, 0)
    case None => s
    case Some(i) => s[..i] + replacement + s[i + |pattern|..]
  }

  /**
   * When the pattern's first character does not occur before it, the
   * replacement happens there and the text after it is left alone, further
   * occurrences included.
   */
  lemma ReplaceFirstAt(p: string, pattern: string, q: string, replacement: string)
    requires |pattern| > 0 && pattern[0] !in p
    ensures ReplaceFirst(p + pattern + q, pattern, replacement) == p + replacement + q
  {
    var s := p + pattern + q;
    assert OccursAt(s, pattern, |p|) by {
      assert s[|p|..|p| + |pattern|] == pattern;
    }
    forall j | 0 <= j < |p|
      ensures !OccursAt(s, pattern, j)
    {
      assert s[j] == p[j];
      if j + |pattern| <= |s| {
        assert s[j..j + |pattern|][0] == p[j];
      }
    }
    assert IndexOf(s, pattern, 0) == Some(|p|);
    assert s[..|p|] == p;
    assert s[|p| + |pattern|..] == q;
  }

  /** The HTML-escaped ampersand the API puts in GUIDs. */
  const EscapedAmpersand: string := "&#038;"

  /**
   * fixGuidHack: a falsy guid is returned as it is; a string has its first
   * escaped ampersand unescaped; any other value has no `replace` and throws.
   */
  function FixGuidHack(guid: Value): Result<Value> {
    if !Truthy(guid) then Ok(guid)
    else if guid.Str? then Ok(Str(ReplaceFirst(guid.s, EscapedAmpersand, "&")))
    else Throws(TypeError)
  }

  /**
   * A guid with exactly one escaped ampersand comes back with `&`; one
   * without any is unchanged; falsy ones pass through.
   */
  lemma FixGuidHackUnescapes(p: string, q: string, guid: Value)
    requires '&' !in p
    ensures FixGuidHack(Str(p + EscapedAmpersand + q)) == Ok(Str(p + "&" + q))
    ensures guid.Str? && IndexOf(guid.s, EscapedAmpersand, 0).None? ==> FixGuidHack(guid) == Ok(guid)
    ensures !Truthy(guid) ==> FixGuidHack(guid) == Ok(guid)
  {
    ReplaceFirstAt(p, EscapedAmpersand, q, "&");
  }

  // ---------------------------------------------------------------------
  // usesAcfFormat (src/utils/api-acf.js:43-45)
  // ---------------------------------------------------------------------

  /** The `content` field of an ACF program: an object with a `guid`, or a plain value. */
  datatype Content = Post(guid: Value) | Plain(value: Value)

  /** One entry of `acf.schedule_repeater`. */
  datatype AcfProgram = AcfProgram(
    content: Content,
    priority: Value,
    playDays: Value,
    playStart: Value,
    playEnd: Value,
    publishDatetime: Value,
    unpublishDatetime: Value,
    playDisable: Value,
    playLength: Value,
    playExact: Value)

  /** The `acf` object; `None` is a missing `schedule_repeater`. */
  datatype Acf = Acf(scheduleRepeater: Option<seq<AcfProgram>>)

  /** An API response; `None` is a missing `acf`. */
  datatype AcfData = AcfData(acf: Option<Acf>)

  /** usesAcfFormat: the response and its `acf` are present. */
  predicate UsesAcfFormat(data: Option<AcfData>) {
    data.Some? && data.value.acf.Some?
  }

  /** The two cases of the format test. */
  lemma UsesAcfFormatExamples()
    ensures UsesAcfFormat(Some(AcfData(Some(Acf(None)))))
    ensures !UsesAcfFormat(Some(AcfData(None))) && !UsesAcfFormat(None)
  {
  }

  // ---------------------------------------------------------------------
  // transformAcfProgram (src/utils/api-acf.js:55-92)
  // ---------------------------------------------------------------------

  /** The schedule of a program definition. */
  datatype ScheduleConfig = ScheduleConfig(
    days: Value,
    startTime: Value,
    endTime: Value,
    startDateTime: Value,
    endDateTime: Value)

  /** The options of a program definition. */
  datatype OptionsConfig = OptionsConfig(enabled: bool, length: Value, transitions: Value)

  /** A program definition in the format the scheduler reads. */
  datatype ProgramConfig = ProgramConfig(
    kind: Value,
    url: Value,
    priority: Value,
    schedule: ScheduleConfig,
    options: OptionsConfig)

  /** The day names a `play_exact` program is shown on. */
  const AllDayNames: seq<string> := ["sun", "mon", "tues", "wed", "thurs", "fri", "sat"]

  /**
   * The url of an ACF program: a falsy content is itself the url; otherwise
   * the content's guid with fixGuidHack applied, where a truthy non-object
   * has no guid and gives `undefined`.
   */
  function ContentUrl(content: Content): Result<Value> {
    match content
    case Post(guid) => FixGuidHack(guid)
    case Plain(v) => if Truthy(v) then Ok(Undefined) else Ok(v)
  }

  /** transformAcfProgram: the definition, then the `play_exact` overrides. */
  function TransformAcfProgram(program: AcfProgram): Result<ProgramConfig> {
    var url := ContentUrl(program.content);
    if url.Throws? then Throws(url.error)
    else
      var result := ProgramConfig(
        Str("iframe"),
        url.value,
        program.priority,
        ScheduleConfig(
          program.playDays,
          ConvertBlanks(program.playStart),
          ConvertBlanks(program.playEnd),
          ConvertBlanks(program.publishDatetime),
          ConvertBlanks(program.unpublishDatetime)),
        OptionsConfig(program.playDisable != Bool(true), ParseInt(program.playLength), Null));
      if Truthy(program.playExact) then
        Ok(result.(
          priority := Num(10),
          schedule := result.schedule.(startTime := Str("00:00"), endTime := Str("24:00"), days := List(AllDayNames))))
      else Ok(result)
  }

  /**
   * transformAcfProgram as the source runs it: the definition is built, then
   * its priority, times and days are overwritten one by one for `play_exact`.
   */
  method TransformAcfProgramSteps(program: AcfProgram) returns (r: Result<ProgramConfig>)
    ensures r == TransformAcfProgram(program)
  {
    var url := ContentUrl(program.content);
    if url.Throws? {
      return Throws(url.error);
    }
    var result := ProgramConfig(
      Str("iframe"),
      url.value,
      program.priority,
      ScheduleConfig(
        program.playDays,
        ConvertBlanks(program.playStart),
        ConvertBlanks(program.playEnd),
        ConvertBlanks(program.publishDatetime),
        ConvertBlanks(program.unpublishDatetime)),
      OptionsConfig(program.playDisable != Bool(true), ParseInt(program.playLength), Null));
    if Truthy(program.playExact) {
      result := result.(priority := Num(10));
      result := result.(schedule := result.schedule.(startTime := Str("00:00")));
      result := result.(schedule := result.schedule.(endTime := Str("24:00")));
      result := result.(schedule := result.schedule.(days := List(AllDayNames)));
    }
    r := Ok(result);
  }

  /**
   * Every definition is an iframe without transitions, enabled unless
   * `play_disable` is `true`, with a parsed length and the publication
   * bounds after blank conversion. The transform throws exactly when the
   * content's guid is truthy but not a string.
   */
  lemma TransformFixedFields(program: AcfProgram)
    ensures TransformAcfProgram(program).Throws? <==>
      program.content.Post? && Truthy(program.content.guid) && !program.content.guid.Str?
    ensures TransformAcfProgram(program).Ok? ==>
      var r := TransformAcfProgram(program).value;
      r.kind == Str("iframe") && r.options.transitions.Null? &&
      r.options.enabled == (program.playDisable != Bool(true)) &&
      r.options.length == ParseInt(program.playLength) &&
      r.url == ContentUrl(program.content).value &&
      r.schedule.startDateTime == ConvertBlanks(program.publishDatetime) &&
      r.schedule.endDateTime == ConvertBlanks(program.unpublishDatetime)
  {
  }

  /**
   * `play_exact` makes a priority-10 program shown on all seven days from
   * 00:00 to 24:00; without it, days and priority are copied and the times
   * are copied after blank conversion.
   */
  lemma TransformPlayExact(program: AcfProgram)
    requires TransformAcfProgram(program).Ok?
    ensures var r := TransformAcfProgram(program).value;
      if Truthy(program.playExact) then
        r.priority == Num(10) && r.schedule.days == List(AllDayNames) &&
        r.schedule.startTime == Str("00:00") && r.schedule.endTime == Str("24:00")
      else
        r.priority == program.priority && r.schedule.days == program.playDays &&
        r.schedule.startTime == ConvertBlanks(program.playStart) &&
        r.schedule.endTime == ConvertBlanks(program.playEnd)
  {
  }

  /**
   * The first example of the transform's tests, for a guid whose part before
   * `&#038;p=336` has no ampersand (as the slide URL there has none).
   */
  lemma TransformExample(prefix: string)
    requires '&' !in prefix
    ensures var program := AcfProgram(
        Post(Str(prefix + "&#038;p=336")), Undefined,
        List(AllDayNames), Str("00:00"), Str("24:00"),
        Str("2018-03-13 00:00:00"), Str("2018-03-21 00:00:00"),
        Bool(false), Str("10"), Bool(false));
      TransformAcfProgram(program) == Ok(ProgramConfig(
        Str("iframe"), Str(prefix + "&p=336"), Undefined,
        ScheduleConfig(List(AllDayNames), Str("00:00"), Str("24:00"),
                       Str("2018-03-13 00:00:00"), Str("2018-03-21 00:00:00")),
        OptionsConfig(true, Num(10), Null)))
  {
    var guid := prefix + "&#038;p=336";
    assert guid == prefix + EscapedAmpersand + "p=336";
    FixGuidHackUnescapes(prefix, "p=336", Undefined);
    assert prefix + "&" + "p=336" == prefix + "&p=336";
    ParseIntTen();
  }

  // ---------------------------------------------------------------------
  // transformAcfData (src/utils/api-acf.js:102-114)
  // ---------------------------------------------------------------------

  /**
   * `xs` mapped through `f` in order, as a `forEach` that pushes each result:
   * the first error thrown, or all the results.
   */
  function MapUntilThrow<T, U>(xs: seq<T>, f: T -> Result<U>): Result<seq<U>> {
    if |xs| == 0 then Ok([])
    else
      var front := MapUntilThrow(xs[..|xs| - 1], f);
      var last := f(xs[|xs| - 1]);
      if front.Throws? then front
      else if last.Throws? then Throws(last.error)
      else Ok(front.value + [last.value])
  }

  /**
   * Mapping succeeds exactly when every element maps, and then gives one
   * result per element, in order; otherwise the error is an element's.
   */
  lemma {:induction false} MapUntilThrowElementwise<T, U>(xs: seq<T>, f: T -> Result<U>)
    ensures MapUntilThrow(xs, f).Ok? <==> forall i :: 0 <= i < |xs| ==> f(xs[i]).Ok?
    ensures MapUntilThrow(xs, f).Ok? ==>
      |MapUntilThrow(xs, f).value| == |xs| &&
      forall i :: 0 <= i < |xs| ==> MapUntilThrow(xs, f).value[i] == f(xs[i]).value
    ensures MapUntilThrow(xs, f).Throws? ==>
      exists i :: 0 <= i < |xs| && f(xs[i]) == Throws(MapUntilThrow(xs, f).error)
  {
    if |xs| > 0 {
      var front := xs[..|xs| - 1];
      MapUntilThrowElementwise(front, f);
      assert forall i :: 0 <= i < |front| ==> front[i] == xs[i];
      var r := MapUntilThrow(xs, f);
      if MapUntilThrow(front, f).Throws? {
        var i :| 0 <= i < |front| && f(front[i]) == Throws(MapUntilThrow(front, f).error);
        assert f(xs[i]) == Throws(r.error);
      } else if f(xs[|xs| - 1]).Throws? {
        assert f(xs[|xs| - 1]) == Throws(r.error);
      }
    }
  }

  /** Once a prefix throws, the whole sequence throws the same error. */
  lemma {:induction false} MapUntilThrowKeepsError<T, U>(xs: seq<T>, f: T -> Result<U>, k: nat)
    requires k <= |xs| && MapUntilThrow(xs[..k], f).Throws?
    ensures MapUntilThrow(xs, f) == MapUntilThrow(xs[..k], f)
    decreases |xs| - k
  {
    if k < |xs| {
      assert xs[..k + 1][..k] == xs[..k];
      MapUntilThrowKeepsError(xs, f, k + 1);
    } else {
      assert xs[..k] == xs;
    }
  }

  /**
   * transformAcfData: throws when there is no `schedule_repeater`;
   * otherwise transforms each entry in order, stopping at the first that
   * throws.
   */
  method TransformAcfData(data: Option<AcfData>) returns (r: Result<seq<ProgramConfig>>)
    ensures (data.None? || data.value.acf.None? || data.value.acf.value.scheduleRepeater.None?) ==>
      r == Throws(MissingProgramData)
    ensures r.Ok? ==> UsesAcfFormat(data)
    ensures UsesAcfFormat(data) && data.value.acf.value.scheduleRepeater.Some? ==>
      r == MapUntilThrow(data.value.acf.value.scheduleRepeater.value, TransformAcfProgram)
  {
    if data.None? || data.value.acf.None? || data.value.acf.value.scheduleRepeater.None? {
      return Throws(MissingProgramData);
    }
    var entries := data.value.acf.value.scheduleRepeater.value;
    var programs: seq<ProgramConfig> := [];
    var i := 0;
    while i < |entries|
      invariant 0 <= i <= |entries|
      invariant MapUntilThrow(entries[..i], TransformAcfProgram) == Ok(programs)
    {
      assert entries[..i + 1][..i] == entries[..i];
      var program := TransformAcfProgramSteps(entries[i]);
      if program.Throws? {
        r := Throws(program.error);
        assert MapUntilThrow(entries[..i + 1], TransformAcfProgram) == r;
        MapUntilThrowKeepsError(entries, TransformAcfProgram, i + 1);
        return;
      }
      programs := programs + [program.value];
      i := i + 1;
    }
    assert entries[..|entries|] == entries;
    r := Ok(programs);
  }

  /**
   * The definitions transformAcfData returns are, one per entry and in
   * order, the transforms of the repeater's entries; it throws exactly when
   * the repeater is missing or an entry throws.
   */
  lemma TransformAcfDataElementwise(entries: seq<AcfProgram>)
    ensures var r := MapUntilThrow(entries, TransformAcfProgram);
      (r.Ok? <==> forall i :: 0 <= i < |entries| ==> TransformAcfProgram(entries[i]).Ok?) &&
      (r.Ok? ==>
         |r.value| == |entries| &&
         forall i :: 0 <= i < |entries| ==> r.value[i] == TransformAcfProgram(entries[i]).value) &&
      (r.Throws? ==> exists i :: 0 <= i < |entries| && TransformAcfProgram(entries[i]) == Throws(r.error))
  {
    MapUntilThrowElementwise(entries, TransformAcfProgram);
  }
}
