/** The post helpers of `src/lib/utils.ts`: splitting a post file into its
    frontmatter header and its body, checking the header against the
    frontmatter schema, turning a failed check into an HTTP 404, the `assert`
    guard, and rendering a date as `YYYY-MM-DD`.

    The YAML parser is a parameter (`yaml`), since it is a foreign library; the
    file read of `loadPost` is left out, so `LoadPost` takes the file's text. */
module Utils {
  import opened JsCore
  import opened JsString

  // ---------------------------------------------------------------------------
  // Data
  // ---------------------------------------------------------------------------

  /** A date as the local-time getters of a JavaScript Date report it:
      `getFullYear()`, `getMonth()` (0 to 11) and `getDate()` (1 to 31). */
  datatype Date = Date(fullYear: int, monthIndex: int, dayOfMonth: int)

  predicate IsCalendarDate(d: Date) {
    0 <= d.monthIndex <= 11 && 1 <= d.dayOfMonth <= 31
  }

  /** A value of the parsed YAML header, as the schema tells them apart:
      a string, a date, or anything else (number, boolean, null, list, map). */
  datatype Value = Text(s: string) | DateValue(date: Date) | OtherValue

  /** What `yaml.parse` makes of the header: a mapping from keys to values,
      or something that is not a mapping (a scalar, a list, null). */
  datatype Yaml = Mapping(fields: map<string, Value>) | NotMapping

  /** The frontmatter schema's output: exactly its three fields; any other key
      of the header is dropped. */
  datatype Frontmatter = Frontmatter(title: string, date: Date, excerpt: string)

  /** What a successful `parsePost` yields: `{frontmatter, body}`. */
  datatype Post = Post(frontmatter: Frontmatter, body: string)

  /** A zod `safeParse` result. A failure keeps only the keys of its
      `fieldErrors` map: the names of the fields that had an issue. */
  datatype SafeParse<+T> = Success(data: T) | Failure(fieldErrors: set<string>)

  // ---------------------------------------------------------------------------
  // assert
  // ---------------------------------------------------------------------------

  /** `assert(expr, msg)`: throws an Error whose message is `msg`, or "" when
      no message is given, exactly when `expr` is falsy; otherwise returns. */
  function Assert(expr: JsValue, msg: Option<string>): (r: Outcome<()>)
    ensures r.Return? <==> Truthy(expr)
    ensures r.Throw? ==> r.exception == JsError(msg.GetOr(""))
  {
    if !Truthy(expr) then Throw(JsError(msg.GetOr(""))) else Return(())
  }

  // ---------------------------------------------------------------------------
  // The header match /^---\n([\s\S]*?)\n---/
  // ---------------------------------------------------------------------------

  /** The opening delimiter, matched at the very start of the text. */
  const Open: string := "---\n"
  /** The closing delimiter. */
  const Close: string := "\n---"

  /** The closing delimiter occurs in `text` at index `j`. */
  predicate CloseAt(text: string, j: int) {
    0 <= j && j + 4 <= |text| && text[j..j + 4] == Close
  }

  /** The regular expression matches `text` with a header of length `k`: the
      text opens with `---\n`, the closing delimiter follows the header, and,
      since `*?` is lazy, no shorter header would do. */
  ghost predicate IsHeaderMatch(text: string, k: nat) {
    StartsWith(text, Open) && CloseAt(text, 4 + k)
    && forall j :: 4 <= j < 4 + k ==> !CloseAt(text, j)
  }

  /** The first index at or after `j` where the closing delimiter occurs. */
  function SearchClose(text: string, j: nat): (r: Option<nat>)
    ensures r.Some? ==> j <= r.value && CloseAt(text, r.value)
    ensures r.Some? ==> forall i :: j <= i < r.value ==> !CloseAt(text, i)
    ensures r.None? ==> forall i :: j <= i ==> !CloseAt(text, i)
    decreases |text| - j
  {
    if j + 4 > |text| then None
    else if CloseAt(text, j) then Some(j)
    else SearchClose(text, j + 1)
  }

  /** The length of the captured header, when the expression matches. */
  function MatchHeader(text: string): (k: Option<nat>)
    ensures k.Some? ==> IsHeaderMatch(text, k.value)
    ensures k.None? ==> forall n: nat :: !IsHeaderMatch(text, n)
  {
    if !StartsWith(text, Open) then None
    else
      match SearchClose(text, 4)
      case None => None
      case Some(j) => Some(j - 4)
  }

  /** There is at most one match: the lazy group pins the header down. */
  lemma HeaderMatchUnique(text: string, k1: nat, k2: nat)
    requires IsHeaderMatch(text, k1) && IsHeaderMatch(text, k2)
    ensures k1 == k2
  {
  }

  /** The closing delimiter occurs somewhere in `s`. */
  ghost predicate ContainsClose(s: string) {
    exists j :: CloseAt(s, j)
  }

  /** The captured header never contains the closing delimiter. */
  lemma HeaderHasNoClose(text: string, k: nat)
    requires MatchHeader(text) == Some(k)
    ensures !ContainsClose(text[4..4 + k])
  {
    assert IsHeaderMatch(text, k);
    assert CloseAt(text, 4 + k);
    var h := text[4..4 + k];
    forall j
      ensures !CloseAt(h, j)
    {
      if 0 <= j && j + 4 <= |h| {
        assert h[j..j + 4] == text[4 + j..4 + j + 4];
        assert !CloseAt(text, 4 + j);
      }
    }
  }

  // ---------------------------------------------------------------------------
  // The frontmatter schema { title: string, date: Date, excerpt: string }
  // ---------------------------------------------------------------------------

  predicate HasString(m: map<string, Value>, key: string) {
    key in m && m[key].Text?
  }

  predicate HasDate(m: map<string, Value>, key: string) {
    key in m && m[key].DateValue?
  }

  /** The schema check. A header that is not a mapping fails as a whole, with
      no field singled out; a mapping fails on exactly the fields that are
      missing or of the wrong type; otherwise the three fields are taken over. */
  function Validate(y: Yaml): (r: SafeParse<Frontmatter>)
    ensures r.Success? <==>
              y.Mapping? && HasString(y.fields, "title") && HasDate(y.fields, "date")
              && HasString(y.fields, "excerpt")
    ensures r.Success? ==>
              r.data.title == y.fields["title"].s && r.data.date == y.fields["date"].date
              && r.data.excerpt == y.fields["excerpt"].s
    ensures r.Failure? && y.NotMapping? ==> r.fieldErrors == {}
    ensures r.Failure? && y.Mapping? ==>
              r.fieldErrors <= {"title", "date", "excerpt"}
              && ("title" in r.fieldErrors <==> !HasString(y.fields, "title"))
              && ("date" in r.fieldErrors <==> !HasDate(y.fields, "date"))
              && ("excerpt" in r.fieldErrors <==> !HasString(y.fields, "excerpt"))
  {
    match y
    case NotMapping => Failure({})
    case Mapping(m) =>
      var issues :=
        (if HasString(m, "title") then {} else {"title"})
        + (if HasDate(m, "date") then {} else {"date"})
        + (if HasString(m, "excerpt") then {} else {"excerpt"});
      if issues == {} then
        Success(Frontmatter(m["title"].s, m["date"].date, m["excerpt"].s))
      else
        Failure(issues)
  }

  // ---------------------------------------------------------------------------
  // parsePost and loadPost
  // ---------------------------------------------------------------------------

  /** `parsePost(text)`. Throws "Frontmatter not found" when the header
      expression does not match; otherwise parses the captured header (which
      may throw) and checks it against the schema, the body being the text
      after the whole match, trimmed. */
  function ParsePost(text: string, yaml: string -> Outcome<Yaml>): (r: Outcome<SafeParse<Post>>)
    ensures MatchHeader(text).None? ==> r == Throw(JsError("Frontmatter not found"))
    ensures MatchHeader(text).Some? ==>
              var k := MatchHeader(text).value;
              var header := text[4..4 + k];
              match yaml(header)
              case Throw(e) => r == Throw(e)
              case Return(y) =>
                match Validate(y)
                case Failure(errs) => r == Return(Failure(errs))
                case Success(fm) =>
                  r == Return(Success(Post(fm, Trim(text[|Open + header + Close|..]))))
  {
    match MatchHeader(text)
    case None => Throw(JsError("Frontmatter not found"))
    case Some(k) =>
      var whole := 4 + k + 4;
      match yaml(text[4..4 + k])
      case Throw(e) => Throw(e)
      case Return(y) =>
        match Validate(y)
        case Failure(errs) => Return(Failure(errs))
        case Success(fm) => Return(Success(Post(fm, Trim(text[whole..]))))
  }

  /** A header opened with a Windows line ending is never found. */
  lemma CrlfHeaderNotFound(text: string, yaml: string -> Outcome<Yaml>)
    requires StartsWith(text, "---\r\n")
    ensures ParsePost(text, yaml) == Throw(JsError("Frontmatter not found"))
  {
    assert text[3] == '\r';
    assert !StartsWith(text, Open);
  }

  /** The closing delimiter must start at index 4 or later: `---\n---` (an
      empty header without a blank line) is not a header, while `---\n\n---` is
      one with an empty capture. */
  lemma EmptyHeaderNeedsBlankLine()
    ensures MatchHeader("---\n---") == None
    ensures MatchHeader("---\n\n---") == Some(0)
  {
    assert !CloseAt("---\n---", 4);
    assert SearchClose("---\n---", 4) == None;
    assert CloseAt("---\n\n---", 4);
  }

  /** In a file made of the opening delimiter, a header free of the closing
      delimiter, and the closing delimiter, the expression captures exactly
      that header. */
  lemma MatchAssembled(header: string, rest: string)
    requires !ContainsClose(header)
    ensures MatchHeader(Open + header + Close + rest) == Some(|header|)
  {
    var text := Open + header + Close + rest;
    var k := |header|;
    assert text[..4] == Open;
    assert text[4..4 + k] == header;
    assert text[4 + k..8 + k] == Close;
    forall j | 4 <= j < 4 + k
      ensures !CloseAt(text, j)
    {
      if j + 4 <= 4 + k {
        assert text[j..j + 4] == header[j - 4..j];
        assert !CloseAt(header, j - 4);
      } else {
        // a match here would straddle the end of the header and the closing
        // delimiter, and would need a dash where the closing delimiter has
        // its line feed
        assert text[4 + k] == '\n';
        assert text[j..j + 4][4 + k - j] == text[4 + k];
      }
    }
    assert IsHeaderMatch(text, k);
    HeaderMatchUnique(text, k, MatchHeader(text).value);
  }

  /** A file assembled from a header without the closing delimiter, the
      closing delimiter, and a trimmed body surrounded by whitespace, parses
      back to the header's frontmatter and exactly that body. */
  lemma ParsePostAssembled(header: string, w1: string, body: string, w2: string,
                           yaml: string -> Outcome<Yaml>, fm: Frontmatter)
    requires !ContainsClose(header)
    requires AllWhitespace(w1) && AllWhitespace(w2) && IsTrimmed(body)
    requires yaml(header).Return? && Validate(yaml(header).value) == Success(fm)
    ensures ParsePost(Open + header + Close + (w1 + body + w2), yaml)
            == Return(Success(Post(fm, body)))
  {
    var rest := w1 + body + w2;
    var text := Open + header + Close + rest;
    MatchAssembled(header, rest);
    var k := |header|;
    assert text[4..4 + k] == header;
    assert text[8 + k..] == rest;
    TrimExact(w1, body, w2);
    assert Trim(text[4 + k + 4..]) == body;
  }

  /** `loadPost(filepath)` given the file's text: the parsed post on success; a
      failed schema check becomes an HTTP 404 error carrying the per-field
      issues; a missing header or a YAML error propagates unchanged. It never
      returns a failed result. */
  function LoadPost(text: string, yaml: string -> Outcome<Yaml>): (r: Outcome<Post>)
    ensures r.Return? <==> ParsePost(text, yaml).Return? && ParsePost(text, yaml).value.Success?
    ensures r.Return? ==> r.value == ParsePost(text, yaml).value.data
    ensures ParsePost(text, yaml).Throw? ==> r == Throw(ParsePost(text, yaml).exception)
    ensures ParsePost(text, yaml).Return? && ParsePost(text, yaml).value.Failure? ==>
              r == Throw(HttpError(404, ParsePost(text, yaml).value.fieldErrors))
  {
    match ParsePost(text, yaml)
    case Throw(e) => Throw(e)
    case Return(Failure(errs)) => Throw(HttpError(404, errs))
    case Return(Success(post)) => Return(post)
  }

  // ---------------------------------------------------------------------------
  // formatDate
  // ---------------------------------------------------------------------------

  /** `String(n).padStart(2, "0")`. */
  function TwoDigits(n: nat): string {
    PadStart(NatToString(n), 2, '0')
  }

  /** `formatDate(d)`: the full year as is, then month and day of month, each
      padded to two digits, joined by dashes. */
  function FormatDate(d: Date): string
    requires IsCalendarDate(d)
  {
    IntToString(d.fullYear) + "-" + TwoDigits(d.monthIndex + 1) + "-" + TwoDigits(d.dayOfMonth)
  }

  /** A reader for the `Y-MM-DD` format, reading the month back as an index. */
  function ParseYmd(s: string): Option<Date> {
    var n := |s|;
    if n >= 7 && s[n - 3] == '-' && s[n - 6] == '-'
       && AllDigits(s[..n - 6]) && AllDigits(s[n - 5..n - 3]) && AllDigits(s[n - 2..])
    then Some(Date(DigitsValue(s[..n - 6]), DigitsValue(s[n - 5..n - 3]) - 1, DigitsValue(s[n - 2..])))
    else None
  }

  /** A month or day padded to two digits is at least two digits, exactly
      two below 100, and reads back as that number: the padding zero adds
      nothing. */
  lemma TwoDigitsValue(n: nat)
    ensures |TwoDigits(n)| >= 2 && (n <= 99 ==> |TwoDigits(n)| == 2)
    ensures AllDigits(TwoDigits(n)) && DigitsValue(TwoDigits(n)) == n
  {
    var s := NatToString(n);
    NatToStringRoundTrip(n);
    if n < 10 {
      var t := TwoDigits(n);
      assert s == [DigitChar(n)];
      assert t == ['0', DigitChar(n)];
      assert t[..1] == ['0'];
      assert DigitsValue(['0']) == DigitsValue(['0'][..0]) * 10 + 0;
    } else {
      assert |NatToString(n / 10)| >= 1;
      assert n <= 99 ==> |NatToString(n / 10)| == 1;
    }
  }

  /** The reader takes apart any year digits, two month digits and two day
      digits joined by dashes. */
  lemma ParseYmdPieces(y: string, mm: string, dd: string)
    requires |y| >= 1 && AllDigits(y)
    requires |mm| == 2 && AllDigits(mm) && |dd| == 2 && AllDigits(dd)
    ensures ParseYmd(y + "-" + mm + "-" + dd)
            == Some(Date(DigitsValue(y), DigitsValue(mm) - 1, DigitsValue(dd)))
  {
    DatePieces(y, mm, dd);
  }

  lemma DatePieces(y: string, mm: string, dd: string)
    requires |mm| == 2 && |dd| == 2
    ensures var s := y + "-" + mm + "-" + dd;
            var n := |s|;
            n == |y| + 6 && s[..n - 6] == y && s[n - 5..n - 3] == mm && s[n - 2..] == dd
            && s[n - 3] == '-' && s[n - 6] == '-'
  {
    var s := y + "-" + mm + "-" + dd;
    var n := |s|;
    assert s[..n - 6] == y;
    assert s[n - 5..n - 3] == mm;
    assert s[n - 2..] == dd;
  }

  /** For a year that is not negative, the formatted date reads back as the
      date it came from. */
  lemma FormatDateRoundTrip(d: Date)
    requires IsCalendarDate(d) && d.fullYear >= 0
    ensures ParseYmd(FormatDate(d)) == Some(d)
  {
    FormatDateOfYear(d);
    ReadFormatted(d.fullYear, d.monthIndex + 1, d.dayOfMonth);
  }

  /** For a year that is not negative, `${year}` is `String` of the year. */
  lemma FormatDateOfYear(d: Date)
    requires IsCalendarDate(d) && d.fullYear >= 0
    ensures FormatDate(d) == NatToString(d.fullYear) + "-" + TwoDigits(d.monthIndex + 1) + "-" + TwoDigits(d.dayOfMonth)
  {
    assert IntToString(d.fullYear) == NatToString(d.fullYear);
  }

  /** The pieces `formatDate` writes for a year that is not negative read
      back as the year, the month index and the day. */
  lemma ReadFormatted(year: nat, month: nat, day: nat)
    requires 1 <= month <= 12 && 1 <= day <= 31
    ensures ParseYmd(NatToString(year) + "-" + TwoDigits(month) + "-" + TwoDigits(day))
            == Some(Date(year, month - 1, day))
  {
    TwoDigitsValue(month);
    TwoDigitsValue(day);
    NatToStringRoundTrip(year);
    ParseYmdPieces(NatToString(year), TwoDigits(month), TwoDigits(day));
  }

  /** Four digits are written for a year from 1000 to 9999. */
  lemma FourDigitYear(y: nat)
    requires 1000 <= y <= 9999
    ensures |NatToString(y)| == 4
  {
    assert 100 <= y / 10 <= 999;
    assert 10 <= y / 100 <= 99 && y / 10 / 10 == y / 100;
    assert 1 <= y / 1000 <= 9 && y / 100 / 10 == y / 1000;
    assert |NatToString(y / 1000)| == 1;
    assert |NatToString(y / 100)| == 2;
    assert |NatToString(y / 10)| == 3;
  }

  /** A four-digit year gives ten characters: digits, with dashes at indices 4
      and 7. */
  lemma FormatDateFourDigitYear(d: Date)
    requires IsCalendarDate(d) && 1000 <= d.fullYear <= 9999
    ensures var s := FormatDate(d);
            |s| == 10 && s[4] == '-' && s[7] == '-'
            && AllDigits(s[..4]) && AllDigits(s[5..7]) && AllDigits(s[8..])
  {
    FormatDateOfYear(d);
    FourDigitPieces(d.fullYear, d.monthIndex + 1, d.dayOfMonth);
  }

  /** The pieces `formatDate` writes for a four-digit year: four digits, a
      dash, two digits, a dash, two digits. */
  lemma FourDigitPieces(year: nat, month: nat, day: nat)
    requires 1000 <= year <= 9999 && 1 <= month <= 12 && 1 <= day <= 31
    ensures var s := NatToString(year) + "-" + TwoDigits(month) + "-" + TwoDigits(day);
            |s| == 10 && s[4] == '-' && s[7] == '-'
            && AllDigits(s[..4]) && AllDigits(s[5..7]) && AllDigits(s[8..])
  {
    var y, mm, dd := NatToString(year), TwoDigits(month), TwoDigits(day);
    FourDigitYear(year);
    TwoDigitsValue(month);
    TwoDigitsValue(day);
    assert |y| == 4 && |mm| == 2 && |dd| == 2;
    DatePieces(y, mm, dd);
  }
}
