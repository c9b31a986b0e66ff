/**
 * The part of chrono's `parse_from_str` the service relies on concretely: the format
 * `"%Y-%m-%d"` read into a `NaiveDate`, with chrono's scanner for numeric items.
 */
module ChronoParse {
  import opened Wrappers
  import opened Calendar
  import opened Decimal
  import opened ChronoFormat

  /** Rust's `char::is_whitespace`: the characters with the Unicode White_Space property. */
  predicate IsWhitespace(c: char) {
    var k := c as int;
    (9 <= k <= 13) || k == 0x20 || k == 0x85 || k == 0xA0 || k == 0x1680 || (0x2000 <= k <= 0x200A)
      || k == 0x2028 || k == 0x2029 || k == 0x202F || k == 0x205F || k == 0x3000
  }

  /** `str::trim_start`: s without its leading whitespace. */
  function TrimStart(s: string): (r: string)
    ensures |r| <= |s| && r == s[|s| - |r|..]
    ensures forall i :: 0 <= i < |s| - |r| ==> IsWhitespace(s[i])
    ensures r == [] || !IsWhitespace(r[0])
  {
    if s != [] && IsWhitespace(s[0]) then TrimStart(s[1..]) else s
  }

  /** The number of ASCII digits s starts with. */
  function LeadingDigits(s: string): (n: nat)
    ensures n <= |s| && AllDigits(s[..n])
    ensures n < |s| ==> !IsDigit(s[n])
  {
    if s != [] && IsDigit(s[0]) then
      var n := 1 + LeadingDigits(s[1..]);
      assert forall i :: 1 <= i < n ==> s[..n][i] == s[1..][..n - 1][i - 1];
      n
    else 0
  }

  /**
   * chrono's `scan::number(s, 1, max)`: the longest run of at most max leading digits, which must
   * not be empty, as its value and the rest of s.
   */
  function ScanNumber(s: string, max: nat): (r: Option<(nat, string)>)
    ensures r.Some? ==> var k := |s| - |r.value.1|;
      && 1 <= k <= max && r.value.1 == s[k..] && AllDigits(s[..k]) && r.value.0 == DigitsValue(s[..k])
      && (k == max || k == |s| || !IsDigit(s[k]))
    ensures r.None? ==> max == 0 || s == [] || !IsDigit(s[0])
  {
    var k := if LeadingDigits(s) < max then LeadingDigits(s) else max;
    assert AllDigits(s[..k]) by {
      assert forall i :: 0 <= i < k ==> s[..k][i] == s[..LeadingDigits(s)][i];
    }
    if k == 0 then None else Some((DigitsValue(s[..k]), s[k..]))
  }

  /** Every character of w is whitespace. */
  predicate AllWhitespace(w: string) {
    forall i :: 0 <= i < |w| ==> IsWhitespace(w[i])
  }

  /** t is a `%Y` field naming the year y: one to four digits, or a sign and one or more digits. */
  predicate IsYearField(t: string, y: int) {
    || (1 <= |t| <= 4 && AllDigits(t) && y == DigitsValue(t))
    || (&& |t| >= 2 && (t[0] == '+' || t[0] == '-') && AllDigits(t[1..])
        && y == (if t[0] == '-' then -(DigitsValue(t[1..]) as int) else DigitsValue(t[1..])))
  }

  /** t is a `%m` or `%d` field naming n: one or two digits. */
  predicate IsTwoDigitField(t: string, n: int) {
    1 <= |t| <= 2 && AllDigits(t) && n == DigitsValue(t)
  }

  /**
   * chrono's `%Y` item when parsing: leading whitespace is skipped; after a '-' or '+' any number of
   * digits follows, without a sign one to four digits.
   */
  function ScanYear(s: string): (r: Option<(int, string)>)
    ensures r.Some? ==> |r.value.1| < |s| && r.value.1 == s[|s| - |r.value.1|..]
    ensures r.Some? ==> YearScanned(TrimStart(s), r.value.0, r.value.1)
  {
    var t := TrimStart(s);
    match ScanSignedYear(t)
    case None => None
    case Some((y, rest)) =>
      YearScannedIsSuffix(s, y, rest);
      Some((y, rest))
  }

  /** What the year scanner leaves is a proper suffix of the whole text. */
  lemma {:induction false} YearScannedIsSuffix(s: string, y: int, rest: string)
    requires YearScanned(TrimStart(s), y, rest)
    ensures |rest| < |s| && rest == s[|s| - |rest|..]
  {
    var t := TrimStart(s);
    SuffixOfSuffix(rest, t, s);
  }

  /** After the whitespace, t is a year field naming y, followed by rest. */
  predicate YearScanned(t: string, y: int, rest: string) {
    |rest| < |t| && rest == t[|t| - |rest|..] && IsYearField(t[..|t| - |rest|], y)
  }

  /** After the whitespace, t is a one- or two-digit field naming n, followed by rest. */
  predicate TwoDigitScanned(t: string, n: int, rest: string) {
    |rest| < |t| && rest == t[|t| - |rest|..] && IsTwoDigitField(t[..|t| - |rest|], n)
  }

  /** The `%Y` item once the whitespace is gone. */
  function ScanSignedYear(t: string): (r: Option<(int, string)>)
    ensures r.Some? ==> YearScanned(t, r.value.0, r.value.1)
  {
    if t != [] && (t[0] == '-' || t[0] == '+') then
      match ScanNumber(t[1..], |t|)
      case None => None
      case Some((v, rest)) =>
        SignedYearScanned(t, v, rest);
        Some((if t[0] == '-' then -(v as int) else v, rest))
    else
      match ScanNumber(t, 4)
      case None => None
      case Some((v, rest)) =>
        UnsignedYearScanned(t, v, rest);
        Some((v as int, rest))
  }

  /** One to four digits the scanner read are a year field. */
  lemma {:induction false} UnsignedYearScanned(t: string, v: nat, rest: string)
    requires ScanNumber(t, 4) == Some((v, rest))
    ensures YearScanned(t, v, rest)
  {
  }

  /** A sign, then the digits the scanner read after it, is a year field. */
  lemma {:induction false} SignedYearScanned(t: string, v: nat, rest: string)
    requires |t| >= 1 && (t[0] == '-' || t[0] == '+') && ScanNumber(t[1..], |t|) == Some((v, rest))
    ensures YearScanned(t, if t[0] == '-' then -(v as int) else v, rest)
  {
    var k := |t| - |rest|;
    assert t[..k][1..] == t[1..][..k - 1];
  }

  lemma {:induction false} SuffixOfSuffix(a: string, b: string, c: string)
    requires |a| <= |b| <= |c| && a == b[|b| - |a|..] && b == c[|c| - |b|..]
    ensures a == c[|c| - |a|..]
  {
    assert forall i :: 0 <= i < |a| ==> a[i] == c[|c| - |a| + i];
  }

  /** chrono's `%m` and `%d` items when parsing: leading whitespace skipped, then one or two digits. */
  function ScanTwoDigitField(s: string): (r: Option<(nat, string)>)
    ensures r.Some? ==> TwoDigitScanned(TrimStart(s), r.value.0, r.value.1)
  {
    var t := TrimStart(s);
    match ScanNumber(t, 2)
    case None => None
    case Some((n, rest)) =>
      TwoDigitFieldScanned(t, n, rest);
      Some((n, rest))
  }

  /** The digits the scanner read, at most two of them, are a month or day field. */
  lemma {:induction false} TwoDigitFieldScanned(t: string, n: nat, rest: string)
    requires ScanNumber(t, 2) == Some((n, rest))
    ensures TwoDigitScanned(t, n, rest)
  {
  }

  /** `NaiveDate::from_ymd_opt`: the date, when it exists and lies in chrono's range. */
  function FromYmdOpt(y: int, m: int, d: int): (r: Option<NaiveDate>)
    ensures r.Some? <==> InChronoRange(Date(y, m, d))
    ensures r.Some? ==> r.value == Date(y, m, d)
  {
    if InChronoRange(Date(y, m, d)) then Some(Date(y, m, d)) else None
  }

  /**
   * A text `"%Y-%m-%d"` accepts, taken apart: whitespace, the year field, '-', whitespace, the month
   * field, '-', whitespace and the day field, with nothing after it.
   */
  datatype YmdText = YmdText(lead: string, year: string, gap1: string, month: string, gap2: string, day: string)
  {
    function Text(): string {
      lead + year + "-" + gap1 + month + "-" + gap2 + day
    }

    /** The pieces have the shapes chrono's scanner reads, and name the year y, month m and day d. */
    predicate Spells(y: int, m: int, d: int) {
      && AllWhitespace(lead) && AllWhitespace(gap1) && AllWhitespace(gap2)
      && IsYearField(year, y) && IsTwoDigitField(month, m) && IsTwoDigitField(day, d)
    }
  }

  /**
   * `NaiveDate::parse_from_str(s, "%Y-%m-%d")`: the year, a literal '-', the month, a literal '-',
   * the day, and nothing after it; the three numbers must name a date chrono can represent.
   */
  function ParseYmd(s: string): (r: Option<NaiveDate>)
    ensures r.Some? ==> exists p: YmdText :: p.Text() == s && p.Spells(r.value.year, r.value.month, r.value.day)
  {
    match ScanYear(s)
    case None => None
    case Some((y, s1)) =>
      if s1 == [] || s1[0] != '-' then None
      else match ScanTwoDigitField(s1[1..])
        case None => None
        case Some((m, s2)) =>
          if s2 == [] || s2[0] != '-' then None
          else match ScanTwoDigitField(s2[1..])
            case None => None
            case Some((d, s3)) =>
              if s3 != [] then None
              else
                YmdTextOfScans(s, y, s1, m, s2, d);
                FromYmdOpt(y, m, d)
  }

  /** Where a scanner stopped: the whitespace it skipped, the field it read and what it left. */
  lemma {:induction false} SplitAtTrim(s: string, t: string, k: int, rest: string) returns (lead: string, field: string)
    requires |t| <= |s| && t == s[|s| - |t|..]
    requires forall i :: 0 <= i < |s| - |t| ==> IsWhitespace(s[i])
    requires 0 <= k <= |t| && rest == t[k..]
    ensures lead == s[..|s| - |t|] && field == t[..k]
    ensures AllWhitespace(lead) && s == lead + field + rest
  {
    lead, field := s[..|s| - |t|], t[..k];
    assert s == lead + t;
    assert t == field + rest;
  }

  /** A successful `%Y` scan: whitespace, then a year field, then what it left. */
  lemma {:induction false} YearScanParts(s: string, y: int, rest: string) returns (lead: string, field: string)
    requires YearScanned(TrimStart(s), y, rest)
    ensures AllWhitespace(lead) && IsYearField(field, y) && s == lead + field + rest
  {
    var t := TrimStart(s);
    lead, field := SplitAtTrim(s, t, |t| - |rest|, rest);
  }

  /** A successful `%m` or `%d` scan: whitespace, then a one- or two-digit field, then what it left. */
  lemma {:induction false} TwoDigitScanParts(s: string, n: nat, rest: string) returns (lead: string, field: string)
    requires TwoDigitScanned(TrimStart(s), n, rest)
    ensures AllWhitespace(lead) && IsTwoDigitField(field, n) && s == lead + field + rest
  {
    var t := TrimStart(s);
    lead, field := SplitAtTrim(s, t, |t| - |rest|, rest);
  }

  /** Three successful scans take the text apart into the pieces of a YmdText. */
  lemma {:induction false} YmdTextOfScans(s: string, y: int, s1: string, m: nat, s2: string, d: nat)
    requires ScanYear(s) == Some((y, s1)) && s1 != [] && s1[0] == '-'
    requires ScanTwoDigitField(s1[1..]) == Some((m, s2)) && s2 != [] && s2[0] == '-'
    requires ScanTwoDigitField(s2[1..]) == Some((d, []))
    ensures exists p: YmdText :: p.Text() == s && p.Spells(y, m, d)
  {
    var lead, year := YearScanParts(s, y, s1);
    var gap1, month := TwoDigitScanParts(s1[1..], m, s2);
    var gap2, day := TwoDigitScanParts(s2[1..], d, []);
    var p := YmdText(lead, year, gap1, month, gap2, day);
    assert p.Spells(y, m, d);
    YmdTextJoin(p, s, s1, s2);
  }

  lemma {:induction false} YmdTextJoin(p: YmdText, s: string, s1: string, s2: string)
    requires s1 != [] && s1[0] == '-' && s2 != [] && s2[0] == '-'
    requires s == p.lead + p.year + s1 && s1[1..] == p.gap1 + p.month + s2 && s2[1..] == p.gap2 + p.day + []
    ensures p.Text() == s
  {
    assert s1 == "-" + s1[1..] && s2 == "-" + s2[1..];
  }

  // ---------------------------------------------------------------------------
  // What "%Y-%m-%d" accepts
  // ---------------------------------------------------------------------------

  lemma {:induction false} LeadingDigitsOfDigits(digits: string, rest: string)
    requires AllDigits(digits) && (rest == [] || !IsDigit(rest[0]))
    ensures LeadingDigits(digits + rest) == |digits|
  {
    if digits != [] {
      assert (digits + rest)[1..] == digits[1..] + rest;
      LeadingDigitsOfDigits(digits[1..], rest);
    }
  }

  /** The scanner takes a whole run of digits when it is not longer than allowed. */
  lemma {:induction false} ScanNumberOfDigits(digits: string, rest: string, max: nat)
    requires AllDigits(digits) && 1 <= |digits| <= max
    requires rest == [] || !IsDigit(rest[0])
    ensures ScanNumber(digits + rest, max) == Some((DigitsValue(digits), rest))
  {
    LeadingDigitsOfDigits(digits, rest);
    assert (digits + rest)[..|digits|] == digits && (digits + rest)[|digits|..] == rest;
  }

  /** Skipping leading whitespace removes exactly the whitespace in front of a non-blank text. */
  lemma {:induction false} TrimStartOfWhitespace(w: string, x: string)
    requires AllWhitespace(w) && x != [] && !IsWhitespace(x[0])
    ensures TrimStart(w + x) == x
  {
    if w == [] {
      assert w + x == x;
    } else {
      assert (w + x)[0] == w[0] && (w + x)[1..] == w[1..] + x;
      TrimStartOfWhitespace(w[1..], x);
    }
  }

  lemma {:induction false} SignOrDigitIsNotWhitespace(c: char)
    requires c == '-' || c == '+' || IsDigit(c)
    ensures !IsWhitespace(c)
  {
    assert '+' as int == 0x2B && '9' as int == 0x39;
    assert 0x2B <= c as int <= 0x39;
  }

  /** Whitespace in front of a field that starts with a sign or a digit is all that is skipped. */
  lemma {:induction false} TrimStartOfField(w: string, t: string, rest: string)
    requires AllWhitespace(w) && t != [] && (t[0] == '-' || t[0] == '+' || IsDigit(t[0]))
    ensures TrimStart(w + t + rest) == t + rest
  {
    SignOrDigitIsNotWhitespace(t[0]);
    assert (t + rest)[0] == t[0] && w + t + rest == w + (t + rest);
    TrimStartOfWhitespace(w, t + rest);
  }

  /** `%m` and `%d` read a one- or two-digit field after any whitespace, up to a '-' or the end. */
  lemma {:induction false} ScanTwoDigitFieldOfField(w: string, t: string, rest: string, n: int)
    requires AllWhitespace(w) && IsTwoDigitField(t, n) && (rest == [] || rest[0] == '-')
    ensures ScanTwoDigitField(w + t + rest) == Some((n, rest))
  {
    TrimStartOfField(w, t, rest);
    ScanNumberOfDigits(t, rest, 2);
  }

  /** `%Y` reads a year field after any whitespace, up to the next '-'. */
  lemma {:induction false} ScanYearOfField(w: string, t: string, rest: string, y: int)
    requires AllWhitespace(w) && IsYearField(t, y) && rest != [] && rest[0] == '-'
    ensures ScanYear(w + t + rest) == Some((y, rest))
  {
    TrimStartOfField(w, t, rest);
    ScanSignedYearOfField(t, rest, y);
    ScanYearOfTrimmed(w + t + rest, t + rest);
  }

  lemma {:induction false} ScanYearOfTrimmed(s: string, t: string)
    requires TrimStart(s) == t
    ensures ScanYear(s) == ScanSignedYear(t)
  {
  }

  lemma {:induction false} ScanSignedYearOfField(t: string, rest: string, y: int)
    requires IsYearField(t, y) && rest != [] && rest[0] == '-'
    ensures ScanSignedYear(t + rest) == Some((y, rest))
  {
    if 1 <= |t| <= 4 && AllDigits(t) {
      ScanUnsignedYear(t, rest);
    } else {
      ScanYearWithSign(t, rest);
    }
  }

  lemma {:induction false} ScanUnsignedYear(t: string, rest: string)
    requires 1 <= |t| <= 4 && AllDigits(t) && rest != [] && rest[0] == '-'
    ensures ScanSignedYear(t + rest) == Some((DigitsValue(t), rest))
  {
    assert (t + rest)[0] == t[0];
    ScanNumberOfDigits(t, rest, 4);
  }

  lemma {:induction false} ScanYearWithSign(t: string, rest: string)
    requires |t| >= 2 && (t[0] == '+' || t[0] == '-') && AllDigits(t[1..])
    requires rest != [] && rest[0] == '-'
    ensures ScanSignedYear(t + rest)
      == Some((if t[0] == '-' then -(DigitsValue(t[1..]) as int) else DigitsValue(t[1..]), rest))
  {
    var s := t + rest;
    var v := DigitsValue(t[1..]);
    ScanNumberOfDigits(t[1..], rest, |s|);
    AfterSign(t, rest);
    ScanSignedYearOfSign(s, v, rest);
  }

  lemma {:induction false} AfterSign(t: string, rest: string)
    requires t != []
    ensures (t + rest)[0] == t[0] && (t + rest)[1..] == t[1..] + rest
  {
  }

  lemma {:induction false} ScanSignedYearOfSign(t: string, v: nat, rest: string)
    requires t != [] && (t[0] == '-' || t[0] == '+') && ScanNumber(t[1..], |t|) == Some((v, rest))
    ensures ScanSignedYear(t) == Some((if t[0] == '-' then -(v as int) else v, rest))
  {
  }

  /**
   * Every text made of whitespace, a year field, '-', whitespace, a month field, '-', whitespace and
   * a day field parses to exactly `from_ymd_opt` of the three numbers it spells.
   */
  lemma {:induction false} ParseYmdOfText(p: YmdText, y: int, m: int, d: int)
    requires p.Spells(y, m, d)
    ensures ParseYmd(p.Text()) == FromYmdOpt(y, m, d)
  {
    var s2 := "-" + (p.gap2 + p.day);
    var s1 := "-" + (p.gap1 + p.month + s2);
    var s := p.Text();
    YmdTextSplit(p, s1, s2);
    ScanYearOfField(p.lead, p.year, s1, y);
    ScanTwoDigitFieldOfField(p.gap1, p.month, s2, m);
    ScanTwoDigitFieldOfField(p.gap2, p.day, [], d);
    ParseYmdOfScans(s, y, s1, m, s2, d);
  }

  lemma {:induction false} YmdTextSplit(p: YmdText, s1: string, s2: string)
    requires s2 == "-" + (p.gap2 + p.day) && s1 == "-" + (p.gap1 + p.month + s2)
    ensures p.Text() == p.lead + p.year + s1
    ensures s1[1..] == p.gap1 + p.month + s2 && s2[1..] == p.gap2 + p.day + []
  {
  }

  /** ParseYmd once each field has been scanned. */
  lemma {:induction false} ParseYmdOfScans(s: string, y: int, s1: string, m: nat, s2: string, d: nat)
    requires ScanYear(s) == Some((y, s1)) && s1 != [] && s1[0] == '-'
    requires ScanTwoDigitField(s1[1..]) == Some((m, s2)) && s2 != [] && s2[0] == '-'
    requires ScanTwoDigitField(s2[1..]) == Some((d, []))
    ensures ParseYmd(s) == FromYmdOpt(y, m, d)
  {
  }

  /**
   * Whatever year, month and day are written as `"%Y-%m-%d"` writes them, parsing with
   * `"%Y-%m-%d"` reads back those three numbers and keeps them only when they name a date.
   */
  lemma {:induction false} ParseYmdOfFields(y: int, m: nat, d: nat)
    requires m < 100 && d < 100
    ensures ParseYmd(YearText(y) + "-" + TwoDigits(m) + "-" + TwoDigits(d)) == FromYmdOpt(y, m, d)
  {
    var year, month, day := YearText(y), TwoDigits(m), TwoDigits(d);
    YearTextIsYearField(y);
    var p := YmdText("", year, "", month, "", day);
    assert p.Spells(y, m, d);
    NoWhitespaceText(p);
    ParseYmdOfText(p, y, m, d);
  }

  lemma {:induction false} NoWhitespaceText(p: YmdText)
    requires p.lead == p.gap1 == p.gap2 == ""
    ensures p.Text() == p.year + "-" + p.month + "-" + p.day
  {
    var hyphen: string := "-";
    assert "" + p.year == p.year;
    assert p.year + hyphen + "" == p.year + hyphen;
    assert p.year + hyphen + p.month + hyphen + "" == p.year + hyphen + p.month + hyphen;
  }

  /** What `%Y` writes is a year field `%Y` reads. */
  lemma {:induction false} YearTextIsYearField(y: int)
    ensures IsYearField(YearText(y), y)
  {
    YearFieldOfReadYearText(YearText(y), y);
  }

  /** Whatever reads back as a `%Y` year is a field `%Y` accepts. */
  lemma {:induction false} YearFieldOfReadYearText(s: string, y: int)
    requires ReadYearText(s) == Some(y)
    ensures IsYearField(s, y)
  {
  }

  /** A date written with `"%Y-%m-%d"` parses back with `"%Y-%m-%d"` to the same date. */
  lemma {:induction false} ParseYmdOfFormatYmd(d: NaiveDate)
    ensures ParseYmd(FormatYmd(d)) == Some(d)
  {
    ParseYmdOfFields(d.year, d.month, d.day);
  }

  /** Nothing `"%Y-%m-%d"` accepts is also an i64: the year is always followed by a '-'. */
  lemma {:induction false} ParseYmdExcludesI64(s: string)
    requires ParseYmd(s).Some?
    ensures ParseI64(s).None?
  {
    var rest := ScanYear(s).value.1;
    ParseI64RejectsNonDigit(s, |s| - |rest|);
  }
}
