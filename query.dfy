/** Building the search expression: a publication-date window that reaches
    back a number of years from the current year, spliced into the user's
    search term. The current year is a parameter (the script reads the clock).

    `ParseSearchTerm` is the inverse of `SearchTerm`: it recovers the term and
    both years, which shows that the expression carries exactly the window
    it was built from. */
module Query {
  import opened Wrappers

  /** Fixed query parameters of the initial search request. */
  const Database := "pubmed"
  const HistoryFlag := "y"
  const SearchRetMax := 1

  const StartOfYear := "/01/01"
  const EndOfYear := "/12/31"
  const DateField := "[Date - Publication])"
  const Conjunction := " AND ("

  predicate IsDigit(c: char) { '0' <= c <= '9' }

  predicate AllDigits(s: string) { forall i | 0 <= i < |s| :: IsDigit(s[i]) }

  function DigitChar(d: nat): (c: char)
    requires d < 10
    ensures IsDigit(c) && c as int - '0' as int == d
  {
    ('0' as int + d) as char
  }

  /** Decimal digits with no leading zero, as Python prints a natural number. */
  predicate Canonical(s: string) {
    |s| > 0 && AllDigits(s) && (|s| > 1 ==> s[0] != '0')
  }

  /** Decimal digits of `n`, most significant first, no leading zeros. */
  function NatToString(n: nat): (s: string)
    ensures Canonical(s)
    ensures n > 0 ==> s[0] != '0'
  {
    if n < 10 then [DigitChar(n)] else NatToString(n / 10) + [DigitChar(n % 10)]
  }

  /** Python's `str` of an integer, as used by the f-strings of the script. */
  function IntToString(n: int): (s: string)
    ensures forall i | 0 <= i < |s| :: IsDigit(s[i]) || s[i] == '-'
  {
    if n < 0 then "-" + NatToString(-n) else NatToString(n)
  }

  /** Value of a string of decimal digits. */
  function DigitsValue(s: string): nat
    requires AllDigits(s)
  {
    if s == [] then 0 else DigitsValue(s[..|s| - 1]) * 10 + (s[|s| - 1] as int - '0' as int)
  }

  /** Reads back an integer in exactly the spelling Python's `str` gives it:
      an optional minus sign, then digits without a leading zero ("-0" is
      refused). */
  function ParseInt(s: string): Option<int> {
    if |s| > 1 && s[0] == '-' && Canonical(s[1..]) && s[1..] != "0" then Some(-(DigitsValue(s[1..]) as int))
    else if Canonical(s) then Some(DigitsValue(s))
    else None
  }

  lemma {:induction false} LeadingDigitValue(s: string)
    requires |s| > 0 && AllDigits(s) && s[0] != '0'
    ensures DigitsValue(s) > 0
  {
    if |s| > 1 {
      LeadingDigitValue(s[..|s| - 1]);
    }
  }

  /** A canonical digit string is the rendering of its own value. */
  lemma {:induction false} CanonicalValue(s: string)
    requires Canonical(s)
    ensures NatToString(DigitsValue(s)) == s
  {
    if |s| > 1 {
      var p := s[..|s| - 1];
      LeadingDigitValue(p);
      CanonicalValue(p);
      assert s == p + [s[|s| - 1]];
    }
  }

  /** Only the rendering of an integer parses back: `ParseInt` accepts no
      other spelling (no leading zeros, no "-0"). */
  lemma ParseIntExact(s: string, n: int)
    requires ParseInt(s) == Some(n)
    ensures s == IntToString(n)
  {
    if |s| > 1 && s[0] == '-' && Canonical(s[1..]) && s[1..] != "0" {
      CanonicalValue(s[1..]);
      assert s == "-" + s[1..];
    } else {
      CanonicalValue(s);
    }
  }

  lemma {:induction false} NatToStringValue(n: nat)
    ensures DigitsValue(NatToString(n)) == n
  {
    if n >= 10 {
      var s := NatToString(n);
      assert s[..|s| - 1] == NatToString(n / 10);
      NatToStringValue(n / 10);
    }
  }

  /** Decimal rendering loses nothing: it can be read back exactly. */
  lemma IntToStringRoundTrip(n: int)
    ensures ParseInt(IntToString(n)) == Some(n)
  {
    var s := IntToString(n);
    if n < 0 {
      assert s[1..] == NatToString(-n);
      NatToStringValue(-n);
    } else {
      NatToStringValue(n);
    }
  }

  /** First year of the window: `current_year - years`. */
  function StartYear(currentYear: int, years: int): int {
    currentYear - years
  }

  /** `"{start_year}/01/01:{current_year}/12/31"` */
  function DateRange(currentYear: int, years: int): string {
    IntToString(StartYear(currentYear, years)) + StartOfYear + ":" + IntToString(currentYear) + EndOfYear
  }

  /** `"{term} AND ({date_range}[Date - Publication])"` */
  function SearchTerm(term: string, currentYear: int, years: int): string {
    term + Conjunction + DateRange(currentYear, years) + DateField
  }

  /** Index of the first `c` in `s`, if any. */
  function FirstIndex(s: string, c: char): (r: Option<nat>)
    ensures r.Some? ==> r.value < |s| && s[r.value] == c && c !in s[..r.value]
    ensures r.None? ==> c !in s
  {
    if s == [] then None
    else if s[0] == c then Some(0)
    else match FirstIndex(s[1..], c)
      case None => None
      case Some(i) => Some(i + 1)
  }

  /** Index of the last `c` in `s`, if any. */
  function LastIndex(s: string, c: char): (r: Option<nat>)
    ensures r.Some? ==> r.value < |s| && s[r.value] == c && c !in s[r.value + 1..]
    ensures r.None? ==> c !in s
  {
    if s == [] then None
    else if s[|s| - 1] == c then Some(|s| - 1)
    else LastIndex(s[..|s| - 1], c)
  }

  /** `s` ends with `suffix`; gives back what precedes it. */
  function StripSuffix(s: string, suffix: string): (r: Option<string>)
    ensures r.Some? ==> s == r.value + suffix
    ensures r.None? ==> forall p :: s != p + suffix
  {
    if |suffix| <= |s| && s[|s| - |suffix|..] == suffix then Some(s[..|s| - |suffix|])
    else None
  }

  /** Reads a window `"{a}/01/01:{b}/12/31"` back into the pair `(a, b)`. */
  function ParseDateRange(s: string): Option<(int, int)> {
    match FirstIndex(s, ':')
    case None => None
    case Some(i) =>
      match (StripSuffix(s[..i], StartOfYear), StripSuffix(s[i + 1..], EndOfYear))
      case (Some(a), Some(b)) =>
        (match (ParseInt(a), ParseInt(b))
         case (Some(x), Some(y)) => Some((x, y))
         case _ => None)
      case _ => None
  }

  /** Splits a search expression into the term and the two years of its window. */
  function ParseSearchTerm(s: string): Option<(string, int, int)> {
    match StripSuffix(s, DateField)
    case None => None
    case Some(body) =>
      match LastIndex(body, '(')
      case None => None
      case Some(j) =>
        match (StripSuffix(body[..j + 1], Conjunction), ParseDateRange(body[j + 1..]))
        case (Some(term), Some((a, b))) => Some((term, a, b))
        case _ => None
  }

  lemma NoColonInNumber(n: int)
    ensures ':' !in IntToString(n) && '(' !in IntToString(n)
  {
  }

  lemma StripAppended(s: string, suffix: string)
    ensures StripSuffix(s + suffix, suffix) == Some(s)
  {
    assert (s + suffix)[|s|..] == suffix;
    assert (s + suffix)[..|s|] == s;
  }

  lemma FirstIndexAfter(a: string, c: char, b: string)
    requires c !in a
    ensures FirstIndex(a + [c] + b, c) == Some(|a|)
  {
    var s := a + [c] + b;
    assert s[..|a|] == a;
    assert s[|a|] == c;
  }

  /** The window reads back as exactly `(current_year - years, current_year)`. */
  lemma DateRangeRoundTrip(currentYear: int, years: int)
    ensures ParseDateRange(DateRange(currentYear, years)) == Some((currentYear - years, currentYear))
  {
    var a := IntToString(currentYear - years);
    var b := IntToString(currentYear);
    var s := DateRange(currentYear, years);
    NoColonInNumber(currentYear - years);
    assert ':' !in a + StartOfYear;
    assert s == (a + StartOfYear) + [':'] + (b + EndOfYear);
    FirstIndexAfter(a + StartOfYear, ':', b + EndOfYear);
    var i := |a + StartOfYear|;
    assert s[..i] == a + StartOfYear;
    assert s[i + 1..] == b + EndOfYear;
    StripAppended(a, StartOfYear);
    StripAppended(b, EndOfYear);
    IntToStringRoundTrip(currentYear - years);
    IntToStringRoundTrip(currentYear);
  }

  /** Only a window built by `DateRange` parses: the parse fixes the string. */
  lemma ParseDateRangeExact(s: string, a: int, b: int)
    requires ParseDateRange(s) == Some((a, b))
    ensures s == DateRange(b, b - a)
  {
    var i := FirstIndex(s, ':').value;
    var x := StripSuffix(s[..i], StartOfYear).value;
    var y := StripSuffix(s[i + 1..], EndOfYear).value;
    ParseIntExact(x, a);
    ParseIntExact(y, b);
    assert s == s[..i] + [':'] + s[i + 1..];
  }

  /** The search expression reads back as the term and the window it was built
      from, whatever characters the term itself contains. */
  lemma SearchTermRoundTrip(term: string, currentYear: int, years: int)
    ensures ParseSearchTerm(SearchTerm(term, currentYear, years))
         == Some((term, currentYear - years, currentYear))
  {
    var range := DateRange(currentYear, years);
    var body := term + Conjunction + range;
    var s := SearchTerm(term, currentYear, years);
    assert s == body + DateField;
    StripAppended(body, DateField);
    NoColonInNumber(currentYear - years);
    NoColonInNumber(currentYear);
    var j := |term + Conjunction| - 1;
    assert body[j] == '(';
    assert body[j + 1..] == range;
    assert '(' !in range by {
      assert range == IntToString(currentYear - years) + StartOfYear + ":" + IntToString(currentYear) + EndOfYear;
    }
    assert LastIndex(body, '(') == Some(j);
    assert body[..j + 1] == term + Conjunction;
    StripAppended(term, Conjunction);
    DateRangeRoundTrip(currentYear, years);
  }

  /** Only a search expression built by `SearchTerm` parses: the parse fixes
      the string, so the expression and its three inputs determine each other. */
  lemma ParseSearchTermExact(s: string, term: string, startYear: int, currentYear: int)
    requires ParseSearchTerm(s) == Some((term, startYear, currentYear))
    ensures s == SearchTerm(term, currentYear, currentYear - startYear)
  {
    var body := StripSuffix(s, DateField).value;
    var j := LastIndex(body, '(').value;
    var window := body[j + 1..];
    ParseDateRangeExact(window, startYear, currentYear);
    assert body == body[..j + 1] + window;
  }

  /** Query parameters of the initial search (`esearch`). */
  datatype SearchRequest = SearchRequest(db: string, term: string, retmax: int, usehistory: string, email: string)

  /** The initial search asks for one result with history kept on the server,
      for the term restricted to the publication window. */
  function SearchRequestFor(term: string, email: string, years: int, currentYear: int): (r: SearchRequest)
    ensures r.term == SearchTerm(term, currentYear, years)
    ensures ParseSearchTerm(r.term) == Some((term, currentYear - years, currentYear))
    ensures r.db == Database && r.retmax == SearchRetMax && r.usehistory == HistoryFlag && r.email == email
  {
    SearchTermRoundTrip(term, currentYear, years);
    SearchRequest(Database, SearchTerm(term, currentYear, years), SearchRetMax, HistoryFlag, email)
  }

  /** For example, a five-year lookback from 2024 covers 2019 through 2024. */
  lemma ExampleDateRange()
    ensures DateRange(2024, 5) == "2019/01/01:2024/12/31"
  {
    assert IntToString(2019) == "2019" by {
      assert NatToString(2019) == NatToString(201) + "9";
      assert NatToString(201) == NatToString(20) + "1";
      assert NatToString(20) == NatToString(2) + "0";
    }
    assert IntToString(2024) == "2024" by {
      assert NatToString(2024) == NatToString(202) + "4";
      assert NatToString(202) == NatToString(20) + "2";
      assert NatToString(20) == NatToString(2) + "0";
    }
  }
}
