/** formatta_data: a day-month-year date typed with '-' or '/' becomes the
    following calendar day written "MM/DD/YYYY 00:00"; any other text is
    returned as it was. Dates are those of Python's datetime: the proleptic
    Gregorian calendar, years 1 to 9999. */
module Dates {
  import opened Text

  datatype Date = Date(year: int, month: int, day: int)

  const MaxYear := 9999

  /** The latest date datetime can hold; the day after it overflows. */
  const LastDate := Date(MaxYear, 12, 31)

  /** The separators formatta_data tries, in order. */
  const Separators: seq<char> := ['-', '/']

  predicate IsLeapYear(y: int) {
    y % 4 == 0 && (y % 100 != 0 || y % 400 == 0)
  }

  function DaysInMonth(y: int, m: int): (n: int)
    requires 1 <= m <= 12
    ensures 28 <= n <= 31
  {
    if m == 2 then (if IsLeapYear(y) then 29 else 28)
    else if m == 4 || m == 6 || m == 9 || m == 11 then 30
    else 31
  }

  /** The arguments datetime(year, month, day) accepts without a ValueError. */
  predicate Valid(d: Date) {
    1 <= d.year <= MaxYear && 1 <= d.month <= 12 && 1 <= d.day <= DaysInMonth(d.year, d.month)
  }

  /** Calendar order. */
  predicate Before(a: Date, b: Date) {
    || a.year < b.year
    || (a.year == b.year && a.month < b.month)
    || (a.year == b.year && a.month == b.month && a.day < b.day)
  }

  /** Adding timedelta(days=1): the next day of the month, else the first of
      the next month, else the first of January of the next year. */
  function NextDay(d: Date): (r: Date)
    requires Valid(d)
    ensures d != LastDate ==> Valid(r)
  {
    if d.day < DaysInMonth(d.year, d.month) then Date(d.year, d.month, d.day + 1)
    else if d.month < 12 then Date(d.year, d.month + 1, 1)
    else Date(d.year + 1, 1, 1)
  }

  /** The next day is a date, it comes after d, and no date lies between them. */
  lemma NextDayIsSuccessor(d: Date)
    requires Valid(d) && d != LastDate
    ensures Valid(NextDay(d)) && Before(d, NextDay(d))
    ensures forall x :: Valid(x) && Before(d, x) ==> !Before(x, NextDay(d))
  {
  }

  /** %m and %d: two digits, zero padded. */
  function Pad2(n: int): (s: string)
    requires 0 <= n < 100
    ensures |s| == 2 && AllDigits(s)
  {
    [DigitChar(n / 10), DigitChar(n % 10)]
  }

  /** %Y: four digits, zero padded. */
  function Pad4(n: int): (s: string)
    requires 0 <= n < 10000
    ensures |s| == 4 && AllDigits(s)
  {
    [DigitChar(n / 1000), DigitChar(n / 100 % 10), DigitChar(n / 10 % 10), DigitChar(n % 10)]
  }

  /** strftime("%m/%d/%Y 00:00"): always 16 characters, "MM/DD/YYYY 00:00". */
  function Render(d: Date): (r: string)
    requires Valid(d)
    ensures OutputShape(r)
  {
    var r := Pad2(d.month) + "/" + Pad2(d.day) + "/" + Pad4(d.year) + " 00:00";
    assert r[10..] == " 00:00";
    r
  }

  lemma Pad2Value(n: int)
    requires 0 <= n < 100
    ensures DecimalValue(Pad2(n)) == n
  {
    var s := Pad2(n);
    assert s[..1][..0] == [];
    assert s[..|s| - 1] == s[..1] == [DigitChar(n / 10)];
    assert DecimalValue(s[..1]) == n / 10;
  }

  lemma Pad4Value(n: int)
    requires 0 <= n < 10000
    ensures DecimalValue(Pad4(n)) == n
  {
    var s := Pad4(n);
    assert s[..3][..2][..1][..0] == [];
    assert s[..3][..2][..1] == s[..1];
    assert s[..3][..2] == s[..2];
    assert DecimalValue(s[..1]) == n / 1000;
    assert DecimalValue(s[..2]) == 10 * (n / 1000) + n / 100 % 10 == n / 100;
    assert DecimalValue(s[..3]) == 10 * (n / 100) + n / 10 % 10 == n / 10;
  }

  /** The fixed shape of the output, "MM/DD/YYYY 00:00". */
  predicate OutputShape(r: string) {
    |r| == 16 && r[2] == '/' && r[5] == '/' && r[10..] == " 00:00"
  }

  /** The rendered text has the fixed shape MM/DD/YYYY 00:00, and int() reads
      month, day and year back from their positions. */
  lemma RenderReadsBack(d: Date)
    requires Valid(d)
    ensures var s := Render(d);
            && OutputShape(s)
            && ParseInt(s[0..2]) == Some(d.month)
            && ParseInt(s[3..5]) == Some(d.day)
            && ParseInt(s[6..10]) == Some(d.year)
  {
    var s := Render(d);
    RenderShape(d);
    var mm, dd, yyyy := Pad2(d.month), Pad2(d.day), Pad4(d.year);
    assert s == mm + "/" + dd + "/" + yyyy + " 00:00";
    assert s[0..2] == mm;
    assert s[3..5] == dd;
    assert s[6..10] == yyyy;
    Pad2Reads(d.month);
    Pad2Reads(d.day);
    Pad4Reads(d.year);
  }

  /** Every rendering has the output shape and a ':' at position 13. */
  lemma RenderShape(d: Date)
    requires Valid(d)
    ensures OutputShape(Render(d)) && Render(d)[13] == ':'
  {
    var s := Render(d);
    var mm, dd, yyyy := Pad2(d.month), Pad2(d.day), Pad4(d.year);
    assert s == mm + "/" + dd + "/" + yyyy + " 00:00";
    assert s[10..] == " 00:00";
  }

  lemma Pad2Reads(n: int)
    requires 0 <= n < 100
    ensures ParseInt(Pad2(n)) == Some(n)
  {
    Pad2Value(n);
    ParseIntDigits(Pad2(n));
  }

  lemma Pad4Reads(n: int)
    requires 0 <= n < 10000
    ensures ParseInt(Pad4(n)) == Some(n)
  {
    Pad4Value(n);
    ParseIntDigits(Pad4(n));
  }

  /** `g, m, a = map(int, data.split(sep))` followed by `datetime(a, m, g)`:
      exactly three pieces, each an integer, forming a valid date. */
  function ParseDate(data: string, sep: char): (r: Option<Date>)
    ensures r.Some? ==> Valid(r.value)
  {
    DateOfPieces(Split(data, sep))
  }

  /** A valid date written day, month, year with two-digit day and month and
      a four-digit year reads back as that date, with either separator. */
  lemma ParseDateReadsBack(d: Date, sep: char)
    requires Valid(d) && sep in Separators
    ensures ParseDate(Pad2(d.day) + [sep] + Pad2(d.month) + [sep] + Pad4(d.year), sep) == Some(d)
  {
    var parts := [Pad2(d.day), Pad2(d.month), Pad4(d.year)];
    var text := Pad2(d.day) + [sep] + Pad2(d.month) + [sep] + Pad4(d.year);
    assert Join([sep], [Pad4(d.year)]) == Pad4(d.year);
    assert parts[1..] == [Pad2(d.month), Pad4(d.year)] && parts[1..][1..] == [Pad4(d.year)];
    assert Join([sep], parts[1..]) == Pad2(d.month) + [sep] + Pad4(d.year);
    assert Join([sep], parts) == Pad2(d.day) + [sep] + (Pad2(d.month) + [sep] + Pad4(d.year));
    assert Join([sep], parts) == text;
    forall k | 0 <= k < |parts| ensures sep !in parts[k] {
      assert AllDigits(parts[k]);
    }
    SplitJoin(parts, sep);
    Pad2Reads(d.day);
    Pad2Reads(d.month);
    Pad4Reads(d.year);
  }

  /** Three pieces read as day, month and year, making a valid date. */
  function DateOfPieces(parts: seq<string>): (r: Option<Date>)
    ensures r.Some? ==> Valid(r.value)
  {
    if |parts| != 3 then None
    else
      var g, m, a := ParseInt(parts[0]), ParseInt(parts[1]), ParseInt(parts[2]);
      if g.None? || m.None? || a.None? then None
      else
        var d := Date(a.value, m.value, g.value);
        if Valid(d) then Some(d) else None
  }

  /** The body of the try block for one separator; None is the exception,
      including the OverflowError of the day after the last date. */
  function TryFormat(data: string, sep: char): Option<string> {
    match ParseDate(data, sep)
    case None => None
    case Some(d) => if d == LastDate then None else Some(Render(NextDay(d)))
  }

  /** The loop over the separators: the first that succeeds, else the input. */
  function FormatWith(data: string, seps: seq<char>): string {
    if seps == [] then data
    else match TryFormat(data, seps[0])
      case Some(s) => s
      case None => FormatWith(data, seps[1..])
  }

  lemma {:induction false} FormatWithShape(data: string, seps: seq<char>)
    ensures FormatWith(data, seps) == data || OutputShape(FormatWith(data, seps))
  {
    if seps != [] {
      match ParseDate(data, seps[0])
      case None =>
        FormatWithShape(data, seps[1..]);
      case Some(d) =>
        if d == LastDate {
          FormatWithShape(data, seps[1..]);
        } else {
          RenderShape(NextDay(d));
        }
    }
  }

  /** formatta_data: the input unchanged, or a date in the fixed output shape. */
  function FormatDate(data: string): (r: string)
    ensures r == data || OutputShape(r)
  {
    FormatWithShape(data, Separators);
    FormatWith(data, Separators)
  }

  /** A text that int() accepts pieces of holds no character int() refuses,
      other than the separator. */
  lemma ParsedTextAvoids(data: string, sep: char, ch: char)
    requires ParseDate(data, sep).Some?
    requires ch != sep && !NumeralChar(ch)
    ensures ch !in data
  {
    var parts := Split(data, sep);
    assert DateOfPieces(parts).Some?;
    forall i | 0 <= i < 3 ensures ch !in parts[i] {
      assert ParseInt(parts[i]).Some?;
    }
    JoinAvoids([sep], parts, ch);
  }

  lemma SplitAbsent(s: string, sep: char)
    requires sep !in s
    ensures Split(s, sep) == [s]
  {
  }

  /** At most one separator yields a date: a text that reads as a date with
      '-' holds no '/'. So trying '-' first never hides a '/' date. */
  lemma SeparatorsExclusive(data: string)
    ensures !(ParseDate(data, '-').Some? && ParseDate(data, '/').Some?)
  {
    if ParseDate(data, '-').Some? {
      ParsedTextAvoids(data, '-', '/');
      SplitAbsent(data, '/');
      assert |Split(data, '/')| == 1;
    }
  }

  /** The result when the first separator fails is that of the second. */
  lemma FormatDateSteps(data: string)
    ensures TryFormat(data, '-').Some? ==> FormatDate(data) == TryFormat(data, '-').value
    ensures TryFormat(data, '-').None? && TryFormat(data, '/').Some? ==>
              FormatDate(data) == TryFormat(data, '/').value
    ensures TryFormat(data, '-').None? && TryFormat(data, '/').None? ==> FormatDate(data) == data
  {
    assert Separators[0] == '-' && Separators[1..] == ['/'];
    assert ['/'][0] == '/' && ['/'][1..] == [];
    assert FormatWith(data, []) == data;
    var second := FormatWith(data, ['/']);
    assert second == if TryFormat(data, '/').Some? then TryFormat(data, '/').value else data;
    assert FormatDate(data)
           == if TryFormat(data, '-').Some? then TryFormat(data, '-').value else second;
  }

  /** Whichever separator the date is written with, the result is the next
      calendar day in the output shape, unless it is the last date. */
  lemma FormatDateNextDay(data: string, sep: char, d: Date)
    requires sep in Separators
    requires ParseDate(data, sep) == Some(d) && d != LastDate
    ensures FormatDate(data) == Render(NextDay(d))
  {
    SeparatorsExclusive(data);
    FormatDateSteps(data);
    assert TryFormat(data, sep) == Some(Render(NextDay(d)));
    if sep == '/' {
      assert ParseDate(data, '-').None?;
      assert TryFormat(data, '-').None?;
    }
  }

  /** The last date has no next day: the OverflowError leaves the input unchanged. */
  lemma FormatDateLastDate(data: string, sep: char)
    requires sep in Separators
    requires ParseDate(data, sep) == Some(LastDate)
    ensures FormatDate(data) == data
  {
    SeparatorsExclusive(data);
    FormatDateSteps(data);
    assert TryFormat(data, sep).None?;
    var other := if sep == '-' then '/' else '-';
    assert ParseDate(data, other).None?;
    assert TryFormat(data, other).None?;
  }

  /** The input comes back unchanged exactly when no separator yields a date
      that has a next day. */
  lemma FormatDateUnchanged(data: string)
    ensures FormatDate(data) == data
            <==> (TryFormat(data, '-').None? && TryFormat(data, '/').None?)
  {
    FormatDateSteps(data);
    if TryFormat(data, '-').Some? {
      NotRendered(data, '-');
    } else if TryFormat(data, '/').Some? {
      NotRendered(data, '/');
    }
  }

  /** A text holding one of U+001C to U+001F is returned unchanged: the piece
      that holds it is refused by int(), whichever the separator. */
  lemma FormatDateRefusesInfoSeparator(data: string, k: nat)
    requires k < |data| && InfoSeparator(data[k])
    ensures FormatDate(data) == data
  {
    var ch := data[k];
    if ParseDate(data, '-').Some? {
      ParsedTextAvoids(data, '-', ch);
      assert false;
    }
    if ParseDate(data, '/').Some? {
      ParsedTextAvoids(data, '/', ch);
      assert false;
    }
    FormatDateSteps(data);
  }

  /** A text that reads as a date holds no ':', so it differs from every rendering. */
  lemma NotRendered(data: string, sep: char)
    requires sep in Separators && TryFormat(data, sep).Some?
    ensures TryFormat(data, sep).value != data
  {
    var d := ParseDate(data, sep).value;
    assert d != LastDate && TryFormat(data, sep).value == Render(NextDay(d));
    ParsedNotRendered(data, sep, d);
  }

  lemma ParsedNotRendered(data: string, sep: char, d: Date)
    requires sep in Separators && ParseDate(data, sep) == Some(d) && d != LastDate
    ensures Render(NextDay(d)) != data
  {
    RenderShape(NextDay(d));
    ParsedTextAvoids(data, sep, ':');
  }
}
