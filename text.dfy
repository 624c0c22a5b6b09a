/** String primitives of Python's str and int that the provisioning code relies on:
    strip(), lower(), split(sep), sep.join(parts), replace(old, new) and int(text).
    Characters are Unicode scalar values, as Python's str counts them. */
module Text {

  datatype Option<T> = None | Some(value: T)

  /** The characters for which Python's str.isspace() holds. */
  predicate IsSpace(ch: char) {
    || ch == ' '
    || '\t' <= ch <= '\r'
    || '\U{1C}' <= ch <= '\U{1F}'
    || ch == '\U{85}' || ch == '\U{A0}' || ch == '\U{1680}'
    || '\U{2000}' <= ch <= '\U{200A}'
    || ch == '\U{2028}' || ch == '\U{2029}' || ch == '\U{202F}'
    || ch == '\U{205F}' || ch == '\U{3000}'
  }

  predicate AllSpace(s: string) {
    forall k :: 0 <= k < |s| ==> IsSpace(s[k])
  }

  /** No white space at either end: what strip() leaves. */
  predicate Trimmed(s: string) {
    s == [] || (!IsSpace(s[0]) && !IsSpace(s[|s| - 1]))
  }

  function TrimStart(s: string): string {
    if |s| > 0 && IsSpace(s[0]) then TrimStart(s[1..]) else s
  }

  function TrimEnd(s: string): string {
    if |s| > 0 && IsSpace(s[|s| - 1]) then TrimEnd(s[..|s| - 1]) else s
  }

  /** TrimStart drops the leading white space and nothing else. */
  lemma {:induction false} TrimStartShape(s: string)
    ensures var r := TrimStart(s);
            && |r| <= |s| && r == s[|s| - |r|..]
            && AllSpace(s[..|s| - |r|])
            && (r == [] || !IsSpace(r[0]))
  {
    if |s| > 0 && IsSpace(s[0]) {
      TrimStartShape(s[1..]);
      var r := TrimStart(s);
      assert s[..|s| - |r|] == [s[0]] + s[1..][..|s| - 1 - |r|];
    }
  }

  /** TrimEnd drops the trailing white space and nothing else. */
  lemma {:induction false} TrimEndShape(s: string)
    ensures var r := TrimEnd(s);
            && |r| <= |s| && r == s[..|r|]
            && AllSpace(s[|r|..])
            && (r == [] || !IsSpace(r[|r| - 1]))
  {
    if |s| > 0 && IsSpace(s[|s| - 1]) {
      TrimEndShape(s[..|s| - 1]);
      var r := TrimEnd(s);
      assert s[|r|..] == s[..|s| - 1][|r|..] + [s[|s| - 1]];
    }
  }

  /** str.strip(): never longer than s, and no white space left at either end. */
  function Strip(s: string): (r: string)
    ensures |r| <= |s|
    ensures Trimmed(r)
  {
    var t := TrimStart(s);
    TrimStartShape(s);
    TrimEndShape(t);
    var r := TrimEnd(t);
    assert r == t[..|r|];
    assert r != [] ==> r[0] == t[0];
    r
  }

  /** strip() returns the slice of s left once the white space at both ends is
      removed; the slice starts where TrimStart stops. */
  lemma StripShape(s: string)
    ensures var r, i := Strip(s), |s| - |TrimStart(s)|;
            && 0 <= i && Trimmed(r)
            && i + |r| <= |s| && r == s[i..i + |r|]
            && AllSpace(s[..i]) && AllSpace(s[i + |r|..])
  {
    StripSlice(s);
  }

  lemma StripSlice(s: string)
    ensures var r, i := Strip(s), |s| - |TrimStart(s)|;
            && 0 <= i && i + |r| <= |s| && r == s[i..i + |r|]
            && AllSpace(s[..i]) && AllSpace(s[i + |r|..])
  {
    var t := TrimStart(s);
    TrimStartShape(s);
    TrimEndShape(t);
    var r := TrimEnd(t);
    assert Strip(s) == r;
    var i := |s| - |t|;
    assert t == s[i..];
    assert r == t[..|r|];
    assert r == s[i..i + |r|];
    assert AllSpace(t[|r|..]);
    assert s[i + |r|..] == t[|r|..];
  }

  lemma StripTrimmed(s: string)
    requires Trimmed(s)
    ensures Strip(s) == s
  {
    assert TrimStart(s) == s;
  }

  lemma {:induction false} TrimStartAllSpace(s: string)
    requires AllSpace(s)
    ensures TrimStart(s) == []
  {
    if |s| > 0 {
      TrimStartAllSpace(s[1..]);
    }
  }

  lemma StripAllSpace(s: string)
    requires AllSpace(s)
    ensures Strip(s) == []
  {
    TrimStartAllSpace(s);
    assert TrimEnd([]) == [];
  }

  /** str.lower() on the characters whose lower-case form is one character of
      ASCII or Latin-1 (A-Z and U+00C0-U+00DE except U+00D7). */
  predicate IsUpper(ch: char) {
    'A' <= ch <= 'Z' || ('\U{C0}' <= ch <= '\U{DE}' && ch != '\U{D7}')
  }

  function LowerChar(ch: char): (r: char)
    ensures !IsUpper(r)
    ensures IsUpper(ch) ==> r as int == ch as int + 32
    ensures !IsUpper(ch) ==> r == ch
  {
    if IsUpper(ch) then (ch as int + 32) as char else ch
  }

  predicate Lowered(s: string) {
    forall k :: 0 <= k < |s| ==> !IsUpper(s[k])
  }

  lemma LoweredConcat(a: string, b: string)
    requires Lowered(a) && Lowered(b)
    ensures Lowered(a + b)
  {
    forall k | 0 <= k < |a + b| ensures !IsUpper((a + b)[k]) {
      if k < |a| { assert (a + b)[k] == a[k]; } else { assert (a + b)[k] == b[k - |a|]; }
    }
  }

  lemma LoweredPrefix(s: string, k: nat)
    requires Lowered(s) && k <= |s|
    ensures Lowered(s[..k])
  {
  }

  function Lower(s: string): (r: string)
    ensures |r| == |s|
    ensures forall k :: 0 <= k < |s| ==> r[k] == LowerChar(s[k])
  {
    if s == [] then [] else [LowerChar(s[0])] + Lower(s[1..])
  }

  /** Lower-casing leaves lower-case text as it is, so it is idempotent. */
  lemma LowerLowered(s: string)
    requires Lowered(s)
    ensures Lower(s) == s
  {
    assert forall k :: 0 <= k < |s| ==> Lower(s)[k] == s[k];
  }

  lemma LowerIdempotent(s: string)
    ensures Lowered(Lower(s))
    ensures Lower(Lower(s)) == Lower(s)
  {
    LowerLowered(Lower(s));
  }

  predicate HasPrefix(s: string, p: string) {
    |p| <= |s| && s[..|p|] == p
  }

  predicate EndsWith(s: string, suffix: string) {
    |suffix| <= |s| && s[|s| - |suffix|..] == suffix
  }

  /** `pat in s` for strings. */
  predicate Contains(s: string, pat: string)
    decreases |s|
  {
    HasPrefix(s, pat) || (|s| > 0 && Contains(s[1..], pat))
  }

  lemma {:induction false} ContainsChar(s: string, pat: string, ch: char)
    requires ch in pat && ch !in s
    ensures !Contains(s, pat)
    decreases |s|
  {
    if |s| > 0 {
      ContainsChar(s[1..], pat, ch);
    }
  }

  /** The total length of the parts. */
  function TotalLength(parts: seq<string>): nat {
    if parts == [] then 0 else |parts[0]| + TotalLength(parts[1..])
  }

  /** sep.join(parts): every part once, with one separator between neighbours. */
  function Join(sep: string, parts: seq<string>): (r: string)
    ensures |parts| > 0 ==> |r| == TotalLength(parts) + (|parts| - 1) * |sep|
    ensures |parts| > 0 ==> HasPrefix(r, parts[0])
  {
    if |parts| == 0 then ""
    else if |parts| == 1 then parts[0]
    else
      var r := parts[0] + sep + Join(sep, parts[1..]);
      assert r[..|parts[0]|] == parts[0];
      r
  }

  lemma {:induction false} JoinAvoids(sep: string, parts: seq<string>, ch: char)
    requires ch !in sep
    requires forall k :: 0 <= k < |parts| ==> ch !in parts[k]
    ensures ch !in Join(sep, parts)
  {
    if |parts| > 1 {
      JoinAvoids(sep, parts[1..], ch);
    }
  }

  /** Position of the first ch in s, or |s| when there is none. */
  function IndexOf(s: string, ch: char): (r: nat)
    ensures r <= |s|
    ensures r < |s| ==> s[r] == ch
    ensures forall k :: 0 <= k < r ==> s[k] != ch
  {
    if s == [] then 0
    else if s[0] == ch then 0
    else 1 + IndexOf(s[1..], ch)
  }

  /** s.split(sep) for a one-character separator: the pieces between
      separators, never an empty list, and joining them back gives s. */
  function Split(s: string, sep: char): (r: seq<string>)
    ensures |r| >= 1
    ensures forall k :: 0 <= k < |r| ==> sep !in r[k]
    ensures Join([sep], r) == s
    decreases |s|
  {
    var i := IndexOf(s, sep);
    if i == |s| then [s]
    else
      var rest := Split(s[i + 1..], sep);
      assert s == s[..i] + [sep] + s[i + 1..];
      [s[..i]] + rest
  }

  /** Splitting undoes joining when no part holds the separator. */
  lemma {:induction false} SplitJoin(parts: seq<string>, sep: char)
    requires |parts| >= 1
    requires forall k :: 0 <= k < |parts| ==> sep !in parts[k]
    ensures Split(Join([sep], parts), sep) == parts
  {
    var s := Join([sep], parts);
    if |parts| > 1 {
      var tail := Join([sep], parts[1..]);
      assert s == parts[0] + [sep] + tail;
      assert IndexOf(s, sep) == |parts[0]| by {
        assert s[|parts[0]|] == sep;
        forall k | 0 <= k < |parts[0]| ensures s[k] != sep {
          assert s[k] == parts[0][k];
        }
      }
      assert s[..|parts[0]|] == parts[0];
      assert s[|parts[0]| + 1..] == tail;
      SplitJoin(parts[1..], sep);
    } else {
      assert IndexOf(s, sep) == |s|;
    }
  }

  /** s.replace(pat, rep): every non-overlapping occurrence of pat, scanned
      from the left, is replaced by rep; an empty pat puts rep around every
      character. */
  function ReplaceAll(s: string, pat: string, rep: string): (r: string)
    ensures pat != [] && |rep| <= |pat| ==> |r| <= |s|
    decreases |s|
  {
    if pat == [] then
      if s == [] then rep else rep + [s[0]] + ReplaceAll(s[1..], pat, rep)
    else if HasPrefix(s, pat) then rep + ReplaceAll(s[|pat|..], pat, rep)
    else if s == [] then []
    else [s[0]] + ReplaceAll(s[1..], pat, rep)
  }

  /** replace() leaves a string without an occurrence of a non-empty pattern unchanged. */
  lemma {:induction false} ReplaceAbsent(s: string, pat: string, rep: string)
    requires pat != [] && !Contains(s, pat)
    ensures ReplaceAll(s, pat, rep) == s
    decreases |s|
  {
    if s != [] {
      ReplaceAbsent(s[1..], pat, rep);
      assert s == [s[0]] + s[1..];
    }
  }

  // ---------------------------------------------------------------
  // int(text) for base-10 text
  // ---------------------------------------------------------------

  predicate IsDigit(ch: char) {
    '0' <= ch <= '9'
  }

  function DigitValue(ch: char): nat
    requires IsDigit(ch)
  {
    ch as int - '0' as int
  }

  function DigitChar(n: nat): (ch: char)
    requires n < 10
    ensures IsDigit(ch) && DigitValue(ch) == n
  {
    ('0' as int + n) as char
  }

  predicate AllDigits(s: string) {
    forall k :: 0 <= k < |s| ==> IsDigit(s[k])
  }

  /** The number a string of decimal digits denotes, most significant first. */
  function DecimalValue(s: string): nat
    requires AllDigits(s)
  {
    if s == [] then 0 else 10 * DecimalValue(s[..|s| - 1]) + DigitValue(s[|s| - 1])
  }

  /** Digits with single underscores between them, as int() accepts:
      no leading, trailing or doubled underscore. */
  predicate DigitGroups(s: string) {
    && |s| > 0 && IsDigit(s[0]) && IsDigit(s[|s| - 1])
    && (forall k :: 0 <= k < |s| ==> IsDigit(s[k]) || s[k] == '_')
    && (forall k :: 0 <= k < |s| - 1 ==> !(s[k] == '_' && s[k + 1] == '_'))
  }

  function DropUnderscores(s: string): (r: string)
    requires forall k :: 0 <= k < |s| ==> IsDigit(s[k]) || s[k] == '_'
    ensures AllDigits(r)
  {
    if s == [] then []
    else if s[0] == '_' then DropUnderscores(s[1..])
    else [s[0]] + DropUnderscores(s[1..])
  }

  lemma {:induction false} DropUnderscoresOfDigits(s: string)
    requires AllDigits(s)
    ensures DropUnderscores(s) == s
  {
    if s != [] {
      DropUnderscoresOfDigits(s[1..]);
    }
  }

  /** Text made of numeral characters only. */
  predicate Numeral(s: string) {
    forall k :: 0 <= k < |s| ==> NumeralChar(s[k])
  }

  /** U+001C to U+001F: white space to str.isspace(), but not to int(). */
  predicate InfoSeparator(ch: char) {
    '\U{1C}' <= ch <= '\U{1F}'
  }

  predicate HasInfoSeparator(s: string) {
    exists k :: 0 <= k < |s| && InfoSeparator(s[k])
  }

  /** The characters int() can accept: the white space it skips, a sign, digits, underscores. */
  predicate NumeralChar(ch: char) {
    (IsSpace(ch) && !InfoSeparator(ch)) || IsDigit(ch) || ch == '_' || ch == '+' || ch == '-'
  }

  /** int(text) in base 10: surrounding white space is ignored, one optional
      sign, then digit groups; anything else is the ValueError (None).
      int() maps non-ASCII white space to spaces and then skips the ASCII
      white space other than U+001C to U+001F. Such a character is refused
      wherever it stands, as it is no numeral character either; in a text
      without one, int() skips exactly what strip() removes. A numeral of
      more than MaxStrDigits digits is refused too. Whatever int() accepts is
      made of numeral characters only. */
  function ParseInt(text: string): (r: Option<int>)
    ensures r.Some? ==> Numeral(text)
  {
    if HasInfoSeparator(text) then None
    else
      NumeralText(text);
      ParseSigned(Strip(text))
  }

  /** An optional sign followed by digit groups. */
  function ParseSigned(t: string): Option<int> {
    if |t| > 0 && (t[0] == '+' || t[0] == '-') then
      match ParseGroups(t[1..])
      case None => None
      case Some(v) => Some(if t[0] == '-' then -v else v)
    else ParseGroups(t)
  }

  /** The most digits int() converts in base 10: the default of
      sys.int_info.default_max_str_digits. Underscores and the sign are not
      counted, leading zeros are. */
  const MaxStrDigits := 4300

  function ParseGroups(b: string): Option<int> {
    if DigitGroups(b) && |DropUnderscores(b)| <= MaxStrDigits
    then Some(DecimalValue(DropUnderscores(b)))
    else None
  }

  /** The characters of a signed numeral are digits, underscores and one leading sign. */
  lemma ParseSignedChars(t: string)
    requires ParseSigned(t).Some?
    ensures forall k :: 0 <= k < |t| ==> NumeralChar(t[k])
  {
    if |t| > 0 && (t[0] == '+' || t[0] == '-') {
      var body := t[1..];
      assert DigitGroups(body);
      forall k | 1 <= k < |t| ensures NumeralChar(t[k]) {
        assert t[k] == body[k - 1];
      }
    } else {
      assert DigitGroups(t);
    }
  }

  /** A text without U+001C to U+001F whose stripped form is a signed numeral
      is made of numeral characters only. */
  lemma NumeralText(text: string)
    requires !HasInfoSeparator(text)
    ensures ParseSigned(Strip(text)).Some? ==> forall k :: 0 <= k < |text| ==> NumeralChar(text[k])
  {
    var t := Strip(text);
    assert forall j :: 0 <= j < |text| ==> !InfoSeparator(text[j]);
    if ParseSigned(t).Some? {
      ParseSignedChars(t);
      StripShape(text);
      var i := |text| - |TrimStart(text)|;
      assert i + |t| <= |text|;
      forall k | 0 <= k < |text| ensures NumeralChar(text[k]) {
        assert !InfoSeparator(text[k]);
        if k < i {
          assert text[k] == text[..i][k];
        } else if k < i + |t| {
          assert text[k] == t[k - i];
        } else {
          assert text[k] == text[i + |t|..][k - i - |t|];
        }
      }
    }
  }

  /** int() reads back a string of digits as the number they denote. */
  lemma ParseIntDigits(s: string)
    requires 0 < |s| <= MaxStrDigits && AllDigits(s)
    ensures ParseInt(s) == Some(DecimalValue(s))
  {
    assert Trimmed(s) by {
      assert IsDigit(s[0]) && IsDigit(s[|s| - 1]);
    }
    StripTrimmed(s);
    assert !(s[0] == '+' || s[0] == '-');
    assert DigitGroups(s);
    DropUnderscoresOfDigits(s);
  }

  /** int() refuses a string of more than MaxStrDigits digits, leading zeros included. */
  lemma ParseIntRefusesLong(s: string)
    requires |s| > MaxStrDigits && AllDigits(s)
    ensures ParseInt(s) == None
  {
    assert Trimmed(s) by {
      assert IsDigit(s[0]) && IsDigit(s[|s| - 1]);
    }
    StripTrimmed(s);
    assert !(s[0] == '+' || s[0] == '-');
    DropUnderscoresOfDigits(s);
  }
}
