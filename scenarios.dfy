/** Worked scenarios: concrete inputs and the values the model gives for them. */
module Scenarios {
  import opened Text
  import Account
  import DisplayName
  import UserCsv
  import Dates

  lemma LowerMario()
    ensures Lower("Mario") == "mario"
  {
    assert Lower("o") == "o";
    assert Lower("io") == "io";
    assert Lower("rio") == "rio";
    assert Lower("ario") == "ario";
  }

  lemma LowerRossi()
    ensures Lower("Rossi") == "rossi"
  {
    assert Lower("i") == "i";
    assert Lower("si") == "si";
    assert Lower("ssi") == "ssi";
    assert Lower("ossi") == "ossi";
  }

  /** "Mario Rossi": the full form fits. */
  lemma MarioRossi()
    ensures Account.SamAccountName("Mario", "Rossi", "", "", false) == "mario.rossi"
  {
    StripTrimmed("Mario");
    StripTrimmed("Rossi");
    StripTrimmed("");
    LowerMario();
    LowerRossi();
    assert Account.Normalize("Mario") == "mario";
    assert Account.Normalize("Rossi") == "rossi";
    assert Account.Normalize("") == "";
    assert Account.FullForm("mario", "", "rossi", "") == "mario.rossi";
    Account.SamAccountNameParts("Mario", "Rossi", "", "", false);
  }

  /** Four long name parts: the full form (42 characters) and the initials
      form (24) exceed 20, so the third candidate is used; at 14 characters
      it is shorter than the limit and the cut leaves it whole. */
  lemma LongStem()
    ensures Account.Stem("bartolomeo", "alessandro", "montecristo", "dellatorre", 20)
            == "ba.montecristo"
  {
    var n, sn, c, sc := "bartolomeo", "alessandro", "montecristo", "dellatorre";
    assert |Account.FullForm(n, sn, c, sc)| == 42;
    assert |Account.InitialsForm(n, sn, c, sc)| == 24;
    assert Account.FallbackForm(n, sn, c) == "ba.montecristo";
  }

  /** A capitalized name part, already stripped, normalizes to the part with
      its capital lowered and the rest kept. */
  lemma NormalCapitalized(s: string, p: string)
    requires Trimmed(s) && Lowered(p)
    requires |s| == |p| > 0 && s[1..] == p[1..]
    requires 'A' <= s[0] <= 'Z' && p[0] as int == s[0] as int + 32
    ensures Account.Normalize(s) == p
  {
    StripTrimmed(s);
    forall k | 0 <= k < |s| ensures Lower(s)[k] == p[k] {
      if k > 0 {
        assert s[k] == s[1..][k - 1] == p[1..][k - 1] == p[k];
      }
    }
  }

  lemma NormalBartolomeo() ensures Account.Normalize("Bartolomeo") == "bartolomeo" {
    NormalCapitalized("Bartolomeo", "bartolomeo");
  }

  lemma NormalAlessandro() ensures Account.Normalize("Alessandro") == "alessandro" {
    NormalCapitalized("Alessandro", "alessandro");
  }

  lemma NormalMontecristo() ensures Account.Normalize("Montecristo") == "montecristo" {
    NormalCapitalized("Montecristo", "montecristo");
  }

  lemma NormalDellatorre() ensures Account.Normalize("Dellatorre") == "dellatorre" {
    NormalCapitalized("Dellatorre", "dellatorre");
  }

  /** "Bartolomeo Alessandro Montecristo Dellatorre", as the form capitalizes
      the parts: lower-cased, then the third candidate. */
  lemma LongNames()
    ensures Account.SamAccountName("Bartolomeo", "Montecristo", "Alessandro", "Dellatorre", false)
            == "ba.montecristo"
  {
    NormalBartolomeo();
    NormalAlessandro();
    NormalMontecristo();
    NormalDellatorre();
    LongStem();
    Account.SamAccountNameParts("Bartolomeo", "Montecristo", "Alessandro", "Dellatorre", false);
  }

  /** Surname, then given names, with the empty second surname skipped. */
  lemma RossiMarioLuigiParts()
    ensures DisplayName.NonEmpty(["Rossi", "", "Mario", "Luigi"]) == ["Rossi", "Mario", "Luigi"]
  {
    assert DisplayName.NonEmpty(["Luigi"]) == ["Luigi"];
    assert DisplayName.NonEmpty(["Mario", "Luigi"]) == ["Mario", "Luigi"];
    assert DisplayName.NonEmpty(["", "Mario", "Luigi"]) == ["Mario", "Luigi"];
  }

  lemma RossiMarioLuigiJoin()
    ensures Join(" ", ["Rossi", "Mario", "Luigi"]) == "Rossi Mario Luigi"
  {
    assert Join(" ", ["Luigi"]) == "Luigi";
    assert Join(" ", ["Mario", "Luigi"]) == "Mario Luigi";
  }

  lemma RossiMarioLuigi()
    ensures DisplayName.BuildFullName("Rossi", "", "Mario", "Luigi", false) == "Rossi Mario Luigi"
  {
    RossiMarioLuigiParts();
    RossiMarioLuigiJoin();
    assert "Rossi Mario Luigi" + "" == "Rossi Mario Luigi";
  }

  lemma LowerAnna()
    ensures Lower("Anna") == "anna"
  {
    assert Lower("a") == "a";
    assert Lower("na") == "na";
    assert Lower("nna") == "nna";
  }

  lemma LowerVerdi()
    ensures Lower("Verdi") == "verdi"
  {
    assert Lower("i") == "i";
    assert Lower("di") == "di";
    assert Lower("rdi") == "rdi";
    assert Lower("erdi") == "erdi";
  }

  lemma AnnaVerdiIdentifier()
    ensures Account.SamAccountName("Anna", "Verdi", "", "", false) == "anna.verdi"
  {
    StripTrimmed("Anna");
    StripTrimmed("Verdi");
    StripTrimmed("");
    LowerAnna();
    LowerVerdi();
    assert Account.Normalize("Anna") == "anna";
    assert Account.Normalize("Verdi") == "verdi";
    assert Account.FullForm("anna", "", "verdi", "") == "anna.verdi";
    Account.SamAccountNameParts("Anna", "Verdi", "", "", false);
  }

  lemma AnnaVerdiName()
    ensures DisplayName.BuildFullName("Verdi", "", "Anna", "", false) == "Verdi Anna"
  {
    assert DisplayName.NonEmpty(["Anna", ""]) == ["Anna"];
    assert DisplayName.NonEmpty(["", "Anna", ""]) == ["Anna"];
    assert DisplayName.NonEmpty(["Verdi", "", "Anna", ""]) == ["Verdi", "Anna"];
    assert Join(" ", ["Anna"]) == "Anna";
    assert Join(" ", ["Verdi", "Anna"]) == "Verdi Anna";
  }

  lemma LeapDaySplit()
    ensures Split("28/02/2024", '/') == ["28", "02", "2024"]
  {
    var parts := ["28", "02", "2024"];
    assert Join(['/'], ["2024"]) == "2024";
    assert Join(['/'], ["02", "2024"]) == "02/2024";
    assert Join(['/'], parts) == "28/02/2024";
    SplitJoin(parts, '/');
  }

  lemma Read28() ensures ParseInt("28") == Some(28) {
    assert "28"[..1] == "2" && "2"[..0] == "";
    ParseIntDigits("28");
  }

  lemma Read02() ensures ParseInt("02") == Some(2) {
    assert "02"[..1] == "0" && "0"[..0] == "";
    ParseIntDigits("02");
  }

  lemma Read2024() ensures ParseInt("2024") == Some(2024) {
    assert "2024"[..3] == "202" && "202"[..2] == "20" && "20"[..1] == "2" && "2"[..0] == "";
    assert DecimalValue("20") == 20;
    assert DecimalValue("202") == 202;
    ParseIntDigits("2024");
  }

  lemma LeapDayParsed()
    ensures Dates.ParseDate("28/02/2024", '/') == Some(Dates.Date(2024, 2, 28))
  {
    LeapDaySplit();
    Read28();
    Read02();
    Read2024();
  }

  lemma LeapDayRendered()
    ensures Dates.Render(Dates.Date(2024, 2, 29)) == "02/29/2024 00:00"
  {
    assert Dates.Pad2(2) == "02" && Dates.Pad2(29) == "29";
    assert Dates.Pad4(2024) == "2024";
  }

  lemma LeapDayNext()
    ensures Dates.Valid(Dates.Date(2024, 2, 28))
    ensures Dates.NextDay(Dates.Date(2024, 2, 28)) == Dates.Date(2024, 2, 29)
  {
    assert Dates.IsLeapYear(2024);
  }

  /** The 28th of February of a leap year becomes the 29th, month first.
      The text comes in as a parameter fixed by the precondition, so that the
      verifier reasons in the steps above instead of evaluating FormatDate on
      the literal in one go. */
  lemma LeapDay(data: string)
    requires data == "28/02/2024"
    ensures Dates.FormatDate(data) == "02/29/2024 00:00"
  {
    var d := Dates.Date(2024, 2, 28);
    LeapDayParsed();
    assert Dates.ParseDate(data, '/') == Some(d);
    LeapDayNext();
    assert '/' in Dates.Separators && d != Dates.LastDate;
    Dates.FormatDateNextDay(data, '/', d);
    LeapDayRendered();
  }
}
