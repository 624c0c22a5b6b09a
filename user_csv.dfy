/** The user record of the "Genera CSV Interna" handler: 23 fields in the
    order of HEADER, some of them then wrapped in double quotes in place. */
module UserCsv {
  import opened Text
  import Account
  import DisplayName

  /** The column names, in order. */
  const Header: seq<string> := [
    "sAMAccountName", "Creation", "OU", "Name", "DisplayName", "cn", "GivenName", "Surname",
    "employeeNumber", "employeeID", "department", "Description", "passwordNeverExpired",
    "ExpireDate", "userprincipalname", "mail", "mobile", "RimozioneGruppo", "InserimentoGruppo",
    "disable", "moveToOU", "telephoneNumber", "company"
  ]

  /** The number of columns. It equals |Header| (HeaderColumns); the row and
      the record are sized by this literal so that their lengths are known to
      the verifier without unfolding the 23 names. */
  const Columns := 23

  const MailDomain := "@consip.it"
  const PcPlaceholder := "<PC>"
  const ItalianPrefix := "+39 "

  /** The form fields as the input widgets hand them over: names already
      stripped and capitalized, the mobile number without spaces, the other
      text fields stripped. numeroFisso is the resident's fixed number, "" for
      a person who is not resident. */
  datatype Form = Form(
    employeeId: string,
    cognome: string,
    secondoCognome: string,
    nome: string,
    secondoNome: string,
    codiceFiscale: string,
    department: string,
    numeroTelefono: string,
    description: string,
    resident: bool,
    numeroFisso: string)

  /** The values read from the configuration workbook: the OU the default
      label selects, the insertion groups of the internal process, the
      company and the default telephone number. */
  datatype Config = Config(
    ouValue: string,
    inserimentoGruppo: string,
    company: string,
    telephoneDefault: string)

  /** telephone_number: "+39 " and the fixed number for a resident who gave
      one, the configured default otherwise. */
  function TelephoneNumber(form: Form, cfg: Config): (r: string)
    ensures form.resident && form.numeroFisso != "" ==> r == ItalianPrefix + form.numeroFisso
    ensures !(form.resident && form.numeroFisso != "") ==> r == cfg.telephoneDefault
  {
    if form.resident && form.numeroFisso != "" then ItalianPrefix + form.numeroFisso
    else cfg.telephoneDefault
  }

  /** The mobile column: "+39 " and the number, or nothing when none was given. */
  function Mobile(numero: string): (r: string)
    ensures numero != "" ==> r == ItalianPrefix + numero
    ensures numero == "" ==> r == ""
  {
    if numero != "" then ItalianPrefix + numero else ""
  }

  /** description or "<PC>": an empty description becomes the placeholder. */
  function Description(description: string): (r: string)
    ensures description == "" ==> r == PcPlaceholder
    ensures description != "" ==> r == description
  {
    if description == "" then PcPlaceholder else description
  }

  /** f"{nome} {secondo_nome}".strip(): no white space at either end, and no
      longer than the two names with the space between them. */
  function GivenName(form: Form): (r: string)
    ensures Trimmed(r)
    ensures |r| <= |form.nome| + |form.secondoNome| + 1
  {
    Strip(form.nome + " " + form.secondoNome)
  }

  /** f"{cognome} {secondo_cognome}".strip(), in the same way. */
  function Surname(form: Form): (r: string)
    ensures Trimmed(r)
    ensures |r| <= |form.cognome| + |form.secondoCognome| + 1
  {
    Strip(form.cognome + " " + form.secondoCognome)
  }

  function Sam(form: Form): string {
    Account.SamAccountName(form.nome, form.cognome, form.secondoNome, form.secondoCognome, false)
  }

  function FullName(form: Form): string {
    DisplayName.BuildFullName(form.cognome, form.secondoCognome, form.nome, form.secondoNome, false)
  }

  /** The values the handler computes before it builds the row. */
  datatype RowValues = RowValues(
    sam: string, cn: string, name: string, given: string, surname: string,
    mobile: string, telephone: string)

  function Values(form: Form, cfg: Config): (v: RowValues)
    ensures |v.sam| <= 20 && '.' in v.sam
    ensures |v.name| <= |v.cn|
    ensures Trimmed(v.given) && Trimmed(v.surname)
  {
    SamShape(form);
    var cn := FullName(form);
    RowValues(Sam(form), cn, ReplaceAll(cn, DisplayName.ExternalMarker, ""),
              GivenName(form), Surname(form), Mobile(form.numeroTelefono),
              TelephoneNumber(form, cfg))
  }

  /** The value the handler puts in column i of the row, before quoting. */
  function Field(form: Form, cfg: Config, v: RowValues, i: nat): string {
    match i
    case 0 => v.sam                            // sAMAccountName
    case 1 => "SI"                             // Creation
    case 2 => cfg.ouValue                      // OU
    case 3 => v.name                           // Name
    case 4 => v.cn                             // DisplayName
    case 5 => v.cn                             // cn
    case 6 => v.given                          // GivenName
    case 7 => v.surname                        // Surname
    case 8 => form.codiceFiscale               // employeeNumber
    case 9 => form.employeeId                  // employeeID
    case 10 => form.department                 // department
    case 11 => Description(form.description)   // Description
    case 12 => "No"                            // passwordNeverExpired
    case 13 => ""                              // ExpireDate
    case 14 => v.sam + MailDomain              // userprincipalname
    case 15 => v.sam + MailDomain              // mail
    case 16 => v.mobile                        // mobile
    case 17 => ""                              // RimozioneGruppo
    case 18 => cfg.inserimentoGruppo           // InserimentoGruppo
    case 19 => ""                              // disable
    case 20 => ""                              // moveToOU
    case 21 => v.telephone                     // telephoneNumber
    case _ => cfg.company                      // company
  }

  /** The row before quoting, one field per column of Header. */
  function Row(form: Form, cfg: Config, v: RowValues): (r: seq<string>)
    ensures |r| == Columns
    ensures forall i :: 0 <= i < |r| ==> r[i] == Field(form, cfg, v, i)
  {
    seq(Columns, i requires 0 <= i < Columns => Field(form, cfg, v, i))
  }

  function Quote(s: string): string {
    "\"" + s + "\""
  }

  /** The columns the handler wraps in quotes: OU, Name, DisplayName, cn,
      mobile and telephoneNumber always, GivenName when there is a second
      name, Surname when there is a second surname. */
  predicate QuotedColumn(i: int, hasSecondName: bool, hasSecondSurname: bool) {
    || 2 <= i <= 5 || i == 16 || i == 21
    || (i == 6 && hasSecondName)
    || (i == 7 && hasSecondSurname)
  }

  /** The fields with the quoted columns wrapped. */
  function ApplyQuoting(fields: seq<string>, hasSecondName: bool, hasSecondSurname: bool)
    : (r: seq<string>)
    ensures |r| == |fields|
  {
    seq(|fields|, i requires 0 <= i < |fields| =>
      if QuotedColumn(i, hasSecondName, hasSecondSurname) then Quote(fields[i]) else fields[i])
  }

  /** The row built from the values, quoted. */
  function Record(form: Form, cfg: Config, v: RowValues): seq<string> {
    ApplyQuoting(Row(form, cfg, v), form.secondoNome != "", form.secondoCognome != "")
  }

  /** The record the handler writes after the header. */
  function UserRecord(form: Form, cfg: Config): (r: seq<string>)
    ensures |r| == |Header|
  {
    HeaderColumns();
    Record(form, cfg, Values(form, cfg))
  }

  /** The handler: compute the values, build the row, then quote it in place. */
  method AssembleUserRow(form: Form, cfg: Config) returns (record: seq<string>)
    ensures record == UserRecord(form, cfg)
  {
    var fields := Row(form, cfg, Values(form, cfg));
    record := QuoteRow(fields, form.secondoNome != "", form.secondoCognome != "");
  }

  /** The quoting loops over the row held in an array: columns 2 to 5, column
      6 for a second name, column 7 for a second surname, then columns 16 and 21. */
  method QuoteRow(fields: seq<string>, hasSecondName: bool, hasSecondSurname: bool)
    returns (record: seq<string>)
    requires |fields| == Columns
    ensures record == ApplyQuoting(fields, hasSecondName, hasSecondSurname)
  {
    var row := new string[|fields|](i requires 0 <= i < |fields| => fields[i]);
    for i := 2 to 6
      invariant forall k :: 0 <= k < row.Length ==>
                  row[k] == if 2 <= k < i then Quote(fields[k]) else fields[k]
    {
      row[i] := Quote(row[i]);
    }
    if hasSecondName {
      row[6] := Quote(row[6]);
    }
    if hasSecondSurname {
      row[7] := Quote(row[7]);
    }
    var late := [16, 21];
    for j := 0 to |late|
      invariant forall k :: 0 <= k < row.Length ==>
                  row[k] == if QuotedColumn(k, hasSecondName, hasSecondSurname)
                               && (k != 16 || j > 0) && (k != 21 || j > 1)
                            then Quote(fields[k]) else fields[k]
    {
      row[late[j]] := Quote(row[late[j]]);
    }
    record := row[..];
    assert forall k :: 0 <= k < |record| ==>
             record[k] == ApplyQuoting(fields, hasSecondName, hasSecondSurname)[k];
  }

  /** The header has 23 distinct names, and the columns the row fills by
      position carry the names that belong to them. */
  lemma HeaderColumns()
    ensures |Header| == Columns
    ensures forall i, j :: 0 <= i < j < |Header| ==> Header[i] != Header[j]
    ensures Header[0] == "sAMAccountName" && Header[11] == "Description"
    ensures Header[14] == "userprincipalname" && Header[15] == "mail"
    ensures Header[16] == "mobile" && Header[21] == "telephoneNumber"
  {
  }

  /** The quoted columns by name: OU, Name, DisplayName, cn, mobile and
      telephoneNumber always; GivenName exactly when there is a second name;
      Surname exactly when there is a second surname. */
  lemma QuotedColumnsByName(i: nat, hasSecondName: bool, hasSecondSurname: bool)
    requires i < |Header|
    ensures QuotedColumn(i, hasSecondName, hasSecondSurname) <==>
              || Header[i] in {"OU", "Name", "DisplayName", "cn", "mobile", "telephoneNumber"}
              || (Header[i] == "GivenName" && hasSecondName)
              || (Header[i] == "Surname" && hasSecondSurname)
  {
  }

  /** A quoted field starts and ends with '"'. */
  predicate IsQuoted(s: string) {
    |s| >= 2 && s[0] == '"' && s[|s| - 1] == '"'
  }

  function Unquote(s: string): string
    requires |s| >= 2
  {
    s[1..|s| - 1]
  }

  /** Quoting keeps every value: a quoted column holds its field between two
      quote characters, every other column holds its field untouched. */
  lemma QuotingKeepsValues(fields: seq<string>, hasSecondName: bool, hasSecondSurname: bool)
    ensures var r := ApplyQuoting(fields, hasSecondName, hasSecondSurname);
            forall i :: 0 <= i < |fields| ==>
              if QuotedColumn(i, hasSecondName, hasSecondSurname)
              then IsQuoted(r[i]) && Unquote(r[i]) == fields[i]
              else r[i] == fields[i]
  {
    var r := ApplyQuoting(fields, hasSecondName, hasSecondSurname);
    forall i | 0 <= i < |fields| && QuotedColumn(i, hasSecondName, hasSecondSurname)
      ensures IsQuoted(r[i]) && Unquote(r[i]) == fields[i]
    {
      assert r[i] == "\"" + fields[i] + "\"";
    }
  }

  /** The quoted value of column i, or the field unchanged. */
  lemma QuotedAt(fields: seq<string>, hasSecondName: bool, hasSecondSurname: bool, i: nat)
    requires i < |fields|
    ensures ApplyQuoting(fields, hasSecondName, hasSecondSurname)[i]
            == if QuotedColumn(i, hasSecondName, hasSecondSurname) then Quote(fields[i]) else fields[i]
  {
  }

  /** The identifier fits 20 characters and has a dot. */
  lemma SamShape(form: Form)
    ensures |Sam(form)| <= 20 && '.' in Sam(form)
  {
    var sam := Sam(form);
    assert sam[..|sam| - 0] == sam;
  }

  /** Column i of the record: its field, in quotes when the column is quoted. */
  lemma RecordAt(form: Form, cfg: Config, v: RowValues, i: nat)
    requires i < Columns
    ensures Record(form, cfg, v)[i]
            == if QuotedColumn(i, form.secondoNome != "", form.secondoCognome != "")
               then Quote(Field(form, cfg, v, i)) else Field(form, cfg, v, i)
  {
    QuotedAt(Row(form, cfg, v), form.secondoNome != "", form.secondoCognome != "", i);
  }

  /** The identifier is column 0, unquoted, and followed by the mail domain
      in userprincipalname and mail. */
  lemma IdentifierColumns(form: Form, cfg: Config, v: RowValues)
    ensures Record(form, cfg, v)[0] == v.sam
    ensures Record(form, cfg, v)[14] == v.sam + MailDomain
    ensures Record(form, cfg, v)[15] == v.sam + MailDomain
  {
    RecordAt(form, cfg, v, 0);
    assert Field(form, cfg, v, 0) == v.sam;
    RecordAt(form, cfg, v, 14);
    assert Field(form, cfg, v, 14) == v.sam + MailDomain;
    RecordAt(form, cfg, v, 15);
    assert Field(form, cfg, v, 15) == v.sam + MailDomain;
  }

  /** An empty description becomes the "<PC>" placeholder; any other is kept. */
  lemma DescriptionColumn(form: Form, cfg: Config, v: RowValues)
    ensures Record(form, cfg, v)[11] == Description(form.description)
  {
    RecordAt(form, cfg, v, 11);
    assert Field(form, cfg, v, 11) == Description(form.description);
  }

  /** OU, Name, DisplayName and cn hold their values in quotes. */
  lemma QuotedNameColumns(form: Form, cfg: Config, v: RowValues)
    ensures var r := Record(form, cfg, v);
            r[2] == Quote(cfg.ouValue) && r[3] == Quote(v.name)
    ensures var r := Record(form, cfg, v);
            r[4] == Quote(v.cn) && r[5] == Quote(v.cn)
  {
    RecordAt(form, cfg, v, 2);
    assert Field(form, cfg, v, 2) == cfg.ouValue;
    RecordAt(form, cfg, v, 3);
    assert Field(form, cfg, v, 3) == v.name;
    RecordAt(form, cfg, v, 4);
    assert Field(form, cfg, v, 4) == v.cn;
    RecordAt(form, cfg, v, 5);
    assert Field(form, cfg, v, 5) == v.cn;
  }

  /** mobile and telephoneNumber hold their values in quotes. */
  lemma QuotedNumberColumns(form: Form, cfg: Config, v: RowValues)
    ensures var r := Record(form, cfg, v);
            r[16] == Quote(v.mobile) && r[21] == Quote(v.telephone)
  {
    RecordAt(form, cfg, v, 16);
    assert Field(form, cfg, v, 16) == v.mobile;
    RecordAt(form, cfg, v, 21);
    assert Field(form, cfg, v, 21) == v.telephone;
  }

  /** The user's record has one field per column of Header. */
  lemma UserRecordLength(form: Form, cfg: Config)
    ensures |UserRecord(form, cfg)| == |Header|
  {
    HeaderColumns();
  }

  /** In the user's record: the identifier, and its mail address in
      userprincipalname and mail, unquoted. */
  lemma UserRecordIdentifier(form: Form, cfg: Config)
    ensures UserRecord(form, cfg)[0] == Sam(form)
    ensures UserRecord(form, cfg)[14] == Sam(form) + MailDomain
    ensures UserRecord(form, cfg)[15] == Sam(form) + MailDomain
  {
    IdentifierColumns(form, cfg, Values(form, cfg));
  }

  /** In the user's record: the description, or "<PC>" for an empty one. */
  lemma UserRecordDescription(form: Form, cfg: Config)
    ensures UserRecord(form, cfg)[11] == Description(form.description)
  {
    DescriptionColumn(form, cfg, Values(form, cfg));
  }

  /** In the user's record: the mobile and telephone numbers, in quotes. */
  lemma UserRecordNumbers(form: Form, cfg: Config)
    ensures UserRecord(form, cfg)[16] == Quote(Mobile(form.numeroTelefono))
    ensures UserRecord(form, cfg)[21] == Quote(TelephoneNumber(form, cfg))
  {
    QuotedNumberColumns(form, cfg, Values(form, cfg));
  }

  /** In the user's record: the display name in DisplayName and cn, in quotes. */
  lemma UserRecordNames(form: Form, cfg: Config)
    ensures UserRecord(form, cfg)[4] == Quote(FullName(form))
    ensures UserRecord(form, cfg)[5] == Quote(FullName(form))
  {
    QuotedNameColumns(form, cfg, Values(form, cfg));
  }

  /** With no parenthesis in the names, the Name column (the display name
      with " (esterno)" removed) equals the DisplayName column. */
  lemma NameEqualsDisplayName(form: Form, cfg: Config)
    requires '(' !in form.cognome && '(' !in form.secondoCognome
    requires '(' !in form.nome && '(' !in form.secondoNome
    ensures UserRecord(form, cfg)[3] == UserRecord(form, cfg)[4]
  {
    var v := Values(form, cfg);
    DisplayName.InternalNameUnmarked(form.cognome, form.secondoCognome, form.nome, form.secondoNome);
    assert v.name == v.cn;
    QuotedNameColumns(form, cfg, v);
  }

  /** With names free of surrounding white space, GivenName is the non-empty
      given names joined by a space, and Surname likewise for the surnames. */
  lemma GivenAndSurname(form: Form)
    requires Trimmed(form.nome) && Trimmed(form.secondoNome)
    requires Trimmed(form.cognome) && Trimmed(form.secondoCognome)
    ensures GivenName(form) == Join(" ", DisplayName.NonEmpty([form.nome, form.secondoNome]))
    ensures Surname(form) == Join(" ", DisplayName.NonEmpty([form.cognome, form.secondoCognome]))
  {
    StripPair(form.nome, form.secondoNome);
    StripPair(form.cognome, form.secondoCognome);
  }

  /** f"{a} {b}".strip() for stripped a and b. */
  lemma StripPair(a: string, b: string)
    requires Trimmed(a) && Trimmed(b)
    ensures Strip(a + " " + b) == Join(" ", DisplayName.NonEmpty([a, b]))
  {
    var s := a + " " + b;
    assert [a, b][1..] == [b] && [b][1..] == [];
    if a == "" && b == "" {
      assert s == " ";
      StripAllSpace(s);
    } else if a == "" {
      assert s == [' '] + b;
      assert TrimStart(s) == TrimStart(b) == b;
      assert TrimEnd(b) == b;
    } else if b == "" {
      assert s == a + [' '];
      assert TrimStart(s) == s;
      assert s[..|s| - 1] == a;
      assert TrimEnd(s) == TrimEnd(a) == a;
    } else {
      assert s[0] == a[0] && s[|s| - 1] == b[|b| - 1];
      StripTrimmed(s);
    }
  }
}
