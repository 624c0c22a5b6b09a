# New-resource account record, modelled in Dafny

`Processo_Nuova_Risorsa.py` is a small web form. Operators of an Active Directory
domain use it to register a new internal person. From the form fields it derives:

- the account identifier (`sAMAccountName`);
- the display name;
- the user-principal name and mail address;
- the mobile and telephone numbers.

It then writes one 23-column user record after a fixed header, with some columns
wrapped in double quotes. The file also defines a date helper, `formatta_data`,
which turns a date written `dd-mm-yyyy` or `dd/mm/yyyy` into the next calendar
day, in the form `mm/dd/yyyy 00:00`. The handler does not use it: the record's
ExpireDate column is always empty.

This project models that core and proves its properties:

- `text.dfy` (module `Text`): the Python string operations the core relies on.
  These are `strip`, `lower`, `split`, `str.join`, `replace` and base-10 `int()`,
  each defined on `seq<char>`.
- `account.dfy` (module `Account`): `genera_samaccountname`.
  - The four name parts are normalized.
  - The first of three candidates that fits the limit (20 internal, 16 external) is chosen.
  - Otherwise the third candidate is cut to the limit.
  - `.ext` is appended for an external person.
- `display_name.dfy` (module `DisplayName`): `build_full_name`. It takes the
  non-empty parts, surnames first, joins them by spaces, and appends
  ` (esterno)` for an external person.
- `dates.dfy` (module `Dates`): `formatta_data`.
  - A proleptic Gregorian `Date`, its successor and its `strftime` rendering.
  - The two separators tried in order.
  - Every failure, including the overflow past 31/12/9999, falls back to the input.
- `user_csv.dfy` (module `UserCsv`): the `HEADER`, the telephone-number choice,
  the row the "Genera CSV Interna" handler builds and the quoting loops.
  - The row is a function of the form and the configuration.
  - The in-place quoting is the method `QuoteRow`, which works on an array.
  - `QuoteRow` is proved to produce `ApplyQuoting`, the column-by-column
    definition of the quoted record.
  - The lemmas then say what each column of the user's record holds.
- `scenarios.dfy` (module `Scenarios`): concrete inputs worked through the model.

Inputs the program gets from its environment become parameters:

- The form fields are the datatype `Form`, holding the values after the input
  widgets' own `strip`/`capitalize`.
- The values read from the configuration workbook are the datatype `Config`.

Three behaviours of the code are worth noting:

- Quoting is by fixed column positions, whatever the value holds.
- The third identifier candidate is cut to `min(limit, length)` characters,
  so it can be shorter than the limit. For example, `ba.montecristo` has 14
  characters under a limit of 20 (`Scenarios.LongNames`).
- Name parts are only stripped and lower-cased. Accented letters and
  apostrophes are kept as they are.

## Model

| member | source | states |
|---|---|---|
| Text.Split | Processo_Nuova_Risorsa.py:63 | `str.split(sep)` gives at least one piece, no piece holds the separator, and joining the pieces with the separator gives the text back |
| Text.SplitJoin | Processo_Nuova_Risorsa.py:63 | splitting the join of separator-free parts gives back exactly those parts (the other direction of the round trip) |
| Text.Strip | Processo_Nuova_Risorsa.py:73-74 | `strip()` never lengthens its input and leaves no white space at either end |
| Text.StripShape | Processo_Nuova_Risorsa.py:73-74 | `strip()` returns a contiguous slice of its input, only white space is removed on either side, and the result has no white space at either end |
| Text.StripTrimmed | Processo_Nuova_Risorsa.py:73-74 | `strip()` leaves text without surrounding white space unchanged |
| Text.StripAllSpace | Processo_Nuova_Risorsa.py:181-182 | `strip()` of text that is all white space is empty |
| Text.Lower | Processo_Nuova_Risorsa.py:73-74 | `lower()` keeps the length and maps every character through the case mapping |
| Text.LowerIdempotent | Processo_Nuova_Risorsa.py:73-74 | the result of `lower()` has no upper-case letter, and lowering it again changes nothing |
| Text.LowerLowered | Processo_Nuova_Risorsa.py:73-74 | lower-case text is a fixed point of `lower()` |
| Text.ReplaceAbsent | Processo_Nuova_Risorsa.py:187 | `replace(pat, rep)` with a non-empty pattern that does not occur returns the text unchanged |
| Text.ParseIntDigits | Processo_Nuova_Risorsa.py:63 | `int()` of a non-empty string of at most 4300 decimal digits is its decimal value |
| Text.Join | Processo_Nuova_Risorsa.py:89 | `sep.join(parts)` of at least one part is as long as all the parts plus one separator between each two neighbours, and begins with the first part |
| Text.ReplaceAll | Processo_Nuova_Risorsa.py:187 | replacing a non-empty pattern by a text no longer than it never lengthens the text |
| Text.ParseInt | Processo_Nuova_Risorsa.py:63 | any text `int()` accepts is made only of signs, digits, underscores and the white space `int()` skips, which excludes U+001C to U+001F |
| Text.ParseIntRefusesLong | Processo_Nuova_Risorsa.py:63 | `int()` refuses a string of more than 4300 digits, leading zeros included |
| Account.Normalize | Processo_Nuova_Risorsa.py:73-74 | a normalized name part has no surrounding white space and no upper-case letter |
| Account.NormalizeIdempotent | Processo_Nuova_Risorsa.py:73-74 | normalizing a normalized part changes nothing |
| Account.Stem | Processo_Nuova_Risorsa.py:77-83 | the chosen candidate fits the limit and contains the dot |
| Account.SamAccountName | Processo_Nuova_Risorsa.py:70-83 | the identifier ends with `.ext` for an external person; the part before the suffix is at most 16 (external) or 20 (internal) characters long and contains the dot |
| Account.StemFirstFit | Processo_Nuova_Risorsa.py:77-82 | the full form is returned exactly when it fits; when it does not, the initials form is returned exactly when that fits |
| Account.StemFallback | Processo_Nuova_Risorsa.py:83 | when neither form fits, the result has `min(limit, length)` characters of the third candidate, is a prefix of it and of the initials form, and keeps the dot after the initials |
| Account.StemLowered | Processo_Nuova_Risorsa.py:77-83 | the candidate chosen from lower-case parts is lower case |
| Account.SamLowerCase | Processo_Nuova_Risorsa.py:70-83 | the identifier has no upper-case letter, whatever the input names |
| Account.InternalMayEndWithExt | Processo_Nuova_Risorsa.py:75-79 | an internal identifier can also end with `.ext` (surname "ext" alone gives `.ext`), so the suffix alone does not mark external people |
| DisplayName.NonEmpty | Processo_Nuova_Risorsa.py:88 | the filter keeps only non-empty parts, keeps every non-empty part, and adds nothing |
| DisplayName.NonEmptyKeepsOrder | Processo_Nuova_Risorsa.py:88 | the filter keeps the parts in their order: around any non-empty part, it keeps the filtered parts before it and the filtered parts after it |
| DisplayName.BuildFullName | Processo_Nuova_Risorsa.py:85-90 | the name of an external person ends with ` (esterno)` |
| DisplayName.ExternalStripsToInternal | Processo_Nuova_Risorsa.py:89-90 | dropping the marker from the external name gives the internal name of the same parts |
| DisplayName.MarkerIffExternal | Processo_Nuova_Risorsa.py:85-90 | for parts without a parenthesis, the name ends with ` (esterno)` if and only if the person is external |
| DisplayName.InternalMayEndWithMarker | Processo_Nuova_Risorsa.py:88-90 | without that hypothesis the equivalence fails: the internal `Rossi (esterno)` ends with the marker |
| DisplayName.InternalNameAvoids | Processo_Nuova_Risorsa.py:88-89 | a character other than a space that none of the parts holds is not in the internal name |
| DisplayName.InternalNameUnmarked | Processo_Nuova_Risorsa.py:187 | removing ` (esterno)` from an internal name whose parts hold no parenthesis leaves it unchanged |
| DisplayName.FullNameWords | Processo_Nuova_Risorsa.py:88-89 | the internal name of space-free parts, at least one of them non-empty, splits on spaces back into the non-empty parts in display order |
| Dates.DaysInMonth | Processo_Nuova_Risorsa.py:64 | a valid month has 28 to 31 days |
| Dates.NextDay | Processo_Nuova_Risorsa.py:64 | the day after a valid date other than 31/12/9999 is valid |
| Dates.NextDayIsSuccessor | Processo_Nuova_Risorsa.py:64 | the next day is valid and later, and no valid date lies strictly between a date and its next day |
| Dates.Render | Processo_Nuova_Risorsa.py:65 | every rendering has the 16-character shape `MM/DD/YYYY 00:00` |
| Dates.RenderReadsBack | Processo_Nuova_Risorsa.py:65 | the `%m/%d/%Y 00:00` rendering reads back as month, day and year of the date |
| Dates.RenderShape | Processo_Nuova_Risorsa.py:65 | the rendering has the fixed 16-character shape with `/` in positions 2 and 5 and `:` in position 13 |
| Dates.Pad2Reads | Processo_Nuova_Risorsa.py:65 | the two-digit field of a number below 100 parses back to it |
| Dates.Pad4Reads | Processo_Nuova_Risorsa.py:65 | the four-digit field of a year parses back to it |
| Dates.ParseDate | Processo_Nuova_Risorsa.py:63-64 | a text that reads as day, month and year with a separator always gives a valid calendar date |
| Dates.ParseDateReadsBack | Processo_Nuova_Risorsa.py:63-64 | a valid date written as two-digit day, two-digit month and four-digit year, with either separator, reads back as that date |
| Dates.FormatDate | Processo_Nuova_Risorsa.py:60-68 | the result is the input or a text of the output shape |
| Dates.SeparatorsExclusive | Processo_Nuova_Risorsa.py:61-63 | no text reads as a date with both `-` and `/`, so the order in which they are tried does not matter |
| Dates.FormatDateSteps | Processo_Nuova_Risorsa.py:61-68 | the result is the first separator's rendering that succeeds, otherwise the input |
| Dates.FormatDateNextDay | Processo_Nuova_Risorsa.py:61-65 | a date written with either separator becomes the rendering of the next day, unless it is the last date |
| Dates.FormatDateLastDate | Processo_Nuova_Risorsa.py:64-68 | 31/12/9999 overflows and comes back unchanged |
| Dates.FormatDateUnchanged | Processo_Nuova_Risorsa.py:60-68 | the input comes back unchanged if and only if neither separator gives a date with a next day |
| Dates.FormatDateRefusesInfoSeparator | Processo_Nuova_Risorsa.py:63-68 | a text holding one of U+001C to U+001F comes back unchanged, because `int()` refuses the piece that holds it |
| Dates.NotRendered | Processo_Nuova_Risorsa.py:63-65 | a date text never equals its own rendering, because it holds no `:` |
| UserCsv.TelephoneNumber | Processo_Nuova_Risorsa.py:119-120 | `+39 ` and the fixed number for a resident who gave one, the configured default otherwise |
| UserCsv.Mobile | Processo_Nuova_Risorsa.py:183 | `+39 ` and the number when one is given, empty otherwise |
| UserCsv.Description | Processo_Nuova_Risorsa.py:190 | an empty description becomes `<PC>`, any other is kept |
| UserCsv.GivenName | Processo_Nuova_Risorsa.py:181 | the given-name column has no white space at either end and is no longer than the two given names with a space between them |
| UserCsv.Surname | Processo_Nuova_Risorsa.py:182 | the surname column has no white space at either end and is no longer than the two surnames with a space between them |
| UserCsv.Values | Processo_Nuova_Risorsa.py:179-183 | the values the handler computes: an identifier of at most 20 characters with a dot, a Name no longer than cn, and given name and surname without surrounding white space |
| UserCsv.Row | Processo_Nuova_Risorsa.py:185-196 | the unquoted row has 23 fields, column i holding the value the handler puts in position i |
| UserCsv.ApplyQuoting | Processo_Nuova_Risorsa.py:197-200 | quoting keeps the number of fields |
| UserCsv.UserRecord | Processo_Nuova_Risorsa.py:185-200 | the record the handler writes has one field per header column |
| UserCsv.QuoteRow | Processo_Nuova_Risorsa.py:197-200 | the three quoting steps over the row in an array give exactly the column-by-column quoted record |
| UserCsv.AssembleUserRow | Processo_Nuova_Risorsa.py:179-200 | the handler's row, after the in-place quoting, is the user's record |
| UserCsv.HeaderColumns | Processo_Nuova_Risorsa.py:92-97 | the header has 23 distinct names, with sAMAccountName, Description, userprincipalname, mail, mobile and telephoneNumber at the positions the row fills |
| UserCsv.QuotedColumnsByName | Processo_Nuova_Risorsa.py:197-200 | a column is quoted exactly when it is OU, Name, DisplayName, cn, mobile or telephoneNumber, or GivenName with a second name, or Surname with a second surname |
| UserCsv.QuotingKeepsValues | Processo_Nuova_Risorsa.py:197-200 | every quoted column holds its field between two `"`, and every other column holds its field untouched |
| UserCsv.RecordAt | Processo_Nuova_Risorsa.py:185-200 | column i of the record is its field, in quotes exactly when the column is quoted |
| UserCsv.IdentifierColumns | Processo_Nuova_Risorsa.py:186-191 | the record has the identifier unquoted in column 0, and the identifier plus `@consip.it` in columns 14 and 15 |
| UserCsv.DescriptionColumn | Processo_Nuova_Risorsa.py:190 | column 11 holds the description or `<PC>` |
| UserCsv.QuotedNameColumns | Processo_Nuova_Risorsa.py:186-197 | columns 2 to 5 hold the OU, the name and the display name twice, each in quotes |
| UserCsv.QuotedNumberColumns | Processo_Nuova_Risorsa.py:192-200 | columns 16 and 21 hold the mobile and telephone numbers, in quotes |
| UserCsv.UserRecordLength | Processo_Nuova_Risorsa.py:185-196 | the user's record has one field per header column |
| UserCsv.SamShape | Processo_Nuova_Risorsa.py:179 | the internal identifier of the handler is at most 20 characters long and contains a dot |
| UserCsv.UserRecordIdentifier | Processo_Nuova_Risorsa.py:179-191 | in the user's record, column 0 is the internal identifier of the form's names, and columns 14 and 15 are its mail address |
| UserCsv.UserRecordDescription | Processo_Nuova_Risorsa.py:190 | in the user's record, column 11 is the form's description or `<PC>` |
| UserCsv.UserRecordNumbers | Processo_Nuova_Risorsa.py:183-200 | in the user's record, column 16 is the quoted mobile number and column 21 the quoted telephone number |
| UserCsv.UserRecordNames | Processo_Nuova_Risorsa.py:180-197 | in the user's record, DisplayName and cn are the quoted internal display name of the form's names |
| UserCsv.NameEqualsDisplayName | Processo_Nuova_Risorsa.py:187-188 | for names without a parenthesis, the Name column equals the DisplayName column |
| UserCsv.GivenAndSurname | Processo_Nuova_Risorsa.py:181-182 | for stripped names, GivenName is the non-empty given names joined by one space, and Surname likewise for the surnames |
| Scenarios.MarioRossi | Processo_Nuova_Risorsa.py:70-83 | Mario Rossi, internal, gets `mario.rossi` |
| Scenarios.LongStem | Processo_Nuova_Risorsa.py:77-83 | four long normalized parts under limit 20 give the cut third candidate `ba.montecristo` |
| Scenarios.LongNames | Processo_Nuova_Risorsa.py:70-83 | the capitalized given names Bartolomeo and Alessandro with the surnames Montecristo and Dellatorre, internal, are lower-cased and get `ba.montecristo` |
| Scenarios.RossiMarioLuigi | Processo_Nuova_Risorsa.py:85-90 | surname Rossi with names Mario and Luigi gives `Rossi Mario Luigi` |
| Scenarios.AnnaVerdiIdentifier | Processo_Nuova_Risorsa.py:70-83 | Anna Verdi, internal, gets `anna.verdi` |
| Scenarios.AnnaVerdiName | Processo_Nuova_Risorsa.py:85-90 | Anna Verdi's display name is `Verdi Anna` |
| Scenarios.LeapDay | Processo_Nuova_Risorsa.py:60-65 | `28/02/2024` becomes `02/29/2024 00:00` |

## Left out

- The web interface and the mail template are not modelled: the widgets, buttons, download button and the mail body around the record. They are input and output.
- Reading the configuration workbook is not modelled, because it is I/O. The values read from it are the parameter `Config`.
- The OU lookup by label is not modelled. The value it selects is `Config.ouValue`, and the error when the default label is missing is not modelled.
- Writing the record with the CSV writer is left out, because it is library code. That covers the delimiter, the escaping of the quotes added in place, and the line endings.
- The widgets' own `strip()`, `capitalize()` and removal of spaces in the mobile number are left out. `Form` receives their results.
- Text.LowerChar: case-maps Latin-1 letters only, not the full Unicode case mapping of Python's `lower()`.
- Text.ParseInt: accepts ASCII digits only, while Python's `int()` also accepts other Unicode decimal digits.
- Text.ParseInt: uses the default limit of 4300 digits; a limit changed through `PYTHONINTMAXSTRDIGITS` or `sys.set_int_max_str_digits`, and Python versions without the limit, are not modelled.
- Dates.Render: pads the year to four digits. Only years from 1000 on are as Python renders them on every platform.
- Dates.FormatDate: models the `OverflowError` past 31/12/9999 as the same fallback as every other failure. The bare `except` treats them alike.
- Account.SamAccountName: states the suffix as "external implies `.ext`" only, because the converse is false (`Account.InternalMayEndWithExt`).
- DisplayName.MarkerIffExternal: needs parts without a parenthesis, because a part may itself hold the marker (`DisplayName.InternalMayEndWithMarker`).
- DisplayName.FullNameWords: needs parts without spaces, because a part with a space splits into several words.
- UserCsv.NameEqualsDisplayName: needs names without a parenthesis, for the same reason as `MarkerIffExternal`.
- UserCsv.QuoteRow: copies the row into a fresh array and returns its contents. The handler's single list object, modified in place, is not modelled as shared state.
