/** build_full_name: the display name, surnames first, with a marker for
    external people. */
module DisplayName {
  import opened Text

  const ExternalMarker := " (esterno)"

  /** The parts that are not empty, in their order (the list comprehension's filter). */
  function NonEmpty(parts: seq<string>): (r: seq<string>)
    ensures |r| <= |parts|
    ensures forall k :: 0 <= k < |r| ==> r[k] != "" && r[k] in parts
    ensures forall p :: p in parts && p != "" ==> p in r
  {
    if parts == [] then []
    else if parts[0] == "" then NonEmpty(parts[1..])
    else [parts[0]] + NonEmpty(parts[1..])
  }

  /** The parts in display order: surname, second surname, name, second name. */
  function DisplayOrder(cognome: string, secondoCognome: string,
                        nome: string, secondoNome: string): seq<string>
  {
    [cognome, secondoCognome, nome, secondoNome]
  }

  /** The non-empty parts in display order joined by single spaces, followed by
      " (esterno)" for an external person. */
  function BuildFullName(cognome: string, secondoCognome: string, nome: string,
                         secondoNome: string, esterno: bool): (r: string)
    ensures esterno ==> EndsWith(r, ExternalMarker)
  {
    var full := Join(" ", NonEmpty(DisplayOrder(cognome, secondoCognome, nome, secondoNome)));
    var r := full + (if esterno then ExternalMarker else "");
    assert esterno ==> r[|r| - |ExternalMarker|..] == ExternalMarker;
    r
  }

  /** Removing the marker from the external name gives the internal name. */
  lemma ExternalStripsToInternal(cognome: string, secondoCognome: string,
                                 nome: string, secondoNome: string)
    ensures var ext := BuildFullName(cognome, secondoCognome, nome, secondoNome, true);
            ext[..|ext| - |ExternalMarker|]
              == BuildFullName(cognome, secondoCognome, nome, secondoNome, false)
  {
    var ext := BuildFullName(cognome, secondoCognome, nome, secondoNome, true);
    var internal := BuildFullName(cognome, secondoCognome, nome, secondoNome, false);
    assert ext == internal + ExternalMarker;
    assert ext[..|internal|] == internal;
  }

  /** When the parts hold no parenthesis the name ends with the marker exactly
      when the person is external. */
  lemma MarkerIffExternal(cognome: string, secondoCognome: string, nome: string,
                          secondoNome: string, esterno: bool)
    requires '(' !in cognome && '(' !in secondoCognome
    requires '(' !in nome && '(' !in secondoNome
    ensures var r := BuildFullName(cognome, secondoCognome, nome, secondoNome, esterno);
            EndsWith(r, ExternalMarker) <==> esterno
  {
    if !esterno {
      InternalNameAvoids(cognome, secondoCognome, nome, secondoNome, '(');
      assert ExternalMarker[1] == '(';
    }
  }

  /** Removing " (esterno)" from an internal name whose parts hold no
      parenthesis leaves it unchanged. */
  lemma InternalNameUnmarked(cognome: string, secondoCognome: string, nome: string,
                             secondoNome: string)
    requires '(' !in cognome && '(' !in secondoCognome
    requires '(' !in nome && '(' !in secondoNome
    ensures var cn := BuildFullName(cognome, secondoCognome, nome, secondoNome, false);
            ReplaceAll(cn, ExternalMarker, "") == cn
  {
    var cn := BuildFullName(cognome, secondoCognome, nome, secondoNome, false);
    InternalNameAvoids(cognome, secondoCognome, nome, secondoNome, '(');
    assert ExternalMarker[1] == '(';
    ContainsChar(cn, ExternalMarker, '(');
    ReplaceAbsent(cn, ExternalMarker, "");
  }

  /** A character other than a space that no part holds is not in the internal name. */
  lemma InternalNameAvoids(cognome: string, secondoCognome: string, nome: string,
                           secondoNome: string, ch: char)
    requires ch != ' '
    requires ch !in cognome && ch !in secondoCognome && ch !in nome && ch !in secondoNome
    ensures ch !in BuildFullName(cognome, secondoCognome, nome, secondoNome, false)
  {
    var parts := NonEmpty(DisplayOrder(cognome, secondoCognome, nome, secondoNome));
    JoinAvoids(" ", parts, ch);
    var r := BuildFullName(cognome, secondoCognome, nome, secondoNome, false);
    assert r == Join(" ", parts) + "";
  }

  /** The internal name splits on spaces back into the non-empty parts in
      display order, when the parts hold no space and one of them is given. */
  lemma FullNameWords(cognome: string, secondoCognome: string, nome: string,
                      secondoNome: string)
    requires ' ' !in cognome && ' ' !in secondoCognome
    requires ' ' !in nome && ' ' !in secondoNome
    requires cognome != "" || secondoCognome != "" || nome != "" || secondoNome != ""
    ensures Split(BuildFullName(cognome, secondoCognome, nome, secondoNome, false), ' ')
            == NonEmpty([cognome, secondoCognome, nome, secondoNome])
  {
    var order := DisplayOrder(cognome, secondoCognome, nome, secondoNome);
    var parts := NonEmpty(order);
    assert |parts| >= 1 by {
      if cognome != "" { assert cognome in order; }
      else if secondoCognome != "" { assert secondoCognome in order; }
      else if nome != "" { assert nome in order; }
      else { assert secondoNome in order; }
    }
    forall k | 0 <= k < |parts| ensures ' ' !in parts[k] {
      assert parts[k] in order;
    }
    assert " " == [' '];
    SplitJoin(parts, ' ');
    var full := Join(" ", parts);
    assert full + "" == full;
    assert BuildFullName(cognome, secondoCognome, nome, secondoNome, false) == full;
  }

  /** The filter keeps the parts in their order: the result splits at every
      non-empty part into the filtered parts before it and after it. */
  lemma {:induction false} NonEmptyKeepsOrder(parts: seq<string>, i: nat)
    requires i < |parts| && parts[i] != ""
    ensures NonEmpty(parts) == NonEmpty(parts[..i]) + [parts[i]] + NonEmpty(parts[i + 1..])
  {
    if i > 0 {
      NonEmptyKeepsOrder(parts[1..], i - 1);
      assert parts[1..][..i - 1] == parts[1..i];
      assert parts[1..][i..] == parts[i + 1..];
      assert parts[..i][1..] == parts[1..i];
    } else {
      assert parts[..0] == [];
    }
  }

  /** Without the hypothesis on parentheses the marker does not identify
      external people: a given name "(esterno)" gives an internal name that
      ends with it. */
  lemma InternalMayEndWithMarker()
    ensures var r := BuildFullName("Rossi", "", "(esterno)", "", false);
            r == "Rossi (esterno)" && EndsWith(r, ExternalMarker)
  {
    assert NonEmpty(["(esterno)", ""]) == ["(esterno)"];
    assert NonEmpty(["", "(esterno)", ""]) == ["(esterno)"];
    assert NonEmpty(DisplayOrder("Rossi", "", "(esterno)", "")) == ["Rossi", "(esterno)"];
    assert Join(" ", ["(esterno)"]) == "(esterno)";
    assert Join(" ", ["Rossi", "(esterno)"]) == "Rossi (esterno)";
    var r := "Rossi (esterno)";
    assert r[|r| - |ExternalMarker|..] == ExternalMarker;
  }
}
