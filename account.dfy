/** The sAMAccountName generator: the account identifier derived from the
    four name parts, bounded by a length limit that depends on whether the
    person is external, with three candidates tried in order. */
module Account {
  import opened Text

  const ExternalSuffix := ".ext"

  /** Longest identifier allowed before the suffix. */
  function Limit(esterno: bool): nat {
    if esterno then 16 else 20
  }

  function Suffix(esterno: bool): string {
    if esterno then ExternalSuffix else ""
  }

  /** A name part as the identifier uses it: stripped and lower-cased. */
  function Normalize(part: string): (r: string)
    ensures Trimmed(r)
    ensures Lowered(r)
  {
    var t := Strip(part);
    StripShape(part);
    var r := Lower(t);
    assert r == [] || (!IsSpace(t[0]) && !IsSpace(t[|t| - 1]));
    assert forall ch :: !IsSpace(ch) ==> !IsSpace(LowerChar(ch));
    r
  }

  /** Normalizing a normalized part changes nothing. */
  lemma NormalizeIdempotent(part: string)
    ensures Normalize(Normalize(part)) == Normalize(part)
  {
    var n := Normalize(part);
    StripTrimmed(n);
    LowerLowered(n);
  }

  /** s[:1] */
  function Initial(s: string): (r: string)
    ensures |r| <= 1 && HasPrefix(s, r)
    ensures |r| == 1 <==> s != []
  {
    if s == [] then "" else s[..1]
  }

  /** s[:k] */
  function Truncate(s: string, k: nat): (r: string)
    ensures |r| == if |s| <= k then |s| else k
    ensures HasPrefix(s, r)
  {
    if |s| <= k then s else s[..k]
  }

  /** First candidate: both given names, a dot, both surnames. */
  function FullForm(n: string, sn: string, c: string, sc: string): string {
    n + sn + "." + c + sc
  }

  /** Second candidate: the initials of the given names, a dot, both surnames. */
  function InitialsForm(n: string, sn: string, c: string, sc: string): string {
    Initial(n) + Initial(sn) + "." + c + sc
  }

  /** Third candidate, before truncation: the initials, a dot, the first surname. */
  function FallbackForm(n: string, sn: string, c: string): string {
    Initial(n) + Initial(sn) + "." + c
  }

  /** The candidate chosen for already normalized parts: the first of the
      three that fits the limit, the last one cut to it. */
  function Stem(n: string, sn: string, c: string, sc: string, limit: nat): (r: string)
    requires limit > 2
    ensures |r| <= limit
    ensures '.' in r
  {
    var cand := FullForm(n, sn, c, sc);
    if |cand| <= limit then
      assert cand[|n + sn|] == '.';
      cand
    else
      var cand2 := InitialsForm(n, sn, c, sc);
      var dot := |Initial(n) + Initial(sn)|;
      if |cand2| <= limit then
        assert cand2[dot] == '.';
        cand2
      else
        var cut := Truncate(FallbackForm(n, sn, c), limit);
        assert cut[dot] == FallbackForm(n, sn, c)[dot] == '.';
        cut
  }

  /** genera_samaccountname: the stem of the stripped, lower-cased name parts
      followed by ".ext" when external. Whatever the names, the part before
      the suffix fits the limit and keeps the dot. */
  function SamAccountName(nome: string, cognome: string, secondoNome: string,
                          secondoCognome: string, esterno: bool): (r: string)
    ensures EndsWith(r, Suffix(esterno))
    ensures |r| - |Suffix(esterno)| <= Limit(esterno)
    ensures '.' in r[..|r| - |Suffix(esterno)|]
  {
    var stem := Stem(Normalize(nome), Normalize(secondoNome),
                     Normalize(cognome), Normalize(secondoCognome), Limit(esterno));
    assert (stem + Suffix(esterno))[..|stem|] == stem;
    stem + Suffix(esterno)
  }

  /** First-fit priority: the full form is chosen exactly when it fits; the
      initials form exactly when the full form does not fit and it does;
      otherwise the third candidate cut to the limit, which is a prefix of
      the initials form whose dot survives the cut. */
  lemma StemFirstFit(n: string, sn: string, c: string, sc: string, limit: nat)
    requires limit > 2
    ensures Stem(n, sn, c, sc, limit) == FullForm(n, sn, c, sc)
            <==> |FullForm(n, sn, c, sc)| <= limit
    ensures |FullForm(n, sn, c, sc)| > limit ==>
              (Stem(n, sn, c, sc, limit) == InitialsForm(n, sn, c, sc)
               <==> |InitialsForm(n, sn, c, sc)| <= limit)
  {
  }

  lemma StemFallback(n: string, sn: string, c: string, sc: string, limit: nat)
    requires limit > 2
    requires |FullForm(n, sn, c, sc)| > limit && |InitialsForm(n, sn, c, sc)| > limit
    ensures var stem, fallback := Stem(n, sn, c, sc, limit), FallbackForm(n, sn, c);
            && |stem| == (if |fallback| < limit then |fallback| else limit)
            && HasPrefix(fallback, stem)
            && HasPrefix(InitialsForm(n, sn, c, sc), stem)
            && stem[|Initial(n) + Initial(sn)|] == '.'
  {
    var stem, fallback := Stem(n, sn, c, sc, limit), FallbackForm(n, sn, c);
    var initials := InitialsForm(n, sn, c, sc);
    assert initials == fallback + sc;
    assert initials[..|fallback|] == fallback;
    assert stem == Truncate(fallback, limit);
  }

  /** The identifier is the chosen stem of the normalized parts followed by the suffix. */
  lemma SamAccountNameParts(nome: string, cognome: string, secondoNome: string,
                            secondoCognome: string, esterno: bool)
    ensures SamAccountName(nome, cognome, secondoNome, secondoCognome, esterno)
            == Stem(Normalize(nome), Normalize(secondoNome),
                    Normalize(cognome), Normalize(secondoCognome), Limit(esterno))
               + Suffix(esterno)
  {
  }

  /** The chosen stem of lower-case parts is lower case. */
  lemma StemLowered(n: string, sn: string, c: string, sc: string, limit: nat)
    requires limit > 2
    requires Lowered(n) && Lowered(sn) && Lowered(c) && Lowered(sc)
    ensures Lowered(Stem(n, sn, c, sc, limit))
  {
    var dot := ".";
    assert Lowered(dot);
    LoweredPrefix(n, |Initial(n)|);
    LoweredPrefix(sn, |Initial(sn)|);
    assert Initial(n) == n[..|Initial(n)|] && Initial(sn) == sn[..|Initial(sn)|];
    LoweredConcat(Initial(n), Initial(sn));
    LoweredConcat(Initial(n) + Initial(sn), dot);
    LoweredConcat(Initial(n) + Initial(sn) + dot, c);
    var fallback := FallbackForm(n, sn, c);
    LoweredConcat(fallback, sc);
    assert InitialsForm(n, sn, c, sc) == fallback + sc;
    LoweredConcat(n, sn);
    LoweredConcat(n + sn, dot);
    LoweredConcat(n + sn + dot, c);
    LoweredConcat(n + sn + dot + c, sc);
    assert FullForm(n, sn, c, sc) == n + sn + dot + c + sc;
    var stem := Stem(n, sn, c, sc, limit);
    if |FullForm(n, sn, c, sc)| > limit && |InitialsForm(n, sn, c, sc)| > limit {
      LoweredPrefix(fallback, |stem|);
      assert stem == fallback[..|stem|];
    }
  }

  /** The identifier is lower case: the name parts are lowered, and neither
      the dot nor the suffix is an upper-case letter. */
  lemma SamLowerCase(nome: string, cognome: string, secondoNome: string,
                     secondoCognome: string, esterno: bool)
    ensures Lowered(SamAccountName(nome, cognome, secondoNome, secondoCognome, esterno))
  {
    var stem := Stem(Normalize(nome), Normalize(secondoNome),
                     Normalize(cognome), Normalize(secondoCognome), Limit(esterno));
    StemLowered(Normalize(nome), Normalize(secondoNome),
                Normalize(cognome), Normalize(secondoCognome), Limit(esterno));
    assert Lowered(Suffix(esterno));
    LoweredConcat(stem, Suffix(esterno));
  }

  /** An internal identifier is not marked by its ending: a surname "ext"
      gives the internal identifier ".ext" when the given names are empty. */
  lemma InternalMayEndWithExt()
    ensures SamAccountName("", "ext", "", "", false) == ".ext"
  {
    StripTrimmed("");
    StripTrimmed("ext");
    LowerLowered("ext");
    assert Lower("") == "";
    assert Normalize("") == "" && Normalize("ext") == "ext";
    assert FullForm("", "", "ext", "") == ".ext";
    SamAccountNameParts("", "ext", "", "", false);
  }
}
