/**
 * What `charger_domaines` does with each line of the source file, and what
 * it accumulates over all of them, as functions of the lines. The class in
 * module Analyseur runs the loop itself and is proved to compute these.
 */
module Chargement {
  import opened PyStr
  import opened Seqs

  /** The endings a domain must have, in the order the loader lists them. */
  const SUFFIXES: seq<string> := [".gouv.fr", ".fr", ".gouv.nc", ".nc", ".gouv.pf", ".pref.gouv.fr"]

  /** `any(domaine.endswith(tld) for tld in tld_valides)` */
  predicate HasValidSuffix(d: string) {
    EndsWithAny(d, SUFFIXES)
  }

  /** The six endings overlap: `.gouv.fr` and `.pref.gouv.fr` end in `.fr` and
      `.gouv.nc` ends in `.nc`, so only three of them decide anything. */
  lemma ValidSuffixThreeEndings(d: string)
    ensures HasValidSuffix(d) <==> EndsWith(d, ".fr") || EndsWith(d, ".nc") || EndsWith(d, ".gouv.pf")
  {
    EndsWithAnyIff(d, SUFFIXES);
    if EndsWith(d, ".gouv.fr") {
      EndsWithTransitive(d, ".gouv.fr", ".fr");
    }
    if EndsWith(d, ".pref.gouv.fr") {
      EndsWithTransitive(d, ".pref.gouv.fr", ".fr");
    }
    if EndsWith(d, ".gouv.nc") {
      EndsWithTransitive(d, ".gouv.nc", ".nc");
    }
    assert ".fr" in SUFFIXES && ".nc" in SUFFIXES && ".gouv.pf" in SUFFIXES;
  }

  /** `est_domaine_valide`: at least six characters and one of the endings. */
  function EstDomaineValide(d: string): (r: bool)
    ensures r <==> 6 <= |d| && (EndsWith(d, ".fr") || EndsWith(d, ".nc") || EndsWith(d, ".gouv.pf"))
  {
    ValidSuffixThreeEndings(d);
    if d == [] || |d| < 6 then false else HasValidSuffix(d)
  }

  /** What a domain kept by the loader looks like: lower-case, printable,
      free of whitespace and ending in one of the six endings. */
  predicate WellFormed(d: string) {
    HasValidSuffix(d) && forall c :: c in d ==> !IsUpper(c) && IsPrintable(c) && !IsSpace(c)
  }

  /** The candidate domain of a stripped, non-blank line: the text before the
      first tab when there is one, else the first word, stripped. It is never
      empty, so the emptiness test that follows in the loader always passes. */
  function Token(ligne: string): (r: string)
    requires ligne != [] && !IsSpace(ligne[0])
    ensures r != []
  {
    if '\t' in ligne then
      var before := BeforeFirst(ligne, '\t');
      assert before != [] && before[0] == ligne[0];
      Strip(before)
    else
      Strip(FirstWord(ligne))
  }

  /** Lower-case the token, remove `www.` and drop the characters that are
      not printable or are whitespace. */
  function Normalise(token: string): (d: string)
    ensures forall c :: c in d ==> !IsUpper(c) && IsPrintable(c) && !IsSpace(c)
  {
    KeepPrintableNonSpace(RemoveWww(LowerStr(token)))
  }

  /** The record kept for a rejected line: `f"Ligne {i}: {ligne[:50]}..."`. */
  function Entry(numero: nat, ligne: string): string {
    "Ligne " + NatToString(numero) + ": " + Take(ligne, 50) + "..."
  }

  /** What becomes of one line. */
  datatype Issue =
    | Blank                    // empty once stripped
    | Accepted(domaine: string)
    | Rejected(entry: string)  // recorded in domaines_manquants
    | Skipped                  // neither kept nor recorded: a comment

  /** The loop body of `charger_domaines` for the line numbered `numero`
      (from 1), as a value. This is the specification that the lemmas about
      the loader use; `TraiterLigne` below is the same body as statements,
      proved equal to it. */
  function Traiter(numero: nat, brute: string): Issue {
    var ligne := Strip(brute);
    if ligne == [] then Blank
    else
      var partie := Token(ligne);
      if partie == [] then Skipped
      else
        var domaine := Normalise(partie);
        if HasValidSuffix(domaine) then Accepted(domaine)
        else if ligne != [] && !StartsWith(ligne, "#") && !IsAllSpace(ligne) then Rejected(Entry(numero, ligne))
        else Skipped
  }

  /** The loop body of `charger_domaines` as the loader runs it, one test
      after the other, for the line numbered `numero`. The test on the
      token's emptiness is not repeated here: `Token` is never empty. */
  method TraiterLigne(numero: nat, brute: string) returns (issue: Issue)
    ensures issue == Traiter(numero, brute)
  {
    var ligne := Strip(brute);
    if ligne == [] {
      return Blank;
    }
    var partie := Token(ligne);
    var domaine := LowerStr(partie);
    domaine := RemoveWww(domaine);
    domaine := KeepPrintableNonSpace(domaine);
    if HasValidSuffix(domaine) {
      issue := Accepted(domaine);
    } else if ligne != [] && !StartsWith(ligne, "#") && !IsAllSpace(ligne) {
      issue := Rejected(Entry(numero, ligne));
    } else {
      issue := Skipped;
    }
  }

  /** `l.strip()` is not empty. */
  predicate NonBlank(l: string) {
    Strip(l) != []
  }

  /** What happens to a line, stated without the loop's order of tests: a
      blank line is passed over, a line whose normalised token has a valid
      ending is accepted, any other line is recorded with its number and
      its first fifty characters unless it starts with `#`. */
  lemma TraiterCases(numero: nat, brute: string)
    ensures Traiter(numero, brute) == Blank <==> !NonBlank(brute)
    ensures NonBlank(brute) ==>
      var ligne := Strip(brute);
      var domaine := Normalise(Token(ligne));
      && (Traiter(numero, brute).Accepted? <==> HasValidSuffix(domaine))
      && (Traiter(numero, brute).Accepted? ==> Traiter(numero, brute).domaine == domaine)
      && (Traiter(numero, brute).Rejected? <==> !HasValidSuffix(domaine) && ligne[0] != '#')
      && (Traiter(numero, brute).Rejected? ==> Traiter(numero, brute).entry == Entry(numero, ligne))
  {
    var ligne := Strip(brute);
    if ligne != [] {
      var domaine := Normalise(Token(ligne));
      assert !IsAllSpace(ligne);
      StartsWithChar(ligne, '#');
      if HasValidSuffix(domaine) {
        assert Traiter(numero, brute) == Accepted(domaine);
      } else if ligne[0] != '#' {
        assert Traiter(numero, brute) == Rejected(Entry(numero, ligne));
      } else {
        assert Traiter(numero, brute) == Skipped;
      }
    }
  }

  /** `len([l for l in lignes if l.strip()])` */
  function NombreLignesBrutes(lignes: seq<string>): nat {
    CountWhere(lignes, NonBlank)
  }

  /** What becomes of each line, in file order. */
  function Issues(lignes: seq<string>): (r: seq<Issue>)
    ensures |r| == |lignes|
  {
    if lignes == [] then []
    else Issues(lignes[..|lignes| - 1]) + [Traiter(|lignes|, lignes[|lignes| - 1])]
  }

  /** The outcome at position i is that of line number i + 1. */
  lemma {:induction false} IssuesAt(lignes: seq<string>, i: nat)
    requires i < |lignes|
    ensures Issues(lignes)[i] == Traiter(i + 1, lignes[i])
  {
    if i < |lignes| - 1 {
      IssuesAt(lignes[..|lignes| - 1], i);
    }
  }

  lemma AllIssuesAt(lignes: seq<string>)
    ensures forall i :: 0 <= i < |lignes| ==> Issues(lignes)[i] == Traiter(i + 1, lignes[i])
  {
    forall i | 0 <= i < |lignes|
      ensures Issues(lignes)[i] == Traiter(i + 1, lignes[i])
    {
      IssuesAt(lignes, i);
    }
  }

  predicate NotBlank(o: Issue) {
    !o.Blank?
  }

  /** The domains accepted along a run of outcomes. */
  function Kept(os: seq<Issue>): set<string> {
    if os == [] then {}
    else Kept(os[..|os| - 1]) + if os[|os| - 1].Accepted? then {os[|os| - 1].domaine} else {}
  }

  /** The entries recorded along a run of outcomes. */
  function Recorded(os: seq<Issue>): seq<string> {
    if os == [] then []
    else Recorded(os[..|os| - 1]) + if os[|os| - 1].Rejected? then [os[|os| - 1].entry] else []
  }

  /** The set `ensemble_domaines` holds after the loop over `lignes`. */
  function Acceptes(lignes: seq<string>): set<string> {
    Kept(Issues(lignes))
  }

  /** The entries appended to `domaines_manquants` by the loop over `lignes`. */
  function Rejets(lignes: seq<string>): seq<string> {
    Recorded(Issues(lignes))
  }

  lemma {:induction false} KeptIff(os: seq<Issue>, d: string)
    ensures d in Kept(os) <==> exists i :: 0 <= i < |os| && os[i] == Accepted(d)
  {
    if os != [] {
      var n := |os|;
      KeptIff(os[..n - 1], d);
      assert forall i :: 0 <= i < n - 1 ==> os[..n - 1][i] == os[i];
    }
  }

  lemma {:induction false} RecordedInOrder(os: seq<Issue>) returns (idx: seq<nat>)
    ensures |idx| == |Recorded(os)|
    ensures forall k :: 0 <= k < |idx| ==> idx[k] < |os| && os[idx[k]] == Rejected(Recorded(os)[k])
    ensures forall k, m :: 0 <= k < m < |idx| ==> idx[k] < idx[m]
    ensures forall i :: 0 <= i < |os| && os[i].Rejected? ==> i in idx
  {
    if os == [] {
      idx := [];
    } else {
      var n := |os|;
      var init := os[..n - 1];
      var before := RecordedInOrder(init);
      var rec := Recorded(init);
      assert forall i :: 0 <= i < n - 1 ==> init[i] == os[i];
      if os[n - 1].Rejected? {
        idx := before + [n - 1];
        assert Recorded(os) == rec + [os[n - 1].entry];
        forall k | 0 <= k < |idx|
          ensures idx[k] < |os| && os[idx[k]] == Rejected(Recorded(os)[k])
        {
          if k < |before| {
            assert Recorded(os)[k] == rec[k];
          }
        }
      } else {
        idx := before;
        assert Recorded(os) == rec;
      }
    }
  }

  lemma {:induction false} KeptRecordedBound(os: seq<Issue>)
    ensures |Kept(os)| + |Recorded(os)| <= CountWhere(os, NotBlank)
  {
    if os != [] {
      var n := |os|;
      KeptRecordedBound(os[..n - 1]);
      var before := Kept(os[..n - 1]);
      if os[n - 1].Accepted? {
        assert |before + {os[n - 1].domaine}| <= |before| + 1;
      }
    }
  }

  lemma {:induction false} NombreLignesBrutesIssues(lignes: seq<string>)
    ensures NombreLignesBrutes(lignes) == CountWhere(Issues(lignes), NotBlank)
  {
    if lignes != [] {
      var n := |lignes|;
      NombreLignesBrutesIssues(lignes[..n - 1]);
      assert Issues(lignes)[..n - 1] == Issues(lignes[..n - 1]);
      TraiterCases(n, lignes[n - 1]);
    }
  }

  /** A domain is kept exactly when some line yields it, and every kept
      domain is well formed. */
  lemma AcceptesIff(lignes: seq<string>, d: string)
    ensures d in Acceptes(lignes) <==> exists i :: 0 <= i < |lignes| && Traiter(i + 1, lignes[i]) == Accepted(d)
    ensures d in Acceptes(lignes) ==> WellFormed(d)
  {
    KeptIff(Issues(lignes), d);
    AllIssuesAt(lignes);
    if d in Acceptes(lignes) {
      var i :| 0 <= i < |lignes| && Issues(lignes)[i] == Accepted(d);
      TraiterWellFormed(i + 1, lignes[i]);
    }
  }

  /** A line that is accepted yields a well-formed domain. */
  lemma TraiterWellFormed(numero: nat, brute: string)
    requires Traiter(numero, brute).Accepted?
    ensures WellFormed(Traiter(numero, brute).domaine)
  {
    var ligne := Strip(brute);
    var domaine := Normalise(Token(ligne));
    assert Traiter(numero, brute) == Accepted(domaine);
  }

  /** The entries are those of the rejected lines, one each, in the order of
      the lines: `idx` gives the (0-based) line behind each entry. */
  lemma RejetsEnOrdre(lignes: seq<string>) returns (idx: seq<nat>)
    ensures |idx| == |Rejets(lignes)|
    ensures forall k :: 0 <= k < |idx| ==>
      idx[k] < |lignes| && Traiter(idx[k] + 1, lignes[idx[k]]) == Rejected(Rejets(lignes)[k])
    ensures forall k, m :: 0 <= k < m < |idx| ==> idx[k] < idx[m]
    ensures forall i :: 0 <= i < |lignes| && Traiter(i + 1, lignes[i]).Rejected? ==> i in idx
  {
    idx := RecordedInOrder(Issues(lignes));
    AllIssuesAt(lignes);
  }

  /** Every kept domain is well formed. */
  lemma AcceptesWellFormed(lignes: seq<string>)
    ensures forall d :: d in Acceptes(lignes) ==> WellFormed(d)
  {
    forall d | d in Acceptes(lignes)
      ensures WellFormed(d)
    {
      AcceptesIff(lignes, d);
    }
  }

  /** Each non-blank line yields at most one kept domain or one entry, so
      `nombre_manquant` is never negative. */
  lemma LoadCountsBound(lignes: seq<string>)
    ensures |Acceptes(lignes)| + |Rejets(lignes)| <= NombreLignesBrutes(lignes)
  {
    KeptRecordedBound(Issues(lignes));
    NombreLignesBrutesIssues(lignes);
  }

  /** A kept domain passes `est_domaine_valide` exactly when it has six or
      more characters. */
  lemma AcceptesValides(lignes: seq<string>, d: string)
    requires d in Acceptes(lignes)
    ensures EstDomaineValide(d) <==> 6 <= |d|
  {
    AcceptesIff(lignes, d);
    ValidSuffixThreeEndings(d);
  }

  /** One more outcome at the end adds its domain, or its entry, or nothing. */
  lemma OutcomeAppend(os: seq<Issue>, o: Issue)
    ensures Kept(os + [o]) == Kept(os) + if o.Accepted? then {o.domaine} else {}
    ensures Recorded(os + [o]) == Recorded(os) + if o.Rejected? then [o.entry] else []
  {
    assert (os + [o])[..|os|] == os;
  }

  /** The loop adds the outcome `o` of one more line: its domain when it
      is accepted, its entry when it is rejected. */
  lemma LoadStep(lignes: seq<string>, i: nat, o: Issue)
    requires i < |lignes| && o == Traiter(i + 1, lignes[i])
    ensures o.Accepted? ==> Acceptes(lignes[..i + 1]) == Acceptes(lignes[..i]) + {o.domaine}
    ensures !o.Accepted? ==> Acceptes(lignes[..i + 1]) == Acceptes(lignes[..i])
    ensures o.Rejected? ==> Rejets(lignes[..i + 1]) == Rejets(lignes[..i]) + [o.entry]
    ensures !o.Rejected? ==> Rejets(lignes[..i + 1]) == Rejets(lignes[..i])
  {
    assert lignes[..i + 1][..i] == lignes[..i];
    OutcomeAppend(Issues(lignes[..i]), o);
  }

  /** The loop of `charger_domaines` over the lines, numbered from 1: the
      set of accepted domains it builds, and `manquants` extended by the
      entries it records. */
  method Parcourir(lignes: seq<string>, manquants: seq<string>)
    returns (ensemble: set<string>, suite: seq<string>)
    ensures ensemble == Acceptes(lignes)
    ensures suite == manquants + Rejets(lignes)
  {
    ensemble, suite := {}, manquants;
    var i := 0;
    while i < |lignes|
      invariant 0 <= i <= |lignes|
      invariant ensemble == Acceptes(lignes[..i])
      invariant suite == manquants + Rejets(lignes[..i])
    {
      var issue := TraiterLigne(i + 1, lignes[i]);
      LoadStep(lignes, i, issue);
      if issue.Accepted? {
        ensemble := ensemble + {issue.domaine};
      } else if issue.Rejected? {
        AppendAssoc(manquants, Rejets(lignes[..i]), [issue.entry]);
        suite := suite + [issue.entry];
      }
      i := i + 1;
    }
    assert lignes[..i] == lignes;
  }
}
