/**
 * The tests and tallies of `analyser`: keyword categories, the per-domain
 * counter a domain feeds, the independent per-category totals, the longest
 * and shortest domain and the critical domains that are missing.
 */
module Categorisation {
  import opened PyStr
  import opened Seqs

  const MOTS_CLES_MINISTERE: seq<string> :=
    ["agriculture", "culture", "defense", "education", "economie",
     "sante", "interieur", "justice", "travail", "environnement",
     "logement", "outre-mer", "fonction-publique", "sports", "budget"]

  const MOTS_CLES_REGION: seq<string> :=
    ["alsace", "aquitaine", "bretagne", "corse", "normandie",
     "provence", "lorraine", "bourgogne", "centre", "auvergne",
     "franche-comte", "languedoc", "limousin", "midi-pyrenees",
     "picardie", "poitou-charentes", "rhone-alpes", "paca",
     "reunion", "guadeloupe", "martinique", "guyane", "iledefrance"]

  const MOTS_CLES_SERVICE: seq<string> :=
    ["service-public", "impots", "douane", "legifrance", "data.gouv",
     "moncompteformation", "francetravail", "ants", "ameli", "pole-emploi"]

  /** The fifteen domains whose absence the analysis reports, in its order. */
  const DOMAINES_CRITIQUES: seq<string> :=
    ["economie.gouv.fr", "interieur.gouv.fr", "education.gouv.fr",
     "sante.gouv.fr", "defense.gouv.fr", "justice.gouv.fr",
     "travail.gouv.fr", "culture.gouv.fr", "agriculture.gouv.fr",
     "service-public.fr", "impots.gouv.fr", "francetravail.fr",
     "gouvernement.fr", "elysee.fr", "assemblee-nationale.fr"]

  datatype Categorie = Ministere | Region | Service | Prefecture | Environnement

  predicate EstMinistere(d: string) { ContainsAny(d, MOTS_CLES_MINISTERE) }
  predicate EstRegion(d: string) { ContainsAny(d, MOTS_CLES_REGION) }
  predicate EstService(d: string) { ContainsAny(d, MOTS_CLES_SERVICE) }
  predicate EstPrefecture(d: string) { Contains(d, ".pref.") }
  /** The environment category of the per-domain loop. */
  predicate EstEnvironnement(d: string) { Contains(d, "developpement-durable") || Contains(d, "ecologie.") }
  /** The test behind the `nombre_developpement` total: `ecologie.` plays no part. */
  predicate EstDeveloppement(d: string) { Contains(d, "developpement-durable") }

  /** The categories whose test passed, given the outcome of each test. */
  function Drapeaux(m: bool, r: bool, s: bool, p: bool, e: bool): set<Categorie> {
    (if m then {Ministere} else {}) + (if r then {Region} else {}) + (if s then {Service} else {})
    + (if p then {Prefecture} else {}) + (if e then {Environnement} else {})
  }

  /** The set `categories` the per-domain loop builds. */
  function Categories(d: string): set<Categorie> {
    Drapeaux(EstMinistere(d), EstRegion(d), EstService(d), EstPrefecture(d), EstEnvironnement(d))
  }

  /** The set `categories` the loop of `analyser` builds for one domain. */
  method CategoriesDe(domaine: string) returns (categories: set<Categorie>)
    ensures categories == Categories(domaine)
  {
    categories := AjouterCategories(EstMinistere(domaine), EstRegion(domaine), EstService(domaine),
      EstPrefecture(domaine), EstEnvironnement(domaine));
  }

  /** Starting from the empty set, one test after the other adds its category
      when it passed. */
  method AjouterCategories(m: bool, r: bool, sv: bool, pf: bool, e: bool) returns (categories: set<Categorie>)
    ensures categories == Drapeaux(m, r, sv, pf, e)
  {
    categories := {};
    if m {
      categories := categories + {Ministere};
    }
    ghost var partie := if m then {Ministere} else {};
    assert categories == partie;
    SansAjout(partie, Region, r);
    if r {
      categories := categories + {Region};
    }
    partie := partie + if r then {Region} else {};
    SansAjout(partie, Service, sv);
    if sv {
      categories := categories + {Service};
    }
    partie := partie + if sv then {Service} else {};
    SansAjout(partie, Prefecture, pf);
    if pf {
      categories := categories + {Prefecture};
    }
    partie := partie + if pf then {Prefecture} else {};
    SansAjout(partie, Environnement, e);
    if e {
      categories := categories + {Environnement};
    }
  }

  /** A test that fails leaves the set as it was. This lemma, `AddFlag`,
      `PrefectureHors` and `EnvironnementHors` are proof steps, stated on
      their own only to keep the proofs that call them small. */
  lemma SansAjout(cs: set<Categorie>, c: Categorie, b: bool)
    ensures !b ==> cs + (if b then {c} else {}) == cs
  {
    if !b {
      assert cs + {} == cs;
    }
  }

  /** How many of the five tests a domain passes. */
  function NombreDeTests(d: string): nat {
    (if EstMinistere(d) then 1 else 0) + (if EstRegion(d) then 1 else 0)
    + (if EstService(d) then 1 else 0) + (if EstPrefecture(d) then 1 else 0)
    + (if EstEnvironnement(d) then 1 else 0)
  }

  /** The set has one element per test passed, so `len(categories)` counts tests. */
  lemma CategoriesCount(d: string)
    ensures |Categories(d)| == NombreDeTests(d)
  {
    FlagsCount(EstMinistere(d), EstRegion(d), EstService(d), EstPrefecture(d), EstEnvironnement(d));
  }

  lemma FlagsCount(m: bool, r: bool, s: bool, p: bool, e: bool)
    ensures |Drapeaux(m, r, s, p, e)|
      == (if m then 1 else 0) + (if r then 1 else 0) + (if s then 1 else 0) + (if p then 1 else 0) + (if e then 1 else 0)
  {
    var s1: set<Categorie> := if m then {Ministere} else {};
    assert s1 <= {Ministere};
    AddFlag(s1, Region, r);
    var s2 := s1 + if r then {Region} else {};
    assert s2 <= {Ministere, Region};
    AddFlag(s2, Service, s);
    var s3 := s2 + if s then {Service} else {};
    assert s3 <= {Ministere, Region, Service};
    PrefectureHors(s3);
    AddFlag(s3, Prefecture, p);
    var s4 := s3 + if p then {Prefecture} else {};
    assert s4 <= {Ministere, Region, Service, Prefecture};
    EnvironnementHors(s4);
    AddFlag(s4, Environnement, e);
  }

  /** Adding a category the set does not hold, when its test passes, adds
      one (a proof step, see `SansAjout`). */
  lemma AddFlag(cs: set<Categorie>, c: Categorie, b: bool)
    requires c !in cs
    ensures |cs + (if b then {c} else {})| == |cs| + (if b then 1 else 0)
  {
    if !b {
      assert cs + {} == cs;
    }
  }

  /** The categories tested before the prefecture test do not include it
      (a proof step, see `SansAjout`). */
  lemma PrefectureHors(cs: set<Categorie>)
    requires cs <= {Ministere, Region, Service}
    ensures Prefecture !in cs
  {
  }

  /** The categories tested before the environment test do not include it
      (a proof step, see `SansAjout`). */
  lemma EnvironnementHors(cs: set<Categorie>)
    requires cs <= {Ministere, Region, Service, Prefecture}
    ensures Environnement !in cs
  {
  }

  /** The one element of a one-element set. */
  lemma SingletonCategorie(s: set<Categorie>, c: Categorie)
    requires |s| == 1 && c in s
    ensures s == {c}
  {
    assert |s - {c}| == 0;
  }

  /** Whether a domain passes the test of category `c`. */
  predicate Passe(d: string, c: Categorie) {
    match c
    case Ministere => EstMinistere(d)
    case Region => EstRegion(d)
    case Service => EstService(d)
    case Prefecture => EstPrefecture(d)
    case Environnement => EstEnvironnement(d)
  }

  /** A category is in the set exactly when its test passed. */
  lemma DansCategories(d: string, c: Categorie)
    ensures c in Categories(d) <==> Passe(d, c)
  {
    DansDrapeaux(EstMinistere(d), EstRegion(d), EstService(d), EstPrefecture(d), EstEnvironnement(d));
  }

  lemma DansDrapeaux(m: bool, r: bool, s: bool, p: bool, e: bool)
    ensures Ministere in Drapeaux(m, r, s, p, e) <==> m
    ensures Region in Drapeaux(m, r, s, p, e) <==> r
    ensures Service in Drapeaux(m, r, s, p, e) <==> s
    ensures Prefecture in Drapeaux(m, r, s, p, e) <==> p
    ensures Environnement in Drapeaux(m, r, s, p, e) <==> e
  {
  }

  // What each counter of the loop counts: a domain that passes test X and no
  // other, or one that passes two tests or more.
  predicate SeulementMinistere(d: string) { EstMinistere(d) && NombreDeTests(d) == 1 }
  predicate SeulementRegion(d: string) { EstRegion(d) && NombreDeTests(d) == 1 }
  predicate SeulementService(d: string) { EstService(d) && NombreDeTests(d) == 1 }
  predicate SeulementPrefecture(d: string) { EstPrefecture(d) && NombreDeTests(d) == 1 }
  predicate Chevauchement(d: string) { NombreDeTests(d) >= 2 }

  /** The set is `{c}` exactly when test `c` passes and no other does. */
  lemma Singleton(d: string, c: Categorie)
    ensures Categories(d) == {c} <==> Passe(d, c) && NombreDeTests(d) == 1
  {
    CategoriesCount(d);
    DansCategories(d, c);
    if Passe(d, c) && NombreDeTests(d) == 1 {
      SingletonCategorie(Categories(d), c);
    }
  }

  /** The counters are the tests the loop makes on the set: `len(categories)
      == 1` with its one element, or `len(categories) > 1`. */
  lemma CompteursEnsemble(d: string)
    ensures SeulementMinistere(d) <==> Categories(d) == {Ministere}
    ensures SeulementRegion(d) <==> Categories(d) == {Region}
    ensures SeulementService(d) <==> Categories(d) == {Service}
    ensures SeulementPrefecture(d) <==> Categories(d) == {Prefecture}
    ensures Chevauchement(d) <==> |Categories(d)| > 1
  {
    CategoriesCount(d);
    Singleton(d, Ministere);
    Singleton(d, Region);
    Singleton(d, Service);
    Singleton(d, Prefecture);
  }

  /** A domain feeds at most one counter, and one that passes the environment
      test alone feeds none. */
  lemma CompteurDeDomaine(d: string)
    ensures !EstMinistere(d) && !EstRegion(d) && !EstService(d) && !EstPrefecture(d) && EstEnvironnement(d) ==>
      !SeulementMinistere(d) && !SeulementRegion(d) && !SeulementService(d) && !SeulementPrefecture(d) && !Chevauchement(d)
    ensures (if SeulementMinistere(d) then 1 else 0) + (if SeulementRegion(d) then 1 else 0)
      + (if SeulementService(d) then 1 else 0) + (if SeulementPrefecture(d) then 1 else 0)
      + (if Chevauchement(d) then 1 else 0) <= 1
  {
  }

  /** `ministere_uniquement + region_uniquement + service_uniquement
      + prefecture_uniquement + nombre_chevauchement <= total_domaines`. */
  lemma {:induction false} CompteursBound(ds: seq<string>)
    ensures CountWhere(ds, SeulementMinistere) + CountWhere(ds, SeulementRegion)
      + CountWhere(ds, SeulementService) + CountWhere(ds, SeulementPrefecture)
      + CountWhere(ds, Chevauchement) <= |ds|
  {
    if ds != [] {
      CompteursBound(ds[..|ds| - 1]);
      CompteurDeDomaine(ds[|ds| - 1]);
    }
  }

  /** Each "only X" counter is at most the independent total for X, and the
      `developpement` total at most the environment category. */
  lemma CompteursSousTotaux(ds: seq<string>)
    ensures CountWhere(ds, SeulementMinistere) <= CountWhere(ds, EstMinistere)
    ensures CountWhere(ds, SeulementRegion) <= CountWhere(ds, EstRegion)
    ensures CountWhere(ds, SeulementService) <= CountWhere(ds, EstService)
    ensures CountWhere(ds, SeulementPrefecture) <= CountWhere(ds, EstPrefecture)
    ensures CountWhere(ds, EstDeveloppement) <= CountWhere(ds, EstEnvironnement)
  {
    CountWhereMonotone(ds, SeulementMinistere, EstMinistere);
    CountWhereMonotone(ds, SeulementRegion, EstRegion);
    CountWhereMonotone(ds, SeulementService, EstService);
    CountWhereMonotone(ds, SeulementPrefecture, EstPrefecture);
    CountWhereMonotone(ds, EstDeveloppement, EstEnvironnement);
  }

  /** `max(ds, key=len)`, or `''` for an empty list: Python keeps the first
      element and replaces it only by a strictly longer one. */
  function PlusLong(ds: seq<string>): (r: string)
    ensures ds == [] ==> r == ""
    ensures ds != [] ==> r in ds
    ensures forall i :: 0 <= i < |ds| ==> |ds[i]| <= |r|
  {
    if ds == [] then ""
    else if |ds| == 1 then ds[0]
    else
      var best := PlusLong(ds[..|ds| - 1]);
      if |ds[|ds| - 1]| > |best| then ds[|ds| - 1] else best
  }

  /** `min(ds, key=len)`, or `''` for an empty list: the first element, replaced
      only by a strictly shorter one. */
  function PlusCourt(ds: seq<string>): (r: string)
    ensures ds == [] ==> r == ""
    ensures ds != [] ==> r in ds
    ensures forall i :: 0 <= i < |ds| ==> |r| <= |ds[i]|
  {
    if ds == [] then ""
    else if |ds| == 1 then ds[0]
    else
      var best := PlusCourt(ds[..|ds| - 1]);
      if |ds[|ds| - 1]| < |best| then ds[|ds| - 1] else best
  }

  /** Ties go to the earliest element: every element before the one chosen is
      strictly shorter. */
  lemma {:induction false} PlusLongPremier(ds: seq<string>) returns (k: nat)
    requires ds != []
    ensures k < |ds| && ds[k] == PlusLong(ds)
    ensures forall j :: 0 <= j < k ==> |ds[j]| < |PlusLong(ds)|
  {
    if |ds| == 1 {
      k := 0;
    } else {
      var init := ds[..|ds| - 1];
      k := PlusLongPremier(init);
      if |ds[|ds| - 1]| > |PlusLong(init)| {
        k := |ds| - 1;
        assert forall j :: 0 <= j < |init| ==> ds[j] == init[j];
      }
    }
  }

  /** Ties go to the earliest element: every element before the one chosen is
      strictly longer. */
  lemma {:induction false} PlusCourtPremier(ds: seq<string>) returns (k: nat)
    requires ds != []
    ensures k < |ds| && ds[k] == PlusCourt(ds)
    ensures forall j :: 0 <= j < k ==> |PlusCourt(ds)| < |ds[j]|
  {
    if |ds| == 1 {
      k := 0;
    } else {
      var init := ds[..|ds| - 1];
      k := PlusCourtPremier(init);
      if |ds[|ds| - 1]| < |PlusCourt(init)| {
        k := |ds| - 1;
        assert forall j :: 0 <= j < |init| ==> ds[j] == init[j];
      }
    }
  }

  /** `[d for d in domaines_critiques if d not in domaines]` */
  function ManquantsCritiques(ds: seq<string>): (r: seq<string>)
    ensures |r| <= |DOMAINES_CRITIQUES|
    ensures forall x :: x in r <==> x in DOMAINES_CRITIQUES && x !in ds
    ensures IsSubsequence(r, DOMAINES_CRITIQUES)
  {
    SubsequenceLength(Without(DOMAINES_CRITIQUES, ds), DOMAINES_CRITIQUES);
    Without(DOMAINES_CRITIQUES, ds)
  }
}
