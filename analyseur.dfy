/**
 * The analyser object: `charger_domaines` fills its fields from the lines of
 * the source file and `analyser` computes the statistics record from them.
 */
module Analyseur {
  import opened PyStr
  import opened Seqs
  import opened Tri
  import opened Chargement
  import opened Categorisation

  /** The dictionary `analyser` returns, without `longueur_moyenne`. */
  datatype Analyse = Analyse(
    totalDomaines: nat,
    lignesBrutes: nat,
    nombreManquant: int,
    ministereUniquement: nat,
    regionUniquement: nat,
    serviceUniquement: nat,
    prefectureUniquement: nat,
    nombreChevauchement: nat,
    nombreMinistere: nat,
    nombreRegion: nat,
    nombreService: nat,
    nombrePrefecture: nat,
    nombreDeveloppement: nat,
    domainePlusLong: string,
    domainePlusCourt: string,
    manquantsCritiques: seq<string>)

  /** The body of the per-domain loop of `analyser`: the counter the domain
      feeds, if any, goes up by one and the others stay as they were. */
  method CompterDomaine(domaine: string, mu: nat, ru: nat, su: nat, pu: nat, ch: nat)
    returns (mu1: nat, ru1: nat, su1: nat, pu1: nat, ch1: nat)
    ensures mu1 == mu + if SeulementMinistere(domaine) then 1 else 0
    ensures ru1 == ru + if SeulementRegion(domaine) then 1 else 0
    ensures su1 == su + if SeulementService(domaine) then 1 else 0
    ensures pu1 == pu + if SeulementPrefecture(domaine) then 1 else 0
    ensures ch1 == ch + if Chevauchement(domaine) then 1 else 0
  {
    mu1, ru1, su1, pu1, ch1 := mu, ru, su, pu, ch;
    var categories := CategoriesDe(domaine);
    CompteursEnsemble(domaine);
    if |categories| == 1 {
      var categorie :| categorie in categories;
      SingletonCategorie(categories, categorie);
      if categorie == Ministere {
        mu1 := mu1 + 1;
      } else if categorie == Region {
        ru1 := ru1 + 1;
      } else if categorie == Service {
        su1 := su1 + 1;
      } else if categorie == Prefecture {
        pu1 := pu1 + 1;
      }
    } else if |categories| > 1 {
      ch1 := ch1 + 1;
    }
  }

  /** The per-domain loop of `analyser`: each counter ends as the number of
      domains that feed it. */
  method Compter(ds: seq<string>) returns (mu: nat, ru: nat, su: nat, pu: nat, ch: nat)
    ensures mu == CountWhere(ds, SeulementMinistere)
    ensures ru == CountWhere(ds, SeulementRegion)
    ensures su == CountWhere(ds, SeulementService)
    ensures pu == CountWhere(ds, SeulementPrefecture)
    ensures ch == CountWhere(ds, Chevauchement)
  {
    mu, ru, su, pu, ch := 0, 0, 0, 0, 0;
    for i := 0 to |ds|
      invariant mu == CountWhere(ds[..i], SeulementMinistere)
      invariant ru == CountWhere(ds[..i], SeulementRegion)
      invariant su == CountWhere(ds[..i], SeulementService)
      invariant pu == CountWhere(ds[..i], SeulementPrefecture)
      invariant ch == CountWhere(ds[..i], Chevauchement)
    {
      mu, ru, su, pu, ch := CompterDomaine(ds[i], mu, ru, su, pu, ch);
      CompteursStep(ds, i);
    }
    assert ds[..|ds|] == ds;
  }

  /** One more domain adds to each counter exactly when it feeds it. */
  lemma CompteursStep(ds: seq<string>, i: nat)
    requires i < |ds|
    ensures CountWhere(ds[..i + 1], SeulementMinistere) == CountWhere(ds[..i], SeulementMinistere) + if SeulementMinistere(ds[i]) then 1 else 0
    ensures CountWhere(ds[..i + 1], SeulementRegion) == CountWhere(ds[..i], SeulementRegion) + if SeulementRegion(ds[i]) then 1 else 0
    ensures CountWhere(ds[..i + 1], SeulementService) == CountWhere(ds[..i], SeulementService) + if SeulementService(ds[i]) then 1 else 0
    ensures CountWhere(ds[..i + 1], SeulementPrefecture) == CountWhere(ds[..i], SeulementPrefecture) + if SeulementPrefecture(ds[i]) then 1 else 0
    ensures CountWhere(ds[..i + 1], Chevauchement) == CountWhere(ds[..i], Chevauchement) + if Chevauchement(ds[i]) then 1 else 0
  {
    CountWhereStep(ds, i, SeulementMinistere);
    CountWhereStep(ds, i, SeulementRegion);
    CountWhereStep(ds, i, SeulementService);
    CountWhereStep(ds, i, SeulementPrefecture);
    CountWhereStep(ds, i, Chevauchement);
  }

  /** Over sorted domains, which hold no duplicate, each `sum(1 for d in
      self.domaines if ...)` total is the number of distinct domains passing
      the test. */
  lemma TotauxSansDoublon(ds: seq<string>)
    requires StrictlyAscending(ds)
    ensures CountWhere(ds, EstMinistere) == |Matching(ds, EstMinistere)|
    ensures CountWhere(ds, EstRegion) == |Matching(ds, EstRegion)|
    ensures CountWhere(ds, EstService) == |Matching(ds, EstService)|
    ensures CountWhere(ds, EstPrefecture) == |Matching(ds, EstPrefecture)|
    ensures CountWhere(ds, EstDeveloppement) == |Matching(ds, EstDeveloppement)|
  {
    AscendingDistinct(ds);
    CountWhereDistinct(ds, EstMinistere);
    CountWhereDistinct(ds, EstRegion);
    CountWhereDistinct(ds, EstService);
    CountWhereDistinct(ds, EstPrefecture);
    CountWhereDistinct(ds, EstDeveloppement);
  }

  class AnalyseurDomainesGouvFr {
    var sourceFile: string
    var lignesBrutes: nat
    var domaines: seq<string>
    var domainesManquants: seq<string>

    /** Holds from construction on: the domains are kept sorted, each well
        formed, and there are no more of them than non-blank lines. */
    ghost predicate Valid()
      reads this
    {
      && StrictlyAscending(domaines)
      && |domaines| <= lignesBrutes
      && forall d :: d in domaines ==> WellFormed(d)
    }

    constructor (sourceFile: string)
      ensures Valid()
      ensures this.sourceFile == sourceFile
      ensures lignesBrutes == 0 && domaines == [] && domainesManquants == []
    {
      this.sourceFile := sourceFile;
      lignesBrutes := 0;
      domaines := [];
      domainesManquants := [];
    }

    /** `charger_domaines`, with the lines of the file given rather than read. */
    method ChargerDomaines(lignes: seq<string>)
      modifies this
      ensures Valid()
      ensures sourceFile == old(sourceFile)
      ensures lignesBrutes == NombreLignesBrutes(lignes)
      ensures forall d :: d in domaines <==> d in Acceptes(lignes)
      ensures |domaines| == |Acceptes(lignes)|
      ensures domainesManquants == old(domainesManquants) + Rejets(lignes)
      ensures |domaines| + |Rejets(lignes)| <= lignesBrutes
    {
      var ensemble;
      ensemble, domainesManquants := Parcourir(lignes, domainesManquants);
      // line 31 sets the count before the loop; the loop does not read it,
      // so setting it here gives the same state
      lignesBrutes := CountWhere(lignes, NonBlank);
      LoadCountsBound(lignes);
      AcceptesWellFormed(lignes);
      domaines := Sorted(ensemble);
    }

    /** `analyser`: the counts, the category counters and totals, the
        extreme lengths and the missing critical domains. */
    method Analyser() returns (a: Analyse)
      ensures a.totalDomaines == |domaines| && a.lignesBrutes == lignesBrutes
      ensures a.nombreManquant == lignesBrutes - |domaines|
      ensures Valid() ==> a.nombreManquant >= 0
      ensures a.ministereUniquement == CountWhere(domaines, SeulementMinistere)
      ensures a.regionUniquement == CountWhere(domaines, SeulementRegion)
      ensures a.serviceUniquement == CountWhere(domaines, SeulementService)
      ensures a.prefectureUniquement == CountWhere(domaines, SeulementPrefecture)
      ensures a.nombreChevauchement == CountWhere(domaines, Chevauchement)
      ensures a.ministereUniquement + a.regionUniquement + a.serviceUniquement
        + a.prefectureUniquement + a.nombreChevauchement <= a.totalDomaines
      ensures a.ministereUniquement <= a.nombreMinistere && a.regionUniquement <= a.nombreRegion
      ensures a.serviceUniquement <= a.nombreService && a.prefectureUniquement <= a.nombrePrefecture
      ensures a.nombreMinistere == CountWhere(domaines, EstMinistere)
      ensures a.nombreRegion == CountWhere(domaines, EstRegion)
      ensures a.nombreService == CountWhere(domaines, EstService)
      ensures a.nombrePrefecture == CountWhere(domaines, EstPrefecture)
      ensures a.nombreDeveloppement == CountWhere(domaines, EstDeveloppement)
      ensures Valid() ==>
        && a.nombreMinistere == |Matching(domaines, EstMinistere)|
        && a.nombreRegion == |Matching(domaines, EstRegion)|
        && a.nombreService == |Matching(domaines, EstService)|
        && a.nombrePrefecture == |Matching(domaines, EstPrefecture)|
        && a.nombreDeveloppement == |Matching(domaines, EstDeveloppement)|
      ensures a.nombreDeveloppement <= CountWhere(domaines, EstEnvironnement)
      ensures a.domainePlusLong == PlusLong(domaines) && a.domainePlusCourt == PlusCourt(domaines)
      ensures a.manquantsCritiques == ManquantsCritiques(domaines)
    {
      var mu, ru, su, pu, ch := Compter(domaines);
      a := Analyse(
        |domaines|, lignesBrutes, lignesBrutes - |domaines|,
        mu, ru, su, pu, ch,
        CountWhere(domaines, EstMinistere), CountWhere(domaines, EstRegion),
        CountWhere(domaines, EstService), CountWhere(domaines, EstPrefecture),
        CountWhere(domaines, EstDeveloppement),
        PlusLong(domaines), PlusCourt(domaines),
        ManquantsCritiques(domaines));
      CompteursBound(domaines);
      CompteursSousTotaux(domaines);
      if Valid() {
        TotauxSansDoublon(domaines);
      }
    }
  }
}
