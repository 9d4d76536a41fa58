# Analyseur des domaines du gouvernement français — a Dafny model

The analyser reads a text file that lists French government domains. It
keeps the ones that look like government domains, sorted and without
repetition. It records the other lines that are not comments. Then it
computes statistics over the kept domains:

- counts;
- keyword categories (ministry, region, public service, prefecture,
  environment);
- "one category only" counters and an overlap counter;
- independent per-category totals;
- the longest and shortest domain;
- the critical domains that are missing.

This project models the class `AnalyseurDomainesGouvFr` of `sitesgouv.py`:

- `charger_domaines`. The file is read elsewhere; the model takes the
  lines as input.
- `est_domaine_valide`.
- `analyser`, without the average length.

There are five modules:

- `PyStr` (`pystr.dfy`): the Python `str` operations the loader relies on.
  These are `strip`, `split`, `lower`, `replace('www.', '')`, `isprintable`,
  `isspace`, `startswith`, `endswith`, `in`, slicing, `str(int)` and string
  order. They are stated over Latin-1 text, which is what the file is
  decoded as.
- `Seqs` (`seqs.dfy`): counting with a test (`sum(1 for ...)`) and
  order-preserving filtering.
- `Tri` (`tri.dfy`): `sorted` applied to a set of strings.
- `Chargement` (`chargement.dfy`): what the loader does with one line
  (`Traiter`), and what it accumulates over all lines (`Acceptes`,
  `Rejets`, `NombreLignesBrutes`). It also holds the loop that computes
  them (`Parcourir`) and the per-line method (`TraiterLigne`).
- `Categorisation` (`categorisation.dfy`): the keyword tests, the category
  set of one domain, the counters and totals, the longest and shortest
  domain and the critical domains.
- `Analyseur` (`analyseur.dfy`): the class, with the fields `lignesBrutes`,
  `domaines` and `domainesManquants`. Its method `ChargerDomaines` updates
  them in place. Its method `Analyser` returns the statistics record. The
  per-domain counting loop of `analyser` is a method here too.

The class invariant `Valid()` holds after construction and after every
load:

- `domaines` is strictly ascending in Python's string order, so it holds
  no duplicate;
- every domain in it is well formed;
- there are no more domains than non-blank lines.

## Model

| member | source | states |
|---|---|---|
| PyStr.Lower | sitesgouv.py:46 | lower-casing one character gives a character that is not upper case; a character that is not upper case is unchanged; whitespace and printability are kept |
| PyStr.LowerIdempotent | sitesgouv.py:46 | lower-casing twice is lower-casing once |
| PyStr.LowerStr | sitesgouv.py:46 | `s.lower()` has the length of `s`, holds no upper-case character, and keeps every other character in place |
| PyStr.StartsWithChar | sitesgouv.py:56 | `ligne.startswith('#')` holds exactly when the line is non-empty and its first character is `#` |
| PyStr.EndsWithTransitive | sitesgouv.py:51-52 | an ending of an ending of a string is an ending of it |
| PyStr.ContainsAt | sitesgouv.py:122-131 | `p in s` holds exactly when `p` occurs at some position of `s` |
| PyStr.ContainsAnyIff | sitesgouv.py:122-127 | `any(mc in d for mc in keys)` holds exactly when some keyword of the list occurs in `d` |
| PyStr.EndsWithAnyIff | sitesgouv.py:52 | `any(d.endswith(t) for t in ends)` holds exactly when one of the endings ends `d` |
| PyStr.Take | sitesgouv.py:57 | `ligne[:50]` is the prefix of the line whose length is exactly 50 when the line is longer, and the whole line otherwise |
| PyStr.StripLeft | sitesgouv.py:35 | `lstrip` removes exactly the leading whitespace: the result is a suffix that does not start with whitespace, and all that was removed is whitespace |
| PyStr.StripRight | sitesgouv.py:35 | `rstrip` removes exactly the trailing whitespace, in the same way |
| PyStr.Strip | sitesgouv.py:31-36 | `strip()` is empty exactly when the line is blank; otherwise it starts and ends with a non-whitespace character; it holds only characters of the line |
| PyStr.StripPiece | sitesgouv.py:35 | `strip()` is the contiguous piece of the line that starts after the leading whitespace, with only whitespace after it |
| PyStr.StripBlank | sitesgouv.py:31-36 | stripping both sides gives the empty string exactly when every character is whitespace, and keeps only characters of the input |
| PyStr.FirstWord | sitesgouv.py:40 | `split()[0]` of a non-blank line is a non-empty word without whitespace |
| PyStr.FirstWordPiece | sitesgouv.py:40 | `split()[0]` is the piece of the line that starts right after the leading whitespace and ends at the next whitespace character or at the end of the line |
| PyStr.BeforeFirst | sitesgouv.py:40 | `split('\t')[0]` is the prefix before the first tab: it holds no tab, and the character after it is a tab when it is shorter than the line |
| PyStr.RemoveWww | sitesgouv.py:46 | `replace('www.', '')` never lengthens the text and introduces no new character |
| PyStr.RemoveWwwNoOccurrence | sitesgouv.py:46 | text without `www.` is left unchanged |
| PyStr.RemoveWwwCanLeaveWww | sitesgouv.py:46 | one pass can leave a `www.` behind: `wwwwww..` becomes `www.` |
| PyStr.KeepPrintableNonSpace | sitesgouv.py:48 | the filtered text holds exactly the printable non-whitespace characters of the input; a single character is kept exactly when it is printable and not whitespace |
| PyStr.KeepPrintableNonSpaceAppend | sitesgouv.py:48 | the filter works character by character: filtering a concatenation concatenates the filtered parts, so order and repetitions are kept |
| PyStr.NatToString | sitesgouv.py:57 | `str(i)` is a non-empty string of decimal digits with no leading zero |
| PyStr.ParseNatToString | sitesgouv.py:57 | reading back the number written into an entry gives the line number |
| PyStr.LexLessIrreflexive | sitesgouv.py:59 | Python's string order is irreflexive |
| PyStr.LexLessTransitive | sitesgouv.py:59 | Python's string order is transitive |
| PyStr.LexLessTotal | sitesgouv.py:59 | any two different strings are ordered one way or the other |
| Seqs.CountWhere | sitesgouv.py:31 | a count with a test is at most the length of the list |
| Seqs.CountWhereStep | sitesgouv.py:31 | counting one more element adds one exactly when it passes the test |
| Seqs.CountWhereMonotone | sitesgouv.py:148-152 | a test implied by another counts at least as many elements |
| Seqs.CountWhereDistinct | sitesgouv.py:148-152 | over a list without repetition, the count is the number of distinct elements passing the test |
| Seqs.Without | sitesgouv.py:162 | `[x for x in s if x not in excluded]` holds exactly the elements of `s` not excluded, in their order in `s` and each as many times as in `s` |
| Seqs.SubsequenceLength | sitesgouv.py:162 | a subsequence is no longer than the list it comes from |
| Tri.AscendingDistinct | sitesgouv.py:59 | a strictly ascending list repeats nothing |
| Tri.LeastExists | sitesgouv.py:59 | every finite non-empty set of strings has a least element |
| Tri.Sorted | sitesgouv.py:59 | `sorted(ensemble)` is strictly ascending, holds exactly the elements of the set, and has its size |
| Tri.SortedUnique | sitesgouv.py:59 | two strictly ascending lists with the same elements are equal, so the sorted list is the one Python returns |
| Chargement.ValidSuffixThreeEndings | sitesgouv.py:51-52 | one of the six endings holds exactly when the domain ends in `.fr`, `.nc` or `.gouv.pf` |
| Chargement.EstDomaineValide | sitesgouv.py:65-76 | `est_domaine_valide(d)` holds exactly when `d` has at least six characters and ends in `.fr`, `.nc` or `.gouv.pf`; so it is false on the empty string and on strings shorter than six |
| Chargement.Token | sitesgouv.py:40-44 | the candidate domain of a stripped non-blank line is never empty, so the test at line 44 always passes |
| Chargement.Normalise | sitesgouv.py:46-48 | the normalised token holds no upper-case, whitespace or non-printable character |
| Chargement.TraiterLigne | sitesgouv.py:35-57 | the loop body, run test after test, has the outcome `Traiter` assigns to the line |
| Chargement.TraiterCases | sitesgouv.py:35-57 | a blank line is passed over; a non-blank line is accepted exactly when its normalised token has a valid ending, with that token as its domain; it is recorded exactly when the ending is invalid and the line does not start with `#`, with the entry `Ligne i: <first 50 characters>...` |
| Chargement.Issues | sitesgouv.py:34 | there is one outcome per line |
| Chargement.IssuesAt | sitesgouv.py:34 | the outcome at position i is that of the line numbered i + 1, so blank lines count in the numbering |
| Chargement.AllIssuesAt | sitesgouv.py:34 | the same, for every position at once |
| Chargement.KeptIff | sitesgouv.py:53 | a domain is in the set exactly when some outcome accepts it |
| Chargement.RecordedInOrder | sitesgouv.py:56-57 | the entries are those of the rejected outcomes, one each, in order, and no rejected outcome is missed |
| Chargement.KeptRecordedBound | sitesgouv.py:53-57 | kept domains plus entries are at most the non-blank outcomes |
| Chargement.NombreLignesBrutesIssues | sitesgouv.py:31-37 | `lignes_brutes` counts exactly the lines the loop does not pass over |
| Chargement.AcceptesIff | sitesgouv.py:33-53 | a domain is in `ensemble_domaines` exactly when some line yields it, and every such domain is well formed |
| Chargement.TraiterWellFormed | sitesgouv.py:46-53 | an accepted domain is lower case, printable, free of whitespace and has one of the six endings |
| Chargement.RejetsEnOrdre | sitesgouv.py:34-57 | `domaines_manquants` gains one entry per rejected line, in file order, each carrying that line's number |
| Chargement.AcceptesWellFormed | sitesgouv.py:46-53 | every kept domain is well formed |
| Chargement.LoadCountsBound | sitesgouv.py:31-57 | kept domains plus new entries are at most `lignes_brutes` |
| Chargement.AcceptesValides | sitesgouv.py:52-53 | a kept domain passes `est_domaine_valide` exactly when it has at least six characters |
| Chargement.OutcomeAppend | sitesgouv.py:53-57 | one more outcome adds its domain, its entry, or nothing |
| Chargement.LoadStep | sitesgouv.py:34-57 | one more line adds its accepted domain to the set, or its entry to the list, or nothing |
| Chargement.Parcourir | sitesgouv.py:33-57 | the loop builds exactly `Acceptes(lignes)` and appends exactly `Rejets(lignes)` to the list it was given |
| Categorisation.CategoriesDe | sitesgouv.py:120-131 | the set the loop builds for a domain is `Categories(d)` |
| Categorisation.AjouterCategories | sitesgouv.py:120-131 | adding each category whose test passed, one after the other, gives the set of those categories |
| Categorisation.CategoriesCount | sitesgouv.py:120-134 | `len(categories)` is the number of the five tests the domain passes |
| Categorisation.FlagsCount | sitesgouv.py:120-131 | the five categories are distinct, so the set has one element per test passed |
| Categorisation.DansCategories | sitesgouv.py:122-131 | a category is in the set exactly when its test passed |
| Categorisation.Singleton | sitesgouv.py:134-135 | the set is `{c}` exactly when test `c` passes and no other test does |
| Categorisation.CompteursEnsemble | sitesgouv.py:134-145 | each counter predicate is the loop's own test on the set: one element equal to X, or more than one element |
| Categorisation.CompteurDeDomaine | sitesgouv.py:134-145 | a domain feeds at most one counter; a domain that passes only the environment test feeds none |
| Categorisation.CompteursBound | sitesgouv.py:87-145 | the four "only" counters plus the overlap counter add up to at most `total_domaines` |
| Categorisation.CompteursSousTotaux | sitesgouv.py:134-152 | each `X_uniquement` is at most `nombre_X`, and `nombre_developpement` is at most the count of the environment category |
| Categorisation.PlusLong | sitesgouv.py:101 | `''` for no domains; otherwise a domain at least as long as every other |
| Categorisation.PlusCourt | sitesgouv.py:102 | `''` for no domains; otherwise a domain at most as long as every other |
| Categorisation.PlusLongPremier | sitesgouv.py:101 | on ties the first longest domain wins: every domain before it is strictly shorter |
| Categorisation.PlusCourtPremier | sitesgouv.py:102 | on ties the first shortest domain wins: every domain before it is strictly longer |
| Categorisation.ManquantsCritiques | sitesgouv.py:155-162 | `manquants_critiques` holds exactly the critical domains that are not kept, in the order of the fixed list, so at most fifteen |
| Analyseur.CompterDomaine | sitesgouv.py:120-145 | one pass of the loop body adds one to the counter the domain feeds, if any, and leaves the others unchanged |
| Analyseur.Compter | sitesgouv.py:119-145 | after the loop, each counter is the number of domains that feed it |
| Analyseur.CompteursStep | sitesgouv.py:119-145 | one more domain adds to each counter exactly when it feeds it |
| Analyseur.TotauxSansDoublon | sitesgouv.py:148-152 | over sorted domains each total is the number of distinct domains passing the test |
| Analyseur.AnalyseurDomainesGouvFr.constructor | sitesgouv.py:19-23 | a new analyser has no lines, domains or entries, and satisfies the invariant |
| Analyseur.AnalyseurDomainesGouvFr.ChargerDomaines | sitesgouv.py:25-59 | after loading, the invariant holds; `lignes_brutes` counts the non-blank lines; `domaines` holds exactly the accepted domains, sorted; `domaines_manquants` is its old value extended by the entries of the rejected lines; and domains plus new entries are at most `lignes_brutes` |
| Analyseur.AnalyseurDomainesGouvFr.Analyser | sitesgouv.py:78-164 | the record holds the counts, with `nombre_manquant` never negative under the invariant; the counters as counts of the domains feeding them, bounded by the total and by the per-category totals; the totals as counts of distinct domains passing each test; the longest and shortest domain; and the missing critical domains |

## Left out

- Reading the file is not modelled. This covers `open`, the Latin-1 decoding, `readlines`, and the exception handler that prints and calls `sys.exit(1)` (sitesgouv.py:27-29, 61-63). The lines of the file are a parameter of `ChargerDomaines`.
- `longueur_moyenne` (sitesgouv.py:103) is not modelled: it uses float division and `round`.
- `generer_rapport` (sitesgouv.py:165-226) is not modelled: it formats text and reads the clock.
- `sauvegarder_rapport_complet` and `main` (sitesgouv.py:228-281) are not modelled: they write files, print to the console and test whether a file exists.
- Characters above 0xFF are out of scope. Latin-1 decoding never produces them. `IsSpace`, `IsPrintable` and `IsUpper` follow Python's tables only on 0..255.
- Tri.Sorted: Python's own sorting algorithm is not modelled. The method computes the same list by repeatedly taking the least element, and `Tri.SortedUnique` shows that only one list satisfies its contract.
- Analyseur.AnalyseurDomainesGouvFr.ChargerDomaines: the assignment to `lignes_brutes` at line 31 happens before the loop in the source and after it in the model. The loop does not read that field, so the final state is the same.
- Chargement.TraiterLigne: the emptiness test on the token (line 44) is left out. `Chargement.Token` shows that test always passes. `Chargement.Traiter` keeps the test, and `TraiterLigne` is proved equal to it.
- Categorisation.CategoriesDe: the five tests are evaluated first, then the categories are added one after the other. The source interleaves each test with its addition. The tests have no side effects, so the set is the same.
- Analyseur.AnalyseurDomainesGouvFr.Analyser: the dictionary is a record with one field per key. The order of the keys is not modelled, and neither is `longueur_moyenne`.
