# University open-source rankings: the collector's core in Dafny

`scripts/collect.py` ranks universities by their members' commits to a list
of open-source repositories. Around a lot of I/O (git subprocesses, the
GitHub API, JSON files) it has a pure core. This project models that core
and proves properties of it. The core does the following:

- It reads an email address, keeps it only if it ends in an academic suffix
  (`.edu`, `.ac.uk`, `.ethz.ch`, `.epfl.ch`, `.utoronto.ca`), and collapses
  the domain to its shortest parent that is a known university.
- It discovers email aliases. An author name that commits under both
  academic and other emails has the other emails mapped to its university,
  provided the academic ones lead to a single university. Manual aliases
  override discovered ones.
- It parses the repository list and the `git log --format=%aN\t%aE`
  output.
- It walks each repository's commits from oldest to newest. A commit at
  position `k` is worth `importance / (k + 1)`, where the importance is
  `2 * stars + total_commits`. The walk accumulates:
  - per (university, repository): weight, commit count and five decay sums;
  - per author: commit count, score and commit positions.
- It produces the report:
  - per university, repository scores capped at the repository's importance
    and their rounded total;
  - universities sorted by score (Python's stable sort) and ranked 1..n;
  - per repository, a contributor summary (median/first/last position, the
    top 50 shown, total score over all);
  - projects sorted by importance.

Modules, one file each:

| file | module | part of `collect.py` |
|---|---|---|
| maybe.dfy | `Maybe` | `str \| None`, `dict.get` |
| text.dfy | `Text` | `str.strip`, `str.lower`, `split`, `join`, `partition` |
| domains.dfy | `Domains` | `extract_edu_domain`, `normalize_domain`, `resolve_email` |
| gitlog.dfy | `GitLog` | `load_repos` line filter, `git log` line parsing |
| tables.dfy | `Tables` | insertion-ordered dictionaries |
| aliases.dfy | `Aliases` | the alias loop of `build_auto_aliases`, the alias merge |
| numbers.dfy | `Numbers` | `round(x)` |
| sorting.dfy | `Sorting` | `sorted(..., key=-k)` / `list.sort`, `sum` |
| attribution.dfy | `Attribution` | the commit-scoring loops of `main` |
| ranking.dfy | `Ranking` | university scores and ranks, project summaries |
| collector.dfy | `Collector` | `main` with its I/O replaced by values |

Modelling choices:

- Python dictionaries are iterated in insertion order, and the stable sorts
  keep that order for ties. So every dictionary whose order reaches the
  report is a `Table`: a key order plus a map.
- The three dictionaries `uni_repo_weighted`, `uni_repo_commits` and
  `uni_repo_decay` are always written together. One table of `Tally`
  records stands for all three.
- Floating-point values are exact reals. `math.log` and `math.sqrt` are
  outside Dafny, so the decay terms `1/log(k+2)` and `1/sqrt(k+1)` come in
  as functions (`Curves`).
- Python's `round(x)` to an integer is modelled exactly: nearest integer,
  ties to even.
- The commit loop of one repository writes straight into the shared
  `uni_repo_*` dictionaries. The model runs that loop on a table of its own
  (`RepoScores`) and then writes the result into the shared table
  (`MergeUnis`). The loop only touches cells of the current repository, so
  with distinct slugs this gives the same cells and the same first-credited
  key order. `ScoreAllWith` states the repository loop for any per-repository
  results, and `ScoreAll` supplies the real ones.
- The alias rule is proved once for any classification of emails
  (`Classifier`) and then used with `UniversityOf`.
- The model follows the code where it is quirky:
  - `load_repos` tests `startswith("#")` on the unstripped line. An
    indented comment line below the first line is therefore kept, as
    `# ...`. `IsRepoLine` keeps that behaviour.
  - Missing repositories default to 1 commit when capping a university
    score, but to 0 commits in a project summary.

## Model

| member | source | states |
|---|---|---|
| Text.Strip | scripts/collect.py:31 | `str.strip()` returns the middle slice of its input, with only whitespace removed at each end and no whitespace left at either end |
| Text.StripIdempotent | scripts/collect.py:31 | stripping a stripped line changes nothing |
| Text.CanonIdempotent | scripts/collect.py:77-80 | lower-casing and stripping an email that is already lower-cased and stripped changes nothing, so `extract_edu_domain` may safely redo it |
| Text.Split | scripts/collect.py:64 | `domain.split(".")` yields at least one part, even for empty text |
| Text.SplitPartsLackSep | scripts/collect.py:64 | no part of a split contains the separator |
| Text.JoinSplit | scripts/collect.py:64-68 | re-joining the parts of a split with the separator gives the original text |
| Text.SplitJoin | scripts/collect.py:64-68 | splitting a join of separator-free parts gives the parts back |
| Domains.ExtractEduDomain | scripts/collect.py:47-59 | an accepted domain is what follows the `@` of the lower-cased, stripped email: it is preceded by `@`, has no `@` of its own, is non-empty and ends in one of the five academic suffixes; `ExtractEduDomainAccepts` gives the acceptance condition in both directions |
| Domains.DomainAfterAt | scripts/collect.py:50-59 | an accepted domain is exactly the text after the email's `@`: it is preceded by `@`, has no `@` of its own, is non-empty and ends in one of the five academic suffixes |
| Domains.DomainAfterAtAccepts | scripts/collect.py:50-59 | a lower-cased, stripped email is accepted if and only if it has exactly one `@` and a non-empty academic domain follows it |
| Domains.ExtractEduDomainAccepts | scripts/collect.py:47-59 | `extract_edu_domain` returns a domain if and only if the lower-cased, stripped email has exactly one `@` followed by a non-empty academic domain |
| Domains.JoinedTailIsDotSuffix | scripts/collect.py:64-68 | every candidate `".".join(parts[i:])` with `i >= 1` is a proper parent domain (the text after one of the dots) |
| Domains.DotSuffixIsJoinedTail | scripts/collect.py:64-68 | every proper parent domain is one of the candidates the loop tries |
| Domains.NormalizeDomain | scripts/collect.py:62-72 | the result is the domain itself or one of its parent domains that is a key of the university map; `NormalizeFindsShortestParent` and `NormalizeKeepsUnknown` say which |
| Domains.NormalizeFindsShortestParent | scripts/collect.py:62-70 | if some proper parent domain is a `uni_map` key, `normalize_domain` returns the shortest such parent |
| Domains.NormalizeKeepsUnknown | scripts/collect.py:67-72 | if no proper parent domain is a key, the domain comes back unchanged |
| Domains.NormalizeSingleLabel | scripts/collect.py:64-72 | a domain without a dot comes back unchanged |
| Domains.NormalizeIdempotent | scripts/collect.py:62-72 | normalising twice gives the same result as normalising once |
| Domains.ResolveEmail | scripts/collect.py:75-80 | an alias of the lower-cased, stripped email wins; otherwise the result is exactly `extract_edu_domain` of the email |
| Domains.ExtractCanon | scripts/collect.py:77-80 | extraction gives the same answer for an email and for its lower-cased, stripped form |
| GitLog.Lines | scripts/collect.py:92 | `stdout.strip().splitlines()`: no line contains a line break, the lines joined by `\n` give the stripped text back, and there are no lines exactly when the stripped text is empty |
| GitLog.KeepRepoLines | scripts/collect.py:31 | at most one entry per line; `KeepRepoLinesConcat` and `KeepRepoLine` fix the list, order and repeats included |
| GitLog.KeepRepoLinesMembers | scripts/collect.py:31 | a string is listed if and only if it is the stripped form of a line that is not blank and does not start with `#` |
| GitLog.KeepRepoLinesConcat | scripts/collect.py:29-31 | the filter works line by line: filtering two blocks of lines one after the other gives the two filtered blocks one after the other, in order |
| GitLog.KeepRepoLine | scripts/collect.py:31 | one line contributes its stripped form if it is non-blank and does not start with `#`, and nothing otherwise |
| GitLog.RepoListClean | scripts/collect.py:29-31 | every listed repository is non-empty and already stripped |
| GitLog.ParseLogLine | scripts/collect.py:93-94 | a line yields a (name, email) pair if and only if it contains a tab |
| GitLog.ParseLogLineSplit | scripts/collect.py:93-97 | a line with a tab splits at its first tab: the pair is the stripped text before it and the lower-cased, stripped text after it (which may hold more tabs) |
| GitLog.ParseLogLineRoundTrip | scripts/collect.py:157-160 | parsing the line `git log` prints for a tab-free, newline-free, stripped name and a lower-cased, stripped email gives that pair back |
| GitLog.ParseCommits | scripts/collect.py:155-160 | the loop of `get_commits_with_order` yields at most one commit per line |
| GitLog.ParseCommitsConcat | scripts/collect.py:156-160 | the loop works line by line, skipping a line without a tab and going on: parsing two blocks of lines gives the two blocks' commits one after the other |
| GitLog.ParseCommitsLine | scripts/collect.py:157-160 | one line gives the pair it parses to when it has a tab, and nothing otherwise |
| GitLog.ParseAuthorPairs | scripts/collect.py:92-99 | `get_author_email_pairs` never returns an empty name or email |
| GitLog.AuthorPairsAreNamedCommits | scripts/collect.py:92-99 | the two parsing loops agree, except that `get_author_email_pairs` drops pairs with an empty name or email |
| GitLog.CommitsRoundTrip | scripts/collect.py:147-161 | the `git log` output of a commit list of well-formed authors parses back to exactly that list, in order |
| Tables.InsertionOrderFirsts | scripts/collect.py:280-281 | a dictionary filled by a run of writes lists every written key exactly once, and key `a` comes before key `b` exactly when `a` was first written before `b` |
| Tables.InsertionOrderExtend | scripts/collect.py:280-281 | writing more keys into a dictionary appends only the keys it did not have yet, in first-write order, so the order is that of the whole run of writes |
| Aliases.GroupByName | scripts/collect.py:112-117 | `name_to_emails` records email `e` under name `n` if and only if the pair (n, e) occurs in some repository's log, and lists the names in the order they first occur |
| Aliases.GroupByNameFirstAppearance | scripts/collect.py:112-120 | the names are listed once each, exactly the names of the logs, and name `a` is visited before name `b` exactly when `a` occurs first in the logs |
| Aliases.AliasesFor | scripts/collect.py:122-139 | one author contributes exactly its non-academic emails, and only if its academic emails lead to exactly one university; each maps to that university |
| Aliases.OverlayLastWins | scripts/collect.py:120-139 | when several authors alias the same email, the value comes from the last of them in loop order |
| Aliases.BuildAutoAliases | scripts/collect.py:103-144 | no academic email is ever given an alias; `DiscoveredAliasJustified` gives each alias its author |
| Aliases.AutoAliasesKeys | scripts/collect.py:119-139 | a discovered alias key is never academic, and an email is a key exactly when some author qualifies with it as a non-academic email |
| Aliases.LastAuthorDecides | scripts/collect.py:119-139 | every discovered alias names the single university of the last author that qualifies with that email; no later author has it |
| Aliases.AliasJustified | scripts/collect.py:103-139 | for any email classifier, an alias key is a non-academic email of an author name that also used an academic email, and all of that name's academic emails lead to the alias's university |
| Aliases.DiscoveredAliasJustified | scripts/collect.py:103-139 | the same statement for `build_auto_aliases` over all repositories' logs and its own classification of emails |
| Aliases.MergeAliases | scripts/collect.py:233 | the merged aliases have the keys of both maps, and a manual alias wins over a discovered one |
| Aliases.AcademicEmailsResolveDirectly | scripts/collect.py:233 | discovered aliases never change how an academic email resolves; only a manual alias can |
| Numbers.Round | scripts/collect.py:339 | `round(x)` is within 1/2 of `x` and, on an exact tie, even |
| Numbers.RoundUnique | scripts/collect.py:339 | that rule determines the result: any integer satisfying it equals `round(x)` |
| Numbers.RoundMonotone | scripts/collect.py:368 | rounding never reverses an order, so rounded contributor scores stay in score order |
| Numbers.RoundAtMost | scripts/collect.py:326-333 | a value at most an integer `n` rounds to at most `n` |
| Numbers.RoundInt | scripts/collect.py:374-380 | rounding an integer gives it back, so `round(project_total_score)` is the sum itself |
| Sorting.SortDesc | scripts/collect.py:344 | the sort's output is in non-increasing key order and is a permutation of its input |
| Sorting.SortDescStable | scripts/collect.py:344 | the sort is stable: for every key value, the items with that key appear in the same relative order as in the input |
| Sorting.SortedIsFixed | scripts/collect.py:362 | sorting a sequence that is already in order leaves it unchanged |
| Sorting.SortKeepsSum | scripts/collect.py:321-327 | summing over the sorted repositories gives the same total as summing in insertion order |
| Attribution.Attribute | scripts/collect.py:275-278 | a commit is credited exactly when its email resolves, and then to the resolved domain or to a parent of it that is a key of the university map |
| Attribution.DecayAt | scripts/collect.py:285-289 | for commit position `k` of `total`: the harmonic term times `k + 1` is 1, the linear term times `total` is `total - k`, both lie in (0, 1], the uniform term is 1, and the log and sqrt terms are the supplied curves at `k` |
| Attribution.Weight | scripts/collect.py:279 | a commit's weight times `k + 1` is the repository's importance, and the weight lies between 0 and the importance |
| Attribution.WeightDecreases | scripts/collect.py:270-279 | the first commit weighs the full importance and every later commit weighs no more than the one before it |
| Attribution.Commit | scripts/collect.py:274-311 | an uncredited commit changes nothing. A credited one raises `edu_count` by one; adds the university and the author as keys and no other key; raises that university's count by one; sets the author's domain to it, raises the author's count by one and appends `k / total` to the author's positions; and leaves every other university and author as it was |
| Attribution.CommitTallyTerms | scripts/collect.py:279-297 | a credited commit adds to its university's tally exactly the weight `importance / (k + 1)`, the terms `1 / (k + 1)`, `(total - k) / total`, the two supplied curves at `k`, and 1 |
| Attribution.AuthorEntryStep | scripts/collect.py:274-311 | the commit at position `k` changes the entry of author `m` only when it is `m`'s commit and is credited to a university, and then only by adding that one commit |
| Attribution.AuthorCountStep | scripts/collect.py:299-304 | that commit raises `m`'s count by one, appends `k / total` to `m`'s positions and makes its university `m`'s domain; any other commit leaves all three as they were |
| Attribution.AuthorTermsStep | scripts/collect.py:299-311 | that commit adds to `m`'s score exactly the weight `importance / (k + 1)`, and to `m`'s five decay sums exactly the five terms of position `k`; any other commit adds nothing |
| Attribution.ScoreCommits | scripts/collect.py:274-282 | both per-repository tables stay well formed, and `edu_count` never exceeds the number of commits seen |
| Attribution.CommitKeeps | scripts/collect.py:279-311 | one loop step keeps the loop invariant |
| Attribution.ScoreCommitsConsistent | scripts/collect.py:274-311 | after every prefix of commits, the invariant holds. For each (university, repository): the `uniform` sum equals the commit count, and the weight is the importance times the `harmonic` sum. For each author: `commits` equals the number of positions, the positions increase within [0, 1), and the score is the importance times the author's `harmonic` sum. The per-university counts add up to `edu_count`, and so do the per-author counts |
| Attribution.ScoreCommitsCounts | scripts/collect.py:275-282 | each university's count equals the number of commits credited to it, and a university appears exactly when some commit is credited to it; `edu_count` is the number of credited commits |
| Attribution.ScoreCommitsOrder | scripts/collect.py:274-303 | one repository's universities are listed in the order they were first credited, and its authors in the order they first made a credited commit |
| Attribution.ScoreCommitsSums | scripts/collect.py:274-297 | each university's `harmonic` sum is the sum of `1 / (k + 1)` over the positions `k` credited to it, its `linear` sum the sum of `(total - k) / total`, and its `log` and `sqrt` sums the sums of the supplied curves over those positions |
| Attribution.ScoreCommitsCurvesAt | scripts/collect.py:287-297 | a university's `log` and `sqrt` sums are the sums of `1 / log(k + 2)` and `1 / sqrt(k + 1)`, as supplied, over the positions `k` credited to it |
| Attribution.TallyWeight | scripts/collect.py:274-280 | each university's weight is the sum of `importance / (k + 1)` over the positions `k` credited to it |
| Attribution.WeightedHitsHarmonic | scripts/collect.py:279-286 | that sum of weights equals the importance times the sum of harmonic terms over the same positions |
| Attribution.ScoreCommitsAuthors | scripts/collect.py:299-311 | each author's commit count is the number of its credited commits, its positions are `k / total` for those commits in order, its domain is the university of its last credited commit, its score is the sum of `importance / (k + 1)` over those positions, and each of its five decay sums is the sum of that term over them |
| Attribution.AuthorScoreAt | scripts/collect.py:299-302 | an author's score is the sum of `importance / (k + 1)` over the positions `k` of its credited commits |
| Attribution.AuthorDecayAt | scripts/collect.py:307-308 | an author's `harmonic` and `linear` sums are the sums of `1 / (k + 1)` and `(total - k) / total` over the positions of its credited commits |
| Attribution.AuthorCurvesAt | scripts/collect.py:309-311 | an author's `log`, `sqrt` and `uniform` sums are the sums of the supplied curves and of 1 over the positions of its credited commits |
| Attribution.UncreditedCommitIgnored | scripts/collect.py:275-277 | a commit whose email resolves to no university leaves every counter as it was |
| Attribution.MergeUnisAt | scripts/collect.py:280-297 | writing one repository's tallies sets the `[domain][repo]` entry of each of its universities and changes nothing else |
| Attribution.MergeUnisValid | scripts/collect.py:280-297 | writing one repository's tallies keeps both levels of `uni_repo_*` well formed: each key is listed once in insertion order |
| Attribution.MergeUnisOrder | scripts/collect.py:280-281 | writing one repository's tallies appends to `uni_repo_weighted` only the universities it did not have yet, in the repository's own first-credited order |
| Attribution.ScoreRepoCells | scripts/collect.py:252-311 | one repository's pass sets exactly its own (university, repository) cells |
| Attribution.ScoreAll | scripts/collect.py:252-311 | both levels of the `uni_repo_*` tables are well formed; `ScoreAllRecords`, `ScoreAllOrder` and `ScoreAllRepoOrder` fix their cells and their order |
| Attribution.ScoreAllValid | scripts/collect.py:252-311 | the repository loop keeps both levels of `uni_repo_*` well formed |
| Attribution.ScoreAllRecords | scripts/collect.py:252-311 | after the loop over distinct repositories, each repository's stars, commit count, contributors and per-university tallies are exactly what its own commit loop produced; nothing is recorded for repositories not yet reached |
| Attribution.ScoreAllOrder | scripts/collect.py:252-281 | `uni_repo_weighted` lists the universities in the order they were first credited across all repositories, walked in order |
| Attribution.ScoreAllRepoOrder | scripts/collect.py:252-281 | with distinct slugs, a university has an entry exactly when some repository credits it, and its entry lists the repositories that credit it in repository order |
| Ranking.Capped | scripts/collect.py:326 | the capped score is the smaller of the weight and the repository's importance |
| Ranking.CapOf | scripts/collect.py:322-325 | a repository's importance is `2 * stars + total_commits`, with stars defaulting to 0 and the commit count to 1 when the repository is missing |
| Ranking.RepoRowOf | scripts/collect.py:322-335 | a repository row carries the slug, the university's commit count in it, the repository's stars (0 by default) and the decay sums, and its score is the rounded smaller of the weight and the importance, so never above the importance |
| Ranking.ScoreUniversity | scripts/collect.py:317-342 | a university entry carries its domain and its `uni_map` name (the domain by default); its rows list each repository it was credited in exactly once, so `repos_contributed` is the number of rows; every row's score is capped by the row's repository importance |
| Ranking.UniversityRow | scripts/collect.py:321-335 | the i-th repository row is the row built from the i-th repository in weight order |
| Ranking.UniversityTotal | scripts/collect.py:319-339 | the university's score is the rounded sum of its capped repository scores, whatever order the repositories are listed in |
| Ranking.UniversityReposOrdered | scripts/collect.py:321 | a university's repositories are listed by non-increasing weight, and for every weight the repositories with that weight keep the order of the university's dictionary |
| Ranking.CreditedReposOrdered | scripts/collect.py:252-321 | after the whole repository loop, repositories of equal weight in a university's entry appear in the order the repositories were processed |
| Ranking.Universities | scripts/collect.py:316-342 | one entry per credited university, the i-th for the i-th university of `uni_repo_weighted` |
| Ranking.UniversityEntry | scripts/collect.py:316-342 | the i-th entry is the university summary of the i-th university in first-credited order, built from its own tallies |
| Ranking.RankUniversities | scripts/collect.py:344-348 | the universities in the ranking are those of the input sorted by non-increasing score (stable on ties), and the one at position `i` gets rank `i + 1` |
| Ranking.RankingIsDense | scripts/collect.py:344-348 | the list is in non-increasing score order and the university at position `i` has rank `i + 1`; so ranks are 1..n without repeats, a better rank never has a lower score, every university is ranked once, and universities with equal scores keep their earlier order both in the list and in their ranks |
| Ranking.Min | scripts/collect.py:369 | `min(positions)` is one of the positions and no position is below it |
| Ranking.Max | scripts/collect.py:371 | `max(positions)` is one of the positions and no position is above it |
| Ranking.Median | scripts/collect.py:362 | the median of a non-empty position list is one of its positions |
| Ranking.MedianOfRecorded | scripts/collect.py:305-371 | for positions as the commit loop records them (increasing), the median is the middle recorded position, and the first and last recorded positions are the minimum and the maximum |
| Ranking.ContributorsByScore | scripts/collect.py:358 | the contributor names are a permutation of the contributors, in non-increasing unrounded score, and contributors with equal scores keep their first-credited order |
| Ranking.ContributorRows | scripts/collect.py:358-373 | a project has one row per contributor, in the order of `ContributorsByScore`; each row is built from that contributor's own entry; rounded scores never increase down the rows |
| Ranking.Shown | scripts/collect.py:381 | at most 50 contributors are shown; they are the first rows; with 50 or fewer rows, all are shown |
| Ranking.ProjectOf | scripts/collect.py:352-382 | a project summary carries its slug, its stars and total commits (0 by default), `edu_contributors` counting all contributors, `total_score` summing the rounded scores of all rows, and the first 50 rows |
| Ranking.ProjectTotalScore | scripts/collect.py:374-378 | a project's total score is the sum of its contributors' rounded scores, taken in any order |
| Ranking.RowsTotal | scripts/collect.py:358-374 | the rows' scores add up to the sum of the contributors' rounded scores in first-credited order |
| Ranking.Projects | scripts/collect.py:383 | the projects are a permutation of the per-repository summaries, ordered by non-increasing `2 * stars + total_commits`; projects of equal importance keep the processing order of their repositories (the sort is stable) |
| Ranking.ProjectsCoverRepos | scripts/collect.py:351-383 | every processed repository has exactly one project summary |
| Collector.Collect | scripts/collect.py:212-392 | the report counts all listed repositories, has one university entry per credited university and one project per cloned repository, and its projects are ordered by importance |
| Collector.ReportContents | scripts/collect.py:316-383 | the report's universities are a permutation of the university summaries, and its projects a permutation of the per-repository summaries |
| Collector.TalliesInCreditOrder | scripts/collect.py:252-316 | the universities are visited in the order they were first credited across the cloned repositories |
| Collector.ReportTies | scripts/collect.py:344 | universities with equal scores appear in the report in first-credited order |
| Collector.ReportRanks | scripts/collect.py:344-348 | the report lists universities in non-increasing score order and the one at position `i` has rank `i + 1`, so ranks are 1..n without repeats and a better rank never has a lower score |
| Collector.ReportProjects | scripts/collect.py:351-383 | the report has exactly one project summary per cloned repository |
| Collector.ReportProjectTies | scripts/collect.py:383 | projects of equal importance appear in the report in the order of the cloned repositories |

## Left out

- All I/O is outside the model. This covers:
  - reading `repos.txt`, `universities.json` and `aliases.json`, including `load_aliases`' lower-casing and its fallback on a missing or malformed file;
  - the git subprocesses of `get_author_email_pairs`, `get_commits_with_order` and `clone_or_fetch_repo`;
  - `fetch_star_count` (network and `GITHUB_TOKEN`);
  - writing `rankings.json`, the `generated_at` timestamp, and every `print`.

  Their results are inputs. `Clone` carries a cloned repository's slug, star count and both `git log` outputs; the university map and the manual aliases are maps.
- Phase 1 (which repositories clone successfully) is not modelled. The clones are given, one per distinct slug, as the keys of `repo_dirs` are. The `owner/repo` split only feeds the star request and is left out with it.
- Text.Lower: lower-cases ASCII letters only; Python's `str.lower` also maps other Unicode letters.
- GitLog.Lines: splits at `\n` only; `str.splitlines` also breaks at `\r`, `\r\n`, `\v`, `\f`, `\x1c`-`\x1e`, `\x85`, ` ` and ` `.
- Floating point: sums, divisions and `min` are exact reals, so IEEE rounding and summation order are not modelled. `1/log(k+2)` and `1/sqrt(k+1)` are supplied as functions (`Curves`).
- `round(v, 4)` on decay sums and `round(x * 100, 1)` on commit percentages are not modelled; those values are reported unrounded. The `0`/`100` integer defaults of the percentages are modelled as the reals 0 and 100.
- Attribution.ScoreAllRecords: requires distinct repository slugs. The source gets this from the keys of `repo_dirs`; the model does not rebuild that dictionary from the repository list.

