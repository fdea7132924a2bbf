/**
  The report the collector writes: one entry per university with its capped
  per-repository scores, ranked by total score, and one summary per
  repository with its contributors, ordered by repository importance.
 */
module Ranking {
  import opened Maybe
  import opened Tables
  import opened Numbers
  import opened Sorting
  import opened Aliases
  import opened Attribution

  /** `min(weighted, importance)`: a university never earns more from one
      repository than the repository's importance. */
  function Capped(weighted: real, importance: nat): (r: real)
    ensures r <= weighted && r <= importance as real
    ensures r == weighted || r == importance as real
  {
    if weighted <= importance as real then weighted else importance as real
  }

  /** The importance used for capping: stars default to 0 and the commit
      count to 1 when a repository is missing from the tables. */
  function CapOf(t: Totals, slug: string): (cap: nat)
    ensures slug in t.stars && slug in t.totalCommits ==> cap == 2 * t.stars[slug] + t.totalCommits[slug]
    ensures slug !in t.stars && slug in t.totalCommits ==> cap == t.totalCommits[slug]
    ensures slug in t.stars && slug !in t.totalCommits ==> cap == 2 * t.stars[slug] + 1
    ensures slug !in t.stars && slug !in t.totalCommits ==> cap == 1
  {
    Importance(Lookup(t.stars, slug, 0), Lookup(t.totalCommits, slug, 1))
  }

  /** The capped score of one university's tally for `slug`. */
  function CappedScore(t: Totals, perRepo: Table<Tally>, slug: string): real
  {
    Capped(Lookup(perRepo.at, slug, NewTally).weighted, CapOf(t, slug))
  }

  /** One entry of a university's `repos` list. */
  datatype RepoRow = RepoRow(repo: string, commits: nat, stars: nat, score: int, decay: Decay)

  /** One entry of `universities`, before ranking. */
  datatype University = University(domain: string, name: string, score: int, reposContributed: nat, repos: seq<RepoRow>)

  function RowRepo(row: RepoRow): string
  {
    row.repo
  }

  /** One row of a university's `repos` list: the repository's commits by
      the university, its stars (0 when unknown), and its weight capped at
      its importance and rounded. */
  function RepoRowOf(t: Totals, perRepo: Table<Tally>, slug: string): (row: RepoRow)
    ensures row.score <= CapOf(t, slug)
    ensures var tally := Lookup(perRepo.at, slug, NewTally);
      && row.repo == slug
      && row.score == Round(Capped(tally.weighted, CapOf(t, slug)))
      && row.commits == tally.commits
      && row.stars == Lookup(t.stars, slug, 0)
      && row.decay == tally.decay
  {
    var tally := Lookup(perRepo.at, slug, NewTally);
    RoundAtMost(CappedScore(t, perRepo, slug), CapOf(t, slug));
    RepoRow(slug, tally.commits, Lookup(t.stars, slug, 0), Round(CappedScore(t, perRepo, slug)), tally.decay)
  }

  /** The repositories of one university, heaviest weighted first; ties keep
      the order in which the university was first credited in them. */
  function ReposByWeight(perRepo: Table<Tally>): seq<string>
  {
    SortDesc(perRepo.order, WeightOf(perRepo))
  }

  /** `repo_weights[r]`, the sort key of `ReposByWeight`. */
  function WeightOf(perRepo: Table<Tally>): string -> real
  {
    s => Lookup(perRepo.at, s, NewTally).weighted
  }

  /** The loop body of the university scoring loop for `domain`. */
  function ScoreUniversity(t: Totals, domain: string, perRepo: Table<Tally>, uniMap: map<string, string>): (u: University)
    ensures u.domain == domain && u.name == Lookup(uniMap, domain, domain)
    ensures |u.repos| == u.reposContributed == |perRepo.order|
    ensures forall i :: 0 <= i < |u.repos| ==> u.repos[i].score <= CapOf(t, u.repos[i].repo)
    ensures multiset(Image(u.repos, RowRepo)) == multiset(perRepo.order)
  {
    var order := ReposByWeight(perRepo);
    var rows := seq(|order|, i requires 0 <= i < |order| => RepoRowOf(t, perRepo, order[i]));
    assert Image(rows, RowRepo) == order;
    var total := Sum(order, s => CappedScore(t, perRepo, s));
    University(domain, Lookup(uniMap, domain, domain), Round(total), |perRepo.order|, rows)
  }

  /** The university total is the rounded sum of its capped repository
      scores; listing the repositories by weight does not change it. */
  lemma UniversityTotal(t: Totals, domain: string, perRepo: Table<Tally>, uniMap: map<string, string>)
    ensures ScoreUniversity(t, domain, perRepo, uniMap).score == Round(Sum(perRepo.order, s => CappedScore(t, perRepo, s)))
  {
    SortKeepsSum(perRepo.order, WeightOf(perRepo), s => CappedScore(t, perRepo, s));
  }

  /** The university's repositories are listed heaviest weighted first, and
      repositories of equal weight keep their order. */
  lemma UniversityReposOrdered(t: Totals, domain: string, perRepo: Table<Tally>, uniMap: map<string, string>, v: real)
    ensures var rows := ScoreUniversity(t, domain, perRepo, uniMap).repos;
      forall i, j :: 0 <= i < j < |rows| ==>
        Lookup(perRepo.at, rows[i].repo, NewTally).weighted >= Lookup(perRepo.at, rows[j].repo, NewTally).weighted
    ensures WithKey(ReposByWeight(perRepo), WeightOf(perRepo), v) == WithKey(perRepo.order, WeightOf(perRepo), v)
  {
    SortDescStable(perRepo.order, WeightOf(perRepo), v);
  }

  /** In the scoring loop's tables, a university's repositories of equal
      weight are listed in the order the repositories were processed. */
  lemma CreditedReposOrdered(repos: seq<Repo>, attribute: Classifier, curves: Curves, d: string, v: real)
    requires DistinctSlugs(repos)
    requires d in ScoreAll(repos, attribute, curves, |repos|).unis.at
    ensures var perRepo := ScoreAll(repos, attribute, curves, |repos|).unis.at[d];
      WithKey(ReposByWeight(perRepo), WeightOf(perRepo), v)
        == WithKey(ReposCrediting(repos, attribute, d, |repos|), WeightOf(perRepo), v)
  {
    var perRepo := ScoreAll(repos, attribute, curves, |repos|).unis.at[d];
    ScoreAllRepoOrder(repos, attribute, curves, |repos|, d);
    SortDescStable(perRepo.order, WeightOf(perRepo), v);
  }

  /** The scoring loop: one entry per university, in first-credited order. */
  function Universities(t: Totals, uniMap: map<string, string>): (us: seq<University>)
    requires AllValid(t.unis)
    ensures |us| == |t.unis.order|
    ensures forall i :: 0 <= i < |us| ==> us[i].domain == t.unis.order[i]
  {
    seq(|t.unis.order|, i requires 0 <= i < |t.unis.order| =>
      ScoreUniversity(t, t.unis.order[i], t.unis.at[t.unis.order[i]], uniMap))
  }

  /** The `i`th row of a university's `repos` list describes its `i`th
      repository by weight. */
  lemma UniversityRow(t: Totals, domain: string, perRepo: Table<Tally>, uniMap: map<string, string>, i: nat)
    requires i < |perRepo.order|
    ensures var u := ScoreUniversity(t, domain, perRepo, uniMap);
      && i < |u.repos| && i < |ReposByWeight(perRepo)|
      && u.repos[i] == RepoRowOf(t, perRepo, ReposByWeight(perRepo)[i])
  {
  }

  /** The entry of the `i`th credited university is scored from that
      university's own per-repository table. */
  lemma UniversityEntry(t: Totals, uniMap: map<string, string>, i: nat)
    requires AllValid(t.unis) && i < |t.unis.order|
    ensures var d := t.unis.order[i];
      && d in t.unis.at
      && Universities(t, uniMap)[i] == ScoreUniversity(t, d, t.unis.at[d], uniMap)
  {
  }

  /** A university entry with its `rank`. */
  datatype Ranked = Ranked(rank: nat, university: University)

  function ScoreKey(u: University): real
  {
    u.score as real
  }

  /** `universities.sort(key=lambda u: -u["score"])`, then ranks from 1. */
  function RankUniversities(us: seq<University>): (r: seq<Ranked>)
    ensures |r| == |us|
    ensures forall i :: 0 <= i < |r| ==> r[i].rank == i + 1
    ensures Unranked(r) == SortDesc(us, ScoreKey)
  {
    var sorted := SortDesc(us, ScoreKey);
    seq(|sorted|, i requires 0 <= i < |sorted| => Ranked(i + 1, sorted[i]))
  }

  /** The universities of a ranking, best first. */
  function Unranked(r: seq<Ranked>): (us: seq<University>)
    ensures |us| == |r|
  {
    seq(|r|, i requires 0 <= i < |r| => r[i].university)
  }

  /** The ranking lists every university once, best score first, and the
      university at position `i` gets rank `i + 1`: so ranks are exactly
      1..n, each used once, a better rank never has a lower score, and
      universities with equal scores keep their earlier order in the list
      and in their ranks. */
  lemma RankingIsDense(us: seq<University>, v: real)
    ensures var r := RankUniversities(us);
      && (forall i :: 0 <= i < |r| ==> r[i].rank == i + 1)
      && NonIncreasing(Unranked(r), ScoreKey)
      && (forall i :: 0 <= i < |r| ==> 1 <= r[i].rank <= |us|)
      && (forall i, j :: 0 <= i < j < |r| ==> r[i].rank != r[j].rank)
      && (forall i, j :: 0 <= i < |r| && 0 <= j < |r| && r[i].rank < r[j].rank ==>
            r[i].university.score >= r[j].university.score)
      && multiset(Unranked(r)) == multiset(us)
      && WithKey(Unranked(r), ScoreKey, v) == WithKey(us, ScoreKey, v)
  {
    var r := RankUniversities(us);
    var sorted := SortDesc(us, ScoreKey);
    assert Unranked(r) == sorted;
    SortDescStable(us, ScoreKey, v);
  }

  /** Python's `min(positions)`. */
  function Min(ps: seq<real>): (m: real)
    requires ps != []
    ensures m in ps && forall i :: 0 <= i < |ps| ==> m <= ps[i]
  {
    if |ps| == 1 then ps[0]
    else
      var m := Min(ps[1..]);
      assert forall i :: 1 <= i < |ps| ==> ps[i] == ps[1..][i - 1];
      if ps[0] <= m then ps[0] else m
  }

  /** Python's `max(positions)`. */
  function Max(ps: seq<real>): (m: real)
    requires ps != []
    ensures m in ps && forall i :: 0 <= i < |ps| ==> ps[i] <= m
  {
    if |ps| == 1 then ps[0]
    else
      var m := Max(ps[1..]);
      assert forall i :: 1 <= i < |ps| ==> ps[i] == ps[1..][i - 1];
      if m <= ps[0] then ps[0] else m
  }

  function Negated(p: real): real
  {
    -p
  }

  /** `sorted(positions)`: ascending. */
  function Ascending(ps: seq<real>): seq<real>
  {
    SortDesc(ps, Negated)
  }

  /** `sorted(positions)[len(positions) // 2] if positions else 0.5`. */
  function Median(ps: seq<real>): (m: real)
    ensures ps != [] ==> m in ps
  {
    if ps == [] then 0.5
    else
      var s := Ascending(ps);
      assert s[|ps| / 2] in multiset(s);
      s[|ps| / 2]
  }

  /** The median lies between the first and the last position. */
  lemma MedianBetween(ps: seq<real>)
    requires ps != []
    ensures Min(ps) <= Median(ps) <= Max(ps)
  {
  }

  /** The positions the commit loop records already increase, so the median
      is the middle one as recorded, the first is the smallest and the last
      is the largest. */
  lemma MedianOfRecorded(ps: seq<real>, bound: real)
    requires Increasing(ps, bound) && ps != []
    ensures Median(ps) == ps[|ps| / 2]
    ensures Min(ps) == ps[0] && Max(ps) == ps[|ps| - 1]
  {
    assert NonIncreasing(ps, Negated);
    SortedIsFixed(ps, Negated);
  }

  /** One entry of a project's `contributors` list. */
  datatype ContributorRow = ContributorRow(
    name: string, university: string, domain: string, commits: nat, score: int,
    firstPct: real, medianPct: real, lastPct: real, decay: Decay)

  function RowOf(name: string, c: Contributor, uniMap: map<string, string>): ContributorRow
  {
    var ps := c.positions;
    ContributorRow(
      name, Lookup(uniMap, c.domain, c.domain), c.domain, c.commits, Round(c.score),
      if ps == [] then 0.0 else Min(ps) * 100.0,
      Median(ps) * 100.0,
      if ps == [] then 100.0 else Max(ps) * 100.0,
      c.decay)
  }

  /** The contributors of a repository, highest score first; ties keep their
      first-commit order. */
  function ContributorsByScore(people: Table<Contributor>): (names: seq<string>)
    ensures multiset(names) == multiset(people.order)
    ensures NonIncreasing(names, ScoreOf(people))
    ensures forall v :: WithKey(names, ScoreOf(people), v) == WithKey(people.order, ScoreOf(people), v)
  {
    SortDescStableAll(people.order, ScoreOf(people));
    SortDesc(people.order, ScoreOf(people))
  }

  /** `data["score"]`, the sort key of `ContributorsByScore`. */
  function ScoreOf(people: Table<Contributor>): string -> real
  {
    n => Lookup(people.at, n, NewContributor).score
  }

  /** Rows built from names in descending score order are in descending
      order of rounded score. */
  lemma RowsFollowScores(people: Table<Contributor>, names: seq<string>, rows: seq<ContributorRow>, uniMap: map<string, string>)
    requires NonIncreasing(names, ScoreOf(people))
    requires |rows| == |names|
    requires forall i :: 0 <= i < |names| ==> rows[i] == RowOf(names[i], Lookup(people.at, names[i], NewContributor), uniMap)
    ensures forall i, j :: 0 <= i < j < |rows| ==> rows[i].score >= rows[j].score
  {
    forall i, j | 0 <= i < j < |rows|
      ensures rows[i].score >= rows[j].score
    {
      RoundMonotone(Lookup(people.at, names[j], NewContributor).score, Lookup(people.at, names[i], NewContributor).score);
    }
  }

  function RowName(row: ContributorRow): string
  {
    row.name
  }

  /** All contributor rows of a repository, before the display cut: one row
      per contributor, built from that contributor's entry, in the order of
      `ContributorsByScore`. */
  function ContributorRows(people: Table<Contributor>, uniMap: map<string, string>): (rows: seq<ContributorRow>)
    ensures |rows| == |people.order|
    ensures Image(rows, RowName) == ContributorsByScore(people)
    ensures multiset(Image(rows, RowName)) == multiset(people.order)
    ensures forall i :: 0 <= i < |rows| ==> rows[i] == RowOf(rows[i].name, Lookup(people.at, rows[i].name, NewContributor), uniMap)
    ensures forall i, j :: 0 <= i < j < |rows| ==> rows[i].score >= rows[j].score
  {
    var names := ContributorsByScore(people);
    var rows := Image(names, n => RowOf(n, Lookup(people.at, n, NewContributor), uniMap));
    assert Image(rows, RowName) == names;
    RowsFollowScores(people, names, rows, uniMap);
    rows
  }

  /** `sum(c["score"] for c in top_contributors)`. */
  function SumScores(rows: seq<ContributorRow>): int
  {
    if rows == [] then 0 else SumScores(rows[..|rows| - 1]) + rows[|rows| - 1].score
  }

  /** At most this many contributors are shown per project. */
  const DisplayLimit: nat := 50

  /** One entry of `projects`. */
  datatype Project = Project(
    repo: string, stars: nat, totalCommits: nat, eduContributors: nat, totalScore: int,
    contributors: seq<ContributorRow>)

  /** `top_contributors[:50]`. */
  function Shown(rows: seq<ContributorRow>): (shown: seq<ContributorRow>)
    ensures |shown| <= DisplayLimit && |shown| <= |rows|
    ensures shown == rows[..|shown|]
    ensures |rows| <= DisplayLimit ==> shown == rows
  {
    if |rows| <= DisplayLimit then rows else rows[..DisplayLimit]
  }

  /** Rows ordered by score show the highest scores: no hidden contributor
      scores above a shown one. */
  lemma ShownAreTop(people: Table<Contributor>, uniMap: map<string, string>)
    ensures var rows := ContributorRows(people, uniMap);
      forall i, j :: 0 <= i < |Shown(rows)| <= j < |rows| ==> Shown(rows)[i].score >= rows[j].score
  {
  }

  /** The project summary of `slug`; a repository without credited commits
      has no contributors, and the commit count defaults to 0. */
  function ProjectOf(t: Totals, slug: string, uniMap: map<string, string>): (p: Project)
    ensures var rows := ContributorRows(Lookup(t.people, slug, Empty()), uniMap);
      && p.eduContributors == |rows|
      && p.totalScore == SumScores(rows)
      && p.contributors == Shown(rows)
    ensures p.repo == slug
    ensures p.stars == Lookup(t.stars, slug, 0) && p.totalCommits == Lookup(t.totalCommits, slug, 0)
    ensures p.eduContributors == |Lookup(t.people, slug, Empty()).order|
  {
    var people := Lookup(t.people, slug, Empty());
    var rows := ContributorRows(people, uniMap);
    RoundInt(SumScores(rows));
    Project(slug, Lookup(t.stars, slug, 0), Lookup(t.totalCommits, slug, 0), |people.order|,
            Round(SumScores(rows) as real), Shown(rows))
  }

  /** `round(data["score"])` of the contributor `n`. */
  function RoundedScoreOf(people: Table<Contributor>): string -> real
  {
    n => Round(Lookup(people.at, n, NewContributor).score) as real
  }

  lemma {:induction false} SumScoresRows(rows: seq<ContributorRow>, names: seq<string>, people: Table<Contributor>)
    requires |rows| == |names|
    requires forall i :: 0 <= i < |rows| ==> rows[i].score == Round(Lookup(people.at, names[i], NewContributor).score)
    ensures SumScores(rows) as real == Sum(names, RoundedScoreOf(people))
  {
    if rows != [] {
      SumScoresRows(rows[..|rows| - 1], names[..|names| - 1], people);
    }
  }

  /** A project's total is the sum of its contributors' rounded scores,
      whatever order they are listed in and however many are shown. */
  lemma ProjectTotalScore(t: Totals, slug: string, uniMap: map<string, string>)
    ensures var people := Lookup(t.people, slug, Empty());
      ProjectOf(t, slug, uniMap).totalScore as real == Sum(people.order, RoundedScoreOf(people))
  {
    RowsTotal(Lookup(t.people, slug, Empty()), uniMap);
  }

  lemma RowsTotal(people: Table<Contributor>, uniMap: map<string, string>)
    ensures SumScores(ContributorRows(people, uniMap)) as real == Sum(people.order, RoundedScoreOf(people))
  {
    var rows := ContributorRows(people, uniMap);
    var names := ContributorsByScore(people);
    forall i | 0 <= i < |rows|
      ensures rows[i].score == Round(Lookup(people.at, names[i], NewContributor).score)
    {
      assert rows[i].name == Image(rows, RowName)[i] == names[i];
      assert rows[i] == RowOf(names[i], Lookup(people.at, names[i], NewContributor), uniMap);
    }
    SumScoresRows(rows, names, people);
    SortKeepsSum(people.order, ScoreOf(people), RoundedScoreOf(people));
  }

  function ProjectKey(p: Project): real
  {
    Importance(p.stars, p.totalCommits) as real
  }

  /** Ordering by `ProjectKey` is ordering by importance. */
  lemma ImportanceOrder(ps: seq<Project>)
    requires NonIncreasing(ps, ProjectKey)
    ensures forall i, j :: 0 <= i < j < |ps| ==> Importance(ps[i].stars, ps[i].totalCommits) >= Importance(ps[j].stars, ps[j].totalCommits)
  {
    forall i, j | 0 <= i < j < |ps|
      ensures Importance(ps[i].stars, ps[i].totalCommits) >= Importance(ps[j].stars, ps[j].totalCommits)
    {
      assert ProjectKey(ps[i]) >= ProjectKey(ps[j]);
    }
  }

  /** The project summaries in processing order, before sorting. */
  function Summaries(t: Totals, slugs: seq<string>, uniMap: map<string, string>): seq<Project>
  {
    Image(slugs, slug => ProjectOf(t, slug, uniMap))
  }

  /** `projects.sort(key=lambda p: -(2 * p["stars"] + p["total_commits"]))`
      over the repositories in processing order. */
  function Projects(t: Totals, slugs: seq<string>, uniMap: map<string, string>): (ps: seq<Project>)
    ensures |ps| == |slugs|
    ensures multiset(ps) == multiset(Summaries(t, slugs, uniMap))
    ensures forall i, j :: 0 <= i < j < |ps| ==> Importance(ps[i].stars, ps[i].totalCommits) >= Importance(ps[j].stars, ps[j].totalCommits)
    ensures forall v :: WithKey(ps, ProjectKey, v) == WithKey(Summaries(t, slugs, uniMap), ProjectKey, v)
  {
    var unsorted := Summaries(t, slugs, uniMap);
    var sorted := SortDesc(unsorted, ProjectKey);
    ImportanceOrder(sorted);
    SortDescStableAll(unsorted, ProjectKey);
    sorted
  }

  function ProjectRepo(p: Project): string
  {
    p.repo
  }

  /** Every repository gets exactly one project summary. */
  lemma ProjectsCoverRepos(t: Totals, slugs: seq<string>, uniMap: map<string, string>)
    ensures multiset(Image(Projects(t, slugs, uniMap), ProjectRepo)) == multiset(slugs)
  {
    var unsorted := Summaries(t, slugs, uniMap);
    assert Image(unsorted, ProjectRepo) == slugs;
    ImagePermutation(unsorted, Projects(t, slugs, uniMap), ProjectRepo);
  }
}
