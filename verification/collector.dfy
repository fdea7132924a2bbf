/**
  `main` of the collector with its I/O taken out: the repository list, the
  cloned repositories' star counts and `git log` outputs, the university
  map and the manual aliases come in as values, and the report comes out.
 */
module Collector {
  import opened Tables
  import opened GitLog
  import opened Sorting
  import opened Aliases
  import opened Attribution
  import opened Ranking

  /** A repository that was cloned: its slug, its star count, the output of
      `git log --all --format=%aN\t%aE` and the output of
      `git log --first-parent --reverse --format=%aN\t%aE`. */
  datatype Clone = Clone(slug: string, stars: nat, authorLog: string, orderedLog: string)

  /** The JSON document, without its timestamp. */
  datatype Report = Report(totalRepos: nat, universities: seq<Ranked>, projects: seq<Project>)

  function AuthorLog(c: Clone): string
  {
    c.authorLog
  }

  function Slug(c: Clone): string
  {
    c.slug
  }

  function ToRepo(c: Clone): Repo
  {
    Repo(c.slug, c.stars, CommitsWithOrder(c.orderedLog))
  }

  /** The aliases in force: discovered ones, overridden by manual ones. */
  function AliasesOf(clones: seq<Clone>, uniMap: map<string, string>, manual: map<string, string>): map<string, string>
  {
    MergeAliases(BuildAutoAliases(Image(clones, AuthorLog), uniMap), manual)
  }

  /** Phases 2 and 3: alias discovery and commit scoring. */
  function Tallies(clones: seq<Clone>, uniMap: map<string, string>, manual: map<string, string>, curves: Curves): (t: Totals)
    ensures AllValid(t.unis)
  {
    var repos := Image(clones, ToRepo);
    ScoreAll(repos, Attributor(AliasesOf(clones, uniMap, manual), uniMap), curves, |repos|)
  }

  /** The whole report; `ReportContents` says what it holds. */
  function Collect(repoList: string, clones: seq<Clone>, uniMap: map<string, string>, manual: map<string, string>, curves: Curves): (out: Report)
    ensures out.totalRepos == |RepoList(repoList)|
    ensures |out.universities| == |Tallies(clones, uniMap, manual, curves).unis.order|
    ensures |out.projects| == |clones|
    ensures forall i, j :: 0 <= i < j < |out.projects| ==>
      Importance(out.projects[i].stars, out.projects[i].totalCommits) >= Importance(out.projects[j].stars, out.projects[j].totalCommits)
  {
    Assemble(|RepoList(repoList)|, Tallies(clones, uniMap, manual, curves), Image(clones, Slug), uniMap)
  }

  /** Phase 4: the report built from the tallies. */
  function Assemble(totalRepos: nat, t: Totals, slugs: seq<string>, uniMap: map<string, string>): Report
    requires AllValid(t.unis)
  {
    Report(totalRepos, RankUniversities(Universities(t, uniMap)), Projects(t, slugs, uniMap))
  }

  /** The report ranks exactly the universities `ScoreUniversity` builds
      from the tallies, and summarises exactly the projects `ProjectOf`
      builds, each once. */
  lemma ReportContents(repoList: string, clones: seq<Clone>, uniMap: map<string, string>, manual: map<string, string>, curves: Curves)
    ensures var t := Tallies(clones, uniMap, manual, curves);
      var out := Collect(repoList, clones, uniMap, manual, curves);
      && multiset(Unranked(out.universities)) == multiset(Universities(t, uniMap))
      && multiset(out.projects) == multiset(Summaries(t, Image(clones, Slug), uniMap))
  {
    AssembleContents(|RepoList(repoList)|, Tallies(clones, uniMap, manual, curves), Image(clones, Slug), uniMap);
  }

  lemma AssembleContents(totalRepos: nat, t: Totals, slugs: seq<string>, uniMap: map<string, string>)
    requires AllValid(t.unis)
    ensures var out := Assemble(totalRepos, t, slugs, uniMap);
      && multiset(Unranked(out.universities)) == multiset(Universities(t, uniMap))
      && multiset(out.projects) == multiset(Summaries(t, slugs, uniMap))
  {
    RankingIsDense(Universities(t, uniMap), 0.0);
  }

  /** The tallies list universities in the order in which their first
      credited commit was met: repository by repository, and within a
      repository along its first-parent history. */
  lemma TalliesInCreditOrder(clones: seq<Clone>, uniMap: map<string, string>, manual: map<string, string>, curves: Curves)
    ensures var attribute := Attributor(AliasesOf(clones, uniMap, manual), uniMap);
      Tallies(clones, uniMap, manual, curves).unis.order == InsertionOrder(AllCredited(Image(clones, ToRepo), attribute, |clones|))
  {
    ScoreAllOrder(Image(clones, ToRepo), Attributor(AliasesOf(clones, uniMap, manual), uniMap), curves, |clones|);
  }

  /** Universities with equal scores keep the tallies' order in the report. */
  lemma ReportTies(repoList: string, clones: seq<Clone>, uniMap: map<string, string>, manual: map<string, string>, curves: Curves, v: real)
    ensures var t := Tallies(clones, uniMap, manual, curves);
      WithKey(Unranked(Collect(repoList, clones, uniMap, manual, curves).universities), ScoreKey, v)
        == WithKey(Universities(t, uniMap), ScoreKey, v)
  {
    AssembleTies(|RepoList(repoList)|, Tallies(clones, uniMap, manual, curves), Image(clones, Slug), uniMap, v);
  }

  lemma AssembleTies(totalRepos: nat, t: Totals, slugs: seq<string>, uniMap: map<string, string>, v: real)
    requires AllValid(t.unis)
    ensures WithKey(Unranked(Assemble(totalRepos, t, slugs, uniMap).universities), ScoreKey, v)
         == WithKey(Universities(t, uniMap), ScoreKey, v)
  {
    RankingIsDense(Universities(t, uniMap), v);
  }

  /** The list is in non-increasing score order and the entry at position
      `i` has rank `i + 1`; so ranks run over 1..n without repeats and a
      better rank never has a lower score. */
  predicate WellRanked(us: seq<Ranked>)
  {
    && (forall i :: 0 <= i < |us| ==> us[i].rank == i + 1)
    && (forall i, j :: 0 <= i < j < |us| ==> us[i].university.score >= us[j].university.score)
    && (forall i :: 0 <= i < |us| ==> 1 <= us[i].rank <= |us|)
    && (forall i, j :: 0 <= i < j < |us| ==> us[i].rank != us[j].rank)
    && (forall i, j ::
          (0 <= i < |us| && 0 <= j < |us| && us[i].rank < us[j].rank) ==> us[i].university.score >= us[j].university.score)
  }

  /** The report's ranking is well formed. */
  lemma ReportRanks(repoList: string, clones: seq<Clone>, uniMap: map<string, string>, manual: map<string, string>, curves: Curves)
    ensures WellRanked(Collect(repoList, clones, uniMap, manual, curves).universities)
  {
    AssembleRanks(|RepoList(repoList)|, Tallies(clones, uniMap, manual, curves), Image(clones, Slug), uniMap);
  }

  lemma AssembleRanks(totalRepos: nat, t: Totals, slugs: seq<string>, uniMap: map<string, string>)
    requires AllValid(t.unis)
    ensures WellRanked(Assemble(totalRepos, t, slugs, uniMap).universities)
  {
    RankingIsDense(Universities(t, uniMap), 0.0);
  }

  /** Every cloned repository has exactly one project summary. */
  lemma ReportProjects(repoList: string, clones: seq<Clone>, uniMap: map<string, string>, manual: map<string, string>, curves: Curves)
    ensures multiset(Image(Collect(repoList, clones, uniMap, manual, curves).projects, ProjectRepo)) == multiset(Image(clones, Slug))
  {
    ProjectsCoverRepos(Tallies(clones, uniMap, manual, curves), Image(clones, Slug), uniMap);
  }

  /** Projects of equal importance keep the order of the cloned
      repositories in the report. */
  lemma ReportProjectTies(repoList: string, clones: seq<Clone>, uniMap: map<string, string>, manual: map<string, string>, curves: Curves, v: real)
    ensures var t := Tallies(clones, uniMap, manual, curves);
      WithKey(Collect(repoList, clones, uniMap, manual, curves).projects, ProjectKey, v)
        == WithKey(Summaries(t, Image(clones, Slug), uniMap), ProjectKey, v)
  {
  }
}
