/**
  Phase 3 of the collector: walking one repository's commits from oldest to
  newest. Each commit whose email resolves to a university is counted for
  that (university, repository) pair and for its author, with its decay
  terms added. A repository's tallies are then merged into the tables that
  cover all repositories.
 */
module Attribution {
  import opened Maybe
  import opened Tables
  import opened Domains
  import opened Aliases

  /** The five decay sums kept per (university, repository) and per author. */
  datatype Decay = Decay(harmonic: real, linear: real, log: real, sqrt: real, uniform: real)

  const NoDecay := Decay(0.0, 0.0, 0.0, 0.0, 0.0)

  function AddDecay(a: Decay, b: Decay): Decay
  {
    Decay(a.harmonic + b.harmonic, a.linear + b.linear, a.log + b.log, a.sqrt + b.sqrt, a.uniform + b.uniform)
  }

  /** `1 / log(k + 2)` and `1 / sqrt(k + 1)` for commit position `k`. */
  datatype Curves = Curves(log: nat -> real, sqrt: nat -> real)

  /** The decay terms of the commit at position `k` of `total`. */
  function DecayAt(k: nat, total: nat, curves: Curves): (d: Decay)
    requires k < total
    ensures 0.0 < d.harmonic <= 1.0 && 0.0 < d.linear <= 1.0 && d.uniform == 1.0
    ensures d.harmonic * (k + 1) as real == 1.0
    ensures d.linear * total as real == (total - k) as real
    ensures d.log == curves.log(k) && d.sqrt == curves.sqrt(k)
  {
    Decay(1.0 / (k + 1) as real, (total - k) as real / total as real, curves.log(k), curves.sqrt(k), 1.0)
  }

  /** What `uni_repo_weighted`, `uni_repo_commits` and `uni_repo_decay` hold
      for one (university, repository) pair. The three dictionaries are
      always written together, so one table of tallies stands for them. */
  datatype Tally = Tally(weighted: real, commits: nat, decay: Decay)

  const NewTally := Tally(0.0, 0, NoDecay)

  /** One entry of `repo_contributors[repo]`. */
  datatype Contributor = Contributor(commits: nat, score: real, positions: seq<real>, domain: string, decay: Decay)

  const NewContributor := Contributor(0, 0.0, [], "", NoDecay)

  /** One repository's tallies: per university, per author name, and
      `edu_count`. */
  datatype RepoTally = RepoTally(unis: Table<Tally>, people: Table<Contributor>, edu: nat)

  predicate ValidTally(st: RepoTally)
  {
    Valid(st.unis) && Valid(st.people)
  }

  /** `Attribute` with the aliases and the university map fixed. */
  function Attributor(aliases: map<string, string>, uniMap: map<string, string>): Classifier
  {
    e => Attribute(e, aliases, uniMap)
  }

  /** The university a commit email is credited to: the resolved domain,
      normalised (`resolve_email`, then `normalize_domain`). */
  function Attribute(email: string, aliases: map<string, string>, uniMap: map<string, string>): (r: Option<string>)
    ensures r.Some? <==> ResolveEmail(email, aliases).Some?
    ensures r.Some? ==> var d := ResolveEmail(email, aliases).value;
      r.value == d || (IsDotSuffix(r.value, d) && r.value in uniMap)
  {
    match ResolveEmail(email, aliases)
    case None => None
    case Some(d) => Some(NormalizeDomain(d, uniMap))
  }

  /** `repo_importance / (k + 1)`. */
  function Weight(importance: nat, k: nat): (w: real)
    ensures w * (k + 1) as real == importance as real
    ensures 0.0 <= w <= importance as real
  {
    importance as real / (k + 1) as real
  }

  /** Early commits are worth more: the weight never grows with the
      position, and the first commit carries the whole importance. */
  lemma WeightDecreases(importance: nat, k: nat)
    ensures Weight(importance, k + 1) <= Weight(importance, k)
    ensures Weight(importance, 0) == importance as real
  {
    var n := (k + 1) as real;
    assert (k + 1 + 1) as real == n + 1.0;
    ShareShrinks(importance as real, n);
  }

  /** Sharing among more never gives a bigger part. */
  lemma ShareShrinks(a: real, n: real)
    requires a >= 0.0 && n >= 1.0
    ensures a / (n + 1.0) <= a / n
  {
    var x, y := a / n, a / (n + 1.0);
    assert x * n == a && y * (n + 1.0) == a;
    assert (x - y) * n == y;
    assert y >= 0.0;
  }

  /** The loop body for the commit at position `k` of `total`, by author
      `name`, credited to `dom`. */
  function Commit(st: RepoTally, k: nat, total: nat, importance: nat, name: string, dom: Option<string>, curves: Curves): (r: RepoTally)
    requires k < total && ValidTally(st)
    ensures ValidTally(r)
    ensures dom.None? ==> r == st
    ensures dom.Some? ==> r.edu == st.edu + 1 && dom.value in r.unis.at && name in r.people.at
    ensures dom.Some? ==> r.unis.at.Keys == st.unis.at.Keys + {dom.value} && r.people.at.Keys == st.people.at.Keys + {name}
    ensures dom.Some? ==> forall e :: e in st.unis.at && e != dom.value ==> r.unis.at[e] == st.unis.at[e]
    ensures dom.Some? ==> forall m :: m in st.people.at && m != name ==> r.people.at[m] == st.people.at[m]
    ensures dom.Some? ==> r.unis.at[dom.value].commits == Lookup(st.unis.at, dom.value, NewTally).commits + 1
    ensures dom.Some? ==> var c := Lookup(st.people.at, name, NewContributor);
      && r.people.at[name].domain == dom.value
      && r.people.at[name].commits == c.commits + 1
      && r.people.at[name].positions == c.positions + [k as real / total as real]
  {
    match dom
    case None => st
    case Some(d) =>
      RepoTally(
        Put(st.unis, d, TallyAdd(Lookup(st.unis.at, d, NewTally), importance, k, total, curves)),
        Put(st.people, name, ContributorAdd(Lookup(st.people.at, name, NewContributor), importance, k, total, d, curves)),
        st.edu + 1)
  }

  /** A university's tally after one more commit, at position `k` of `total`. */
  function TallyAdd(t: Tally, importance: nat, k: nat, total: nat, curves: Curves): Tally
    requires k < total
  {
    Tally(t.weighted + Weight(importance, k), t.commits + 1, AddDecay(t.decay, DecayAt(k, total, curves)))
  }

  /** An author's entry after one more commit, at position `k` of `total`,
      credited to `d` (the last credited domain wins). */
  function ContributorAdd(c: Contributor, importance: nat, k: nat, total: nat, d: string, curves: Curves): Contributor
    requires k < total
  {
    Contributor(c.commits + 1, c.score + Weight(importance, k), c.positions + [k as real / total as real], d,
                AddDecay(c.decay, DecayAt(k, total, curves)))
  }

  /** The tables a credited commit leaves. */
  lemma CommitCredited(st: RepoTally, k: nat, total: nat, importance: nat, name: string, d: string, curves: Curves)
    requires k < total && ValidTally(st)
    ensures var r := Commit(st, k, total, importance, name, Some(d), curves);
      && r.unis == Put(st.unis, d, TallyAdd(Lookup(st.unis.at, d, NewTally), importance, k, total, curves))
      && r.people == Put(st.people, name, ContributorAdd(Lookup(st.people.at, name, NewContributor), importance, k, total, d, curves))
      && r.edu == st.edu + 1
  {
  }

  /** What one credited commit adds to its university's tally: the weight
      `importance / (k + 1)` and each of the five decay terms of position `k`. */
  lemma CommitTallyTerms(st: RepoTally, k: nat, total: nat, importance: nat, name: string, d: string, curves: Curves)
    requires k < total && ValidTally(st)
    ensures var r := Commit(st, k, total, importance, name, Some(d), curves);
      var t := Lookup(st.unis.at, d, NewTally);
      var u := r.unis.at[d];
      && u.weighted == t.weighted + Weight(importance, k)
      && u.decay.harmonic == t.decay.harmonic + HarmonicTerm(k)
      && u.decay.linear == t.decay.linear + LinearTerm(total)(k)
      && u.decay.log == t.decay.log + curves.log(k)
      && u.decay.sqrt == t.decay.sqrt + curves.sqrt(k)
      && u.decay.uniform == t.decay.uniform + 1.0
  {
    CommitCredited(st, k, total, importance, name, d, curves);
  }

  /** What the commit at position `k` does to the entry of author `m`: it
      becomes `ContributorAdd` of the old entry when the commit is `m`'s and
      credited, and stays as it was otherwise. */
  lemma AuthorEntryStep(st: RepoTally, k: nat, total: nat, importance: nat, name: string, dom: Option<string>, curves: Curves, m: string)
    requires k < total && ValidTally(st)
    ensures var c := Lookup(st.people.at, m, NewContributor);
      Lookup(Commit(st, k, total, importance, name, dom, curves).people.at, m, NewContributor)
        == if dom.Some? && name == m then ContributorAdd(c, importance, k, total, dom.value, curves) else c
  {
    if dom.Some? {
      CommitCredited(st, k, total, importance, name, dom.value, curves);
    }
  }

  /** What the commit at position `k` does to the count, the positions and
      the domain of author `m`, in the shape of `AuthorHits`,
      `AuthorPositions` and `LastDomain`. */
  lemma AuthorCountStep(st: RepoTally, k: nat, total: nat, importance: nat, name: string, dom: Option<string>, curves: Curves, m: string)
    requires k < total && ValidTally(st)
    ensures var c := Lookup(st.people.at, m, NewContributor);
      var a := Lookup(Commit(st, k, total, importance, name, dom, curves).people.at, m, NewContributor);
      var mine := name == m && dom.Some?;
      && a.commits == c.commits + (if mine then 1 else 0)
      && a.positions == c.positions + (if mine then [k as real / total as real] else [])
      && a.domain == (if mine then dom.value else c.domain)
  {
    AuthorEntryStep(st, k, total, importance, name, dom, curves, m);
  }

  /** What the commit at position `k` adds to each sum of author `m`: the
      weight and the five decay terms of position `k` when the commit is
      `m`'s and credited, and nothing otherwise. */
  lemma AuthorTermsStep(st: RepoTally, k: nat, total: nat, importance: nat, name: string, dom: Option<string>, curves: Curves, m: string)
    requires k < total && ValidTally(st)
    ensures var c := Lookup(st.people.at, m, NewContributor);
      var a := Lookup(Commit(st, k, total, importance, name, dom, curves).people.at, m, NewContributor);
      var mine := name == m && dom.Some?;
      && a.score == c.score + (if mine then WeightTerm(importance)(k) else 0.0)
      && a.decay.harmonic == c.decay.harmonic + (if mine then HarmonicTerm(k) else 0.0)
      && a.decay.linear == c.decay.linear + (if mine then LinearTerm(total)(k) else 0.0)
      && a.decay.log == c.decay.log + (if mine then curves.log(k) else 0.0)
      && a.decay.sqrt == c.decay.sqrt + (if mine then curves.sqrt(k) else 0.0)
      && a.decay.uniform == c.decay.uniform + (if mine then UniformTerm(k) else 0.0)
  {
    AuthorEntryStep(st, k, total, importance, name, dom, curves, m);
  }

  /** The harmonic decay term `1 / (k + 1)` of position `k`. */
  function HarmonicTerm(k: nat): real
  {
    1.0 / (k + 1) as real
  }

  /** The linear decay term `(total - k) / total` of the positions `k` of a
      repository of `total` commits. */
  function LinearTerm(total: nat): nat -> real
  {
    (k: nat) => if k < total then (total - k) as real / total as real else 0.0
  }

  /** The weight `importance / (k + 1)` of the positions `k`. */
  function WeightTerm(importance: nat): nat -> real
  {
    (k: nat) => Weight(importance, k)
  }

  /** The uniform decay term, 1 at every position. */
  function UniformTerm(k: nat): real
  {
    1.0
  }

  /** The loop over the first `n` of `commits`, oldest first. */
  function ScoreCommits(commits: seq<(string, string)>, attribute: Classifier, importance: nat, curves: Curves, n: nat): (r: RepoTally)
    requires n <= |commits|
    ensures ValidTally(r)
    ensures r.edu <= n
  {
    if n == 0 then RepoTally(Empty(), Empty(), 0)
    else
      var k := n - 1;
      Commit(ScoreCommits(commits, attribute, importance, curves, k), k, |commits|, importance,
             commits[k].0, attribute(commits[k].1), curves)
  }

  /** The number of the first `n` commits credited to `d`: a reference count
      kept apart from the loop. */
  function Hits(commits: seq<(string, string)>, attribute: Classifier, d: string, n: nat): nat
    requires n <= |commits|
  {
    if n == 0 then 0
    else Hits(commits, attribute, d, n - 1) + (if attribute(commits[n - 1].1) == Some(d) then 1 else 0)
  }

  /** The number of the first `n` commits credited to any university. */
  function Credited(commits: seq<(string, string)>, attribute: Classifier, n: nat): nat
    requires n <= |commits|
  {
    if n == 0 then 0
    else Credited(commits, attribute, n - 1) + (if attribute(commits[n - 1].1).Some? then 1 else 0)
  }

  /** Facts about one (university, repository) tally. */
  predicate TallyOk(t: Tally, importance: nat)
  {
    && t.decay.uniform == t.commits as real
    && t.weighted == importance as real * t.decay.harmonic
  }

  /** Positions strictly increase, and all of them lie in `[0, bound)`. */
  predicate Increasing(ps: seq<real>, bound: real)
  {
    && (forall i :: 0 <= i < |ps| ==> 0.0 <= ps[i] < bound)
    && (forall i, j :: 0 <= i < j < |ps| ==> ps[i] < ps[j])
  }

  /** Facts about one contributor after the first `n` of `total` commits. */
  predicate ContributorOk(c: Contributor, importance: nat, n: nat, total: nat)
    requires 0 < total
  {
    && c.commits == |c.positions|
    && c.decay.uniform == c.commits as real
    && c.score == importance as real * c.decay.harmonic
    && Increasing(c.positions, n as real / total as real)
  }

  /** The loop invariant after the first `n` of `total` commits. */
  predicate Consistent(st: RepoTally, importance: nat, n: nat, total: nat)
    requires 0 < total
  {
    && ValidTally(st)
    && (forall d :: d in st.unis.at ==> TallyOk(st.unis.at[d], importance))
    && (forall m :: m in st.people.at ==> ContributorOk(st.people.at[m], importance, n, total))
    && SumOver(st.unis.order, st.unis.at, (t: Tally) => t.commits) == st.edu
    && SumOver(st.people.order, st.people.at, (c: Contributor) => c.commits) == st.edu
  }

  lemma AddTermKeepsTally(t: Tally, importance: nat, k: nat, total: nat, curves: Curves)
    requires k < total && TallyOk(t, importance)
    ensures TallyOk(TallyAdd(t, importance, k, total, curves), importance)
  {
    var h := 1.0 / (k + 1) as real;
    assert Weight(importance, k) == importance as real * h;
  }

  lemma AddTermKeepsContributor(c: Contributor, importance: nat, k: nat, total: nat, d: string, curves: Curves)
    requires k < total && ContributorOk(c, importance, k, total)
    ensures ContributorOk(ContributorAdd(c, importance, k, total, d, curves), importance, k + 1, total)
  {
    var h := 1.0 / (k + 1) as real;
    assert Weight(importance, k) == importance as real * h;
    var q := k as real / total as real;
    assert q < (k + 1) as real / total as real;
    var ps := c.positions + [q];
    assert forall i :: 0 <= i < |c.positions| ==> ps[i] == c.positions[i];
  }

  lemma IncreasingWeaken(ps: seq<real>, a: real, b: real)
    requires Increasing(ps, a) && a <= b
    ensures Increasing(ps, b)
  {
  }

  lemma PositionsWiden(st: RepoTally, importance: nat, k: nat, total: nat)
    requires k < total && Consistent(st, importance, k, total)
    ensures forall m :: m in st.people.at ==> ContributorOk(st.people.at[m], importance, k + 1, total)
  {
    assert k as real / total as real <= (k + 1) as real / total as real;
    forall m | m in st.people.at
      ensures ContributorOk(st.people.at[m], importance, k + 1, total)
    {
      IncreasingWeaken(st.people.at[m].positions, k as real / total as real, (k + 1) as real / total as real);
    }
  }

  lemma CreditedTallies(st: RepoTally, k: nat, total: nat, importance: nat, name: string, d: string, curves: Curves)
    requires k < total && Consistent(st, importance, k, total)
    ensures var r := Commit(st, k, total, importance, name, Some(d), curves);
      && (forall e :: e in r.unis.at ==> TallyOk(r.unis.at[e], importance))
      && SumOver(r.unis.order, r.unis.at, (t: Tally) => t.commits) == r.edu
  {
    var r := Commit(st, k, total, importance, name, Some(d), curves);
    var t := Lookup(st.unis.at, d, NewTally);
    CommitCredited(st, k, total, importance, name, d, curves);
    AddTermKeepsTally(t, importance, k, total, curves);
    forall e | e in r.unis.at
      ensures TallyOk(r.unis.at[e], importance)
    {
      if e != d {
        assert r.unis.at[e] == st.unis.at[e];
      }
    }
    SumOverPut(st.unis, d, TallyAdd(t, importance, k, total, curves), (t: Tally) => t.commits);
  }

  lemma CreditedPeople(st: RepoTally, k: nat, total: nat, importance: nat, name: string, d: string, curves: Curves)
    requires k < total && Consistent(st, importance, k, total)
    ensures var r := Commit(st, k, total, importance, name, Some(d), curves);
      && (forall m :: m in r.people.at ==> ContributorOk(r.people.at[m], importance, k + 1, total))
      && SumOver(r.people.order, r.people.at, (c: Contributor) => c.commits) == r.edu
  {
    var r := Commit(st, k, total, importance, name, Some(d), curves);
    var p := Lookup(st.people.at, name, NewContributor);
    var c := ContributorAdd(p, importance, k, total, d, curves);
    CommitCredited(st, k, total, importance, name, d, curves);
    PositionsWiden(st, importance, k, total);
    AddTermKeepsContributor(p, importance, k, total, d, curves);
    forall m | m in r.people.at
      ensures ContributorOk(r.people.at[m], importance, k + 1, total)
    {
      if m != name {
        assert r.people.at[m] == st.people.at[m];
      }
    }
    SumOverPut(st.people, name, c, (c: Contributor) => c.commits);
  }

  /** One loop step keeps the invariant. */
  lemma CommitKeeps(st: RepoTally, k: nat, total: nat, importance: nat, name: string, dom: Option<string>, curves: Curves)
    requires k < total && Consistent(st, importance, k, total)
    ensures Consistent(Commit(st, k, total, importance, name, dom, curves), importance, k + 1, total)
  {
    if dom.Some? {
      CreditedTallies(st, k, total, importance, name, dom.value, curves);
      CreditedPeople(st, k, total, importance, name, dom.value, curves);
    } else {
      PositionsWiden(st, importance, k, total);
    }
  }

  /** The loop invariant holds after every prefix: each tally's `uniform`
      sum equals its commit count and its weight is `importance` times its
      harmonic sum; each author's `commits` equals the number of recorded
      positions, which increase and lie in `[0, 1)`; and the per-university
      counts, like the per-author counts, add up to `edu_count`. */
  lemma {:induction false} ScoreCommitsConsistent(commits: seq<(string, string)>, attribute: Classifier, importance: nat, curves: Curves, n: nat)
    requires 0 < |commits| && n <= |commits|
    ensures Consistent(ScoreCommits(commits, attribute, importance, curves, n), importance, n, |commits|)
  {
    if n > 0 {
      var k := n - 1;
      var st := ScoreCommits(commits, attribute, importance, curves, k);
      ScoreCommitsConsistent(commits, attribute, importance, curves, k);
      CommitKeeps(st, k, |commits|, importance, commits[k].0, attribute(commits[k].1), curves);
      assert ScoreCommits(commits, attribute, importance, curves, n)
          == Commit(st, k, |commits|, importance, commits[k].0, attribute(commits[k].1), curves);
    }
  }

  /** Each university's commit count is the number of commits credited to
      it, a university appears exactly when some commit is credited to it,
      and `edu_count` is the number of credited commits. */
  lemma {:induction false} ScoreCommitsCounts(commits: seq<(string, string)>, attribute: Classifier, importance: nat, curves: Curves, n: nat)
    requires n <= |commits|
    ensures var r := ScoreCommits(commits, attribute, importance, curves, n);
      && r.edu == Credited(commits, attribute, n)
      && (forall d :: d in r.unis.at ==> r.unis.at[d].commits == Hits(commits, attribute, d, n))
      && (forall d :: d !in r.unis.at ==> Hits(commits, attribute, d, n) == 0)
  {
    if n > 0 {
      ScoreCommitsCounts(commits, attribute, importance, curves, n - 1);
    }
  }

  /** A commit credited to no university changes no counter. */
  lemma UncreditedCommitIgnored(commits: seq<(string, string)>, attribute: Classifier, importance: nat, curves: Curves, k: nat)
    requires k < |commits| && attribute(commits[k].1).None?
    ensures ScoreCommits(commits, attribute, importance, curves, k + 1) == ScoreCommits(commits, attribute, importance, curves, k)
  {
  }

  /** The universities the credited commits among the first `n` go to, one
      entry per commit, oldest first. */
  function CreditedDomains(commits: seq<(string, string)>, attribute: Classifier, n: nat): seq<string>
    requires n <= |commits|
  {
    if n == 0 then []
    else
      var dom := attribute(commits[n - 1].1);
      CreditedDomains(commits, attribute, n - 1) + (if dom.Some? then [dom.value] else [])
  }

  /** The authors of the credited commits among the first `n`, one entry per
      commit, oldest first. */
  function CreditedNames(commits: seq<(string, string)>, attribute: Classifier, n: nat): seq<string>
    requires n <= |commits|
  {
    if n == 0 then []
    else
      var credited := attribute(commits[n - 1].1).Some?;
      CreditedNames(commits, attribute, n - 1) + (if credited then [commits[n - 1].0] else [])
  }

  /** Universities and authors enter their tables in the order of their
      first credited commit. */
  lemma {:induction false} ScoreCommitsOrder(commits: seq<(string, string)>, attribute: Classifier, importance: nat, curves: Curves, n: nat)
    requires n <= |commits|
    ensures var r := ScoreCommits(commits, attribute, importance, curves, n);
      && r.unis.order == InsertionOrder(CreditedDomains(commits, attribute, n))
      && r.people.order == InsertionOrder(CreditedNames(commits, attribute, n))
  {
    if n > 0 {
      var k := n - 1;
      var st := ScoreCommits(commits, attribute, importance, curves, k);
      var dom := attribute(commits[k].1);
      ScoreCommitsOrder(commits, attribute, importance, curves, k);
      if dom.Some? {
        var d := dom.value;
        var name := commits[k].0;
        CommitCredited(st, k, |commits|, importance, name, d, curves);
        PutOrder(st.unis, d, TallyAdd(Lookup(st.unis.at, d, NewTally), importance, k, |commits|, curves));
        PutOrder(st.people, name, ContributorAdd(Lookup(st.people.at, name, NewContributor), importance, k, |commits|, d, curves));
        AppendNewConcat([], CreditedDomains(commits, attribute, k), [d]);
        AppendNewConcat([], CreditedNames(commits, attribute, k), [name]);
      } else {
        assert ScoreCommits(commits, attribute, importance, curves, n) == st;
        assert CreditedDomains(commits, attribute, n) == CreditedDomains(commits, attribute, k);
        assert CreditedNames(commits, attribute, n) == CreditedNames(commits, attribute, k);
      }
    }
  }

  /** The sum of `1 / (k + 1)` over the commits among the first `n` that are
      credited to `d`, `k` being the commit's position. */
  function HarmonicHits(commits: seq<(string, string)>, attribute: Classifier, d: string, n: nat): real
    requires n <= |commits|
  {
    if n == 0 then 0.0
    else
      var k := n - 1;
      HarmonicHits(commits, attribute, d, k) + (if attribute(commits[k].1) == Some(d) then 1.0 / (k + 1) as real else 0.0)
  }

  /** The sum of `(total - k) / total` over the same commits. */
  function LinearHits(commits: seq<(string, string)>, attribute: Classifier, d: string, n: nat): real
    requires n <= |commits|
  {
    if n == 0 then 0.0
    else
      var k := n - 1;
      var total := |commits|;
      LinearHits(commits, attribute, d, k) + (if attribute(commits[k].1) == Some(d) then (total - k) as real / total as real else 0.0)
  }

  /** The sum of `f(k)` over the positions `k` of the commits among the first
      `n` that are credited to `d`. */
  function UniSum(commits: seq<(string, string)>, attribute: Classifier, d: string, n: nat, f: nat -> real): real
    requires n <= |commits|
  {
    if n == 0 then 0.0
    else
      var k := n - 1;
      UniSum(commits, attribute, d, k, f) + (if attribute(commits[k].1) == Some(d) then f(k) else 0.0)
  }

  /** Each (university, repository) tally holds the sums of the supplied
      `1 / log(k + 2)` and `1 / sqrt(k + 1)` curves over the positions of the
      commits credited to that university. */
  lemma {:induction false} ScoreCommitsCurvesAt(commits: seq<(string, string)>, attribute: Classifier, importance: nat, curves: Curves, n: nat, d: string)
    requires n <= |commits|
    ensures var t := Lookup(ScoreCommits(commits, attribute, importance, curves, n).unis.at, d, NewTally);
      && t.decay.log == UniSum(commits, attribute, d, n, curves.log)
      && t.decay.sqrt == UniSum(commits, attribute, d, n, curves.sqrt)
  {
    if n > 0 {
      var k := n - 1;
      var st := ScoreCommits(commits, attribute, importance, curves, k);
      var dom := attribute(commits[k].1);
      var r := ScoreCommits(commits, attribute, importance, curves, n);
      ScoreCommitsCurvesAt(commits, attribute, importance, curves, k, d);
      assert r == Commit(st, k, |commits|, importance, commits[k].0, dom, curves);
      if dom == Some(d) {
        CommitTallyTerms(st, k, |commits|, importance, commits[k].0, d, curves);
      } else if dom.Some? {
        assert Lookup(r.unis.at, d, NewTally) == Lookup(st.unis.at, d, NewTally);
      }
    }
  }

  /** Each (university, repository) tally holds the harmonic, linear, log and
      sqrt sums over the commits credited to that university; a university
      with no tally has empty sums. */
  lemma ScoreCommitsSums(commits: seq<(string, string)>, attribute: Classifier, importance: nat, curves: Curves, n: nat)
    requires n <= |commits|
    ensures var r := ScoreCommits(commits, attribute, importance, curves, n);
      forall d :: var t := Lookup(r.unis.at, d, NewTally);
        && t.decay.harmonic == HarmonicHits(commits, attribute, d, n)
        && t.decay.linear == LinearHits(commits, attribute, d, n)
        && t.decay.log == UniSum(commits, attribute, d, n, curves.log)
        && t.decay.sqrt == UniSum(commits, attribute, d, n, curves.sqrt)
  {
    forall d
      ensures var t := Lookup(ScoreCommits(commits, attribute, importance, curves, n).unis.at, d, NewTally);
        && t.decay.harmonic == HarmonicHits(commits, attribute, d, n)
        && t.decay.linear == LinearHits(commits, attribute, d, n)
        && t.decay.log == UniSum(commits, attribute, d, n, curves.log)
        && t.decay.sqrt == UniSum(commits, attribute, d, n, curves.sqrt)
    {
      ScoreCommitsSumsAt(commits, attribute, importance, curves, n, d);
      ScoreCommitsCurvesAt(commits, attribute, importance, curves, n, d);
    }
  }

  /** `ScoreCommitsSums` for one university. */
  lemma {:induction false} ScoreCommitsSumsAt(commits: seq<(string, string)>, attribute: Classifier, importance: nat, curves: Curves, n: nat, d: string)
    requires n <= |commits|
    ensures var t := Lookup(ScoreCommits(commits, attribute, importance, curves, n).unis.at, d, NewTally);
      && t.decay.harmonic == HarmonicHits(commits, attribute, d, n)
      && t.decay.linear == LinearHits(commits, attribute, d, n)
  {
    if n > 0 {
      var k := n - 1;
      var st := ScoreCommits(commits, attribute, importance, curves, k);
      var dom := attribute(commits[k].1);
      var r := ScoreCommits(commits, attribute, importance, curves, n);
      ScoreCommitsSumsAt(commits, attribute, importance, curves, k, d);
      assert r == Commit(st, k, |commits|, importance, commits[k].0, dom, curves);
      if dom == Some(d) {
        var before := Lookup(st.unis.at, d, NewTally);
        CommitCredited(st, k, |commits|, importance, commits[k].0, d, curves);
        assert r.unis.at[d] == TallyAdd(before, importance, k, |commits|, curves);
      } else if dom.Some? {
        assert Lookup(r.unis.at, d, NewTally) == Lookup(st.unis.at, d, NewTally);
      }
    }
  }

  /** The sum of `repo_importance / (k + 1)` over the commits among the
      first `n` that are credited to `d`. */
  function WeightedHits(commits: seq<(string, string)>, attribute: Classifier, importance: nat, d: string, n: nat): real
    requires n <= |commits|
  {
    if n == 0 then 0.0
    else
      var k := n - 1;
      WeightedHits(commits, attribute, importance, d, k) + (if attribute(commits[k].1) == Some(d) then Weight(importance, k) else 0.0)
  }

  /** That sum is the importance times the harmonic sum. */
  lemma {:induction false} WeightedHitsHarmonic(commits: seq<(string, string)>, attribute: Classifier, importance: nat, d: string, n: nat)
    requires n <= |commits|
    ensures WeightedHits(commits, attribute, importance, d, n) == importance as real * HarmonicHits(commits, attribute, d, n)
  {
    if n > 0 {
      var k := n - 1;
      WeightedHitsHarmonic(commits, attribute, importance, d, k);
      if attribute(commits[k].1) == Some(d) {
        var a, h := importance as real, HarmonicHits(commits, attribute, d, k);
        var x := 1.0 / (k + 1) as real;
        ScaleByReciprocal(a, (k + 1) as real);
        Distribute(a, h, x);
      }
    }
  }

  lemma ScaleByReciprocal(a: real, b: real)
    requires b > 0.0
    ensures a / b == a * (1.0 / b)
  {
  }

  lemma Distribute(a: real, h: real, x: real)
    ensures a * (h + x) == a * h + a * x
  {
  }

  /** A university's weight in a repository is the sum of
      `repo_importance / (k + 1)` over the positions `k` of its credited
      commits. */
  lemma {:induction false} TallyWeight(commits: seq<(string, string)>, attribute: Classifier, importance: nat, curves: Curves, n: nat, d: string)
    requires n <= |commits|
    ensures Lookup(ScoreCommits(commits, attribute, importance, curves, n).unis.at, d, NewTally).weighted
         == WeightedHits(commits, attribute, importance, d, n)
  {
    if n > 0 {
      var k := n - 1;
      var st := ScoreCommits(commits, attribute, importance, curves, k);
      var dom := attribute(commits[k].1);
      var r := ScoreCommits(commits, attribute, importance, curves, n);
      TallyWeight(commits, attribute, importance, curves, k, d);
      assert r == Commit(st, k, |commits|, importance, commits[k].0, dom, curves);
      if dom == Some(d) {
        var before := Lookup(st.unis.at, d, NewTally);
        CommitCredited(st, k, |commits|, importance, commits[k].0, d, curves);
        assert r.unis.at[d] == TallyAdd(before, importance, k, |commits|, curves);
      } else if dom.Some? {
        assert Lookup(r.unis.at, d, NewTally) == Lookup(st.unis.at, d, NewTally);
      }
    }
  }

  /** The number of credited commits by `name` among the first `n`. */
  function AuthorHits(commits: seq<(string, string)>, attribute: Classifier, name: string, n: nat): nat
    requires n <= |commits|
  {
    if n == 0 then 0
    else
      var k := n - 1;
      AuthorHits(commits, attribute, name, k) + (if commits[k].0 == name && attribute(commits[k].1).Some? then 1 else 0)
  }

  /** The positions `k / total` of those commits, oldest first. */
  function AuthorPositions(commits: seq<(string, string)>, attribute: Classifier, name: string, n: nat): seq<real>
    requires n <= |commits|
  {
    if n == 0 then []
    else
      var k := n - 1;
      var mine := commits[k].0 == name && attribute(commits[k].1).Some?;
      AuthorPositions(commits, attribute, name, k) + (if mine then [k as real / |commits| as real] else [])
  }

  /** The university of the last of those commits; empty when there is none. */
  function LastDomain(commits: seq<(string, string)>, attribute: Classifier, name: string, n: nat): string
    requires n <= |commits|
  {
    if n == 0 then ""
    else
      var k := n - 1;
      var dom := attribute(commits[k].1);
      if commits[k].0 == name && dom.Some? then dom.value else LastDomain(commits, attribute, name, k)
  }

  /** The sum of `f(k)` over the positions `k` of the credited commits by
      `name` among the first `n`. */
  function AuthorSum(commits: seq<(string, string)>, attribute: Classifier, name: string, n: nat, f: nat -> real): real
    requires n <= |commits|
  {
    if n == 0 then 0.0
    else
      var k := n - 1;
      var mine := commits[k].0 == name && attribute(commits[k].1).Some?;
      AuthorSum(commits, attribute, name, k, f) + (if mine then f(k) else 0.0)
  }

  /** An author's score is the sum of `importance / (k + 1)` over the
      positions of its credited commits. */
  lemma {:induction false} AuthorScoreAt(commits: seq<(string, string)>, attribute: Classifier, importance: nat, curves: Curves, n: nat, m: string)
    requires n <= |commits|
    ensures var c := Lookup(ScoreCommits(commits, attribute, importance, curves, n).people.at, m, NewContributor);
      c.score == AuthorSum(commits, attribute, m, n, WeightTerm(importance))
  {
    if n > 0 {
      var k := n - 1;
      AuthorScoreAt(commits, attribute, importance, curves, k, m);
      AuthorTermsStep(ScoreCommits(commits, attribute, importance, curves, k), k, |commits|, importance,
                      commits[k].0, attribute(commits[k].1), curves, m);
    }
  }

  /** An author's `harmonic` and `linear` decay sums are the sums of those
      terms over the positions of its credited commits. */
  lemma {:induction false} AuthorDecayAt(commits: seq<(string, string)>, attribute: Classifier, importance: nat, curves: Curves, n: nat, m: string)
    requires n <= |commits|
    ensures var c := Lookup(ScoreCommits(commits, attribute, importance, curves, n).people.at, m, NewContributor);
      && c.decay.harmonic == AuthorSum(commits, attribute, m, n, HarmonicTerm)
      && c.decay.linear == AuthorSum(commits, attribute, m, n, LinearTerm(|commits|))
  {
    if n > 0 {
      var k := n - 1;
      AuthorDecayAt(commits, attribute, importance, curves, k, m);
      AuthorTermsStep(ScoreCommits(commits, attribute, importance, curves, k), k, |commits|, importance,
                      commits[k].0, attribute(commits[k].1), curves, m);
    }
  }

  /** An author's `log`, `sqrt` and `uniform` decay sums are the sums of those
      terms over the positions of its credited commits. */
  lemma {:induction false} AuthorCurvesAt(commits: seq<(string, string)>, attribute: Classifier, importance: nat, curves: Curves, n: nat, m: string)
    requires n <= |commits|
    ensures var c := Lookup(ScoreCommits(commits, attribute, importance, curves, n).people.at, m, NewContributor);
      && c.decay.log == AuthorSum(commits, attribute, m, n, curves.log)
      && c.decay.sqrt == AuthorSum(commits, attribute, m, n, curves.sqrt)
      && c.decay.uniform == AuthorSum(commits, attribute, m, n, UniformTerm)
  {
    if n > 0 {
      var k := n - 1;
      AuthorCurvesAt(commits, attribute, importance, curves, k, m);
      AuthorTermsStep(ScoreCommits(commits, attribute, importance, curves, k), k, |commits|, importance,
                      commits[k].0, attribute(commits[k].1), curves, m);
    }
  }

  /** Each author's entry counts that author's credited commits, records
      their positions in order, holds the university of the last one, and
      sums the weight and the five decay terms over their positions; an
      author with no entry has no credited commit. */
  lemma ScoreCommitsAuthors(commits: seq<(string, string)>, attribute: Classifier, importance: nat, curves: Curves, n: nat)
    requires n <= |commits|
    ensures var r := ScoreCommits(commits, attribute, importance, curves, n);
      forall m :: var c := Lookup(r.people.at, m, NewContributor);
        && c.commits == AuthorHits(commits, attribute, m, n)
        && c.positions == AuthorPositions(commits, attribute, m, n)
        && c.domain == LastDomain(commits, attribute, m, n)
        && c.score == AuthorSum(commits, attribute, m, n, WeightTerm(importance))
        && c.decay.harmonic == AuthorSum(commits, attribute, m, n, HarmonicTerm)
        && c.decay.linear == AuthorSum(commits, attribute, m, n, LinearTerm(|commits|))
        && c.decay.log == AuthorSum(commits, attribute, m, n, curves.log)
        && c.decay.sqrt == AuthorSum(commits, attribute, m, n, curves.sqrt)
        && c.decay.uniform == AuthorSum(commits, attribute, m, n, UniformTerm)
  {
    forall m
      ensures var c := Lookup(ScoreCommits(commits, attribute, importance, curves, n).people.at, m, NewContributor);
        && c.commits == AuthorHits(commits, attribute, m, n)
        && c.positions == AuthorPositions(commits, attribute, m, n)
        && c.domain == LastDomain(commits, attribute, m, n)
        && c.score == AuthorSum(commits, attribute, m, n, WeightTerm(importance))
        && c.decay.harmonic == AuthorSum(commits, attribute, m, n, HarmonicTerm)
        && c.decay.linear == AuthorSum(commits, attribute, m, n, LinearTerm(|commits|))
        && c.decay.log == AuthorSum(commits, attribute, m, n, curves.log)
        && c.decay.sqrt == AuthorSum(commits, attribute, m, n, curves.sqrt)
        && c.decay.uniform == AuthorSum(commits, attribute, m, n, UniformTerm)
    {
      ScoreCommitsAuthorsAt(commits, attribute, importance, curves, n, m);
      AuthorScoreAt(commits, attribute, importance, curves, n, m);
      AuthorDecayAt(commits, attribute, importance, curves, n, m);
      AuthorCurvesAt(commits, attribute, importance, curves, n, m);
    }
  }

  /** The inductive step of `ScoreCommitsAuthorsAt`, for any tables `st`
      the loop may hold before the commit at position `k`. */
  lemma AuthorCountRef(commits: seq<(string, string)>, attribute: Classifier, importance: nat, curves: Curves, k: nat, m: string,
                       st: RepoTally, r: RepoTally)
    requires k < |commits| && ValidTally(st)
    requires r == Commit(st, k, |commits|, importance, commits[k].0, attribute(commits[k].1), curves)
    requires var c := Lookup(st.people.at, m, NewContributor);
      && c.commits == AuthorHits(commits, attribute, m, k)
      && c.positions == AuthorPositions(commits, attribute, m, k)
      && c.domain == LastDomain(commits, attribute, m, k)
    ensures var a := Lookup(r.people.at, m, NewContributor);
      && a.commits == AuthorHits(commits, attribute, m, k + 1)
      && a.positions == AuthorPositions(commits, attribute, m, k + 1)
      && a.domain == LastDomain(commits, attribute, m, k + 1)
  {
    AuthorCountStep(st, k, |commits|, importance, commits[k].0, attribute(commits[k].1), curves, m);
  }

  /** `ScoreCommitsAuthors` for one author. */
  lemma {:induction false} ScoreCommitsAuthorsAt(commits: seq<(string, string)>, attribute: Classifier, importance: nat, curves: Curves, n: nat, m: string)
    requires n <= |commits|
    ensures var c := Lookup(ScoreCommits(commits, attribute, importance, curves, n).people.at, m, NewContributor);
      && c.commits == AuthorHits(commits, attribute, m, n)
      && c.positions == AuthorPositions(commits, attribute, m, n)
      && c.domain == LastDomain(commits, attribute, m, n)
  {
    if n > 0 {
      ScoreCommitsAuthorsAt(commits, attribute, importance, curves, n - 1, m);
      AuthorCountRef(commits, attribute, importance, curves, n - 1, m,
        ScoreCommits(commits, attribute, importance, curves, n - 1), ScoreCommits(commits, attribute, importance, curves, n));
    }
  }

  /** `2 * stars + total_commits`. */
  function Importance(stars: nat, totalCommits: nat): nat
  {
    2 * stars + totalCommits
  }

  /** One repository as the scoring loop sees it: its slug, its star count
      and its commits, oldest first. */
  datatype Repo = Repo(slug: string, stars: nat, commits: seq<(string, string)>)

  /** The whole commit loop of one repository. */
  function RepoScores(repo: Repo, attribute: Classifier, curves: Curves): RepoTally
  {
    var total := |repo.commits|;
    ScoreCommits(repo.commits, attribute, Importance(repo.stars, total), curves, total)
  }

  /** The tables kept across repositories: the per-(university, repository)
      tallies keyed by university then repository, the contributors of each
      repository, and `repo_stars` and `repo_total_commits`. */
  datatype Totals = Totals(
    unis: Table<Table<Tally>>,
    people: map<string, Table<Contributor>>,
    stars: map<string, nat>,
    totalCommits: map<string, nat>)

  predicate AllValid(g: Table<Table<Tally>>)
  {
    Valid(g) && forall d :: d in g.at ==> Valid(g.at[d])
  }

  /** Writes the first `n` university tallies of one repository `slug` into
      the cross-repository table. */
  function MergeUnis(g: Table<Table<Tally>>, slug: string, local: Table<Tally>, n: nat): Table<Table<Tally>>
    requires Valid(local) && n <= |local.order|
  {
    if n == 0 then g
    else
      var r := MergeUnis(g, slug, local, n - 1);
      var d := local.order[n - 1];
      Put(r, d, Put(Lookup(r.at, d, Empty()), slug, local.at[d]))
  }

  /** Merging keeps both levels of the table well formed. */
  lemma {:induction false} MergeUnisValid(g: Table<Table<Tally>>, slug: string, local: Table<Tally>, n: nat)
    requires AllValid(g) && Valid(local) && n <= |local.order|
    ensures AllValid(MergeUnis(g, slug, local, n))
  {
    if n > 0 {
      var m := n - 1;
      var e := local.order[m];
      var before := MergeUnis(g, slug, local, m);
      MergeUnisStep(g, slug, local, n, before, e);
      MergeUnisValid(g, slug, local, m);
      ValidStep(before, slug, e, local.at[e], MergeUnis(g, slug, local, n));
    }
  }

  /** Writing one cell keeps both levels well formed. */
  lemma ValidStep(before: Table<Table<Tally>>, slug: string, e: string, v: Tally, after: Table<Table<Tally>>)
    requires AllValid(before)
    requires after == Put(before, e, Put(Lookup(before.at, e, Empty()), slug, v))
    ensures AllValid(after)
  {
    assert Valid(Put(Lookup(before.at, e, Empty()), slug, v));
  }

  /** Merging sets the `slug` entry of each of the repository's
      universities and changes nothing else. */
  lemma MergeUnisAt(g: Table<Table<Tally>>, slug: string, local: Table<Tally>, n: nat, d: string)
    requires Valid(local) && n <= |local.order|
    ensures var r := MergeUnis(g, slug, local, n);
      if d in local.order[..n] then d in r.at && r.at[d].at == Lookup(g.at, d, Empty()).at[slug := local.at[d]]
      else (d in r.at <==> d in g.at) && (d in g.at ==> r.at[d] == g.at[d])
  {
    MergedUpTo(g, slug, local, n, d);
  }

  /** `MergeUnisAt`, stated with `MergedAt`. */
  lemma {:induction false} MergedUpTo(g: Table<Table<Tally>>, slug: string, local: Table<Tally>, n: nat, d: string)
    requires Valid(local) && n <= |local.order|
    ensures MergedAt(g, slug, MergeUnis(g, slug, local, n), d, d in local.order[..n], Lookup(local.at, d, NewTally))
  {
    if n > 0 {
      var m := n - 1;
      var e := local.order[m];
      MergedUpTo(g, slug, local, m, d);
      InPrefix(local.order, n, d);
      DistinctPrefix(local.order, n);
      var before := MergeUnis(g, slug, local, m);
      MergeUnisStep(g, slug, local, n, before, e);
      MergedAtStep(g, slug, before, e, local.at[e], MergeUnis(g, slug, local, n),
                   d, d in local.order[..m], d in local.order[..n], Lookup(local.at, d, NewTally));
    } else {
      assert local.order[..n] == [];
    }
  }

  /** The last step of a merge of `n` universities writes the `n`-th. */
  lemma MergeUnisStep(g: Table<Table<Tally>>, slug: string, local: Table<Tally>, n: nat, before: Table<Table<Tally>>, e: string)
    requires Valid(local) && 0 < n <= |local.order|
    requires before == MergeUnis(g, slug, local, n - 1) && e == local.order[n - 1]
    ensures e in local.at
    ensures MergeUnis(g, slug, local, n) == Put(before, e, Put(Lookup(before.at, e, Empty()), slug, local.at[e]))
  {
  }

  /** What merging has made of university `d` so far: its `slug` entry set
      to `v` if the repository's tallies for it are written (`written`),
      and the entry of `g` otherwise. */
  predicate MergedAt(g: Table<Table<Tally>>, slug: string, r: Table<Table<Tally>>, d: string, written: bool, v: Tally)
  {
    if written then d in r.at && r.at[d].at == Lookup(g.at, d, Empty()).at[slug := v]
    else (d in r.at <==> d in g.at) && (d in g.at ==> r.at[d] == g.at[d])
  }

  /** Writing university `e` keeps `MergedAt` for every university. */
  lemma MergedAtStep(g: Table<Table<Tally>>, slug: string, before: Table<Table<Tally>>, e: string, v: Tally, after: Table<Table<Tally>>,
                     d: string, written: bool, now: bool, vd: Tally)
    requires after == Put(before, e, Put(Lookup(before.at, e, Empty()), slug, v))
    requires MergedAt(g, slug, before, d, written, vd)
    requires d == e ==> !written && vd == v
    requires now == (written || d == e)
    ensures MergedAt(g, slug, after, d, now, vd)
  {
    MergeStepAt(before, slug, e, v, d);
  }

  /** One step of the merge, at university `d`. */
  lemma MergeStepAt(before: Table<Table<Tally>>, slug: string, e: string, v: Tally, d: string)
    ensures var r := Put(before, e, Put(Lookup(before.at, e, Empty()), slug, v));
      && (d == e ==> d in r.at && r.at[d].at == Lookup(before.at, e, Empty()).at[slug := v])
      && (d != e ==> (d in r.at <==> d in before.at) && (d in before.at ==> r.at[d] == before.at[d]))
  {
  }

  /** Writing one repository's tallies adds its universities that are new
      to the table at the end of the order, in the repository's own order. */
  lemma {:induction false} MergeUnisOrder(g: Table<Table<Tally>>, slug: string, local: Table<Tally>, n: nat)
    requires Valid(g) && Valid(local) && n <= |local.order|
    ensures Valid(MergeUnis(g, slug, local, n))
    ensures MergeUnis(g, slug, local, n).order == AppendNew(g.order, local.order[..n])
  {
    if n > 0 {
      var m := n - 1;
      MergeUnisOrder(g, slug, local, m);
      var r := MergeUnis(g, slug, local, m);
      var d := local.order[m];
      PutAppendNew(r, local.order, n, Put(Lookup(r.at, d, Empty()), slug, local.at[d]), g.order);
    } else {
      assert local.order[..n] == [];
    }
  }

  /** Writing one repository's tallies into a table with nothing for it yet
      appends the repository to the repository order of each of its
      universities. */
  lemma {:induction false} MergeUnisInnerOrder(g: Table<Table<Tally>>, slug: string, local: Table<Tally>, n: nat, d: string)
    requires Valid(local) && n <= |local.order| && Fresh(g, slug)
    ensures var r := MergeUnis(g, slug, local, n);
      d in r.at ==> r.at[d].order == Lookup(g.at, d, Empty()).order + (if d in local.order[..n] then [slug] else [])
  {
    if n > 0 {
      var m := n - 1;
      var e := local.order[m];
      MergeUnisInnerOrder(g, slug, local, m, d);
      MergedUpTo(g, slug, local, m, e);
      InPrefix(local.order, n, d);
      DistinctPrefix(local.order, n);
      var before := MergeUnis(g, slug, local, m);
      MergeUnisStep(g, slug, local, n, before, e);
      InnerStep(g, slug, before, e, local.at[e], MergeUnis(g, slug, local, n), d, d in local.order[..m], d in local.order[..n]);
    } else {
      assert local.order[..n] == [];
    }
  }

  /** Writing university `e` of a repository new to the table appends the
      repository to `e`'s repository order and leaves the others' orders. */
  lemma InnerStep(g: Table<Table<Tally>>, slug: string, before: Table<Table<Tally>>, e: string, v: Tally, after: Table<Table<Tally>>,
                  d: string, written: bool, now: bool)
    requires after == Put(before, e, Put(Lookup(before.at, e, Empty()), slug, v))
    requires Fresh(g, slug)
    requires d in before.at ==> before.at[d].order == Lookup(g.at, d, Empty()).order + (if written then [slug] else [])
    requires d == e ==> !written && Lookup(before.at, e, Empty()) == Lookup(g.at, e, Empty())
    requires now == (written || d == e)
    ensures d in after.at ==> after.at[d].order == Lookup(g.at, d, Empty()).order + (if now then [slug] else [])
  {
    MergeStepAt(before, slug, e, v, d);
  }

  /** The loop body for one repository, given what its commit loop produced:
      record its stars and commit count and, unless it has no commits, merge
      its tallies. */
  function ScoreRepo(t: Totals, repo: Repo, local: RepoTally): (r: Totals)
    requires ValidTally(local)
    ensures r.stars == t.stars[repo.slug := repo.stars]
    ensures r.totalCommits == t.totalCommits[repo.slug := |repo.commits|]
  {
    var t1 := t.(stars := t.stars[repo.slug := repo.stars], totalCommits := t.totalCommits[repo.slug := |repo.commits|]);
    if |repo.commits| == 0 then t1
    else
      t1.(unis := MergeUnis(t.unis, repo.slug, local.unis, |local.unis.order|),
          people := t.people[repo.slug := local.people])
  }

  /** Each repository's own commit loop. */
  function Locals(repos: seq<Repo>, attribute: Classifier, curves: Curves): (ls: seq<RepoTally>)
    ensures |ls| == |repos|
    ensures forall i :: 0 <= i < |repos| ==> ls[i] == RepoScores(repos[i], attribute, curves) && ValidTally(ls[i])
  {
    seq(|repos|, i requires 0 <= i < |repos| => RepoScores(repos[i], attribute, curves))
  }

  /** Every given tally is well formed. */
  predicate AllTallied(locals: seq<RepoTally>)
  {
    forall i :: 0 <= i < |locals| ==> ValidTally(locals[i])
  }

  /** The scoring loop over the first `n` repositories, `locals[i]` being what
      the commit loop of `repos[i]` produced. */
  function ScoreAllWith(repos: seq<Repo>, locals: seq<RepoTally>, n: nat): Totals
    requires n <= |repos| == |locals| && AllTallied(locals)
  {
    if n == 0 then Totals(Empty(), map[], map[], map[])
    else ScoreRepo(ScoreAllWith(repos, locals, n - 1), repos[n - 1], locals[n - 1])
  }

  /** The loop keeps the cross-repository table well formed. */
  lemma {:induction false} ScoreAllValid(repos: seq<Repo>, locals: seq<RepoTally>, n: nat)
    requires n <= |repos| == |locals| && AllTallied(locals)
    ensures AllValid(ScoreAllWith(repos, locals, n).unis)
  {
    if n > 0 {
      var t := ScoreAllWith(repos, locals, n - 1);
      ScoreAllValid(repos, locals, n - 1);
      if |repos[n - 1].commits| > 0 {
        MergeUnisValid(t.unis, repos[n - 1].slug, locals[n - 1].unis, |locals[n - 1].unis.order|);
      }
    }
  }

  /** The scoring loop of `main` over the first `n` repositories. */
  function ScoreAll(repos: seq<Repo>, attribute: Classifier, curves: Curves, n: nat): (r: Totals)
    requires n <= |repos|
    ensures AllValid(r.unis)
  {
    ScoreAllValid(repos, Locals(repos, attribute, curves), n);
    ScoreAllWith(repos, Locals(repos, attribute, curves), n)
  }

  /** Repository slugs are distinct (they are the keys of `repo_dirs`). */
  predicate DistinctSlugs(repos: seq<Repo>)
  {
    forall i, j :: 0 <= i < j < |repos| ==> repos[i].slug != repos[j].slug
  }

  /** The tally recorded for (`d`, `slug`), if any. */
  function Cell(g: Table<Table<Tally>>, d: string, slug: string): Option<Tally>
  {
    if d in g.at && slug in g.at[d].at then Some(g.at[d].at[slug]) else None
  }

  /** The tally a repository's own loop produced for `d`, if any. */
  function OwnCell(repo: Repo, local: RepoTally, d: string): Option<Tally>
  {
    if |repo.commits| > 0 && d in local.unis.at then Some(local.unis.at[d]) else None
  }

  /** No tally is recorded for `slug` yet. */
  predicate Fresh(g: Table<Table<Tally>>, slug: string)
  {
    forall d :: d in g.at ==> slug !in g.at[d].at
  }

  /** Merging one repository's tallies into a table with no cells for it
      sets its cells and keeps every other cell. */
  lemma CellOfMerged(g: Table<Table<Tally>>, slug: string, local: Table<Tally>, d: string, s: string)
    requires Valid(local) && Fresh(g, slug)
    ensures Cell(MergeUnis(g, slug, local, |local.order|), d, s)
         == if s == slug then (if d in local.at then Some(local.at[d]) else None) else Cell(g, d, s)
  {
    MergeUnisAt(g, slug, local, |local.order|, d);
    assert local.order[..|local.order|] == local.order;
    if d in local.order && d !in g.at {
      assert Lookup(g.at, d, Empty()) == Empty();
    }
  }

  /** One repository's step sets exactly its own cells. */
  lemma ScoreRepoCells(t: Totals, repo: Repo, local: RepoTally, d: string, slug: string)
    requires ValidTally(local) && Fresh(t.unis, repo.slug)
    ensures var r := ScoreRepo(t, repo, local);
      Cell(r.unis, d, slug) == if slug == repo.slug then OwnCell(repo, local, d) else Cell(t.unis, d, slug)
  {
    if |repo.commits| > 0 {
      CellOfMerged(t.unis, repo.slug, local.unis, d, slug);
    } else {
      FreshCells(t.unis, repo.slug);
    }
  }

  /** Nothing has been recorded for `slug`. */
  ghost predicate Untouched(t: Totals, slug: string)
  {
    Fresh(t.unis, slug) && slug !in t.people && slug !in t.stars && slug !in t.totalCommits
  }

  /** Everything recorded for `repo` is what its own loop produced. */
  ghost predicate Recorded(t: Totals, repo: Repo, local: RepoTally)
  {
    && Lookup(t.stars, repo.slug, 0) == repo.stars
    && Lookup(t.totalCommits, repo.slug, 0) == |repo.commits|
    && Lookup(t.people, repo.slug, Empty()) == (if |repo.commits| > 0 then local.people else Empty())
    && forall d :: Cell(t.unis, d, repo.slug) == OwnCell(repo, local, d)
  }

  lemma FreshCells(g: Table<Table<Tally>>, slug: string)
    ensures Fresh(g, slug) <==> forall d :: Cell(g, d, slug).None?
  {
    if !Fresh(g, slug) {
      var d :| d in g.at && slug in g.at[d].at;
      assert Cell(g, d, slug).Some?;
    }
  }

  /** A repository's step records that repository and leaves every other
      one as it was. */
  lemma ScoreRepoRecords(t: Totals, repo: Repo, local: RepoTally)
    requires ValidTally(local) && Untouched(t, repo.slug)
    ensures Recorded(ScoreRepo(t, repo, local), repo, local)
  {
    FreshCells(t.unis, repo.slug);
    forall d
      ensures Cell(ScoreRepo(t, repo, local).unis, d, repo.slug) == OwnCell(repo, local, d)
    {
      ScoreRepoCells(t, repo, local, d, repo.slug);
    }
  }

  lemma ScoreRepoKeepsOthers(t: Totals, repo: Repo, local: RepoTally, other: Repo, otherLocal: RepoTally)
    requires ValidTally(local) && Fresh(t.unis, repo.slug) && other.slug != repo.slug
    requires Recorded(t, other, otherLocal)
    ensures Recorded(ScoreRepo(t, repo, local), other, otherLocal)
  {
    forall d
      ensures Cell(ScoreRepo(t, repo, local).unis, d, other.slug) == OwnCell(other, otherLocal, d)
    {
      ScoreRepoCells(t, repo, local, d, other.slug);
    }
  }

  lemma ScoreRepoKeepsUntouched(t: Totals, repo: Repo, local: RepoTally, slug: string)
    requires ValidTally(local) && Fresh(t.unis, repo.slug) && slug != repo.slug
    requires Untouched(t, slug)
    ensures Untouched(ScoreRepo(t, repo, local), slug)
  {
    FreshCells(t.unis, slug);
    FreshCells(ScoreRepo(t, repo, local).unis, slug);
    forall d
      ensures Cell(ScoreRepo(t, repo, local).unis, d, slug).None?
    {
      ScoreRepoCells(t, repo, local, d, slug);
    }
  }

  /** Repositories not reached by the loop have nothing recorded. */
  lemma {:induction false} UntouchedBefore(repos: seq<Repo>, locals: seq<RepoTally>, n: nat, j: nat)
    requires DistinctSlugs(repos) && AllTallied(locals) && n <= j < |repos| == |locals|
    ensures Untouched(ScoreAllWith(repos, locals, n), repos[j].slug)
  {
    if n > 0 {
      var m := n - 1;
      var t := ScoreAllWith(repos, locals, m);
      ScoreAllWithStep(repos, locals, m);
      UntouchedBefore(repos, locals, m, j);
      UntouchedBefore(repos, locals, m, m);
      ScoreRepoKeepsUntouched(t, repos[m], locals[m], repos[j].slug);
    } else {
      assert ScoreAllWith(repos, locals, n) == Totals(Empty(), map[], map[], map[]);
    }
  }

  /** A repository the loop has passed holds what its own loop produced. */
  lemma {:induction false} RecordedAfter(repos: seq<Repo>, locals: seq<RepoTally>, n: nat, i: nat)
    requires DistinctSlugs(repos) && AllTallied(locals) && i < n <= |repos| == |locals|
    ensures Recorded(ScoreAllWith(repos, locals, n), repos[i], locals[i])
  {
    var m := n - 1;
    var t := ScoreAllWith(repos, locals, m);
    ScoreAllWithStep(repos, locals, m);
    UntouchedBefore(repos, locals, m, m);
    if i == m {
      ScoreRepoRecords(t, repos[i], locals[i]);
    } else {
      RecordedAfter(repos, locals, m, i);
      ScoreRepoKeepsOthers(t, repos[m], locals[m], repos[i], locals[i]);
    }
  }

  /** The loop's step for repository `i`. */
  lemma ScoreAllWithStep(repos: seq<Repo>, locals: seq<RepoTally>, i: nat)
    requires i < |repos| == |locals| && AllTallied(locals)
    ensures ScoreAllWith(repos, locals, i + 1) == ScoreRepo(ScoreAllWith(repos, locals, i), repos[i], locals[i])
  {
  }

  /** After the scoring loop over the first `n` repositories, what is
      recorded for each of them is exactly what its own commit loop
      produced, whatever order the repositories came in, and nothing is
      recorded yet for the rest. */
  lemma ScoreAllRecords(repos: seq<Repo>, attribute: Classifier, curves: Curves, n: nat)
    requires DistinctSlugs(repos) && n <= |repos|
    ensures forall i :: 0 <= i < n ==>
      Recorded(ScoreAll(repos, attribute, curves, n), repos[i], RepoScores(repos[i], attribute, curves))
    ensures forall j :: n <= j < |repos| ==> Untouched(ScoreAll(repos, attribute, curves, n), repos[j].slug)
  {
    var locals := Locals(repos, attribute, curves);
    forall i | 0 <= i < n
      ensures Recorded(ScoreAllWith(repos, locals, n), repos[i], RepoScores(repos[i], attribute, curves))
    {
      RecordedAfter(repos, locals, n, i);
    }
    forall j | n <= j < |repos|
      ensures Untouched(ScoreAllWith(repos, locals, n), repos[j].slug)
    {
      UntouchedBefore(repos, locals, n, j);
    }
  }

  /** The universities credited by the commits of the first `n`
      repositories, one entry per credited commit: repository by repository,
      oldest commit first. */
  function AllCredited(repos: seq<Repo>, attribute: Classifier, n: nat): seq<string>
    requires n <= |repos|
  {
    if n == 0 then []
    else AllCredited(repos, attribute, n - 1) + CreditedDomains(repos[n - 1].commits, attribute, |repos[n - 1].commits|)
  }

  /** The slugs of the first `n` repositories with a commit credited to `d`,
      in processing order. */
  function ReposCrediting(repos: seq<Repo>, attribute: Classifier, d: string, n: nat): seq<string>
    requires n <= |repos|
  {
    if n == 0 then []
    else
      var repo := repos[n - 1];
      var credited := d in CreditedDomains(repo.commits, attribute, |repo.commits|);
      ReposCrediting(repos, attribute, d, n - 1) + (if credited then [repo.slug] else [])
  }

  /** One repository's step adds its new universities at the end of the
      order, in the order of its own table. */
  lemma ScoreRepoOrder(t: Totals, repo: Repo, local: RepoTally)
    requires Valid(t.unis) && ValidTally(local)
    ensures ScoreRepo(t, repo, local).unis.order
         == AppendNew(t.unis.order, if |repo.commits| > 0 then local.unis.order else [])
  {
    if |repo.commits| > 0 {
      MergeUnisOrder(t.unis, repo.slug, local.unis, |local.unis.order|);
      assert local.unis.order[..|local.unis.order|] == local.unis.order;
    }
  }

  /** One repository's step, on tables with nothing for it yet, appends it
      to the repository order of each university its own table lists. */
  lemma ScoreRepoInnerOrder(t: Totals, repo: Repo, local: RepoTally, d: string)
    requires Fresh(t.unis, repo.slug) && ValidTally(local)
    ensures var g := ScoreRepo(t, repo, local).unis;
      var mine := |repo.commits| > 0 && d in local.unis.order;
      && (d in g.at <==> d in t.unis.at || mine)
      && (d in g.at ==> g.at[d].order == Lookup(t.unis.at, d, Empty()).order + (if mine then [repo.slug] else []))
  {
    if |repo.commits| > 0 {
      var local := local.unis;
      assert local.order[..|local.order|] == local.order;
      MergeUnisAt(t.unis, repo.slug, local, |local.order|, d);
      MergeUnisInnerOrder(t.unis, repo.slug, local, |local.order|, d);
    }
  }

  /** A repository's own table lists the universities its commits are
      credited to. */
  lemma RepoScoresOrder(repo: Repo, attribute: Classifier, curves: Curves)
    ensures var credited := CreditedDomains(repo.commits, attribute, |repo.commits|);
      && RepoScores(repo, attribute, curves).unis.order == InsertionOrder(credited)
      && (forall d :: d in credited <==> d in InsertionOrder(credited))
      && (|repo.commits| == 0 ==> credited == [])
  {
    ScoreCommitsOrder(repo.commits, attribute, Importance(repo.stars, |repo.commits|), curves, |repo.commits|);
    InsertionOrderFirsts(CreditedDomains(repo.commits, attribute, |repo.commits|));
  }

  /** Universities enter `uni_repo_weighted` in the order of their first
      credited commit, by repository and then by position. */
  lemma {:induction false} ScoreAllOrder(repos: seq<Repo>, attribute: Classifier, curves: Curves, n: nat)
    requires n <= |repos|
    ensures ScoreAll(repos, attribute, curves, n).unis.order == InsertionOrder(AllCredited(repos, attribute, n))
  {
    if n > 0 {
      var m := n - 1;
      ScoreAllOrder(repos, attribute, curves, m);
      ScoreAllStepOrder(repos, attribute, curves, m);
      InsertionOrderExtend(AllCredited(repos, attribute, m), CreditedDomains(repos[m].commits, attribute, |repos[m].commits|));
    }
  }

  /** Repository `i`'s step appends the universities it credits, in order
      of their first credited commit, to the order and to the credit list. */
  lemma ScoreAllStepOrder(repos: seq<Repo>, attribute: Classifier, curves: Curves, i: nat)
    requires i < |repos|
    ensures var credited := CreditedDomains(repos[i].commits, attribute, |repos[i].commits|);
      && ScoreAll(repos, attribute, curves, i + 1).unis.order == AppendNew(ScoreAll(repos, attribute, curves, i).unis.order, credited)
      && AllCredited(repos, attribute, i + 1) == AllCredited(repos, attribute, i) + credited
  {
    var locals := Locals(repos, attribute, curves);
    var t := ScoreAll(repos, attribute, curves, i);
    var repo := repos[i];
    var credited := CreditedDomains(repo.commits, attribute, |repo.commits|);
    assert ScoreAll(repos, attribute, curves, i + 1) == ScoreRepo(t, repo, locals[i]);
    ScoreRepoOrder(t, repo, locals[i]);
    RepoScoresOrder(repo, attribute, curves);
    AppendNewInsertionOrder(t.unis.order, credited);
    assert AppendNew(t.unis.order, []) == t.unis.order;
  }

  /** The slugs of the first `n` repositories whose own table, as given by
      `locals`, lists `d`; a repository without commits merges nothing. */
  function LocalsCrediting(repos: seq<Repo>, locals: seq<RepoTally>, d: string, n: nat): seq<string>
    requires n <= |repos| == |locals|
  {
    if n == 0 then []
    else
      var mine := |repos[n - 1].commits| > 0 && d in locals[n - 1].unis.order;
      LocalsCrediting(repos, locals, d, n - 1) + (if mine then [repos[n - 1].slug] else [])
  }

  /** The repository loop, for any per-repository tables: a university's
      repository order lists the repositories whose table lists it. */
  lemma {:induction false} ScoreAllWithRepoOrder(repos: seq<Repo>, locals: seq<RepoTally>, n: nat, d: string)
    requires DistinctSlugs(repos) && AllTallied(locals) && n <= |repos| == |locals|
    ensures var g := ScoreAllWith(repos, locals, n).unis;
      && (d in g.at <==> LocalsCrediting(repos, locals, d, n) != [])
      && (d in g.at ==> g.at[d].order == LocalsCrediting(repos, locals, d, n))
  {
    if n > 0 {
      ScoreAllWithRepoOrder(repos, locals, n - 1, d);
      var t := ScoreAllWith(repos, locals, n - 1);
      UntouchedBefore(repos, locals, n - 1, n - 1);
      ScoreRepoInnerOrder(t, repos[n - 1], locals[n - 1], d);
    }
  }

  /** Tables that list `d` exactly when the repository credits it give the
      crediting repositories. */
  lemma {:induction false} LocalsCreditingRepos(repos: seq<Repo>, locals: seq<RepoTally>, attribute: Classifier, d: string, n: nat)
    requires n <= |repos| == |locals|
    requires forall i :: 0 <= i < n ==>
      ((|repos[i].commits| > 0 && d in locals[i].unis.order) <==> d in CreditedDomains(repos[i].commits, attribute, |repos[i].commits|))
    ensures LocalsCrediting(repos, locals, d, n) == ReposCrediting(repos, attribute, d, n)
  {
    if n > 0 {
      LocalsCreditingRepos(repos, locals, attribute, d, n - 1);
    }
  }

  /** A repository's own table lists `d` exactly when a commit is credited
      to `d`. */
  lemma RepoListsCredited(repo: Repo, attribute: Classifier, curves: Curves, d: string)
    ensures (|repo.commits| > 0 && d in RepoScores(repo, attribute, curves).unis.order)
        <==> d in CreditedDomains(repo.commits, attribute, |repo.commits|)
  {
    RepoScoresOrder(repo, attribute, curves);
  }

  /** With distinct slugs, a university is in `uni_repo_weighted` exactly
      when some repository credits it, and its repositories are listed in
      processing order. */
  lemma ScoreAllRepoOrder(repos: seq<Repo>, attribute: Classifier, curves: Curves, n: nat, d: string)
    requires DistinctSlugs(repos) && n <= |repos|
    ensures var g := ScoreAll(repos, attribute, curves, n).unis;
      && (d in g.at <==> ReposCrediting(repos, attribute, d, n) != [])
      && (d in g.at ==> g.at[d].order == ReposCrediting(repos, attribute, d, n))
  {
    var locals := Locals(repos, attribute, curves);
    ScoreAllWithRepoOrder(repos, locals, n, d);
    forall i | 0 <= i < n
      ensures (|repos[i].commits| > 0 && d in locals[i].unis.order)
          <==> d in CreditedDomains(repos[i].commits, attribute, |repos[i].commits|)
    {
      RepoListsCredited(repos[i], attribute, curves, d);
    }
    LocalsCreditingRepos(repos, locals, attribute, d, n);
  }
}
