/**
  Alias discovery (`build_auto_aliases`) and the merge with the manual alias
  file. An author who commits under both an academic and a non-academic
  email has the non-academic ones mapped to their university, provided the
  academic ones all lead to one university.
 */
module Aliases {
  import opened Maybe
  import opened Text
  import opened Domains
  import opened GitLog
  import opened Tables

  /** The university an email stands for in the alias loop: its academic
      domain, normalised; `None` for a non-academic email. */
  function UniversityOf(email: string, uniMap: map<string, string>): (r: Option<string>)
    ensures r.Some? <==> ExtractEduDomain(email).Some?
    ensures r.Some? ==> r.value == NormalizeDomain(ExtractEduDomain(email).value, uniMap)
  {
    match ExtractEduDomain(email)
    case None => None
    case Some(d) => Some(NormalizeDomain(d, uniMap))
  }

  /** The alias rule only needs to know, of each email, which university (if
      any) it stands for. */
  type Classifier = string -> Option<string>

  /** The grouping loop of `build_auto_aliases` (`name_to_emails`): every
      (name, email) pair gathered by author name, names in first-seen order. */
  function GroupByName(pairs: seq<(string, string)>): (r: Table<set<string>>)
    ensures Valid(r)
    ensures forall n, e :: (n in r.at && e in r.at[n]) <==> (n, e) in pairs
    ensures r.order == InsertionOrder(Names(pairs))
  {
    if pairs == [] then Empty()
    else
      var before := pairs[..|pairs| - 1];
      var last := pairs[|pairs| - 1];
      assert pairs == before + [last];
      var t := GroupByName(before);
      GroupStep(before, last, t);
      Put(t, last.0, Lookup(t.at, last.0, {}) + {last.1})
  }

  /** One pair of the grouping loop. */
  lemma GroupStep(before: seq<(string, string)>, last: (string, string), t: Table<set<string>>)
    requires Valid(t)
    requires forall n, e :: (n in t.at && e in t.at[n]) <==> (n, e) in before
    requires t.order == InsertionOrder(Names(before))
    ensures var r := Put(t, last.0, Lookup(t.at, last.0, {}) + {last.1});
      && Valid(r)
      && (forall n, e :: (n in r.at && e in r.at[n]) <==> (n, e) in before + [last])
      && r.order == InsertionOrder(Names(before + [last]))
  {
    PutOrder(t, last.0, Lookup(t.at, last.0, {}) + {last.1});
    assert Names(before + [last]) == Names(before) + [last.0];
    InsertionOrderExtend(Names(before), [last.0]);
  }

  /** The author names of the pairs, in order, repeats included. */
  function Names(pairs: seq<(string, string)>): (r: seq<string>)
    ensures |r| == |pairs|
    ensures forall i :: 0 <= i < |pairs| ==> r[i] == pairs[i].0
  {
    seq(|pairs|, i requires 0 <= i < |pairs| => pairs[i].0)
  }

  /** `name_to_emails` lists every author name once, in the order of the
      name's first pair: one name precedes another exactly when its first
      commit line comes earlier. That order decides which author wins a
      shared email in the alias loop. */
  lemma GroupByNameFirstAppearance(pairs: seq<(string, string)>)
    ensures var r := GroupByName(pairs).order;
      && Distinct(r)
      && (forall n :: n in r <==> n in Names(pairs))
      && (forall i, j :: 0 <= i < |r| && 0 <= j < |r| ==>
            (i < j <==> FirstIndex(Names(pairs), r[i]) < FirstIndex(Names(pairs), r[j])))
  {
    InsertionOrderFirsts(Names(pairs));
  }

  /** `edu_domains` of one author. */
  function EduDomains(emails: set<string>, uni: Classifier): set<string>
  {
    set e | e in emails && uni(e).Some? :: uni(e).value
  }

  /** `non_edu_emails` of one author. */
  function NonEduEmails(emails: set<string>, uni: Classifier): set<string>
  {
    set e | e in emails && uni(e).None?
  }

  /** The author's emails lead to exactly one university and include at
      least one non-academic email. */
  predicate Qualifies(emails: set<string>, uni: Classifier)
  {
    |EduDomains(emails, uni)| == 1 && NonEduEmails(emails, uni) != {}
  }

  /** `e` is a non-academic email of a qualifying author. */
  predicate AliasedBy(emails: set<string>, uni: Classifier, e: string)
  {
    Qualifies(emails, uni) && e in NonEduEmails(emails, uni)
  }

  lemma SingletonAll<T>(s: set<T>)
    requires |s| == 1
    ensures forall x :: x in s ==> s == {x}
  {
    forall x | x in s
      ensures s == {x}
    {
      assert |s - {x}| == 0;
      assert s - {x} == {};
    }
  }

  /** `next(iter(s))` of a one-element set. */
  function Only(s: set<string>): (x: string)
    requires |s| == 1
    ensures s == {x}
  {
    SingletonAll(s);
    var x :| x in s;
    x
  }

  /** The aliases one author contributes: every non-academic email mapped to
      the author's single university. */
  function AliasesFor(emails: set<string>, uni: Classifier): (r: map<string, string>)
    ensures forall e :: e in r <==> AliasedBy(emails, uni, e)
    ensures forall e :: e in r ==> EduDomains(emails, uni) == {r[e]}
  {
    var domains := EduDomains(emails, uni);
    var nonEdu := NonEduEmails(emails, uni);
    if |domains| == 1 && nonEdu != {} then
      var d := Only(domains);
      map e | e in nonEdu :: d
    else map[]
  }

  /** Maps applied one after another, a later one overriding an earlier one
      on a shared key (repeated `dict.update`). */
  function Overlay<K(!new), V>(ms: seq<map<K, V>>): map<K, V>
  {
    if ms == [] then map[]
    else
      var n := |ms| - 1;
      Overlay(ms[..n]) + ms[n]
  }

  /** An overlay has exactly the keys of its maps. */
  lemma {:induction false} OverlayKeys<K(!new), V>(ms: seq<map<K, V>>)
    ensures forall k :: k in Overlay(ms) <==> exists i :: 0 <= i < |ms| && k in ms[i]
  {
    if ms != [] {
      var n := |ms| - 1;
      var pre := ms[..n];
      OverlayKeys(pre);
      assert forall j :: 0 <= j < n ==> pre[j] == ms[j];
    }
  }

  /** A key of an overlay carries the value of the last map that has it. */
  lemma {:induction false} OverlayLastWins<K(!new), V>(ms: seq<map<K, V>>, k: K) returns (i: nat)
    requires k in Overlay(ms)
    ensures i < |ms| && k in ms[i] && Overlay(ms)[k] == ms[i][k]
    ensures forall j :: i < j < |ms| ==> k !in ms[j]
  {
    var n := |ms| - 1;
    var pre := ms[..n];
    assert Overlay(ms) == Overlay(pre) + ms[n];
    if k in ms[n] {
      i := n;
    } else {
      i := OverlayLastWins(pre, k);
      assert pre[i] == ms[i];
      assert forall j :: i < j < n ==> pre[j] == ms[j];
    }
  }

  /** The aliases each author in `names` contributes, in loop order. */
  function PerAuthor(names: seq<string>, emails: map<string, set<string>>, uni: Classifier): (r: seq<map<string, string>>)
    requires forall n :: n in names ==> n in emails
    ensures |r| == |names|
    ensures forall i :: 0 <= i < |names| ==> r[i] == AliasesFor(emails[names[i]], uni)
  {
    seq(|names|, i requires 0 <= i < |names| => AliasesFor(emails[names[i]], uni))
  }

  /** The alias loop of `build_auto_aliases` over `names`, in order; a later
      author's aliases overwrite an earlier one's. */
  function AutoAliasesOver(names: seq<string>, emails: map<string, set<string>>, uni: Classifier): map<string, string>
    requires forall n :: n in names ==> n in emails
  {
    Overlay(PerAuthor(names, emails, uni))
  }

  /** The loop maps exactly the non-academic emails of qualifying authors. */
  lemma AutoAliasesKeys(names: seq<string>, emails: map<string, set<string>>, uni: Classifier)
    requires forall n :: n in names ==> n in emails
    ensures forall e :: e in AutoAliasesOver(names, emails, uni) ==> uni(e).None?
    ensures forall e :: e in AutoAliasesOver(names, emails, uni) <==>
              exists i :: 0 <= i < |names| && AliasedBy(emails[names[i]], uni, e)
  {
    OverlayKeys(PerAuthor(names, emails, uni));
  }

  /** Each discovered alias names the single university of the last author
      (in loop order) that has the email among its non-academic ones. */
  lemma LastAuthorDecides(names: seq<string>, emails: map<string, set<string>>, uni: Classifier, e: string) returns (i: nat)
    requires forall n :: n in names ==> n in emails
    requires e in AutoAliasesOver(names, emails, uni)
    ensures i < |names| && AliasedBy(emails[names[i]], uni, e)
    ensures EduDomains(emails[names[i]], uni) == {AutoAliasesOver(names, emails, uni)[e]}
    ensures forall j :: i < j < |names| ==> !AliasedBy(emails[names[j]], uni, e)
  {
    i := OverlayLastWins(PerAuthor(names, emails, uni), e);
  }

  /** The alias loop over the whole `name_to_emails` table. */
  function AutoAliases(authors: Table<set<string>>, uni: Classifier): map<string, string>
    requires Valid(authors)
  {
    AutoAliasesOver(authors.order, authors.at, uni)
  }

  /** The (name, email) pairs of all repositories, repository by repository. */
  function AllAuthorPairs(logs: seq<string>): seq<(string, string)>
  {
    if logs == [] then [] else AllAuthorPairs(logs[..|logs| - 1]) + AuthorEmailPairs(logs[|logs| - 1])
  }

  /** `build_auto_aliases` after the subprocess calls: one `git log --all`
      output per repository. No academic email is ever given an alias. */
  function BuildAutoAliases(logs: seq<string>, uniMap: map<string, string>): (r: map<string, string>)
    ensures forall e :: e in r ==> UniversityOf(e, uniMap).None?
  {
    var authors := GroupByName(AllAuthorPairs(logs));
    AutoAliasesKeys(authors.order, authors.at, Classify(uniMap));
    AutoAliases(authors, Classify(uniMap))
  }

  /** `UniversityOf` with the university map fixed. */
  function Classify(uniMap: map<string, string>): Classifier
  {
    e => UniversityOf(e, uniMap)
  }

  /** The alias rule over any classifier: an alias is only discovered for a
      non-academic email of an author name that also used an academic email,
      and whose academic emails all lead to the university the alias names. */
  lemma AliasJustified(pairs: seq<(string, string)>, uni: Classifier, e: string) returns (name: string)
    requires e in AutoAliases(GroupByName(pairs), uni)
    ensures uni(e).None?
    ensures (name, e) in pairs
    ensures exists e' :: (name, e') in pairs && uni(e').Some?
    ensures forall e' :: (name, e') in pairs && uni(e').Some? ==> uni(e').value == AutoAliases(GroupByName(pairs), uni)[e]
  {
    var authors := GroupByName(pairs);
    var r := AutoAliases(authors, uni);
    var i := LastAuthorDecides(authors.order, authors.at, uni, e);
    name := authors.order[i];
    var emails := authors.at[name];
    assert e in emails;
    assert r[e] in EduDomains(emails, uni);
    var e0 :| e0 in emails && uni(e0).Some? && uni(e0).value == r[e];
    assert (name, e0) in pairs;
    forall e' | (name, e') in pairs && uni(e').Some?
      ensures uni(e').value == r[e]
    {
      assert e' in emails;
      assert uni(e').value in EduDomains(emails, uni);
    }
  }

  /** `AliasJustified` for the classifier `build_auto_aliases` uses. */
  lemma DiscoveredAliasJustified(logs: seq<string>, uniMap: map<string, string>, e: string) returns (name: string)
    requires e in BuildAutoAliases(logs, uniMap)
    ensures UniversityOf(e, uniMap).None?
    ensures (name, e) in AllAuthorPairs(logs)
    ensures exists e' :: (name, e') in AllAuthorPairs(logs) && UniversityOf(e', uniMap).Some?
    ensures forall e' :: (name, e') in AllAuthorPairs(logs) && UniversityOf(e', uniMap).Some? ==>
              UniversityOf(e', uniMap).value == BuildAutoAliases(logs, uniMap)[e]
  {
    var pairs := AllAuthorPairs(logs);
    var uni := Classify(uniMap);
    name := AliasJustified(pairs, uni, e);
    var r := BuildAutoAliases(logs, uniMap);
    assert r == AutoAliases(GroupByName(pairs), uni);
    assert uni(e) == UniversityOf(e, uniMap);
    var e0 :| (name, e0) in pairs && uni(e0).Some?;
    assert uni(e0) == UniversityOf(e0, uniMap);
    forall e' | (name, e') in pairs && UniversityOf(e', uniMap).Some?
      ensures UniversityOf(e', uniMap).value == r[e]
    {
      assert uni(e') == UniversityOf(e', uniMap);
    }
  }

  /** `{**auto_aliases, **manual_aliases}`: the manual file wins on a clash. */
  function MergeAliases(auto: map<string, string>, manual: map<string, string>): (r: map<string, string>)
    ensures r.Keys == auto.Keys + manual.Keys
    ensures forall e :: e in manual ==> r[e] == manual[e]
    ensures forall e :: e in auto && e !in manual ==> r[e] == auto[e]
  {
    auto + manual
  }

  /** Discovered aliases never change how an academic email resolves: only
      a manual alias can. */
  lemma AcademicEmailsResolveDirectly(email: string, logs: seq<string>, uniMap: map<string, string>, manual: map<string, string>)
    requires ExtractEduDomain(email).Some?
    ensures var aliases := MergeAliases(BuildAutoAliases(logs, uniMap), manual);
      ResolveEmail(email, aliases) ==
        if Canon(email) in manual then Some(manual[Canon(email)]) else ExtractEduDomain(email)
  {
    ExtractCanon(email);
    var authors := GroupByName(AllAuthorPairs(logs));
    AutoAliasesKeys(authors.order, authors.at, Classify(uniMap));
  }
}
