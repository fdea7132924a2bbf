/**
  Email to institution resolution (scripts/collect.py, `extract_edu_domain`,
  `normalize_domain`, `resolve_email`).
 */
module Domains {
  import opened Maybe
  import opened Text

  /** The academic suffixes the collector accepts. */
  predicate IsAcademic(domain: string)
  {
    || EndsWith(domain, ".edu")
    || EndsWith(domain, ".ac.uk")
    || EndsWith(domain, ".ethz.ch")
    || EndsWith(domain, ".epfl.ch")
    || EndsWith(domain, ".utoronto.ca")
  }

  /** `extract_edu_domain` on an email that is already lower-cased and
      stripped: the text after the `@`, when there is exactly one `@`,
      something follows it, and that ends in an academic suffix. */
  function DomainAfterAt(e: string): (r: Option<string>)
    ensures r.Some? ==>
      && |r.value| < |e|
      && e[|e| - |r.value| - 1] == '@'
      && e[|e| - |r.value|..] == r.value
      && '@' !in r.value
      && r.value != []
      && IsAcademic(r.value)
  {
    if '@' !in e then None
    else
      var domain := e[IndexOf(e, '@') + 1..];
      if domain == [] || '@' in domain then None
      else if !IsAcademic(domain) then None
      else Some(domain)
  }

  /** `d` is the non-empty, `@`-free, academic text after an `@` that ends
      `e`. */
  predicate AfterAt(d: string, e: string)
  {
    && |d| < |e|
    && e[|e| - |d| - 1] == '@'
    && e[|e| - |d|..] == d
    && '@' !in d
    && d != []
    && IsAcademic(d)
  }

  /** `extract_edu_domain`: an accepted domain is the non-empty, `@`-free,
      academic text after the `@` of the lower-cased, stripped email. */
  function ExtractEduDomain(email: string): (r: Option<string>)
    ensures r.Some? ==> AfterAt(r.value, Canon(email))
  {
    DomainAfterAt(Canon(email))
  }

  /** Cutting at the first `@`: one `@` there, the rest after it. */
  lemma CountAtFirst(e: string, c: char)
    requires c in e
    ensures Count(e, c) == 1 + Count(e[IndexOf(e, c) + 1..], c)
  {
    var i := IndexOf(e, c);
    var after := e[i + 1..];
    assert e == e[..i] + ([e[i]] + after);
    CountConcat(e[..i], [e[i]] + after, c);
    CountConcat([e[i]], after, c);
  }

  /** An accepted email has one `@`, and the domain follows it. */
  lemma AcceptedHasOneAt(e: string)
    requires DomainAfterAt(e).Some?
    ensures Count(e, '@') == 1
    ensures var i := IndexOf(e, '@');
      0 <= i < |e| - 1 && e[i] == '@' && IsAcademic(e[i + 1..])
  {
    var i := IndexOf(e, '@');
    CountAtFirst(e, '@');
    assert DomainAfterAt(e).value == e[i + 1..];
  }

  /** With a single `@`, any `@` found is the first and the last. */
  lemma OnlyAt(e: string, j: nat)
    requires Count(e, '@') == 1 && j < |e| && e[j] == '@'
    ensures IndexOf(e, '@') == j && '@' !in e[j + 1..]
  {
    var i := IndexOf(e, '@');
    CountAtFirst(e, '@');
    NotInSlice(e, 0, i, '@');
    assert e[i + 1..] == e[i + 1..|e|];
    NotInSlice(e, i + 1, |e|, '@');
  }

  /** An email with one `@`, followed by an academic domain, is accepted. */
  lemma OneAtAccepted(e: string, j: nat)
    requires Count(e, '@') == 1
    requires j < |e| - 1 && e[j] == '@' && IsAcademic(e[j + 1..])
    ensures DomainAfterAt(e) == Some(e[j + 1..])
  {
    OnlyAt(e, j);
    assert |e[j + 1..]| > 0;
  }

  /** Exactly when `extract_edu_domain` accepts a lower-cased, stripped email:
      one `@`, followed by a non-empty academic domain. */
  lemma DomainAfterAtAccepts(e: string)
    ensures DomainAfterAt(e).Some? <==>
        && Count(e, '@') == 1
        && exists i :: 0 <= i < |e| - 1 && e[i] == '@' && IsAcademic(e[i + 1..])
  {
    if DomainAfterAt(e).Some? {
      AcceptedHasOneAt(e);
      var i := IndexOf(e, '@');
      assert 0 <= i < |e| - 1 && e[i] == '@' && IsAcademic(e[i + 1..]);
    }
    if Count(e, '@') == 1 && exists i :: 0 <= i < |e| - 1 && e[i] == '@' && IsAcademic(e[i + 1..]) {
      var j :| 0 <= j < |e| - 1 && e[j] == '@' && IsAcademic(e[j + 1..]);
      OneAtAccepted(e, j);
    }
  }

  /** The same, for an arbitrary email. */
  lemma ExtractEduDomainAccepts(email: string)
    ensures var e := Canon(email);
      ExtractEduDomain(email).Some? <==>
        && Count(e, '@') == 1
        && exists i :: 0 <= i < |e| - 1 && e[i] == '@' && IsAcademic(e[i + 1..])
  {
    DomainAfterAtAccepts(Canon(email));
  }

  /** `t` is what follows some `.` of `d`: one of the parent domains of `d`
      (`berkeley.edu` and `edu` for `eecs.berkeley.edu`). */
  predicate IsDotSuffix(t: string, d: string)
  {
    && |t| < |d|
    && d[|d| - |t| - 1] == '.'
    && d[|d| - |t|..] == t
  }

  lemma DotSuffixTransitive(t: string, u: string, d: string)
    requires IsDotSuffix(t, u) && IsDotSuffix(u, d)
    ensures IsDotSuffix(t, d)
  {
    assert d[|d| - |t| - 1] == u[|u| - |t| - 1];
    assert d[|d| - |t|..] == u[|u| - |t|..];
  }

  /** The loop of `normalize_domain`: tries `".".join(parts[i:])` for i from
      `top` down to 1, the shortest candidate first. */
  function NormalizeFrom(domain: string, parts: seq<string>, top: nat, uniMap: map<string, string>): string
    requires top < |parts|
    decreases top
  {
    if top == 0 then domain
    else
      var candidate := Join('.', parts[top..]);
      if candidate in uniMap then candidate
      else NormalizeFrom(domain, parts, top - 1, uniMap)
  }

  /** `normalize_domain`: the domain itself, or one of its parent domains
      that is a key of the university map. */
  function NormalizeDomain(domain: string, uniMap: map<string, string>): (r: string)
    ensures r == domain || (IsDotSuffix(r, domain) && r in uniMap)
  {
    var parts := Split(domain, '.');
    NormalizeFromFindsLast(domain, parts, |parts| - 1, uniMap);
    var j := LastKeyTail(parts, |parts| - 1, uniMap);
    if j == 0 then NormalizeFrom(domain, parts, |parts| - 1, uniMap)
    else
      JoinedTailIsDotSuffix(domain, j);
      NormalizeFrom(domain, parts, |parts| - 1, uniMap)
  }

  /** A domain with a dot splits into the label before the first dot and the
      split of the rest, which is a parent domain. */
  lemma SplitFirstDot(d: string)
    requires '.' in d
    ensures var rest := d[IndexOf(d, '.') + 1..];
      && Split(d, '.') == [d[..IndexOf(d, '.')]] + Split(rest, '.')
      && IsDotSuffix(rest, d)
  {
    var p := IndexOf(d, '.');
    assert d[|d| - |d[p + 1..]|..] == d[p + 1..];
  }

  /** Dropping the first part shifts the tails by one. */
  lemma TailOfCons(x: string, later: seq<string>, i: nat)
    requires 1 <= i <= |later| + 1
    ensures Tail([x] + later, i) == Tail(later, i - 1)
  {
    assert ([x] + later)[i..] == later[i - 1..];
  }

  /** What follows the first `.` of a domain is a parent domain. */
  lemma RestIsDotSuffix(d: string)
    requires '.' in d
    ensures IsDotSuffix(d[IndexOf(d, '.') + 1..], d)
  {
  }

  /** The tail `parts[i:]` of a split re-joins into a parent domain. */
  lemma {:induction false} JoinedTailIsDotSuffix(d: string, i: nat)
    requires 1 <= i < |Split(d, '.')|
    ensures IsDotSuffix(Tail(Split(d, '.'), i), d)
    decreases |d|
  {
    assert '.' in d;
    var rest := d[IndexOf(d, '.') + 1..];
    SplitFirstDot(d);
    var later := Split(rest, '.');
    TailOfCons(d[..IndexOf(d, '.')], later, i);
    if i == 1 {
      JoinSplit(rest, '.');
      assert later[0..] == later;
      RestIsDotSuffix(d);
    } else {
      JoinedTailIsDotSuffix(rest, i - 1);
      DotSuffixTransitive(Tail(later, i - 1), rest, d);
    }
  }

  /** The index of the tail that spells the parent domain `t`. */
  lemma {:induction false} DotSuffixIndex(t: string, d: string) returns (i: nat)
    requires IsDotSuffix(t, d)
    ensures 1 <= i < |Split(d, '.')| && Tail(Split(d, '.'), i) == t
    decreases |d|
  {
    var j := |d| - |t| - 1;
    assert d[j] == '.';
    var p := IndexOf(d, '.');
    NotInSlice(d, 0, p, '.');
    var rest := d[p + 1..];
    SplitFirstDot(d);
    var later := Split(rest, '.');
    if p == j {
      JoinSplit(rest, '.');
      assert rest == t;
      TailOfCons(d[..p], later, 1);
      assert later[0..] == later;
      i := 1;
    } else {
      assert IsDotSuffix(t, rest) by {
        assert rest[|rest| - |t| - 1] == d[j];
        assert rest[|rest| - |t|..] == d[|d| - |t|..];
      }
      var i' := DotSuffixIndex(t, rest);
      TailOfCons(d[..p], later, i' + 1);
      i := i' + 1;
    }
  }

  /** Every parent domain of `d` is one of the tails the loop tries. */
  lemma DotSuffixIsJoinedTail(t: string, d: string)
    requires IsDotSuffix(t, d)
    ensures exists i :: 1 <= i < |Split(d, '.')| && Tail(Split(d, '.'), i) == t
  {
    var i := DotSuffixIndex(t, d);
  }

  /** Later tails are strictly shorter. */
  lemma {:induction false} JoinedTailShrinks(parts: seq<string>, i: nat, j: nat)
    requires i < j < |parts|
    ensures |Join('.', parts[i..])| > |Join('.', parts[j..])|
    decreases j - i
  {
    assert parts[i..][1..] == parts[i + 1..];
    JoinFront('.', parts[i..]);
    if i + 1 < j {
      JoinedTailShrinks(parts, i + 1, j);
    }
  }

  /** The candidate `".".join(parts[i:])`. */
  function Tail(parts: seq<string>, i: nat): string
    requires i <= |parts|
  {
    Join('.', parts[i..])
  }

  /** The index of the first tail the loop finds among `top` down to 1, or
      0 when it finds none. */
  function LastKeyTail(parts: seq<string>, top: nat, uniMap: map<string, string>): (j: nat)
    requires top < |parts|
    ensures j <= top
    ensures j > 0 ==> Tail(parts, j) in uniMap
    ensures forall i :: j < i <= top ==> Tail(parts, i) !in uniMap
    decreases top
  {
    if top == 0 || Tail(parts, top) in uniMap then top
    else LastKeyTail(parts, top - 1, uniMap)
  }

  /** What the loop returns: the tail `LastKeyTail` names, or the domain. */
  lemma {:induction false} NormalizeFromFindsLast(d: string, parts: seq<string>, top: nat, uniMap: map<string, string>)
    requires top < |parts|
    ensures var j := LastKeyTail(parts, top, uniMap);
      NormalizeFrom(d, parts, top, uniMap) == if j == 0 then d else Tail(parts, j)
    decreases top
  {
    if top > 0 && Tail(parts, top) !in uniMap {
      NormalizeFromFindsLast(d, parts, top - 1, uniMap);
    }
  }

  /** A key tail found by the loop is no longer than any other key tail. */
  lemma LastKeyTailShortest(parts: seq<string>, top: nat, uniMap: map<string, string>, i: nat)
    requires top < |parts|
    requires 1 <= i <= top && Tail(parts, i) in uniMap
    ensures var j := LastKeyTail(parts, top, uniMap);
      j >= i && |Tail(parts, j)| <= |Tail(parts, i)|
  {
    var j := LastKeyTail(parts, top, uniMap);
    if i < j {
      JoinedTailShrinks(parts, i, j);
    }
  }

  /** Any parent domain that is a key bounds the tail the loop finds. */
  lemma KeyTailNoLonger(d: string, uniMap: map<string, string>, t: string)
    requires IsDotSuffix(t, d) && t in uniMap
    ensures var parts := Split(d, '.');
      var j := LastKeyTail(parts, |parts| - 1, uniMap);
      1 <= j && |Tail(parts, j)| <= |t|
  {
    var i := DotSuffixIndex(t, d);
    var parts := Split(d, '.');
    LastKeyTailShortest(parts, |parts| - 1, uniMap, i);
  }

  /** When some parent domain is a known university, `normalize_domain`
      returns the shortest such parent. */
  lemma NormalizeFindsShortestParent(d: string, uniMap: map<string, string>)
    requires exists t :: IsDotSuffix(t, d) && t in uniMap
    ensures var r := NormalizeDomain(d, uniMap);
      && IsDotSuffix(r, d)
      && r in uniMap
      && forall t :: IsDotSuffix(t, d) && t in uniMap ==> |r| <= |t|
  {
    var parts := Split(d, '.');
    var top := |parts| - 1;
    var j := LastKeyTail(parts, top, uniMap);
    NormalizeFromFindsLast(d, parts, top, uniMap);
    var t :| IsDotSuffix(t, d) && t in uniMap;
    KeyTailNoLonger(d, uniMap, t);
    JoinedTailIsDotSuffix(d, j);
    var r := NormalizeDomain(d, uniMap);
    assert r == Tail(parts, j);
    forall t' | IsDotSuffix(t', d) && t' in uniMap
      ensures |r| <= |t'|
    {
      KeyTailNoLonger(d, uniMap, t');
    }
  }

  /** When no parent domain is a known university, `normalize_domain` returns
      its input unchanged. */
  lemma NormalizeKeepsUnknown(d: string, uniMap: map<string, string>)
    requires forall t :: IsDotSuffix(t, d) ==> t !in uniMap
    ensures NormalizeDomain(d, uniMap) == d
  {
    var parts := Split(d, '.');
    var top := |parts| - 1;
    NormalizeFromFindsLast(d, parts, top, uniMap);
    forall i | 1 <= i <= top
      ensures Tail(parts, i) !in uniMap
    {
      JoinedTailIsDotSuffix(d, i);
    }
  }

  /** A domain without a dot is never changed. */
  lemma NormalizeSingleLabel(d: string, uniMap: map<string, string>)
    requires '.' !in d
    ensures NormalizeDomain(d, uniMap) == d
  {
    NormalizeKeepsUnknown(d, uniMap);
  }

  /** Normalising twice is normalising once. */
  lemma NormalizeIdempotent(d: string, uniMap: map<string, string>)
    ensures NormalizeDomain(NormalizeDomain(d, uniMap), uniMap) == NormalizeDomain(d, uniMap)
  {
    var r := NormalizeDomain(d, uniMap);
    if exists t :: IsDotSuffix(t, d) && t in uniMap {
      NormalizeFindsShortestParent(d, uniMap);
      forall t | IsDotSuffix(t, r)
        ensures t !in uniMap
      {
        DotSuffixTransitive(t, r, d);
      }
      NormalizeKeepsUnknown(r, uniMap);
    } else {
      NormalizeKeepsUnknown(d, uniMap);
    }
  }

  /** `resolve_email`: an alias of the lower-cased, stripped email wins,
      otherwise the academic domain of the email, if any. */
  function ResolveEmail(email: string, aliases: map<string, string>): (r: Option<string>)
    ensures Canon(email) in aliases ==> r == Some(aliases[Canon(email)])
    ensures Canon(email) !in aliases ==> r == ExtractEduDomain(email)
  {
    var e := Canon(email);
    if e in aliases then Some(aliases[e])
    else
      ExtractCanon(email);
      ExtractEduDomain(e)
  }

  /** Extraction sees an email exactly as it sees its canonical form. */
  lemma ExtractCanon(email: string)
    ensures ExtractEduDomain(Canon(email)) == ExtractEduDomain(email)
  {
    CanonIdempotent(email);
  }
}
