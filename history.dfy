/** An abstract Mercurial history: a finite DAG of changesets, stored in revision
    (topological) order, so that every parent has a smaller local revision number than
    its child. It gives a meaning to the revsets the bisection tool builds:
    `descendants(x)`, `id(x)`, set difference and `ancestor(a, b)`. */
module History {
  import opened Text

  /** One changeset: its full node hash and the local revision numbers of its parents. */
  datatype Changeset = Changeset(node: string, parents: seq<nat>)

  /** A repository's changelog; index `i` is local revision number `i`. */
  datatype Repo = Repo(changesets: seq<Changeset>)

  predicate IsHexDigit(ch: char)
  {
    '0' <= ch <= '9' || 'a' <= ch <= 'f'
  }

  predicate IsHex(s: string)
  {
    forall k :: 0 <= k < |s| ==> IsHexDigit(s[k])
  }

  /** Node hashes are 40 lower-case hex digits and distinct, and parents come first. */
  ghost predicate Valid(repo: Repo)
  {
    var cs := repo.changesets;
    (forall i :: 0 <= i < |cs| ==> |cs[i].node| == 40 && IsHex(cs[i].node)) &&
    (forall i, j :: 0 <= i < j < |cs| ==> cs[i].node != cs[j].node) &&
    (forall i, k :: 0 <= i < |cs| && 0 <= k < |cs[i].parents| ==> cs[i].parents[k] < i)
  }

  /** `a` is an ancestor of `b` or `b` itself (Mercurial's inclusive convention). */
  predicate IsAncestor(repo: Repo, a: nat, b: nat)
    decreases b
  {
    b < |repo.changesets| &&
    (a == b ||
     exists k :: 0 <= k < |repo.changesets[b].parents| && repo.changesets[b].parents[k] < b &&
                 IsAncestor(repo, a, repo.changesets[b].parents[k]))
  }

  /** Ancestors never have a larger revision number. */
  lemma {:induction false} AncestorPrecedes(repo: Repo, a: nat, b: nat)
    requires IsAncestor(repo, a, b)
    ensures a <= b < |repo.changesets|
    decreases b
  {
    if a != b {
      var k :| 0 <= k < |repo.changesets[b].parents| && repo.changesets[b].parents[k] < b &&
               IsAncestor(repo, a, repo.changesets[b].parents[k]);
      AncestorPrecedes(repo, a, repo.changesets[b].parents[k]);
    }
  }

  lemma {:induction false} AncestorTransitive(repo: Repo, a: nat, b: nat, c: nat)
    requires IsAncestor(repo, a, b) && IsAncestor(repo, b, c)
    ensures IsAncestor(repo, a, c)
    decreases c
  {
    if b != c {
      var k :| 0 <= k < |repo.changesets[c].parents| && repo.changesets[c].parents[k] < c &&
               IsAncestor(repo, b, repo.changesets[c].parents[k]);
      AncestorTransitive(repo, a, b, repo.changesets[c].parents[k]);
    }
  }

  lemma AncestorAntisymmetric(repo: Repo, a: nat, b: nat)
    requires IsAncestor(repo, a, b) && IsAncestor(repo, b, a)
    ensures a == b
  {
    AncestorPrecedes(repo, a, b);
    AncestorPrecedes(repo, b, a);
  }

  /** `id(h)`, and a hash written as a revision: the one changeset whose node hash starts
      with `h`. A string that starts no node hash, or starts several, resolves to nothing. */
  function Lookup(repo: Repo, id: string): (r: Option<nat>)
    ensures r.Some? ==> r.value < |repo.changesets| && id <= repo.changesets[r.value].node &&
                        forall i :: 0 <= i < |repo.changesets| && id <= repo.changesets[i].node ==> i == r.value
    ensures r.None? ==> (forall i :: 0 <= i < |repo.changesets| ==> !(id <= repo.changesets[i].node)) ||
                        exists i, j :: 0 <= i < j < |repo.changesets| &&
                                       id <= repo.changesets[i].node && id <= repo.changesets[j].node
  {
    match FirstMatch(repo.changesets, id, 0)
    case None => None
    case Some(i) =>
      match FirstMatch(repo.changesets, id, i + 1)
      case None => Some(i)
      case Some(_) => None
  }

  /** The first changeset from `from` on whose node hash starts with `id`. */
  function FirstMatch(cs: seq<Changeset>, id: string, from: nat): (r: Option<nat>)
    requires from <= |cs|
    ensures r.Some? ==> from <= r.value < |cs| && id <= cs[r.value].node &&
                        forall i :: from <= i < r.value ==> !(id <= cs[i].node)
    ensures r.None? ==> forall i :: from <= i < |cs| ==> !(id <= cs[i].node)
    decreases |cs| - from
  {
    if from == |cs| then None
    else if id <= cs[from].node then Some(from)
    else FirstMatch(cs, id, from + 1)
  }

  /** On a valid history a full node hash resolves to its own changeset. */
  lemma LookupFullHash(repo: Repo, i: nat)
    requires Valid(repo) && i < |repo.changesets|
    ensures Lookup(repo, repo.changesets[i].node) == Some(i)
  {
    var cs := repo.changesets;
    forall j | 0 <= j < |cs| && cs[i].node <= cs[j].node
      ensures j == i
    {
      assert cs[i].node == cs[j].node[..40] == cs[j].node;
    }
  }

  /** A hash prefix, such as the 12-digit ones of the known-broken table, resolves to the
      changeset it starts exactly when no other node hash starts with it. */
  lemma LookupPrefix(repo: Repo, id: string, i: nat)
    requires i < |repo.changesets| && id <= repo.changesets[i].node
    ensures Lookup(repo, id) == Some(i) <==>
            forall j :: 0 <= j < |repo.changesets| && id <= repo.changesets[j].node ==> j == i
  {
  }

  /** `descendants(x)`: every revision that has `x` as an ancestor, `x` included. */
  ghost function Descendants(repo: Repo, a: nat): set<nat>
  {
    set x | 0 <= x < |repo.changesets| && IsAncestor(repo, a, x)
  }

  /** `descendants(id(h))`: an unknown hash denotes the empty set, not an error. */
  ghost function DescendantsOfId(repo: Repo, node: string): set<nat>
  {
    match Lookup(repo, node)
    case None => {}
    case Some(a) => Descendants(repo, a)
  }

  lemma DescendantsOfIdMember(repo: Repo, id: string, a: nat, x: nat)
    requires Lookup(repo, id) == Some(a)
    ensures x in DescendantsOfId(repo, id) <==> IsAncestor(repo, a, x)
  {
  }

  /** The revisions the known-broken revset for (`firstBad`, `firstGood`) denotes:
      descendants of the first bad changeset that are not descendants of the fix, so
      branches that never got the fix stay excluded. */
  ghost function BrokenRangeMembers(repo: Repo, firstBad: string, firstGood: string): set<nat>
  {
    DescendantsOfId(repo, firstBad) - DescendantsOfId(repo, firstGood)
  }

  /** The fix itself is never in its broken range. */
  lemma BrokenRangeExcludesFirstGood(repo: Repo, firstBad: string, firstGood: string)
    requires Lookup(repo, firstGood).Some?
    ensures Lookup(repo, firstGood).value !in BrokenRangeMembers(repo, firstBad, firstGood)
  {
    var g := Lookup(repo, firstGood).value;
    assert IsAncestor(repo, g, g);
  }

  /** The first bad changeset is in its range unless it descends from the fix. */
  lemma BrokenRangeHasFirstBad(repo: Repo, firstBad: string, firstGood: string)
    requires Lookup(repo, firstBad).Some?
    ensures var b := Lookup(repo, firstBad).value;
            b in BrokenRangeMembers(repo, firstBad, firstGood) <==>
            !(Lookup(repo, firstGood).Some? && IsAncestor(repo, Lookup(repo, firstGood).value, b))
  {
    var b := Lookup(repo, firstBad).value;
    assert IsAncestor(repo, b, b);
  }

  /** The range from a changeset to itself is empty, and so is a range whose first bad
      changeset is unknown: neither is an error. */
  lemma BrokenRangeVacuous(repo: Repo, bad: string, good: string)
    ensures BrokenRangeMembers(repo, bad, bad) == {}
    ensures Lookup(repo, bad).None? ==> BrokenRangeMembers(repo, bad, good) == {}
  {
  }

  /** Every revision in a broken range descends from its first bad changeset. */
  lemma BrokenRangeWithinDescendants(repo: Repo, bad: string, good: string, x: nat)
    requires x in BrokenRangeMembers(repo, bad, good)
    ensures Lookup(repo, bad).Some? && IsAncestor(repo, Lookup(repo, bad).value, x)
    ensures !(Lookup(repo, good).Some? && IsAncestor(repo, Lookup(repo, good).value, x))
  {
  }

  /** `descendants(r1) and descendants(r2) and ...`: revisions descending from every
      listed changeset. */
  ghost predicate DescendsFromAll(repo: Repo, revs: seq<nat>, x: nat)
  {
    forall k :: 0 <= k < |revs| ==> IsAncestor(repo, revs[k], x)
  }

  lemma DescendsFromAllSnoc(repo: Repo, revs: seq<nat>, x: nat)
    requires |revs| > 0
    ensures DescendsFromAll(repo, revs, x) <==>
            DescendsFromAll(repo, revs[..|revs| - 1], x) && IsAncestor(repo, revs[|revs| - 1], x)
  {
    var n := |revs| - 1;
    assert forall k :: 0 <= k < n ==> revs[..n][k] == revs[k];
  }

  /** When the required revisions are listed latest first, each one a descendant of the
      next, the intersection of their descendants is just the descendants of the first:
      on a linear history the intersection reduces to the most restrictive bound. */
  lemma {:induction false} ChainIntersection(repo: Repo, revs: seq<nat>, x: nat)
    requires |revs| > 0
    requires forall k :: 0 <= k < |revs| - 1 ==> IsAncestor(repo, revs[k + 1], revs[k])
    ensures DescendsFromAll(repo, revs, x) <==> IsAncestor(repo, revs[0], x)
  {
    if IsAncestor(repo, revs[0], x) {
      var k := 0;
      while k < |revs| - 1
        invariant 0 <= k < |revs|
        invariant forall m :: 0 <= m <= k ==> IsAncestor(repo, revs[m], x)
      {
        AncestorTransitive(repo, revs[k + 1], revs[k], x);
        k := k + 1;
      }
    }
  }

  ghost predicate IsCommonAncestor(repo: Repo, c: nat, a: nat, b: nat)
  {
    IsAncestor(repo, c, a) && IsAncestor(repo, c, b)
  }

  /** `c` is a greatest common ancestor of `a` and `b`: a common ancestor that no other
      common ancestor descends from. Mercurial's `ancestor(a, b)` picks one of these. */
  ghost predicate IsGreatestCommonAncestor(repo: Repo, c: nat, a: nat, b: nat)
  {
    IsCommonAncestor(repo, c, a, b) &&
    forall x :: IsCommonAncestor(repo, x, a, b) && IsAncestor(repo, c, x) ==> x == c
  }

  /** When `a` is an ancestor of `b`, `a` is their greatest common ancestor. */
  lemma AncestorIsGreatestCommonAncestor(repo: Repo, a: nat, b: nat)
    requires IsAncestor(repo, a, b)
    ensures IsGreatestCommonAncestor(repo, a, a, b)
  {
    AncestorPrecedes(repo, a, b);
    assert IsAncestor(repo, a, a);
    forall x | IsCommonAncestor(repo, x, a, b) && IsAncestor(repo, a, x)
      ensures x == a
    {
      AncestorAntisymmetric(repo, a, x);
    }
  }

  /** A greatest common ancestor of `a` and `b` is `a` itself exactly when `a` is an
      ancestor of `b`. */
  lemma GreatestCommonAncestorIsFirst(repo: Repo, c: nat, a: nat, b: nat)
    requires IsGreatestCommonAncestor(repo, c, a, b)
    ensures c == a <==> IsAncestor(repo, a, b)
  {
    if IsAncestor(repo, a, b) {
      AncestorPrecedes(repo, a, b);
      assert IsAncestor(repo, a, a);
      assert IsCommonAncestor(repo, a, a, b);
    }
  }
}
