/** groupBy (src/markdown.ts:95-102): commits partitioned by their type,
    each group in input order. */
module Grouping {
  import opened Commits
  import opened Seqs

  /** The commits of one type, in input order: the group groupBy builds for `k`. */
  function OfType(commits: seq<Commit>, k: string): seq<Commit> {
    Filter(commits, (c: Commit) => c.kind == k)
  }

  /** The types that occur among the commits: the keys groupBy creates. */
  function KindsOf(commits: seq<Commit>): set<string> {
    set c | c in commits :: c.kind
  }

  /** `groups` is the grouping of `commits`: one key per type that occurs,
      mapped to the non-empty group of that type. */
  predicate Grouped(groups: map<string, seq<Commit>>, commits: seq<Commit>) {
    && groups.Keys == KindsOf(commits)
    && forall k :: k in groups ==> groups[k] == OfType(commits, k) && groups[k] != []
  }

  /** The group a commit is appended to: the existing one, or a new empty one. */
  function GroupOf(groups: map<string, seq<Commit>>, k: string): seq<Commit> {
    if k in groups then groups[k] else []
  }

  /** Builds the groups by appending each commit to the group of its type,
      creating the group on first use. */
  method GroupBy(commits: seq<Commit>) returns (groups: map<string, seq<Commit>>)
    ensures Grouped(groups, commits)
  {
    groups := map[];
    for i := 0 to |commits|
      invariant Grouped(groups, commits[..i])
    {
      var c := commits[i];
      assert commits[..i + 1] == commits[..i] + [c];
      GroupedSnoc(groups, commits[..i], c);
      groups := groups[c.kind := GroupOf(groups, c.kind) + [c]];
    }
    assert commits[..|commits|] == commits;
  }

  /** Appending one commit to the group of its type keeps the grouping exact. */
  lemma GroupedSnoc(groups: map<string, seq<Commit>>, prefix: seq<Commit>, c: Commit)
    requires Grouped(groups, prefix)
    ensures Grouped(groups[c.kind := GroupOf(groups, c.kind) + [c]], prefix + [c])
  {
    var updated := groups[c.kind := GroupOf(groups, c.kind) + [c]];
    KindsSnoc(prefix, c);
    forall k | k in updated
      ensures updated[k] == OfType(prefix + [c], k) && updated[k] != []
    {
      OfTypeSnoc(prefix, c, k);
      if k == c.kind && k !in groups {
        NewKind(prefix, k);
      }
    }
  }

  /** One more commit adds its type to the types that occur. */
  lemma KindsSnoc(prefix: seq<Commit>, c: Commit)
    ensures KindsOf(prefix + [c]) == KindsOf(prefix) + {c.kind}
  {
  }

  /** One more commit goes to the end of the group of its type and leaves
      the other groups alone. */
  lemma OfTypeSnoc(prefix: seq<Commit>, c: Commit, k: string)
    ensures OfType(prefix + [c], k) == OfType(prefix, k) + (if c.kind == k then [c] else [])
  {
    FilterAppend(prefix, [c], (x: Commit) => x.kind == k);
  }

  /** A type that does not occur has an empty group. */
  lemma NewKind(prefix: seq<Commit>, k: string)
    requires k !in KindsOf(prefix)
    ensures OfType(prefix, k) == []
  {
    forall x | x in prefix ensures x.kind != k {
      assert x.kind in KindsOf(prefix);
    }
  }

  /** Every commit lands in the group of its own type, as often as it occurs
      in the input, and in no other group. */
  lemma GroupPartition(commits: seq<Commit>, k: string, c: Commit)
    ensures multiset(OfType(commits, k))[c] == if c.kind == k then multiset(commits)[c] else 0
  {
    FilterCount(commits, (x: Commit) => x.kind == k, c);
  }

  /** Groups keep input order: the group of a concatenation is the
      concatenation of the groups. */
  lemma GroupOrder(a: seq<Commit>, b: seq<Commit>, k: string)
    ensures OfType(a + b, k) == OfType(a, k) + OfType(b, k)
  {
    FilterAppend(a, b, (x: Commit) => x.kind == k);
  }
}
