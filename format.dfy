/** Formatting of one changelog line: the commit line itself, its reference
    suffix, each reference, and contributor names (src/markdown.ts:54-93). */
module Format {
  import opened Commits
  import opened Seqs
  import opened Text

  /** The address of GitHub, which every link starts with. */
  const GitHubUrl: string := "https://github.com/"

  /** Every commit line is a nested list item. */
  const ListItem: string := "  - "

  /** The warning sign (U+26A0 with emoji presentation) and two spaces. */
  const BreakingMarker: string := "\U{26A0}\U{FE0F}  "

  // ---------------------------------------------------------------------------
  // Commit lines

  /** The bold scope prefix. It is shown when the scope is set, judged before
      trimming, so a whitespace-only scope still shows as an empty bold label. */
  function ScopePrefix(scope: Option<string>): (r: string)
    ensures r == "" <==> !IsSet(scope)
    ensures IsSet(scope) ==> r == "**" + Trim(scope.value) + ":** "
  {
    if IsSet(scope) then "**" + Trim(scope.value) + ":** " else ""
  }

  /** A scope made only of whitespace still produces the (empty) bold label. */
  lemma ScopeWhitespaceOnly(s: string)
    requires s != ""
    requires forall k :: 0 <= k < |s| ==> IsWhitespace(s[k])
    ensures ScopePrefix(Some(s)) == "**:** "
  {
    TrimAllWhitespace(s);
  }

  /** The line for one commit: list item, scope, breaking marker, the
      description with its first letter upper-cased, then the references. */
  function FormatCommit(c: Commit, config: Config): string {
    ListItem + ScopePrefix(c.scope) + (if c.isBreaking then BreakingMarker else "")
    + UpperFirst(c.description) + FormatReferences(c.references, config)
  }

  /** Every line starts with the list item, then the scope prefix, and ends
      with the reference suffix. */
  lemma FormatCommitShape(c: Commit, config: Config)
    ensures var r := FormatCommit(c, config);
      && |r| >= |ListItem| + |ScopePrefix(c.scope)|
      && r[..|ListItem|] == ListItem
      && r[|ListItem|..|ListItem| + |ScopePrefix(c.scope)|] == ScopePrefix(c.scope)
      && var refs := FormatReferences(c.references, config);
         |refs| <= |r| && r[|r| - |refs|..] == refs
  {
    var marker := if c.isBreaking then BreakingMarker else "";
    FormatCommitPieces(c, config);
    PiecesSlices(FormatCommit(c, config), ListItem, ScopePrefix(c.scope), marker,
                 UpperFirst(c.description), FormatReferences(c.references, config));
  }

  /** Unfolding aid for the lemmas above and below: the five pieces of a
      commit line, in order. */
  lemma FormatCommitPieces(c: Commit, config: Config)
    ensures FormatCommit(c, config) == ListItem + ScopePrefix(c.scope)
      + (if c.isBreaking then BreakingMarker else "")
      + UpperFirst(c.description) + FormatReferences(c.references, config)
  {
  }

  /** The breaking flag changes a line in exactly one way: the marker is
      inserted right after the scope prefix, and only when the flag is set. */
  lemma FormatCommitMarker(c: Commit, config: Config)
    ensures var plain := FormatCommit(c.(isBreaking := false), config);
      var p := |ListItem| + |ScopePrefix(c.scope)|;
      p <= |plain|
      && FormatCommit(c, config) == plain[..p] + (if c.isBreaking then BreakingMarker else "") + plain[p..]
  {
    var c0 := c.(isBreaking := false);
    var head := ListItem + ScopePrefix(c.scope);
    var marker := if c.isBreaking then BreakingMarker else "";
    var tail := UpperFirst(c.description) + FormatReferences(c.references, config);
    FormatCommitPieces(c0, config);
    FormatCommitPieces(c, config);
    Regroup(ListItem, ScopePrefix(c.scope), "", UpperFirst(c.description), FormatReferences(c.references, config));
    Regroup(ListItem, ScopePrefix(c.scope), marker, UpperFirst(c.description), FormatReferences(c.references, config));
    Splice(FormatCommit(c0, config), FormatCommit(c, config), head, marker, tail);
  }

  // ---------------------------------------------------------------------------
  // References

  /** The path segment of a GitHub link for each kind of reference. The issue
      entry is the literal "ssue", exactly as the lookup table spells it. */
  function RefTypeSegment(kind: RefType): (seg: string)
    ensures |seg| >= 4
  {
    match kind
    case PullRequest => "pull"
    case Hash => "commit"
    case Issue => "ssue"
  }

  /** The three segments already differ in their first character. */
  lemma RefTypeSegmentsDiffer(k1: RefType, k2: RefType)
    requires k1 != k2
    ensures RefTypeSegment(k1)[0] != RefTypeSegment(k2)[0]
  {
  }

  /** Removes one leading '#', as `replace(/^#/, '')` does. */
  function StripHash(v: string): (id: string)
    ensures |v| > 0 && v[0] == '#' ==> ['#'] + id == v
    ensures !(|v| > 0 && v[0] == '#') ==> id == v
  {
    if |v| > 0 && v[0] == '#' then v[1..] else v
  }

  /** One reference: the raw value without a GitHub repository, otherwise a
      markdown link whose text is the raw value. */
  function FormatReference(ref: Reference, config: Config): (r: string)
    ensures !IsSet(config.github) ==> r == ref.value
    ensures IsSet(config.github) ==>
      r == "[" + ref.value + "](" + GitHubUrl + config.github.value + "/"
           + RefTypeSegment(ref.kind) + "/" + StripHash(ref.value) + ")"
    ensures IsSet(config.github) ==>
      |r| >= |ref.value| + 2 && r[..|ref.value| + 2] == "[" + ref.value + "]"
      && |r| >= |StripHash(ref.value)| + 1 && r[|r| - |StripHash(ref.value)| - 1..] == StripHash(ref.value) + ")"
  {
    if !IsSet(config.github) then ref.value
    else
      "[" + ref.value + "](" + GitHubUrl + config.github.value + "/"
      + RefTypeSegment(ref.kind) + "/" + StripHash(ref.value) + ")"
  }

  /** With a repository set, references that differ only in kind get different links. */
  lemma FormatReferenceKinds(v: string, k1: RefType, k2: RefType, config: Config)
    requires IsSet(config.github) && k1 != k2
    ensures FormatReference(Reference(k1, v), config) != FormatReference(Reference(k2, v), config)
  {
    var head := "[" + v + "](" + GitHubUrl + config.github.value + "/";
    RefTypeSegmentsDiffer(k1, k2);
    assert FormatReference(Reference(k1, v), config)[|head|] == RefTypeSegment(k1)[0];
    assert FormatReference(Reference(k2, v), config)[|head|] == RefTypeSegment(k2)[0];
  }

  /** The issue "#42" of org/repo links to the "ssue" path with the '#' dropped. */
  lemma IssueLinkExample(config: Config)
    requires config.github == Some("org/repo")
    ensures FormatReference(Reference(Issue, "#42"), config) == "[#42](" + GitHubUrl + "org/repo/ssue/42)"
  {
    assert StripHash("#42") == "42";
    assert "org/repo" + "/" + "ssue" + "/" + "42" + ")" == "org/repo/ssue/42)";
    assert "[" + "#42" + "](" == "[#42](";
  }

  predicate IsPullRequest(ref: Reference) { ref.kind == PullRequest }
  predicate IsIssue(ref: Reference) { ref.kind == Issue }
  predicate IsListed(ref: Reference) { ref.kind != Hash }

  /** The references listed when there are pull requests or issues:
      all pull requests, then all issues. */
  function Promoted(refs: seq<Reference>): seq<Reference> {
    Filter(refs, IsPullRequest) + Filter(refs, IsIssue)
  }

  /** Promotion keeps exactly the non-hash references, with every pull request
      ahead of every issue, and is empty exactly when every reference is a hash. */
  lemma PromotedSpec(refs: seq<Reference>)
    ensures multiset(Promoted(refs)) == multiset(Filter(refs, IsListed))
    ensures forall i :: 0 <= i < |Promoted(refs)| ==> Promoted(refs)[i].kind != Hash
    ensures forall i, j :: (0 <= i < j < |Promoted(refs)| && Promoted(refs)[i].kind == Issue
      ==> Promoted(refs)[j].kind == Issue)
    ensures Promoted(refs) == [] <==> forall i :: 0 <= i < |refs| ==> refs[i].kind == Hash
  {
    FilterSplit(refs, IsPullRequest, IsIssue, IsListed);
    PromotedOrder(refs);
    PromotedEmpty(refs);
  }

  /** The promoted list is the pull requests, then the issues. */
  lemma PromotedOrder(refs: seq<Reference>)
    ensures forall i :: 0 <= i < |Promoted(refs)| ==>
      && Promoted(refs)[i].kind != Hash
      && (i < |Filter(refs, IsPullRequest)| <==> Promoted(refs)[i].kind == PullRequest)
  {
    var pr := Filter(refs, IsPullRequest);
    var issue := Filter(refs, IsIssue);
    var p := Promoted(refs);
    forall i | 0 <= i < |p|
      ensures p[i].kind != Hash
      ensures i < |pr| <==> p[i].kind == PullRequest
    {
      if i < |pr| {
        assert p[i] == pr[i] && pr[i] in pr;
      } else {
        assert p[i] == issue[i - |pr|] && p[i] in issue;
      }
    }
  }

  /** Nothing is promoted exactly when every reference is a hash. */
  lemma PromotedEmpty(refs: seq<Reference>)
    ensures Promoted(refs) == [] <==> forall i :: 0 <= i < |refs| ==> refs[i].kind == Hash
  {
    var pr := Filter(refs, IsPullRequest);
    var issue := Filter(refs, IsIssue);
    if pr + issue == [] {
      forall i | 0 <= i < |refs| ensures refs[i].kind == Hash {
        assert refs[i] in refs;
        assert refs[i] !in pr && refs[i] !in issue;
      }
    } else if pr != [] {
      assert pr[0] in pr;
    } else {
      assert issue[0] in issue;
    }
  }

  function FormatReferenceWith(config: Config): Reference -> string {
    ref => FormatReference(ref, config)
  }

  /** The parenthesised reference suffix of a commit line. */
  function FormatReferences(refs: seq<Reference>, config: Config): (r: string)
    ensures r == "" <==> refs == []
    ensures r != "" ==> |r| >= 3 && r[..2] == " (" && r[|r| - 1] == ')'
    ensures Promoted(refs) != [] ==>
      r == " (" + Join(Map(Promoted(refs), FormatReferenceWith(config)), ", ") + ")"
  {
    var pr := Filter(refs, IsPullRequest);
    var issue := Filter(refs, IsIssue);
    if |pr| > 0 || |issue| > 0 then
      " (" + Join(Map(pr + issue, FormatReferenceWith(config)), ", ") + ")"
    else if |refs| > 0 then
      " (" + FormatReference(refs[0], config) + ")"
    else
      ""
  }

  /** Without pull requests or issues, every reference is a hash and only the
      first one is shown. */
  lemma FormatReferencesFallback(refs: seq<Reference>, config: Config)
    requires refs != [] && Promoted(refs) == []
    ensures forall i :: 0 <= i < |refs| ==> refs[i].kind == Hash
    ensures FormatReferences(refs, config) == " (" + FormatReference(refs[0], config) + ")"
  {
    PromotedEmpty(refs);
    assert |Filter(refs, IsPullRequest)| == 0 && |Filter(refs, IsIssue)| == 0;
  }

  /** A hash next to a pull request is not shown: only the pull request is. */
  lemma HashYieldsToPullRequest(h: Reference, p: Reference, config: Config)
    requires h.kind == Hash && p.kind == PullRequest
    ensures FormatReferences([h, p], config) == " (" + FormatReference(p, config) + ")"
  {
    assert [h, p][..1] == [h];
    assert Filter([h, p], IsPullRequest) == [p];
    assert Filter([h, p], IsIssue) == [];
    assert Promoted([h, p]) == [p];
  }

  // ---------------------------------------------------------------------------
  // Contributor names

  /** One space-separated part of a name: trimmed, first letter upper-cased. */
  function NamePart(p: string): string {
    UpperFirst(Trim(p))
  }

  /** Normalises an author name part by part; an undefined name gives "". */
  function FormatName(name: Option<string>): (r: string)
    ensures name.None? ==> r == ""
  {
    var n := if name.Some? then name.value else "";
    Join(Map(Split(n, ' '), NamePart), " ")
  }

  lemma NamePartNoSpace(p: string)
    requires ' ' !in p
    ensures ' ' !in NamePart(p)
  {
    var t := Trim(p);
    TrimMembers(p);
    if t != [] {
      assert NamePart(p) == [UpperAscii(t[0])] + t[1..];
      assert t[0] in t;
    }
  }

  /** The parts of a formatted name are the normalised parts of the input:
      in particular there are as many of them. */
  lemma {:induction false} FormatNameParts(name: Option<string>)
    ensures var n := if name.Some? then name.value else "";
      Split(FormatName(name), ' ') == Map(Split(n, ' '), NamePart)
  {
    var n := if name.Some? then name.value else "";
    var parts := Map(Split(n, ' '), NamePart);
    forall q | q in parts ensures ' ' !in q {
      var i :| 0 <= i < |parts| && parts[i] == q;
      assert Split(n, ' ')[i] in Split(n, ' ');
      NamePartNoSpace(Split(n, ' ')[i]);
    }
    SplitJoin(parts, ' ');
  }

  /** A part is already normalised after one pass. */
  lemma NamePartIdempotent(p: string)
    ensures NamePart(NamePart(p)) == NamePart(p)
  {
    var t := Trim(p);
    var u := UpperFirst(t);
    if t != [] {
      assert u[0] == UpperAscii(t[0]);
      assert u[|u| - 1] == t[|t| - 1] || (|t| == 1 && u[0] == UpperAscii(t[0]));
    }
    TrimUnchanged(u);
    UpperFirstIdempotent(t);
  }

  /** Formatting an already formatted name changes nothing. */
  lemma FormatNameIdempotent(name: Option<string>)
    ensures FormatName(Some(FormatName(name))) == FormatName(name)
  {
    var n := if name.Some? then name.value else "";
    var parts := Map(Split(n, ' '), NamePart);
    FormatNameParts(name);
    var f := FormatName(name);
    assert f == Join(parts, " ");
    var again := Map(parts, NamePart);
    forall i | 0 <= i < |parts| ensures again[i] == parts[i] {
      NamePartIdempotent(Split(n, ' ')[i]);
    }
    assert again == parts;
    assert FormatName(Some(f)) == Join(Map(Split(f, ' '), NamePart), " ");
  }

  /** "bob" and "Bob" normalise to the same contributor name. */
  lemma NameCollisionExample()
    ensures FormatName(Some("bob")) == "Bob" && FormatName(Some("Bob")) == "Bob"
  {
    SplitNoSeparator("bob", ' ');
    SplitNoSeparator("Bob", ' ');
    TrimUnchanged("bob");
    TrimUnchanged("Bob");
  }
}
