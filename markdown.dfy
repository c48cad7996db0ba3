/** generateMarkDown (src/markdown.ts:6-52): the title, one section per
    configured type, the breaking-changes section and the contributors
    section, joined with newlines and trimmed. */
module Markdown {
  import opened Commits
  import opened Seqs
  import opened Text
  import opened Order
  import opened Format
  import opened Grouping

  const BreakingHeading: string := "#### \U{26A0}\U{FE0F}  Breaking Changes"
  const ContributorsHeading: string := "### " + "\U{2764}\U{FE0F}  Contributors"

  // ---------------------------------------------------------------------------
  // Title

  /** The compare link, empty when no repository is set. */
  function CompareLink(config: Config): (link: string)
    ensures link != "" <==> IsSet(config.github)
    ensures IsSet(config.github) ==>
      link == GitHubUrl + config.github.value + "/compare/" + config.from + "..." + config.to
  {
    if IsSet(config.github)
    then GitHubUrl + config.github.value + "/compare/" + config.from + "..." + config.to
    else ""
  }

  /** The version title: a link to the comparison when a repository is set,
      the plain version range otherwise. Both shapes end with ')'. */
  function TitleLine(config: Config): (t: string)
    ensures |t| >= 4 && t[..3] == "## " && t[0] == '#' && t[|t| - 1] == ')'
    ensures IsSet(config.github) ==> t == "## [" + config.to + "](" + CompareLink(config) + ")"
    ensures !IsSet(config.github) ==> t == "## " + config.to + " (" + config.from + ".." + config.to + ")"
  {
    var link := CompareLink(config);
    "## " + (if link != "" then "[" + config.to + "](" + link + ")"
             else config.to + " (" + config.from + ".." + config.to + ")")
  }

  // ---------------------------------------------------------------------------
  // Sections

  function CommitLine(config: Config): Commit -> string {
    c => FormatCommit(c, config)
  }

  /** The formatted lines of some commits, in the given order. */
  function FormatLines(commits: seq<Commit>, config: Config): seq<string> {
    Map(commits, CommitLine(config))
  }

  predicate IsBreakingCommit(c: Commit) { c.isBreaking }

  /** The section of one configured type: nothing when no commit has that
      type, otherwise a blank line, the heading, a blank line and the lines of
      the type's commits, last commit first. */
  function Block(commits: seq<Commit>, entry: TypeEntry, config: Config): (r: seq<string>)
    ensures var g := OfType(commits, entry.key);
      && (r == [] <==> g == [])
      && (g != [] ==>
        && |r| == 3 + |g|
        && r[..3] == ["", "### " + entry.title, ""]
        && forall i :: 3 <= i < |r| ==> r[i] == FormatCommit(g[|g| + 2 - i], config))
  {
    var g := OfType(commits, entry.key);
    if g == [] then [] else ["", "### " + entry.title, ""] + FormatLines(Reversed(g), config)
  }

  /** The sections of the configured types, in configured order. */
  function Sections(commits: seq<Commit>, types: seq<TypeEntry>, config: Config): seq<string>
    decreases |types|
  {
    if types == [] then []
    else Sections(commits, types[..|types| - 1], config) + Block(commits, types[|types| - 1], config)
  }

  /** The commits whose lines are emitted, in emission order. */
  function Emitted(commits: seq<Commit>, types: seq<TypeEntry>): seq<Commit>
    decreases |types|
  {
    if types == [] then []
    else Emitted(commits, types[..|types| - 1]) + Reversed(OfType(commits, types[|types| - 1].key))
  }

  /** The breaking-changes accumulator: the lines of the emitted breaking
      commits, in emission order. */
  function BreakingLines(commits: seq<Commit>, types: seq<TypeEntry>, config: Config): seq<string> {
    FormatLines(Filter(Emitted(commits, types), IsBreakingCommit), config)
  }

  function BreakingSection(lines: seq<string>): seq<string> {
    if lines == [] then [] else ["", BreakingHeading, ""] + lines
  }

  // ---------------------------------------------------------------------------
  // Contributors

  function AuthorName(a: Author): string {
    FormatName(a.name)
  }

  /** The authors of all commits, in order. */
  function AuthorsOf(commits: seq<Commit>): (authors: seq<Author>)
    ensures forall a :: a in authors <==> exists c :: c in commits && a in c.authors
    decreases |commits|
  {
    if commits == [] then []
    else
      var init := commits[..|commits| - 1];
      assert commits == init + [commits[|commits| - 1]];
      AuthorsOf(init) + commits[|commits| - 1].authors
  }

  /** The formatted names of the authors of all commits, in order (the flatMap). */
  function AuthorNames(commits: seq<Commit>): seq<string> {
    Map(AuthorsOf(commits), AuthorName)
  }

  /** The contributors: the formatted author names of all commits, each once,
      sorted. */
  function Contributors(commits: seq<Commit>): seq<string> {
    Sort(Uniq(AuthorNames(commits)))
  }

  function Bullet(name: string): string {
    "- " + name
  }

  function ContributorsSection(names: seq<string>): seq<string> {
    if names == [] then [] else ["", ContributorsHeading, ""] + Map(names, Bullet)
  }

  // ---------------------------------------------------------------------------
  // The document

  /** The lines of the changelog, before joining. */
  function Markdown(commits: seq<Commit>, config: Config): seq<string> {
    ["", TitleLine(config), ""]
    + Sections(commits, config.types, config)
    + BreakingSection(BreakingLines(commits, config.types, config))
    + ContributorsSection(Contributors(commits))
  }

  /** The changelog text: the lines joined with newlines and trimmed. */
  function Render(commits: seq<Commit>, config: Config): string {
    Trim(Join(Markdown(commits, config), "\n"))
  }

  // ---------------------------------------------------------------------------
  // Properties of the document

  /** The lines of the changelog start with a blank line and the title. */
  lemma MarkdownHead(commits: seq<Commit>, config: Config)
    ensures var lines := Markdown(commits, config);
      |lines| >= 2 && lines[0] == "" && lines[1] == TitleLine(config)
  {
    var head := ["", TitleLine(config), ""];
    HeadOfAppend(head, Sections(commits, config.types, config),
                 BreakingSection(BreakingLines(commits, config.types, config)),
                 ContributorsSection(Contributors(commits)));
    assert Markdown(commits, config)[..3][0] == head[0] && Markdown(commits, config)[..3][1] == head[1];
  }

  /** The changelog starts with its version title: the leading blank line is
      trimmed away and nothing of the title is. */
  lemma RenderStartsWithTitle(commits: seq<Commit>, config: Config)
    ensures var out := Render(commits, config);
      var t := TitleLine(config);
      |t| <= |out| && out[..|t|] == t
  {
    MarkdownHead(commits, config);
    TrimmedStartsWith(Markdown(commits, config), TitleLine(config));
  }

  /** Without commits the changelog is its title alone. */
  lemma EmptyChangelog(config: Config)
    ensures Render([], config) == TitleLine(config)
  {
    var t := TitleLine(config);
    assert t != [] && !IsWhitespace(t[0]) && !IsWhitespace(t[|t| - 1]);
    TrimmedAlone(t);
    assert Render([], config) == Trim(Join(["", t, ""], "\n")) by {
      MarkdownEmpty(config);
    }
  }

  /** Without commits only the title lines are pushed. */
  lemma MarkdownEmpty(config: Config)
    ensures Markdown([], config) == ["", TitleLine(config), ""]
  {
    NoCommitsNoLines(config.types, config);
    NoCommitsNoContributors();
    AppendEmpty(["", TitleLine(config), ""]);
  }

  /** Without commits there is nobody to thank. */
  lemma NoCommitsNoContributors()
    ensures Contributors([]) == []
  {
    assert AuthorNames([]) == [];
  }

  /** No commits, no sections and no breaking lines. */
  lemma {:induction false} NoCommitsNoLines(types: seq<TypeEntry>, config: Config)
    ensures Sections([], types, config) == []
    ensures Emitted([], types) == []
    ensures BreakingLines([], types, config) == []
    decreases |types|
  {
    if types != [] {
      NoCommitsNoLines(types[..|types| - 1], config);
    }
  }

  /** The sections follow the configured order: the sections of two lists of
      types are the sections of the first followed by those of the second. */
  lemma {:induction false} SectionsAppend(commits: seq<Commit>, a: seq<TypeEntry>, b: seq<TypeEntry>, config: Config)
    ensures Sections(commits, a + b, config) == Sections(commits, a, config) + Sections(commits, b, config)
    decreases |b|
  {
    if b == [] {
      assert a + b == a;
      AppendEmpty(Sections(commits, a, config));
    } else {
      var init := b[..|b| - 1];
      var last := b[|b| - 1];
      assert (a + b)[..|a + b| - 1] == a + init;
      assert (a + b)[|a + b| - 1] == last;
      SectionsAppend(commits, a, init, config);
      AppendAssociative(Sections(commits, a, config), Sections(commits, init, config), Block(commits, last, config));
    }
  }

  /** A commit is emitted exactly when its type is configured. */
  lemma {:induction false} EmittedMembers(commits: seq<Commit>, types: seq<TypeEntry>, c: Commit)
    ensures c in Emitted(commits, types) <==> c in commits && c.kind in Keys(types)
    decreases |types|
  {
    if types != [] {
      var init := types[..|types| - 1];
      var last := types[|types| - 1];
      var group := OfType(commits, last.key);
      EmittedMembers(commits, init, c);
      ReversedMultiset(group);
      assert c in Reversed(group) <==> c in group by {
        assert c in Reversed(group) <==> c in multiset(Reversed(group));
        assert c in group <==> c in multiset(group);
      }
      KeysSnoc(types);
    }
  }

  /** With distinct keys, each commit of a configured type is emitted exactly
      as often as it occurs in the input, and any other commit never. */
  lemma {:induction false} EmittedCount(commits: seq<Commit>, types: seq<TypeEntry>, c: Commit)
    requires DistinctKeys(types)
    ensures multiset(Emitted(commits, types))[c] == if c.kind in Keys(types) then multiset(commits)[c] else 0
    decreases |types|
  {
    if types != [] {
      var init := types[..|types| - 1];
      var last := types[|types| - 1];
      var group := OfType(commits, last.key);
      DistinctKeysInit(types);
      EmittedCount(commits, init, c);
      ReversedMultiset(group);
      GroupPartition(commits, last.key, c);
      assert multiset(Emitted(commits, types)) == multiset(Emitted(commits, init)) + multiset(Reversed(group));
    }
  }

  /** Dropping the last configured type keeps the keys distinct and removes
      exactly its key. */
  lemma DistinctKeysInit(types: seq<TypeEntry>)
    requires DistinctKeys(types) && types != []
    ensures var init := types[..|types| - 1];
      && DistinctKeys(init)
      && types[|types| - 1].key !in Keys(init)
      && Keys(types) == Keys(init) + {types[|types| - 1].key}
  {
    var init := types[..|types| - 1];
    var last := types[|types| - 1];
    forall i, j | 0 <= i < j < |init| ensures init[i].key != init[j].key {
      assert init[i] == types[i] && init[j] == types[j];
    }
    forall i | 0 <= i < |init| ensures init[i].key != last.key {
      assert init[i] == types[i];
    }
    KeysSnoc(types);
  }

  /** The breaking-changes section is shown exactly when some commit of a
      configured type is breaking. */
  lemma BreakingSectionShown(commits: seq<Commit>, config: Config)
    ensures BreakingSection(BreakingLines(commits, config.types, config)) != []
      <==> exists c :: c in commits && c.isBreaking && c.kind in Keys(config.types)
  {
    var emitted := Emitted(commits, config.types);
    var breaking := Filter(emitted, IsBreakingCommit);
    assert |BreakingLines(commits, config.types, config)| == |breaking|;
    if breaking != [] {
      assert breaking[0] in breaking;
      EmittedMembers(commits, config.types, breaking[0]);
    }
    forall c | c in commits && c.isBreaking && c.kind in Keys(config.types)
      ensures breaking != []
    {
      EmittedMembers(commits, config.types, c);
      assert c in breaking;
    }
  }

  /** A commit line, as opposed to a blank line or a heading: it starts with
      the list item. */
  predicate IsListLine(line: string) {
    |line| >= |ListItem| && line[..|ListItem|] == ListItem
  }

  /** The commit lines of one block are the lines of its reversed group. */
  lemma BlockListLines(commits: seq<Commit>, entry: TypeEntry, config: Config)
    ensures Filter(Block(commits, entry, config), IsListLine)
      == FormatLines(Reversed(OfType(commits, entry.key)), config)
  {
    var g := OfType(commits, entry.key);
    var lines := FormatLines(Reversed(g), config);
    if g != [] {
      var heading := ["", "### " + entry.title, ""];
      assert ("### " + entry.title)[0] == '#';
      assert !IsListLine("### " + entry.title) by {
        assert ListItem[0] == ' ';
      }
      assert Filter(heading, IsListLine) == [];
      forall i | 0 <= i < |lines| ensures IsListLine(lines[i]) {
        FormatCommitShape(Reversed(g)[i], config);
      }
      FilterAll(lines, IsListLine);
      FilterAppend(heading, lines, IsListLine);
    }
  }

  /** Stripped of their blank lines and headings, the sections are exactly the
      lines of the emitted commits, in emission order. */
  lemma {:induction false} SectionsListLines(commits: seq<Commit>, types: seq<TypeEntry>, config: Config)
    ensures Filter(Sections(commits, types, config), IsListLine) == FormatLines(Emitted(commits, types), config)
    decreases |types|
  {
    if types != [] {
      var init := types[..|types| - 1];
      var last := types[|types| - 1];
      SectionsListLines(commits, init, config);
      BlockListLines(commits, last, config);
      FilterAppend(Sections(commits, init, config), Block(commits, last, config), IsListLine);
      MapAppend(Emitted(commits, init), Reversed(OfType(commits, last.key)), CommitLine(config));
    }
  }

  /** A commit line appears in the sections exactly when it is the line of a
      commit whose type is configured. */
  lemma SectionLineMembers(commits: seq<Commit>, config: Config, line: string)
    ensures line in Sections(commits, config.types, config) && IsListLine(line)
      <==> exists c :: c in commits && c.kind in Keys(config.types) && FormatCommit(c, config) == line
  {
    var emitted := Emitted(commits, config.types);
    SectionsListLines(commits, config.types, config);
    MapMembers(emitted, CommitLine(config), line);
    forall c ensures c in emitted <==> c in commits && c.kind in Keys(config.types) {
      EmittedMembers(commits, config.types, c);
    }
    if c :| c in commits && c.kind in Keys(config.types) && FormatCommit(c, config) == line {
      assert CommitLine(config)(c) == line;
    }
  }

  /** The contributors are sorted, free of duplicates, and are exactly the
      formatted names of the authors of the commits; the list is empty exactly
      when no commit has an author. */
  lemma ContributorsSpec(commits: seq<Commit>)
    ensures Sorted(Contributors(commits)) && NoDuplicates(Contributors(commits))
    ensures forall n :: n in Contributors(commits) <==> exists a :: a in AuthorsOf(commits) && AuthorName(a) == n
    ensures Contributors(commits) == [] <==> forall c :: c in commits ==> c.authors == []
  {
    var u := Uniq(AuthorNames(commits));
    var r := Contributors(commits);
    SortSorted(u);
    PermutationNoDuplicates(u, r);
    forall n
      ensures n in r <==> exists a :: a in AuthorsOf(commits) && AuthorName(a) == n
    {
      assert n in r <==> n in multiset(r);
      assert n in u <==> n in multiset(u);
      AuthorNamesMembers(commits, n);
    }
    ContributorsEmpty(commits);
  }

  /** A name is among the author names exactly when some author has it. */
  lemma AuthorNamesMembers(commits: seq<Commit>, n: string)
    ensures n in AuthorNames(commits) <==> exists a :: a in AuthorsOf(commits) && AuthorName(a) == n
  {
    MapMembers(AuthorsOf(commits), AuthorName, n);
  }

  /** There are no contributors exactly when no commit has an author. */
  lemma ContributorsEmpty(commits: seq<Commit>)
    ensures Contributors(commits) == [] <==> forall c :: c in commits ==> c.authors == []
  {
    UniqEmpty(AuthorNames(commits));
    NoAuthors(commits);
  }

  /** No authors are collected exactly when no commit has one. */
  lemma NoAuthors(commits: seq<Commit>)
    ensures AuthorsOf(commits) == [] <==> forall c :: c in commits ==> c.authors == []
  {
    var authors := AuthorsOf(commits);
    if authors != [] {
      assert authors[0] in authors;
    }
    forall c | c in commits && c.authors != [] ensures authors != [] {
      assert c.authors[0] in authors;
    }
  }

  /** One more configured type adds its block to the sections and the lines
      of its breaking commits to the accumulator. */
  lemma NextType(commits: seq<Commit>, types: seq<TypeEntry>, t: nat, config: Config)
    requires t < |types|
    ensures Sections(commits, types[..t + 1], config)
      == Sections(commits, types[..t], config) + Block(commits, types[t], config)
    ensures BreakingLines(commits, types[..t + 1], config)
      == BreakingLines(commits, types[..t], config)
         + FormatLines(Filter(Reversed(OfType(commits, types[t].key)), IsBreakingCommit), config)
  {
    var done := types[..t];
    var rev := Reversed(OfType(commits, types[t].key));
    assert types[..t + 1][..t] == done;
    assert Emitted(commits, types[..t + 1]) == Emitted(commits, done) + rev;
    FilterAppend(Emitted(commits, done), rev, IsBreakingCommit);
    MapAppend(Filter(Emitted(commits, done), IsBreakingCommit), Filter(rev, IsBreakingCommit), CommitLine(config));
  }

  /** One more commit of a group adds its line. */
  lemma NextCommit(group: seq<Commit>, j: nat, config: Config)
    requires j < |group|
    ensures FormatLines(group[..j + 1], config) == FormatLines(group[..j], config) + [FormatCommit(group[j], config)]
  {
    assert group[..j + 1] == group[..j] + [group[j]];
    MapAppend(group[..j], [group[j]], CommitLine(config));
  }

  /** One more commit of a group adds its line to the accumulator when it is
      breaking. */
  lemma NextBreakingCommit(group: seq<Commit>, j: nat, config: Config)
    requires j < |group|
    ensures FormatLines(Filter(group[..j + 1], IsBreakingCommit), config)
      == FormatLines(Filter(group[..j], IsBreakingCommit), config)
         + (if group[j].isBreaking then [FormatCommit(group[j], config)] else [])
  {
    assert group[..j + 1] == group[..j] + [group[j]];
    assert group[..j + 1][..j] == group[..j];
    MapAppend(Filter(group[..j], IsBreakingCommit), [group[j]], CommitLine(config));
  }

  /** A type without a group adds no section and no breaking line. */
  lemma SkipType(commits: seq<Commit>, typeGroups: map<string, seq<Commit>>, entry: TypeEntry, config: Config)
    requires Grouped(typeGroups, commits)
    requires entry.key !in typeGroups || |typeGroups[entry.key]| == 0
    ensures Block(commits, entry, config) == []
    ensures FormatLines(Filter(Reversed(OfType(commits, entry.key)), IsBreakingCommit), config) == []
  {
    NewKind(commits, entry.key);
  }

  /** A type with a group adds the section built from that group. */
  lemma ShowType(commits: seq<Commit>, typeGroups: map<string, seq<Commit>>, entry: TypeEntry, config: Config)
    requires Grouped(typeGroups, commits)
    requires entry.key in typeGroups && |typeGroups[entry.key]| != 0
    ensures typeGroups[entry.key] == OfType(commits, entry.key)
    ensures Block(commits, entry, config)
      == ["", "### " + entry.title, ""] + FormatLines(Reversed(typeGroups[entry.key]), config)
  {
  }

  /** The section of one non-empty group: the heading, then the group walked
      in reverse with each line pushed, and each breaking line also pushed
      onto the accumulator. */
  method EmitSection(markdown: seq<string>, breakingChanges: seq<string>, title: string,
                     group: seq<Commit>, config: Config)
    returns (markdown': seq<string>, breakingChanges': seq<string>)
    ensures markdown' == markdown + (["", "### " + title, ""] + FormatLines(Reversed(group), config))
    ensures breakingChanges' == breakingChanges + FormatLines(Filter(Reversed(group), IsBreakingCommit), config)
  {
    var heading := ["", "### " + title, ""];
    markdown' := markdown + heading;
    breakingChanges' := breakingChanges;
    var reversed := Reversed(group);
    for j := 0 to |reversed|
      invariant markdown' == markdown + heading + FormatLines(reversed[..j], config)
      invariant breakingChanges' == breakingChanges + FormatLines(Filter(reversed[..j], IsBreakingCommit), config)
    {
      var line := FormatCommit(reversed[j], config);
      NextCommit(reversed, j, config);
      NextBreakingCommit(reversed, j, config);
      AppendAssociative(markdown + heading, FormatLines(reversed[..j], config), [line]);
      markdown' := markdown' + [line];
      ghost var breakingSoFar := FormatLines(Filter(reversed[..j], IsBreakingCommit), config);
      if reversed[j].isBreaking {
        AppendAssociative(breakingChanges, breakingSoFar, [line]);
        breakingChanges' := breakingChanges' + [line];
      } else {
        AppendEmpty(breakingSoFar);
      }
    }
    assert reversed[..|reversed|] == reversed;
    AppendAssociative(markdown, heading, FormatLines(reversed, config));
  }

  /** The per-type part of the rendering: for each configured type, in
      configured order, its section when its group is non-empty, collecting
      the breaking lines on the way. */
  method AppendSections(commits: seq<Commit>, typeGroups: map<string, seq<Commit>>, config: Config,
                        markdown: seq<string>)
    returns (markdown': seq<string>, breakingChanges: seq<string>)
    requires Grouped(typeGroups, commits)
    ensures markdown' == markdown + Sections(commits, config.types, config)
    ensures breakingChanges == BreakingLines(commits, config.types, config)
  {
    markdown' := markdown;
    breakingChanges := [];
    for t := 0 to |config.types|
      invariant markdown' == markdown + Sections(commits, config.types[..t], config)
      invariant breakingChanges == BreakingLines(commits, config.types[..t], config)
    {
      var entry := config.types[t];
      ghost var sections := Sections(commits, config.types[..t], config);
      NextType(commits, config.types, t, config);
      if entry.key !in typeGroups || |typeGroups[entry.key]| == 0 {
        SkipType(commits, typeGroups, entry, config);
        AppendEmpty(sections);
        AppendEmpty(breakingChanges);
      } else {
        ShowType(commits, typeGroups, entry, config);
        markdown', breakingChanges := EmitSection(markdown', breakingChanges, entry.title, typeGroups[entry.key], config);
        AppendAssociative(markdown, sections, Block(commits, entry, config));
      }
    }
    assert config.types[..|config.types|] == config.types;
  }

  /** Renders the changelog the way the source does: the title, the sections
      of the configured types, then the breaking changes and the contributors,
      joined with newlines and trimmed. */
  method GenerateMarkDown(commits: seq<Commit>, config: Config) returns (out: string)
    ensures out == Render(commits, config)
  {
    var typeGroups := GroupBy(commits);
    var markdown: seq<string>, breakingChanges: seq<string>;
    markdown, breakingChanges := AppendSections(commits, typeGroups, config, ["", TitleLine(config), ""]);
    ghost var sections := markdown;

    if |breakingChanges| > 0 {
      markdown := markdown + (["", BreakingHeading, ""] + breakingChanges);
    } else {
      AppendEmpty(markdown);
    }
    ghost var withBreaking := markdown;

    var authors := Contributors(commits);
    if |authors| > 0 {
      markdown := markdown + (["", ContributorsHeading, ""] + Map(authors, Bullet));
    } else {
      AppendEmpty(markdown);
    }
    assert markdown == withBreaking + ContributorsSection(authors);

    out := Trim(Join(markdown, "\n"));
  }
}
