# changelogen markdown renderer, modelled in Dafny

This project models `src/markdown.ts` of changelogen, the part that turns a
list of parsed conventional commits and a changelog configuration into the
markdown text of one release. The model covers these steps:

- **Grouping.** `groupBy` buckets the commits by type. The model is a method that
  updates a map in a loop.
- **Section building.** `generateMarkDown` walks the configured types in order. It emits
  one `### title` section per type that has commits, with that type's commit lines
  in reverse order. While doing so it collects the lines of breaking commits into an
  accumulator. These are methods with loops, proved against specification functions.
- **Line formatting.** `formatCommit`, `formatReferences` and `formatReference`
  (including the `refTypeMap` lookup table) build one commit line. `formatName`
  normalises a contributor name. `uniq` and the default `sort` order the contributors.
- **Final text.** The title line, the breaking-changes section, the contributors section,
  and the final join with newlines and trim.

The source's issue path segment is the literal `ssue`, as the lookup table
spells it. The model reproduces it unchanged (`Format.RefTypeSegment`,
`Format.IssueLinkExample`).

Files:

| file | module | what it holds |
|---|---|---|
| `commits.dfy` | `Commits` | the input records: commits, references, authors and the configuration |
| `seqs.dfy` | `Seqs` | the model of `filter`, `map` and `reverse`, with generic sequence lemmas |
| `text.dfy` | `Text` | `trim`, ASCII `upperFirst`, `split` on one character, and `join` |
| `order.dfy` | `Order` | lexicographic order, the default `sort` as insertion sort, and `uniq` |
| `format.dfy` | `Format` | commit lines, references and names |
| `grouping.dfy` | `Grouping` | `groupBy` |
| `markdown.dfy` | `Markdown` | `generateMarkDown` and the properties of the whole document |

The rendered text has a specification function, `Markdown.Render`.
`Markdown.GenerateMarkDown` follows the source step by step and is proved to
return exactly `Render`. The lemmas about the document are stated about
`Render` and the functions it is built from.

## Model

| member | source | states |
|---|---|---|
| Markdown.GenerateMarkDown | src/markdown.ts:6-52 | The push-by-push rendering returns exactly the specified document `Render`: title, configured sections, breaking section, contributors, joined with newlines and trimmed. |
| Markdown.AppendSections | src/markdown.ts:18-32 | The loop over the configured types appends exactly `Sections` to the lines, in configured order. It leaves the breaking accumulator equal to `BreakingLines`: the breaking lines of the emitted commits, in emission order. |
| Markdown.EmitSection | src/markdown.ts:24-31 | Walking one group in reverse pushes the heading and then one line per commit, last commit first. It pushes onto the accumulator the lines of exactly the breaking commits, in the same order. |
| Markdown.NextType | src/markdown.ts:18-32 | Handling one more configured type extends the sections by that type's block and the accumulator by that group's breaking lines. |
| Markdown.SkipType | src/markdown.ts:19-22 | A type whose group is missing or empty adds no heading, no line and no breaking line. |
| Markdown.ShowType | src/markdown.ts:19-25 | The group found for a type with commits is that type's commits in input order. Its block is the heading followed by the reversed group's lines. |
| Markdown.NextCommit | src/markdown.ts:25-27 | One more commit of the reversed group adds exactly its line. |
| Markdown.NextBreakingCommit | src/markdown.ts:28-30 | One more commit adds its line to the accumulator exactly when it is breaking. |
| Markdown.CompareLink | src/markdown.ts:13 | The compare link is non-empty exactly when a GitHub repository is set. When it is set, the link is `https://github.com/{github}/compare/{from}...{to}`. |
| Markdown.TitleLine | src/markdown.ts:14-16 | The title starts with `## ` and ends with `)`. It is a link to the comparison when a repository is set, and the plain range `to (from..to)` otherwise. |
| Markdown.Block | src/markdown.ts:19-31 | A type's section is empty exactly when no commit has that type. Otherwise it is a blank line, the heading and a blank line, followed by one line per commit of that type in reversed input order. |
| Markdown.SectionsAppend | src/markdown.ts:18-32 | Sections follow configured order: the sections of `a + b` are those of `a` followed by those of `b`. |
| Markdown.Sections | src/markdown.ts:18-32 | Specification of the lines the type loop pushes: the blocks of the configured types in configured order. Its properties are the `Block`, `SectionsAppend`, `SectionsListLines` and `SectionLineMembers` rows. |
| Markdown.Emitted | src/markdown.ts:18-31 | Specification of the emission order: for each configured type in order, that type's commits reversed. `EmittedMembers`, `EmittedCount` and `SectionsListLines` state its properties. |
| Markdown.SectionsListLines | src/markdown.ts:18-31 | With blank lines and headings removed, the sections are exactly the lines of the emission sequence `Emitted`, in order. This ties `EmittedMembers` and `EmittedCount` to the pushed lines. |
| Markdown.BlockListLines | src/markdown.ts:24-27 | With its blank lines and heading removed, a type's block is exactly the lines of its reversed group. |
| Markdown.SectionLineMembers | src/markdown.ts:18-31 | A commit line appears in the sections exactly when it is the line of some commit whose type is configured. |
| Markdown.EmittedMembers | src/markdown.ts:18-31 | A commit is in the emission sequence, whose lines are the sections' commit lines by `SectionsListLines`, exactly when its type is configured. |
| Markdown.EmittedCount | src/markdown.ts:18-31 | With distinct keys, a commit of a configured type occurs in the emission sequence exactly as often as in the input, and a commit of any other type never. By `SectionsListLines` the same holds for its line among the sections' commit lines. |
| Markdown.BreakingLines | src/markdown.ts:25-30 | Specification of the breaking accumulator: the lines of the breaking commits of the emission sequence, in emission order. It is built by `AppendSections`, and `BreakingSectionShown` states when it is non-empty. |
| Markdown.BreakingSection | src/markdown.ts:34-39 | Specification of the breaking-changes block: nothing for an empty accumulator, otherwise a blank line, the heading, a blank line and the accumulated lines. Its presence is stated by `BreakingSectionShown`. |
| Markdown.BreakingSectionShown | src/markdown.ts:28-39 | The breaking-changes section appears exactly when some commit of a configured type is breaking. |
| Markdown.Contributors | src/markdown.ts:41-42 | Specification of the contributors list: the formatted author names of all commits, de-duplicated, then sorted. Its properties are the `ContributorsSpec` row. |
| Markdown.ContributorsSection | src/markdown.ts:44-49 | Specification of the contributors block: nothing for an empty list, otherwise a blank line, the heading, a blank line and a `- name` line per contributor. When it is empty is stated by `ContributorsEmpty`. |
| Markdown.ContributorsSpec | src/markdown.ts:41-49 | The contributors are sorted and duplicate-free, and are exactly the formatted names of the authors of all commits, configured type or not. There are none exactly when no commit has an author. |
| Markdown.AuthorsOf | src/markdown.ts:41 | The collected authors are exactly the authors of some commit. |
| Markdown.AuthorNames | src/markdown.ts:41 | Specification of the `flatMap`: the formatted names of the authors of all commits, in order. Its membership is stated by `AuthorNamesMembers`. |
| Markdown.AuthorNamesMembers | src/markdown.ts:41 | A name is collected exactly when some author formats to it. |
| Markdown.ContributorsEmpty | src/markdown.ts:41-44 | The contributors list, and with it the section, is empty exactly when no commit has an author. |
| Markdown.NoAuthors | src/markdown.ts:41 | The flattened author list is empty exactly when no commit has an author. |
| Markdown.NoCommitsNoContributors | src/markdown.ts:41-44 | Without commits there are no contributors. |
| Markdown.NoCommitsNoLines | src/markdown.ts:18-39 | Without commits, no section and no breaking line is produced, whatever types are configured. |
| Markdown.Markdown | src/markdown.ts:9-49 | Specification of the pushed lines: the title lines, the sections, the breaking-changes block and the contributors block, in that order. `MarkdownHead` and `MarkdownEmpty` state its properties. |
| Markdown.Render | src/markdown.ts:51 | Specification of the result: the lines joined with newlines and trimmed. `GenerateMarkDown` returns it, and `RenderStartsWithTitle` and `EmptyChangelog` state its properties. |
| Markdown.MarkdownHead | src/markdown.ts:14-16 | The document's lines start with a blank line followed by the title. |
| Markdown.MarkdownEmpty | src/markdown.ts:14-49 | Without commits, only the three title lines are pushed. |
| Markdown.RenderStartsWithTitle | src/markdown.ts:14-51 | The final trim removes the leading blank line and nothing of the title, so the changelog text starts with the title. |
| Markdown.EmptyChangelog | src/markdown.ts:6-52 | Without commits the changelog is the title line alone. |
| Format.ScopePrefix | src/markdown.ts:56 | The bold scope label is present exactly when the scope is set and non-empty. The test happens before trimming. When present, the label is `**` + the trimmed scope + `:** `. |
| Commits.IsSet | src/markdown.ts:56 | JavaScript truthiness of an optional string: defined and non-empty. This is the test applied to `github` and to the scope. |
| Format.ScopeWhitespaceOnly | src/markdown.ts:56 | A whitespace-only scope still yields the empty bold label `**:** `. |
| Format.FormatCommit | src/markdown.ts:54-60 | The line of one commit: list item, scope label, breaking marker, upper-cased description, reference suffix. Its properties are the `FormatCommitShape` and `FormatCommitMarker` rows. |
| Format.FormatCommitShape | src/markdown.ts:54-60 | A commit line starts with `  - `, then the scope label, and ends with the references suffix. |
| Format.FormatCommitMarker | src/markdown.ts:57 | The breaking flag changes a line only by inserting the warning marker right after the scope label, and it does so exactly when the flag is set. |
| Format.RefTypeSegment | src/markdown.ts:62-66 | The lookup table maps pull request to `pull`, hash to `commit` and issue to `ssue`. |
| Format.RefTypeSegmentsDiffer | src/markdown.ts:62-66 | The three path segments are pairwise distinct, already in their first character. |
| Format.StripHash | src/markdown.ts:72 | Exactly one leading `#` is removed, and a value without one is unchanged. |
| Format.FormatReference | src/markdown.ts:68-73 | Without a repository, the raw value is returned. With one, the result is `[value](https://github.com/{github}/{segment}/{id})`, where the segment comes from the lookup table and the id is the value minus one leading `#`. The link text is the raw value, and the target ends with the id. |
| Format.FormatReferenceKinds | src/markdown.ts:72 | With a repository, references with the same value but different kinds get different links. |
| Format.IssueLinkExample | src/markdown.ts:62-72 | Issue `#42` of `org/repo` links to `https://github.com/org/repo/ssue/42`. |
| Format.Promoted | src/markdown.ts:76-79 | Specification of the references listed when there are pull requests or issues: the pull requests, then the issues. Its properties are the `PromotedSpec` row. |
| Format.PromotedSpec | src/markdown.ts:76-79 | The promoted references are a permutation of the non-hash references, with every pull request before every issue. They are empty exactly when every reference is a hash. |
| Format.PromotedOrder | src/markdown.ts:76-79 | The promoted list holds the pull requests first, then the issues, and no hash. |
| Format.PromotedEmpty | src/markdown.ts:78 | There are neither pull requests nor issues exactly when every reference is a hash. |
| Format.FormatReferences | src/markdown.ts:75-85 | The suffix is empty exactly when there are no references. Otherwise it is wrapped in ` (` and `)`. With pull requests or issues, it lists all pull requests, then all issues, joined by `, `. |
| Format.FormatReferencesFallback | src/markdown.ts:81-82 | Without pull requests or issues, every reference is a hash and only the first one is shown. |
| Format.HashYieldsToPullRequest | src/markdown.ts:76-80 | A hash listed before a pull request is dropped, and only the pull request is shown. |
| Format.FormatName | src/markdown.ts:91 | An undefined name formats to the empty string. |
| Format.NamePart | src/markdown.ts:92 | One space-separated part of a name: trimmed, then its first character upper-cased. Its properties are the `NamePartNoSpace` and `NamePartIdempotent` rows. |
| Format.NamePartNoSpace | src/markdown.ts:92 | Normalising a part free of spaces introduces no space. |
| Format.FormatNameParts | src/markdown.ts:92 | Splitting a formatted name on spaces gives exactly the normalised parts of the input, one for one, so the number of segments is preserved. |
| Format.NamePartIdempotent | src/markdown.ts:92 | Normalising a part twice is the same as normalising it once. |
| Format.FormatNameIdempotent | src/markdown.ts:91-93 | Formatting an already formatted name changes nothing. |
| Format.NameCollisionExample | src/markdown.ts:91-93 | `bob` and `Bob` become the same contributor `Bob`. |
| Grouping.GroupBy | src/markdown.ts:95-102 | The loop builds one group per type that occurs. Each group is non-empty and is exactly the commits of that type, in input order. |
| Grouping.OfType | src/markdown.ts:95-102 | Specification of the group `groupBy` builds for one key: the commits of that type, in input order. `GroupBy`, `GroupPartition`, `GroupOrder` and `OfTypeSnoc` state its properties. |
| Grouping.GroupedSnoc | src/markdown.ts:98-99 | Appending a commit to the group of its type, created on first use, keeps the grouping exact. |
| Grouping.OfTypeSnoc | src/markdown.ts:99 | One more commit goes to the end of its own group and leaves every other group unchanged. |
| Grouping.NewKind | src/markdown.ts:98 | A type not yet seen has an empty group. |
| Grouping.GroupPartition | src/markdown.ts:95-102 | Every commit lands in the group of its own type, as often as it occurs, and in no other group. |
| Grouping.GroupOrder | src/markdown.ts:95-102 | Groups keep relative input order: the group of `a + b` is the group of `a` followed by that of `b`. |
| Order.Uniq | src/markdown.ts:104-106 | The result has no duplicates and holds exactly the elements of the input. |
| Order.UniqEmpty | src/markdown.ts:104-106 | De-duplicating yields nothing exactly when the input is empty. |
| Order.Sort | src/markdown.ts:42 | Sorting returns a permutation of its input. |
| Order.SortSorted | src/markdown.ts:42 | Sorting returns an ascending sequence. |
| Order.InsertSorted | src/markdown.ts:42 | Inserting into a sorted sequence keeps it sorted. |
| Order.PermutationNoDuplicates | src/markdown.ts:42 | Sorting a duplicate-free list keeps it duplicate-free. |
| Order.LexLe | src/markdown.ts:42 | The string order of the default sort: character by character, a prefix first. It is total, transitive and antisymmetric (the three rows below). |
| Order.LexLeTotal | src/markdown.ts:42 | The string order is total. |
| Order.LexLeTransitive | src/markdown.ts:42 | The string order is transitive. |
| Order.LexLeAntisymmetric | src/markdown.ts:42 | The string order is antisymmetric. |
| Text.IsWhitespace | src/markdown.ts:51 | The characters `trim` removes: the ECMAScript WhiteSpace and LineTerminator code points (tab, line feed, vertical tab, form feed, carriage return, space, no-break space, U+1680, U+2000 to U+200A, line and paragraph separators, U+202F, U+205F, U+3000 and the byte order mark). |
| Text.Trim | src/markdown.ts:51 | Trimming leaves a contiguous piece of the input that neither starts nor ends with whitespace. Only leading whitespace is dropped before it and only trailing whitespace after it. |
| Text.TrimStart | src/markdown.ts:51 | Only leading whitespace is dropped, and what remains does not start with whitespace. |
| Text.TrimEnd | src/markdown.ts:51 | Only trailing whitespace is dropped, and what remains does not end with whitespace. |
| Text.TrimMembers | src/markdown.ts:92 | Trimming introduces no new character. |
| Text.TrimUnchanged | src/markdown.ts:92 | A string without surrounding whitespace trims to itself, so trimming is idempotent. |
| Text.TrimAllWhitespace | src/markdown.ts:56 | A whitespace-only string trims to the empty string. |
| Text.TrimmedStartsWith | src/markdown.ts:51 | Lines `""`, `t`, ... joined with newlines and trimmed start with `t`, when `t` has no surrounding whitespace. |
| Text.TrimmedAlone | src/markdown.ts:51 | Lines `""`, `t`, `""` joined and trimmed give `t` back. |
| Text.UpperFirst | src/markdown.ts:58 | Only the first character is upper-cased, and the length and the rest are unchanged. |
| Text.UpperAscii | src/markdown.ts:58 | A lower-case ASCII letter becomes its upper-case partner, 32 code points lower. Any other character is unchanged, and no result is a lower-case letter. |
| Text.UpperFirstIdempotent | src/markdown.ts:92 | Upper-casing the first character twice is the same as once. |
| Text.Join | src/markdown.ts:51 | The parts with the separator between each two. Its properties are the `JoinSplit`, `SplitJoin`, `TrimmedStartsWith` and `TrimmedAlone` rows. |
| Text.Split | src/markdown.ts:92 | Splitting yields at least one piece, and no piece contains the separator. |
| Text.JoinSplit | src/markdown.ts:92 | Splitting on a character and joining with it gives back the input. |
| Text.SplitJoin | src/markdown.ts:92 | Joining separator-free pieces and splitting again gives back the pieces. |
| Seqs.Filter | src/markdown.ts:76-77 | Filtering keeps exactly the elements satisfying the predicate, and never grows the list. |
| Seqs.FilterAppend | src/markdown.ts:76-77 | Filtering keeps relative order: it distributes over concatenation. |
| Seqs.FilterAll | src/markdown.ts:76-77 | Filtering a list whose every element passes keeps it whole. |
| Seqs.FilterSplit | src/markdown.ts:76-79 | Filtering by two exclusive predicates and concatenating gives the same multiset as filtering by their disjunction. |
| Seqs.Map | src/markdown.ts:79 | Mapping keeps the length and applies the function elementwise. |
| Seqs.Reversed | src/markdown.ts:25 | Element `i` of the reversed group is element `n - 1 - i` of the group. |
| Seqs.ReversedMultiset | src/markdown.ts:25 | Reversing is a permutation. |

## Left out

- `convert` from `convert-gitmoji` (src/markdown.ts:51) is a foreign string transform. `Markdown.GenerateMarkDown` returns the joined and trimmed text that is passed to it.
- Text.UpperFirst: upper-cases only ASCII `a`-`z`. The Unicode case mapping of `upperFirst` belongs to a foreign library and is not modelled.
- Order.Sort: orders strings by character code points, not by the UTF-16 code units that `Array.prototype.sort` compares. The two differ only for characters outside the Basic Multilingual Plane.
- Markdown.EmitSection: walks a reversed copy of the group. The in-place `group.reverse()` is not modelled as a mutation. Each group is a fresh array made by `groupBy`, so nothing else observes the reversal.
- Markdown.EmittedCount: requires the configured keys to be distinct, which the keys of an object always are.
- The configured types are an ordered sequence of key and title pairs. JavaScript's `for...in` order for integer-like keys is not modelled.
- A type key that names an inherited object property, such as `constructor`, is not modelled either.
- The emoji in `⚠️  ` and the two headings are opaque string constants.
- Characters are Dafny characters rather than UTF-16 code units. `trim`, `split` and `join` work on them.
- The commented-out `formatTitle` (src/markdown.ts:87-89) is dead code.
- Loading the configuration and parsing git commits happen elsewhere. Those modules are not part of this model and appear only as the input records in `commits.dfy`.
- An author name that is present but `null` is not modelled. An absent name is `None` and formats to the empty string, as the default parameter makes it.
