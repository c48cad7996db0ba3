/** The records the renderer consumes: parsed commits and the changelog
    configuration. They are produced elsewhere and only read here. */
module Commits {

  /** An optional value; None stands for a property that is undefined. */
  datatype Option<T> = None | Some(value: T)

  /** The closed set of reference kinds. */
  datatype RefType = PullRequest | Issue | Hash

  /** A pull request, issue or commit hash a commit refers to. */
  datatype Reference = Reference(kind: RefType, value: string)

  /** A commit author; only the name is rendered. */
  datatype Author = Author(name: Option<string>)

  /** A parsed commit. `kind` is the conventional-commit type (`feat`, `fix`, ...). */
  datatype Commit = Commit(
    kind: string,
    scope: Option<string>,
    description: string,
    isBreaking: bool,
    references: seq<Reference>,
    authors: seq<Author>)

  /** One configured commit type: its key and the section title shown for it. */
  datatype TypeEntry = TypeEntry(key: string, title: string)

  /** The changelog configuration: the configured types in display order, the
      version range, and the optional "owner/repo" on GitHub. */
  datatype Config = Config(
    types: seq<TypeEntry>,
    from: string,
    to: string,
    github: Option<string>)

  /** JavaScript truthiness of an optional string: present and non-empty. */
  predicate IsSet(s: Option<string>) {
    s.Some? && s.value != ""
  }

  /** The keys of the configured types. */
  function Keys(types: seq<TypeEntry>): (ks: set<string>)
    ensures forall k :: k in ks <==> exists i :: 0 <= i < |types| && types[i].key == k
  {
    set i | 0 <= i < |types| :: types[i].key
  }

  /** The keys of all types but the last, and the last one's. */
  lemma KeysSnoc(types: seq<TypeEntry>)
    requires types != []
    ensures Keys(types) == Keys(types[..|types| - 1]) + {types[|types| - 1].key}
  {
    var init := types[..|types| - 1];
    forall k | k in Keys(types) ensures k in Keys(init) + {types[|types| - 1].key} {
      var i :| 0 <= i < |types| && types[i].key == k;
      if i < |init| {
        assert init[i] == types[i];
      }
    }
    forall k | k in Keys(init) ensures k in Keys(types) {
      var i :| 0 <= i < |init| && init[i].key == k;
      assert types[i] == init[i];
    }
  }

  /** Configured keys are distinct, as the keys of an object are. */
  predicate DistinctKeys(types: seq<TypeEntry>) {
    forall i, j :: 0 <= i < j < |types| ==> types[i].key != types[j].key
  }
}
