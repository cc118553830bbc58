/** The test inventory handed to the splitter: full test names in discovery
    order, each mapped to the dependency names its metadata declares. */
module TestInventory {
  import opened Seqs

  datatype Inventory = Inventory(names: seq<string>, deps: map<string, seq<string>>) {

    /** Names are the keys of a PHP array: distinct, and exactly the map's keys. */
    predicate Valid() {
      && NoDup(names)
      && (forall n | n in names :: n in deps)
      && (forall n | n in deps :: n in names)
    }
  }

  /** The two reasons the dependency-aware split gives up. */
  datatype SplitError =
    | UnresolvedDependency(test: string, dependency: string)
    | CircularDependency(item: string, dependency: string)

  /** `empty($testsListWithDependencies[$test])`: an unknown name counts as
      having no dependencies. */
  predicate NoDeps(deps: map<string, seq<string>>, test: string) {
    test !in deps || deps[test] == []
  }

  /** Two dependency maps over the same tests that agree on which tests have
      dependencies (canonicalisation keeps every list's length). */
  predicate SameShape(d1: map<string, seq<string>>, d2: map<string, seq<string>>) {
    && d1.Keys == d2.Keys
    && forall n | n in d1 :: |d1[n]| == |d2[n]|
  }
}
