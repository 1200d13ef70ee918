/**
 * The save directory as the pipeline sees it: a flat map from file name to
 * file content. Directory listings (`os.listdir`) come in an order the
 * operating system chooses.
 */
module Files {
  import opened Order

  /** File name (relative to the save directory) to content. */
  type Dir = map<string, string>

  /** `names` is one possible result of `os.listdir` on `dir`: every file
      exactly once, in some order. */
  predicate IsListing(names: seq<string>, dir: Dir) {
    && Distinct(names)
    && (forall i :: 0 <= i < |names| ==> names[i] in dir)
    && (forall n :: n in dir ==> n in names)
  }

  /** `a` arises from `b` by deleting files only. */
  predicate SubDir(a: Dir, b: Dir) {
    a.Keys <= b.Keys && forall n :: n in a ==> a[n] == b[n]
  }

  /** `os.listdir`: the operating system lists each directory in an order of
      its own choosing. */
  type Lister = Dir -> seq<string>

  ghost predicate IsLister(listdir: Lister) {
    forall d :: IsListing(listdir(d), d)
  }

  /** `sorted(os.listdir(dir))` is again a listing of `dir`, now in order. */
  lemma SortedListing(names: seq<string>, dir: Dir)
    requires IsListing(names, dir)
    ensures IsListing(Sort(names), dir) && Sorted(Sort(names))
  {
    var s := Sort(names);
    SortSpec(names);
    PermutationDistinct(names, s);
    forall i | 0 <= i < |s| ensures s[i] in dir {
      assert s[i] in multiset(s);
    }
    forall n | n in dir ensures n in s {
      assert n in multiset(names);
    }
  }
}
