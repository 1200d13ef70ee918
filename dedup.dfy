/**
 * Duplicate removal (`remove_duplicate_images_and_txt` in del_img.py): the
 * directory is scanned in sorted name order, the first image with a given
 * hash is kept, every later one is deleted with its sibling `.txt` file.
 * `calculate_hash` is a function of the file content that may fail (`None`).
 */
module Dedup {
  import opened Wrappers
  import opened Text
  import opened Order
  import opened Files

  /** `filename.lower().endswith(('.png', '.jpg', '.jpeg', '.bmp', '.gif'))` */
  predicate IsImageName(name: string) {
    var l := Lower(name);
    EndsWith(l, ".png") || EndsWith(l, ".jpg") || EndsWith(l, ".jpeg")
    || EndsWith(l, ".bmp") || EndsWith(l, ".gif")
  }

  /** The sibling tag file of any name is not an image by name. */
  lemma SiblingIsNotImage(name: string)
    ensures !IsImageName(SiblingTxt(name))
  {
    var t := SiblingTxt(name);
    var l := Lower(t);
    assert l[|l| - 1] == 't';
  }

  /** A file the scan hashes: present, an image by name, and hashable. */
  predicate Hashable(dir: Dir, hash: string -> Option<string>, name: string) {
    name in dir && IsImageName(name) && hash(dir[name]).Some?
  }

  function HashOf(dir: Dir, hash: string -> Option<string>, name: string): string
    requires Hashable(dir, hash, name)
  {
    hash(dir[name]).value
  }

  /** The scan's state: the directory, `image_hashes` (hash to kept name),
      `deleted_count` and `kept_count`. */
  datatype State = State(dir: Dir, hashes: map<string, string>, deleted: nat, kept: nat)

  /** One iteration of the scan, for the file `name`. */
  function Step(st: State, name: string, hash: string -> Option<string>): State {
    if name !in st.dir || !IsImageName(name) then st
    else
      match hash(st.dir[name])
      case None => st
      case Some(h) =>
        if h in st.hashes then
          var d := st.dir - {name};
          var txt := SiblingTxt(name);
          State(if txt in d then d - {txt} else d, st.hashes, st.deleted + 1, st.kept)
        else
          State(st.dir, st.hashes[h := name], st.deleted, st.kept + 1)
  }

  /** The state after the first `i` names of the scan order. */
  function Run(dir: Dir, names: seq<string>, hash: string -> Option<string>, i: nat): State
    requires i <= |names|
  {
    if i == 0 then State(dir, map[], 0, 0)
    else Step(Run(dir, names, hash, i - 1), names[i - 1], hash)
  }

  /** The outcome of the whole scan over `sorted(os.listdir(...))`. */
  function Dedup(dir: Dir, listing: seq<string>, hash: string -> Option<string>): State
  {
    var s := Sort(listing);
    Run(dir, s, hash, |s|)
  }

  /** The message returned beside the count. */
  function Summary(st: State): string {
    "Process completed. Kept " + NatToString(st.kept) + " unique images and deleted "
    + NatToString(st.deleted) + " duplicates."
  }

  /** `remove_duplicate_images_and_txt(folder_path)`: returns the new directory,
      `deleted_count` and the message. */
  method RemoveDuplicates(dir: Dir, listing: seq<string>, hash: string -> Option<string>)
    returns (dir': Dir, deleted: nat, message: string)
    requires IsListing(listing, dir)
    ensures dir' == Dedup(dir, listing, hash).dir
    ensures deleted == Dedup(dir, listing, hash).deleted
    ensures message == Summary(Dedup(dir, listing, hash))
  {
    var names := Sort(listing);
    var imageHashes: map<string, string> := map[];
    var kept: nat := 0;
    deleted := 0;
    dir' := dir;
    for i := 0 to |names|
      invariant State(dir', imageHashes, deleted, kept) == Run(dir, names, hash, i)
    {
      var name := names[i];
      if name !in dir' || !IsImageName(name) {
        continue;
      }
      var imageHash := hash(dir'[name]);
      if imageHash.None? {
        continue;
      }
      if imageHash.value in imageHashes {
        dir' := dir' - {name};
        deleted := deleted + 1;
        var txt := SiblingTxt(name);
        if txt in dir' {
          dir' := dir' - {txt};
        }
      } else {
        imageHashes := imageHashes[imageHash.value := name];
        kept := kept + 1;
      }
    }
    message := Summary(State(dir', imageHashes, deleted, kept));
  }

  // ---------------------------------------------------------------------------
  // What the scan computes

  /** `s[j]` is hashable and no earlier hashable name has its hash. */
  ghost predicate FirstOfHash(dir: Dir, hash: string -> Option<string>, s: seq<string>, j: nat)
    requires j < |s|
  {
    Hashable(dir, hash, s[j]) && HashOf(dir, hash, s[j]) !in HashesUpTo(dir, hash, s, j)
  }

  /** The hashable names among the first `i`. */
  function HashableUpTo(dir: Dir, hash: string -> Option<string>, s: seq<string>, i: nat): set<string>
    requires i <= |s|
  {
    if i == 0 then {}
    else HashableUpTo(dir, hash, s, i - 1) + if Hashable(dir, hash, s[i - 1]) then {s[i - 1]} else {}
  }

  /** Their hashes. */
  function HashesUpTo(dir: Dir, hash: string -> Option<string>, s: seq<string>, i: nat): set<string>
    requires i <= |s|
  {
    if i == 0 then {}
    else HashesUpTo(dir, hash, s, i - 1)
         + if Hashable(dir, hash, s[i - 1]) then {HashOf(dir, hash, s[i - 1])} else {}
  }

  /** The sibling `.txt` names of the duplicates among the first `i` names. */
  ghost function DuplicateSiblings(dir: Dir, hash: string -> Option<string>, s: seq<string>, i: nat): set<string>
    requires i <= |s|
  {
    if i == 0 then {}
    else DuplicateSiblings(dir, hash, s, i - 1)
         + if Hashable(dir, hash, s[i - 1]) && !FirstOfHash(dir, hash, s, i - 1) then {SiblingTxt(s[i - 1])} else {}
  }

  /** The files after the first `i` names: only deletions, the unscanned
      images are all there, and every deletion has its reason. */
  ghost predicate InvFiles(dir: Dir, hash: string -> Option<string>, s: seq<string>, i: nat, st: State)
    requires i <= |s|
  {
    && SubDir(st.dir, dir)
    && (forall j :: i <= j < |s| && IsImageName(s[j]) && s[j] in dir ==> s[j] in st.dir)
    && (forall n :: n in dir && n !in st.dir ==>
          Hashable(dir, hash, n) || (!IsImageName(n) && n in DuplicateSiblings(dir, hash, s, i)))
  }

  /** First-seen-wins at position `j`: the first of its hash stays, a later
      one is gone with its sibling. */
  ghost predicate OrderAt(dir: Dir, hash: string -> Option<string>, s: seq<string>, j: nat, st: State)
    requires j < |s|
  {
    Hashable(dir, hash, s[j]) ==>
      && (FirstOfHash(dir, hash, s, j) ==> s[j] in st.dir)
      && (!FirstOfHash(dir, hash, s, j) ==> s[j] !in st.dir && SiblingTxt(s[j]) !in st.dir)
  }

  /** First-seen-wins among the first `i` names. */
  ghost predicate InvOrder(dir: Dir, hash: string -> Option<string>, s: seq<string>, i: nat, st: State)
    requires i <= |s|
  {
    forall j :: 0 <= j < i ==> OrderAt(dir, hash, s, j, st)
  }

  /** The hash table and the counters after the first `i` names. */
  ghost predicate InvCounts(dir: Dir, hash: string -> Option<string>, s: seq<string>, i: nat, st: State)
    requires i <= |s|
  {
    && st.kept == |st.hashes|
    && st.hashes.Keys == HashesUpTo(dir, hash, s, i)
    && st.deleted + st.kept == |HashableUpTo(dir, hash, s, i)|
  }

  /** What holds after the first `i` names of a list without repetitions. */
  ghost predicate Inv(dir: Dir, hash: string -> Option<string>, s: seq<string>, i: nat, st: State)
    requires i <= |s|
  {
    InvFiles(dir, hash, s, i, st) && InvOrder(dir, hash, s, i, st) && InvCounts(dir, hash, s, i, st)
  }

  lemma HashableUpToMembers(dir: Dir, hash: string -> Option<string>, s: seq<string>, i: nat)
    requires i <= |s|
    ensures forall n :: n in HashableUpTo(dir, hash, s, i) <==> n in s[..i] && Hashable(dir, hash, n)
  {
    if i > 0 {
      HashableUpToMembers(dir, hash, s, i - 1);
      assert s[..i] == s[..i - 1] + [s[i - 1]];
    }
  }

  lemma {:induction false} HashesUpToMembers(dir: Dir, hash: string -> Option<string>, s: seq<string>, i: nat)
    requires i <= |s|
    ensures forall x :: x in HashesUpTo(dir, hash, s, i) <==>
      exists j :: 0 <= j < i && Hashable(dir, hash, s[j]) && HashOf(dir, hash, s[j]) == x
  {
    if i > 0 {
      HashesUpToMembers(dir, hash, s, i - 1);
    }
  }

  /** `n`, the `i`-th name, does not occur before it. */
  lemma NotEarlier(s: seq<string>, i: nat)
    requires Distinct(s) && 0 < i <= |s|
    ensures s[i - 1] !in s[..i - 1] && s[i - 1] !in s[i..]
    ensures s[..i] == s[..i - 1] + [s[i - 1]]
  {
  }

  // The step lemmas below each prove one part of the invariant from the
  // facts that part needs; `st'` is described by how it differs from `st`.

  /** A name the scan does not hash leaves the files' part as it is. */
  lemma {:induction false} SkipFiles(dir: Dir, hash: string -> Option<string>, s: seq<string>, i: nat, st: State)
    requires 0 < i <= |s| && InvFiles(dir, hash, s, i - 1, st)
    requires !Hashable(dir, hash, s[i - 1])
    ensures InvFiles(dir, hash, s, i, st)
  {
    assert DuplicateSiblings(dir, hash, s, i) == DuplicateSiblings(dir, hash, s, i - 1);
  }

  lemma {:induction false} SkipOrder(dir: Dir, hash: string -> Option<string>, s: seq<string>, i: nat, st: State)
    requires 0 < i <= |s| && InvOrder(dir, hash, s, i - 1, st)
    requires !Hashable(dir, hash, s[i - 1])
    ensures InvOrder(dir, hash, s, i, st)
  {
    assert OrderAt(dir, hash, s, i - 1, st);
    forall j | 0 <= j < i ensures OrderAt(dir, hash, s, j, st) {
      if j < i - 1 {
        assert OrderAt(dir, hash, s, j, st);
      }
    }
  }

  lemma {:induction false} SkipCounts(dir: Dir, hash: string -> Option<string>, s: seq<string>, i: nat, st: State)
    requires 0 < i <= |s| && InvCounts(dir, hash, s, i - 1, st)
    requires !Hashable(dir, hash, s[i - 1])
    ensures InvCounts(dir, hash, s, i, st)
  {
    UpToSkip(dir, hash, s, i);
  }

  lemma UpToSkip(dir: Dir, hash: string -> Option<string>, s: seq<string>, i: nat)
    requires 0 < i <= |s| && !Hashable(dir, hash, s[i - 1])
    ensures HashesUpTo(dir, hash, s, i) == HashesUpTo(dir, hash, s, i - 1)
    ensures HashableUpTo(dir, hash, s, i) == HashableUpTo(dir, hash, s, i - 1)
  {
    var hs, hb := HashesUpTo(dir, hash, s, i - 1), HashableUpTo(dir, hash, s, i - 1);
    assert HashesUpTo(dir, hash, s, i) == hs + {};
    assert HashableUpTo(dir, hash, s, i) == hb + {};
  }

  /** A duplicate adds its sibling to the deleted siblings. */
  lemma DuplicateSiblingsGrow(dir: Dir, hash: string -> Option<string>, s: seq<string>, i: nat)
    requires 0 < i <= |s|
    requires Hashable(dir, hash, s[i - 1]) && HashOf(dir, hash, s[i - 1]) in HashesUpTo(dir, hash, s, i - 1)
    ensures DuplicateSiblings(dir, hash, s, i) == DuplicateSiblings(dir, hash, s, i - 1) + {SiblingTxt(s[i - 1])}
  {
    assert !FirstOfHash(dir, hash, s, i - 1);
  }

  /** Deleting a duplicate and its sibling `txt` keeps the files' part. */
  lemma {:induction false} DuplicateFiles(dir: Dir, hash: string -> Option<string>, s: seq<string>, i: nat,
                                          st: State, st': State, txt: string)
    requires 0 < i <= |s| && s[i - 1] !in s[i..] && InvFiles(dir, hash, s, i - 1, st)
    requires Hashable(dir, hash, s[i - 1]) && !IsImageName(txt)
    requires DuplicateSiblings(dir, hash, s, i) == DuplicateSiblings(dir, hash, s, i - 1) + {txt}
    requires SubDir(st'.dir, st.dir) && st'.dir.Keys == st.dir.Keys - {s[i - 1], txt}
    ensures InvFiles(dir, hash, s, i, st')
  {
    var n := s[i - 1];
    forall j | i <= j < |s| && IsImageName(s[j]) && s[j] in dir ensures s[j] in st'.dir {
      assert s[j] in s[i..];
      assert s[j] in st.dir && s[j] != n && s[j] != txt;
    }
    forall m | m in dir && m !in st'.dir
      ensures Hashable(dir, hash, m) || (!IsImageName(m) && m in DuplicateSiblings(dir, hash, s, i))
    {
      if m in st.dir {
        assert m == n || m == txt;
      }
    }
  }

  /** Deleting a duplicate and its sibling keeps first-seen-wins. */
  lemma {:induction false} DuplicateOrder(dir: Dir, hash: string -> Option<string>, s: seq<string>, i: nat, st: State, st': State)
    requires 0 < i <= |s| && s[i - 1] !in s[..i - 1] && InvOrder(dir, hash, s, i - 1, st)
    requires Hashable(dir, hash, s[i - 1]) && HashOf(dir, hash, s[i - 1]) in HashesUpTo(dir, hash, s, i - 1)
    requires st'.dir.Keys == st.dir.Keys - {s[i - 1], SiblingTxt(s[i - 1])}
    ensures InvOrder(dir, hash, s, i, st')
  {
    var n := s[i - 1];
    assert !FirstOfHash(dir, hash, s, i - 1);
    assert OrderAt(dir, hash, s, i - 1, st');
    forall j | 0 <= j < i ensures OrderAt(dir, hash, s, j, st') {
      if j < i - 1 {
        assert OrderAt(dir, hash, s, j, st);
        assert s[j] in s[..i - 1];
        SiblingIsNotImage(n);
      }
    }
  }

  /** A hashable name not seen before adds one to the hashable names. */
  lemma HashableUpToGrows(dir: Dir, hash: string -> Option<string>, s: seq<string>, i: nat)
    requires 0 < i <= |s| && s[i - 1] !in s[..i - 1] && Hashable(dir, hash, s[i - 1])
    ensures |HashableUpTo(dir, hash, s, i)| == |HashableUpTo(dir, hash, s, i - 1)| + 1
  {
    HashableUpToMembers(dir, hash, s, i - 1);
    assert s[i - 1] !in HashableUpTo(dir, hash, s, i - 1);
  }

  /** Deleting a duplicate counts it. */
  lemma {:induction false} DuplicateCounts(dir: Dir, hash: string -> Option<string>, s: seq<string>, i: nat, st: State, st': State)
    requires 0 < i <= |s| && s[i - 1] !in s[..i - 1] && InvCounts(dir, hash, s, i - 1, st)
    requires Hashable(dir, hash, s[i - 1]) && HashOf(dir, hash, s[i - 1]) in st.hashes
    requires st'.hashes == st.hashes && st'.kept == st.kept && st'.deleted == st.deleted + 1
    ensures InvCounts(dir, hash, s, i, st')
  {
    assert HashesUpTo(dir, hash, s, i) == HashesUpTo(dir, hash, s, i - 1) + {HashOf(dir, hash, s[i - 1])};
    HashableUpToGrows(dir, hash, s, i);
  }

  /** Keeping the first image with a new hash keeps the files' part. */
  lemma {:induction false} NewFiles(dir: Dir, hash: string -> Option<string>, s: seq<string>, i: nat, st: State, st': State)
    requires 0 < i <= |s| && InvFiles(dir, hash, s, i - 1, st)
    requires Hashable(dir, hash, s[i - 1]) && HashOf(dir, hash, s[i - 1]) !in HashesUpTo(dir, hash, s, i - 1)
    requires st'.dir == st.dir
    ensures InvFiles(dir, hash, s, i, st')
  {
    assert FirstOfHash(dir, hash, s, i - 1);
    assert DuplicateSiblings(dir, hash, s, i) == DuplicateSiblings(dir, hash, s, i - 1);
  }

  /** Keeping the first image with a new hash keeps first-seen-wins. */
  lemma {:induction false} NewOrder(dir: Dir, hash: string -> Option<string>, s: seq<string>, i: nat, st: State, st': State)
    requires 0 < i <= |s| && InvOrder(dir, hash, s, i - 1, st)
    requires Hashable(dir, hash, s[i - 1]) && HashOf(dir, hash, s[i - 1]) !in HashesUpTo(dir, hash, s, i - 1)
    requires s[i - 1] in st.dir && st'.dir == st.dir
    ensures InvOrder(dir, hash, s, i, st')
  {
    assert FirstOfHash(dir, hash, s, i - 1);
    assert OrderAt(dir, hash, s, i - 1, st');
    forall j | 0 <= j < i ensures OrderAt(dir, hash, s, j, st') {
      if j < i - 1 {
        assert OrderAt(dir, hash, s, j, st);
      }
    }
  }

  /** Keeping the first image with a new hash records and counts it. */
  lemma {:induction false} NewCounts(dir: Dir, hash: string -> Option<string>, s: seq<string>, i: nat, st: State, st': State)
    requires 0 < i <= |s| && s[i - 1] !in s[..i - 1] && InvCounts(dir, hash, s, i - 1, st)
    requires Hashable(dir, hash, s[i - 1]) && HashOf(dir, hash, s[i - 1]) !in st.hashes
    requires st'.hashes == st.hashes[HashOf(dir, hash, s[i - 1]) := s[i - 1]]
    requires st'.kept == st.kept + 1 && st'.deleted == st.deleted
    ensures InvCounts(dir, hash, s, i, st')
  {
    var h := HashOf(dir, hash, s[i - 1]);
    assert st'.hashes.Keys == st.hashes.Keys + {h};
    assert HashesUpTo(dir, hash, s, i) == HashesUpTo(dir, hash, s, i - 1) + {h};
    HashableUpToGrows(dir, hash, s, i);
  }

  /** How a step changes the state of a name the scan does not hash, of a
      duplicate, and of the first image with a new hash. */
  lemma StepSkipShape(dir: Dir, hash: string -> Option<string>, st: State, n: string)
    requires SubDir(st.dir, dir) && !Hashable(dir, hash, n)
    ensures Step(st, n, hash) == st
  {
    assert n in st.dir ==> st.dir[n] == dir[n];
  }

  lemma StepDuplicateShape(st: State, n: string, hash: string -> Option<string>)
    requires n in st.dir && IsImageName(n) && hash(st.dir[n]).Some? && hash(st.dir[n]).value in st.hashes
    ensures var st' := Step(st, n, hash);
      && SubDir(st'.dir, st.dir) && st'.dir.Keys == st.dir.Keys - {n, SiblingTxt(n)}
      && st'.hashes == st.hashes && st'.kept == st.kept && st'.deleted == st.deleted + 1
  {
  }

  lemma StepNewShape(st: State, n: string, hash: string -> Option<string>)
    requires n in st.dir && IsImageName(n) && hash(st.dir[n]).Some? && hash(st.dir[n]).value !in st.hashes
    ensures var st' := Step(st, n, hash);
      && st'.dir == st.dir && st'.hashes == st.hashes[hash(st.dir[n]).value := n]
      && st'.kept == st.kept + 1 && st'.deleted == st.deleted
  {
  }

  lemma {:induction false} StepSkipInv(dir: Dir, hash: string -> Option<string>, s: seq<string>, i: nat, st: State)
    requires 0 < i <= |s| && Inv(dir, hash, s, i - 1, st)
    requires !Hashable(dir, hash, s[i - 1])
    ensures Inv(dir, hash, s, i, Step(st, s[i - 1], hash))
  {
    StepSkipShape(dir, hash, st, s[i - 1]);
    SkipFiles(dir, hash, s, i, st);
    SkipOrder(dir, hash, s, i, st);
    SkipCounts(dir, hash, s, i, st);
  }

  lemma {:induction false} StepDuplicateInv(dir: Dir, hash: string -> Option<string>, s: seq<string>, i: nat, st: State)
    requires 0 < i <= |s| && s[i - 1] !in s[..i - 1] && s[i - 1] !in s[i..]
    requires Inv(dir, hash, s, i - 1, st)
    requires Hashable(dir, hash, s[i - 1]) && s[i - 1] in st.dir && st.dir[s[i - 1]] == dir[s[i - 1]]
    requires HashOf(dir, hash, s[i - 1]) in st.hashes
    ensures Inv(dir, hash, s, i, Step(st, s[i - 1], hash))
  {
    var n := s[i - 1];
    var st' := Step(st, n, hash);
    StepDuplicateShape(st, n, hash);
    SiblingIsNotImage(n);
    DuplicateSiblingsGrow(dir, hash, s, i);
    DuplicateFiles(dir, hash, s, i, st, st', SiblingTxt(n));
    DuplicateOrder(dir, hash, s, i, st, st');
    DuplicateCounts(dir, hash, s, i, st, st');
  }

  lemma {:induction false} StepNewInv(dir: Dir, hash: string -> Option<string>, s: seq<string>, i: nat, st: State)
    requires 0 < i <= |s| && s[i - 1] !in s[..i - 1]
    requires Inv(dir, hash, s, i - 1, st)
    requires Hashable(dir, hash, s[i - 1]) && s[i - 1] in st.dir && st.dir[s[i - 1]] == dir[s[i - 1]]
    requires HashOf(dir, hash, s[i - 1]) !in st.hashes
    ensures Inv(dir, hash, s, i, Step(st, s[i - 1], hash))
  {
    var n := s[i - 1];
    var st' := Step(st, n, hash);
    StepNewShape(st, n, hash);
    NewFiles(dir, hash, s, i, st, st');
    NewOrder(dir, hash, s, i, st, st');
    NewCounts(dir, hash, s, i, st, st');
  }

  /** One step keeps the invariant. */
  lemma {:induction false} StepInv(dir: Dir, hash: string -> Option<string>, s: seq<string>, i: nat, st: State)
    requires 0 < i <= |s| && s[i - 1] !in s[..i - 1] && s[i - 1] !in s[i..]
    requires Inv(dir, hash, s, i - 1, st)
    ensures Inv(dir, hash, s, i, Step(st, s[i - 1], hash))
  {
    var n := s[i - 1];
    if !Hashable(dir, hash, n) {
      StepSkipInv(dir, hash, s, i, st);
    } else {
      assert n in s[i - 1..];
      if HashOf(dir, hash, n) in st.hashes {
        StepDuplicateInv(dir, hash, s, i, st);
      } else {
        StepNewInv(dir, hash, s, i, st);
      }
    }
  }

  /** The invariant holds before the first name. */
  lemma RunInvStart(dir: Dir, hash: string -> Option<string>, s: seq<string>)
    ensures Inv(dir, hash, s, 0, Run(dir, s, hash, 0))
  {
    var st := Run(dir, s, hash, 0);
    assert st.dir == dir && st.hashes == map[];
  }

  lemma {:induction false} RunInv(dir: Dir, hash: string -> Option<string>, s: seq<string>, i: nat)
    requires Distinct(s) && i <= |s|
    ensures Inv(dir, hash, s, i, Run(dir, s, hash, i))
  {
    if i == 0 {
      RunInvStart(dir, hash, s);
    } else {
      RunInv(dir, hash, s, i - 1);
      NotEarlier(s, i);
      var st := Run(dir, s, hash, i - 1);
      assert Run(dir, s, hash, i) == Step(st, s[i - 1], hash);
      StepInv(dir, hash, s, i, st);
    }
  }

  // ---------------------------------------------------------------------------
  // Properties of the whole scan

  /** The hashable image files of `dir`. */
  ghost function HashableFiles(dir: Dir, hash: string -> Option<string>): set<string> {
    set n | n in dir && Hashable(dir, hash, n)
  }

  /** Their distinct hashes. */
  ghost function ImageHashes(dir: Dir, hash: string -> Option<string>): set<string> {
    set n | n in dir && Hashable(dir, hash, n) :: HashOf(dir, hash, n)
  }

  /** No two hashable image files of `dir` share a hash. */
  ghost predicate DistinctHashes(dir: Dir, hash: string -> Option<string>) {
    forall a, b :: Hashable(dir, hash, a) && Hashable(dir, hash, b) && a != b ==>
      HashOf(dir, hash, a) != HashOf(dir, hash, b)
  }

  /** `FirstOfHash` spelled out. */
  lemma FirstOfHashIff(dir: Dir, hash: string -> Option<string>, s: seq<string>, j: nat)
    requires j < |s| && Hashable(dir, hash, s[j])
    ensures FirstOfHash(dir, hash, s, j) <==>
      forall m :: 0 <= m < j && Hashable(dir, hash, s[m]) ==> HashOf(dir, hash, s[m]) != HashOf(dir, hash, s[j])
  {
    HashesUpToMembers(dir, hash, s, j);
  }

  /** First-seen-wins, read off the invariant at the end of the scan. */
  lemma RunKeepsFirst(dir: Dir, hash: string -> Option<string>, s: seq<string>, st: State)
    requires InvOrder(dir, hash, s, |s|, st)
    ensures forall j :: 0 <= j < |s| && Hashable(dir, hash, s[j]) ==>
      && (s[j] in st.dir <==> FirstOfHash(dir, hash, s, j))
      && (s[j] !in st.dir ==> SiblingTxt(s[j]) !in st.dir)
  {
    forall j | 0 <= j < |s| && Hashable(dir, hash, s[j])
      ensures s[j] in st.dir <==> FirstOfHash(dir, hash, s, j)
      ensures s[j] !in st.dir ==> SiblingTxt(s[j]) !in st.dir
    {
      assert OrderAt(dir, hash, s, j, st);
    }
  }

  /** First-seen-wins in sorted order: a hashable image survives exactly when
      no image before it in sorted order has the same hash; a deleted one takes
      its sibling `.txt` file with it. */
  lemma DedupKeepsFirst(dir: Dir, listing: seq<string>, hash: string -> Option<string>)
    requires IsListing(listing, dir)
    ensures var s := Sort(listing);
      forall j :: 0 <= j < |s| && Hashable(dir, hash, s[j]) ==>
        (s[j] in Dedup(dir, listing, hash).dir <==>
          forall m :: 0 <= m < j && Hashable(dir, hash, s[m]) ==> HashOf(dir, hash, s[m]) != HashOf(dir, hash, s[j]))
    ensures var s := Sort(listing);
      forall j :: 0 <= j < |s| && Hashable(dir, hash, s[j]) && s[j] !in Dedup(dir, listing, hash).dir ==>
        SiblingTxt(s[j]) !in Dedup(dir, listing, hash).dir
  {
    var s := Sort(listing);
    SortedListing(listing, dir);
    RunInv(dir, hash, s, |s|);
    RunKeepsFirst(dir, hash, s, Run(dir, s, hash, |s|));
    forall j | 0 <= j < |s| && Hashable(dir, hash, s[j]) {
      FirstOfHashIff(dir, hash, s, j);
    }
  }

  /** The duplicate whose sibling a name is. */
  lemma {:induction false} SiblingWitness(dir: Dir, hash: string -> Option<string>, s: seq<string>, i: nat, n: string)
    returns (j: nat)
    requires i <= |s| && n in DuplicateSiblings(dir, hash, s, i)
    ensures j < i && Hashable(dir, hash, s[j]) && !FirstOfHash(dir, hash, s, j) && SiblingTxt(s[j]) == n
  {
    if Hashable(dir, hash, s[i - 1]) && !FirstOfHash(dir, hash, s, i - 1) && SiblingTxt(s[i - 1]) == n {
      j := i - 1;
    } else {
      j := SiblingWitness(dir, hash, s, i - 1, n);
    }
  }

  /** Only deletions, read off the invariant at the end of the scan. */
  lemma RunOnlyRemoves(dir: Dir, hash: string -> Option<string>, s: seq<string>, st: State)
    requires InvFiles(dir, hash, s, |s|, st) && InvOrder(dir, hash, s, |s|, st)
    ensures SubDir(st.dir, dir)
    ensures forall n :: n in dir && IsImageName(n) && hash(dir[n]).None? ==> n in st.dir
    ensures forall n :: n in dir && !IsImageName(n) && n !in st.dir ==>
      exists m :: m in dir && m !in st.dir && Hashable(dir, hash, m) && SiblingTxt(m) == n
  {
    forall n | n in dir && !IsImageName(n) && n !in st.dir
      ensures exists m :: m in dir && m !in st.dir && Hashable(dir, hash, m) && SiblingTxt(m) == n
    {
      var j := SiblingWitness(dir, hash, s, |s|, n);
      assert OrderAt(dir, hash, s, j, st);
      assert s[j] in dir && s[j] !in st.dir;
    }
  }

  /** The scan only deletes files; an image whose hash fails stays; a
      non-image file goes only as the sibling `.txt` of a deleted image. */
  lemma DedupOnlyRemoves(dir: Dir, listing: seq<string>, hash: string -> Option<string>)
    requires IsListing(listing, dir)
    ensures var r := Dedup(dir, listing, hash).dir;
      && SubDir(r, dir)
      && (forall n :: n in dir && IsImageName(n) && hash(dir[n]).None? ==> n in r)
      && (forall n :: n in dir && !IsImageName(n) && n !in r ==>
            exists m :: m in dir && m !in r && Hashable(dir, hash, m) && SiblingTxt(m) == n)
  {
    var s := Sort(listing);
    SortedListing(listing, dir);
    RunInv(dir, hash, s, |s|);
    RunOnlyRemoves(dir, hash, s, Run(dir, s, hash, |s|));
  }

  /** Over a listing, the scanned hashable names are all the hashable files. */
  lemma HashableUpToAll(dir: Dir, hash: string -> Option<string>, s: seq<string>)
    requires IsListing(s, dir)
    ensures HashableUpTo(dir, hash, s, |s|) == HashableFiles(dir, hash)
  {
    HashableUpToMembers(dir, hash, s, |s|);
    assert s[..|s|] == s;
  }

  /** Over a listing, the scanned hashes are all the hashes of the files. */
  lemma HashesUpToAll(dir: Dir, hash: string -> Option<string>, s: seq<string>)
    requires IsListing(s, dir)
    ensures HashesUpTo(dir, hash, s, |s|) == ImageHashes(dir, hash)
  {
    HashesUpToMembers(dir, hash, s, |s|);
    forall x | x in ImageHashes(dir, hash) ensures x in HashesUpTo(dir, hash, s, |s|) {
      var n :| n in dir && Hashable(dir, hash, n) && HashOf(dir, hash, n) == x;
      var j :| 0 <= j < |s| && s[j] == n;
      assert Hashable(dir, hash, s[j]) && HashOf(dir, hash, s[j]) == x;
    }
    forall x | x in HashesUpTo(dir, hash, s, |s|) ensures x in ImageHashes(dir, hash) {
      var j :| 0 <= j < |s| && Hashable(dir, hash, s[j]) && HashOf(dir, hash, s[j]) == x;
      assert s[j] in dir;
    }
  }

  /** `kept_count` is the number of distinct hashes and `deleted_count +
      kept_count` the number of hashable image files. */
  lemma DedupCounts(dir: Dir, listing: seq<string>, hash: string -> Option<string>)
    requires IsListing(listing, dir)
    ensures Dedup(dir, listing, hash).kept == |ImageHashes(dir, hash)|
    ensures Dedup(dir, listing, hash).deleted + Dedup(dir, listing, hash).kept == |HashableFiles(dir, hash)|
  {
    var s := Sort(listing);
    SortedListing(listing, dir);
    RunInv(dir, hash, s, |s|);
    HashableUpToAll(dir, hash, s);
    HashesUpToAll(dir, hash, s);
  }

  /** The index of a scanned name with the given hash. */
  lemma {:induction false} HashWitness(dir: Dir, hash: string -> Option<string>, s: seq<string>, i: nat, x: string)
    returns (j: nat)
    requires i <= |s| && x in HashesUpTo(dir, hash, s, i)
    ensures j < i && Hashable(dir, hash, s[j]) && HashOf(dir, hash, s[j]) == x
  {
    if Hashable(dir, hash, s[i - 1]) && HashOf(dir, hash, s[i - 1]) == x {
      j := i - 1;
    } else {
      j := HashWitness(dir, hash, s, i - 1, x);
    }
  }

  /** The hash of a hashable name is among the hashes of every longer prefix. */
  lemma {:induction false} HashesUpToHas(dir: Dir, hash: string -> Option<string>, s: seq<string>, j: nat, i: nat)
    requires j < i <= |s| && Hashable(dir, hash, s[j])
    ensures HashOf(dir, hash, s[j]) in HashesUpTo(dir, hash, s, i)
    decreases i
  {
    if j < i - 1 {
      HashesUpToHas(dir, hash, s, j, i - 1);
    }
  }

  /** A hashable survivor of the scan is the first of its hash. */
  lemma SurvivorFirst(dir: Dir, hash: string -> Option<string>, s: seq<string>, st: State, a: string)
    returns (j: nat)
    requires SubDir(st.dir, dir) && InvOrder(dir, hash, s, |s|, st)
    requires a in s && Hashable(st.dir, hash, a)
    ensures j < |s| && s[j] == a && Hashable(dir, hash, a)
    ensures HashOf(dir, hash, a) == HashOf(st.dir, hash, a) && FirstOfHash(dir, hash, s, j)
  {
    j :| 0 <= j < |s| && s[j] == a;
    assert st.dir[a] == dir[a];
    assert OrderAt(dir, hash, s, j, st);
  }

  /** Two names that both survive first-seen-wins have different hashes. */
  lemma RunDistinct(dir: Dir, hash: string -> Option<string>, s: seq<string>, st: State)
    requires SubDir(st.dir, dir) && InvOrder(dir, hash, s, |s|, st)
    requires forall n :: n in dir ==> n in s
    ensures DistinctHashes(st.dir, hash)
  {
    forall a, b | Hashable(st.dir, hash, a) && Hashable(st.dir, hash, b) && a != b
      ensures HashOf(st.dir, hash, a) != HashOf(st.dir, hash, b)
    {
      var ja := SurvivorFirst(dir, hash, s, st, a);
      var jb := SurvivorFirst(dir, hash, s, st, b);
      if ja < jb {
        HashesUpToHas(dir, hash, s, ja, jb);
      } else {
        HashesUpToHas(dir, hash, s, jb, ja);
      }
    }
  }

  /** After the scan no two remaining images share a hash. */
  lemma DedupDistinct(dir: Dir, listing: seq<string>, hash: string -> Option<string>)
    requires IsListing(listing, dir)
    ensures DistinctHashes(Dedup(dir, listing, hash).dir, hash)
  {
    var s := Sort(listing);
    SortedListing(listing, dir);
    RunInv(dir, hash, s, |s|);
    RunDistinct(dir, hash, s, Dedup(dir, listing, hash));
  }

  /** With pairwise distinct hashes a step of the scan changes nothing. */
  lemma StepNoDuplicates(dir: Dir, hash: string -> Option<string>, s: seq<string>, i: nat, st: State)
    requires 0 < i <= |s| && s[i - 1] !in s[..i - 1]
    requires st.dir == dir && st.deleted == 0 && st.hashes.Keys == HashesUpTo(dir, hash, s, i - 1)
    requires DistinctHashes(dir, hash)
    ensures Step(st, s[i - 1], hash).dir == dir && Step(st, s[i - 1], hash).deleted == 0
    ensures Step(st, s[i - 1], hash).hashes.Keys == HashesUpTo(dir, hash, s, i)
  {
    var n := s[i - 1];
    if Hashable(dir, hash, n) {
      var h := HashOf(dir, hash, n);
      if h in HashesUpTo(dir, hash, s, i - 1) {
        var j := HashWitness(dir, hash, s, i - 1, h);
        assert false;
      }
      assert Step(st, n, hash).hashes == st.hashes[h := n];
    }
  }

  /** With pairwise distinct hashes the scan changes nothing. */
  lemma {:induction false} RunNoDuplicates(dir: Dir, hash: string -> Option<string>, s: seq<string>, i: nat)
    requires Distinct(s) && i <= |s| && DistinctHashes(dir, hash)
    ensures Run(dir, s, hash, i).dir == dir && Run(dir, s, hash, i).deleted == 0
    ensures Run(dir, s, hash, i).hashes.Keys == HashesUpTo(dir, hash, s, i)
  {
    if i > 0 {
      RunNoDuplicates(dir, hash, s, i - 1);
      NotEarlier(s, i);
      var st := Run(dir, s, hash, i - 1);
      assert Run(dir, s, hash, i) == Step(st, s[i - 1], hash);
      StepNoDuplicates(dir, hash, s, i, st);
    }
  }

  /** Running the scan again on its own result deletes nothing. */
  lemma DedupIdempotent(dir: Dir, listing: seq<string>, listing': seq<string>, hash: string -> Option<string>)
    requires IsListing(listing, dir)
    requires IsListing(listing', Dedup(dir, listing, hash).dir)
    ensures Dedup(Dedup(dir, listing, hash).dir, listing', hash).deleted == 0
    ensures Dedup(Dedup(dir, listing, hash).dir, listing', hash).dir == Dedup(dir, listing, hash).dir
  {
    var r := Dedup(dir, listing, hash).dir;
    DedupDistinct(dir, listing, hash);
    SortedListing(listing', r);
    RunNoDuplicates(r, hash, Sort(listing'), |Sort(listing')|);
  }
}
