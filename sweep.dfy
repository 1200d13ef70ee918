/**
 * The corruption sweep of check_img.py: every listed image file (by
 * extension) that fails to decode is removed together with its sibling
 * `.txt` file. Decoding (`Image.open`, `verify`, `load`) is a predicate of the
 * file content.
 */
module Sweep {
  import opened Text
  import opened Order
  import opened Files

  /** The extensions `remove_corrupted_images_and_texts` checks. */
  const SweepExtensions: seq<string> := [".jpg", ".jpeg", ".png", ".gif", ".bmp", ".tiff"]

  /** `os.path.splitext(filename)[1].lower() in [...]` */
  predicate IsSweepCandidate(name: string) {
    Lower(SplitExt(name).1) in SweepExtensions
  }

  /** `is_image_corrupted(path)`: a missing file counts as corrupted; otherwise
      the file is corrupted when decoding it raises. */
  predicate IsImageCorrupted(dir: Dir, name: string, decodes: string -> bool) {
    name !in dir || !decodes(dir[name])
  }

  /** The last '.' of `r + ".txt"` is the one before "txt". */
  lemma LastDotOfTxt(r: string)
    ensures LastDot(r + ".txt") == |r|
  {
    var t := r + ".txt";
    var d := LastDot(t);
    assert t[|r|] == '.' && t[|r| + 1] == 't' && t[|r| + 2] == 'x' && t[|r| + 3] == 't';
  }

  /** The sibling tag file of any name is never swept as an image: its
      extension is ".txt" or empty. */
  lemma SiblingNotCandidate(name: string)
    ensures !IsSweepCandidate(SiblingTxt(name))
  {
    var r := SplitExt(name).0;
    var t := r + ".txt";
    LastDotOfTxt(r);
    var e := SplitExt(t).1;
    assert e == "" || e == ".txt" by {
      if LeadingDots(t) < LastDot(t) {
        assert e == t[|r|..];
      }
    }
    assert Lower(".txt") == ".txt";
    assert Lower("") == "";
  }

  /** A corrupted candidate of the original directory. */
  predicate Corrupt(dir: Dir, decodes: string -> bool, name: string) {
    name in dir && IsSweepCandidate(name) && !decodes(dir[name])
  }

  /** The sweep's state: the directory and `deleted_count`. */
  datatype State = State(dir: Dir, deleted: nat)

  /** One iteration of the sweep, for the listed file `name`. */
  function Step(st: State, name: string, decodes: string -> bool): State {
    if name in st.dir && IsSweepCandidate(name) && IsImageCorrupted(st.dir, name, decodes) then
      var d := st.dir - {name};
      var txt := SiblingTxt(name);
      State(if txt in d then d - {txt} else d, st.deleted + 1)
    else st
  }

  /** The state after the first `i` listed names. */
  function Run(dir: Dir, names: seq<string>, decodes: string -> bool, i: nat): State
    requires i <= |names|
  {
    if i == 0 then State(dir, 0) else Step(Run(dir, names, decodes, i - 1), names[i - 1], decodes)
  }

  /** The outcome of the whole sweep over `os.listdir(directory)`. */
  function SweepAll(dir: Dir, listing: seq<string>, decodes: string -> bool): State {
    Run(dir, listing, decodes, |listing|)
  }

  /** `remove_corrupted_images_and_texts(directory)`: the new directory and
      `deleted_count`. */
  method RemoveCorrupted(dir: Dir, listing: seq<string>, decodes: string -> bool)
    returns (dir': Dir, deleted: nat)
    ensures dir' == SweepAll(dir, listing, decodes).dir
    ensures deleted == SweepAll(dir, listing, decodes).deleted
  {
    dir' := dir;
    deleted := 0;
    for i := 0 to |listing|
      invariant State(dir', deleted) == Run(dir, listing, decodes, i)
    {
      var filename := listing[i];
      if filename in dir' {
        if IsSweepCandidate(filename) {
          if IsImageCorrupted(dir', filename, decodes) {
            dir' := dir' - {filename};
            deleted := deleted + 1;
            var txt := SiblingTxt(filename);
            if txt in dir' {
              dir' := dir' - {txt};
            }
          }
        }
      }
    }
  }

  // ---------------------------------------------------------------------------
  // What the sweep computes

  /** The corrupted candidates among the first `i` names. */
  function CorruptUpTo(dir: Dir, decodes: string -> bool, s: seq<string>, i: nat): set<string>
    requires i <= |s|
  {
    if i == 0 then {}
    else CorruptUpTo(dir, decodes, s, i - 1) + if Corrupt(dir, decodes, s[i - 1]) then {s[i - 1]} else {}
  }

  /** Their sibling `.txt` names. */
  function SiblingsUpTo(dir: Dir, decodes: string -> bool, s: seq<string>, i: nat): set<string>
    requires i <= |s|
  {
    if i == 0 then {}
    else SiblingsUpTo(dir, decodes, s, i - 1) + if Corrupt(dir, decodes, s[i - 1]) then {SiblingTxt(s[i - 1])} else {}
  }

  /** Only deletions, and the unscanned candidates are all there. */
  ghost predicate InvFiles(dir: Dir, decodes: string -> bool, s: seq<string>, i: nat, st: State)
    requires i <= |s|
  {
    && SubDir(st.dir, dir)
    && forall j :: i <= j < |s| && IsSweepCandidate(s[j]) && s[j] in dir ==> s[j] in st.dir
  }

  /** A candidate is gone exactly when it was found corrupted. */
  ghost predicate InvCandidates(dir: Dir, decodes: string -> bool, s: seq<string>, i: nat, st: State)
    requires i <= |s|
  {
    forall n :: n in dir && IsSweepCandidate(n) ==> (n in st.dir <==> n !in CorruptUpTo(dir, decodes, s, i))
  }

  /** Any other file is gone exactly when it is the sibling of a corrupted one. */
  ghost predicate InvOthers(dir: Dir, decodes: string -> bool, s: seq<string>, i: nat, st: State)
    requires i <= |s|
  {
    forall n :: n in dir && !IsSweepCandidate(n) ==> (n in st.dir <==> n !in SiblingsUpTo(dir, decodes, s, i))
  }

  ghost predicate Inv(dir: Dir, decodes: string -> bool, s: seq<string>, i: nat, st: State)
    requires i <= |s|
  {
    && InvFiles(dir, decodes, s, i, st)
    && InvCandidates(dir, decodes, s, i, st)
    && InvOthers(dir, decodes, s, i, st)
    && st.deleted == |CorruptUpTo(dir, decodes, s, i)|
  }

  lemma {:induction false} CorruptUpToMembers(dir: Dir, decodes: string -> bool, s: seq<string>, i: nat)
    requires i <= |s|
    ensures forall n :: n in CorruptUpTo(dir, decodes, s, i) <==> n in s[..i] && Corrupt(dir, decodes, n)
  {
    if i > 0 {
      CorruptUpToMembers(dir, decodes, s, i - 1);
      assert s[..i] == s[..i - 1] + [s[i - 1]];
    }
  }

  /** A name that is not corrupted, or no longer there, leaves the state as it is. */
  lemma StepKeeps(dir: Dir, decodes: string -> bool, s: seq<string>, i: nat, st: State)
    requires 0 < i <= |s| && InvFiles(dir, decodes, s, i - 1, st)
    requires !(s[i - 1] in st.dir && IsSweepCandidate(s[i - 1]) && IsImageCorrupted(st.dir, s[i - 1], decodes))
    ensures Step(st, s[i - 1], decodes) == st
    ensures !Corrupt(dir, decodes, s[i - 1])
  {
    assert s[i - 1] in dir && IsSweepCandidate(s[i - 1]) ==> s[i - 1] in st.dir;
  }

  lemma StepKeepsInv(dir: Dir, decodes: string -> bool, s: seq<string>, i: nat, st: State)
    requires 0 < i <= |s| && Inv(dir, decodes, s, i - 1, st)
    requires !Corrupt(dir, decodes, s[i - 1])
    ensures Inv(dir, decodes, s, i, st)
  {
    assert CorruptUpTo(dir, decodes, s, i) == CorruptUpTo(dir, decodes, s, i - 1);
    assert SiblingsUpTo(dir, decodes, s, i) == SiblingsUpTo(dir, decodes, s, i - 1);
  }

  /** How a step changes the state of a corrupted candidate. */
  lemma StepRemovesShape(st: State, name: string, decodes: string -> bool)
    requires name in st.dir && IsSweepCandidate(name) && !decodes(st.dir[name])
    ensures var st' := Step(st, name, decodes);
      && SubDir(st'.dir, st.dir) && st'.dir.Keys == st.dir.Keys - {name, SiblingTxt(name)}
      && st'.deleted == st.deleted + 1
  {
  }

  lemma {:induction false} RemoveFiles(dir: Dir, decodes: string -> bool, s: seq<string>, i: nat,
                                       st: State, st': State, txt: string)
    requires 0 < i <= |s| && s[i - 1] !in s[i..] && InvFiles(dir, decodes, s, i - 1, st)
    requires !IsSweepCandidate(txt)
    requires SubDir(st'.dir, st.dir) && st'.dir.Keys == st.dir.Keys - {s[i - 1], txt}
    ensures InvFiles(dir, decodes, s, i, st')
  {
    forall j | i <= j < |s| && IsSweepCandidate(s[j]) && s[j] in dir ensures s[j] in st'.dir {
      assert s[j] in s[i..];
      assert s[j] in st.dir && s[j] != s[i - 1] && s[j] != txt;
    }
  }

  lemma {:induction false} RemoveCandidates(dir: Dir, decodes: string -> bool, s: seq<string>, i: nat,
                                            st: State, st': State, txt: string)
    requires 0 < i <= |s| && InvCandidates(dir, decodes, s, i - 1, st)
    requires Corrupt(dir, decodes, s[i - 1]) && !IsSweepCandidate(txt)
    requires st'.dir.Keys == st.dir.Keys - {s[i - 1], txt}
    ensures InvCandidates(dir, decodes, s, i, st')
  {
    assert CorruptUpTo(dir, decodes, s, i) == CorruptUpTo(dir, decodes, s, i - 1) + {s[i - 1]};
  }

  lemma {:induction false} RemoveOthers(dir: Dir, decodes: string -> bool, s: seq<string>, i: nat,
                                        st: State, st': State, txt: string)
    requires 0 < i <= |s| && InvOthers(dir, decodes, s, i - 1, st)
    requires Corrupt(dir, decodes, s[i - 1])
    requires SiblingsUpTo(dir, decodes, s, i) == SiblingsUpTo(dir, decodes, s, i - 1) + {txt}
    requires st'.dir.Keys == st.dir.Keys - {s[i - 1], txt}
    ensures InvOthers(dir, decodes, s, i, st')
  {
  }

  lemma {:induction false} RemoveCount(dir: Dir, decodes: string -> bool, s: seq<string>, i: nat)
    requires 0 < i <= |s| && s[i - 1] !in s[..i - 1] && Corrupt(dir, decodes, s[i - 1])
    ensures |CorruptUpTo(dir, decodes, s, i)| == |CorruptUpTo(dir, decodes, s, i - 1)| + 1
  {
    CorruptUpToMembers(dir, decodes, s, i - 1);
    assert s[i - 1] !in CorruptUpTo(dir, decodes, s, i - 1);
  }

  lemma {:induction false} StepRemoveInv(dir: Dir, decodes: string -> bool, s: seq<string>, i: nat, st: State)
    requires 0 < i <= |s| && s[i - 1] !in s[..i - 1] && s[i - 1] !in s[i..]
    requires Inv(dir, decodes, s, i - 1, st)
    requires Corrupt(dir, decodes, s[i - 1]) && s[i - 1] in st.dir && st.dir[s[i - 1]] == dir[s[i - 1]]
    ensures Inv(dir, decodes, s, i, Step(st, s[i - 1], decodes))
  {
    var n := s[i - 1];
    var st' := Step(st, n, decodes);
    StepRemovesShape(st, n, decodes);
    SiblingNotCandidate(n);
    RemoveFiles(dir, decodes, s, i, st, st', SiblingTxt(n));
    RemoveCandidates(dir, decodes, s, i, st, st', SiblingTxt(n));
    RemoveOthers(dir, decodes, s, i, st, st', SiblingTxt(n));
    RemoveCount(dir, decodes, s, i);
  }

  lemma {:induction false} StepInv(dir: Dir, decodes: string -> bool, s: seq<string>, i: nat, st: State)
    requires 0 < i <= |s| && s[i - 1] !in s[..i - 1] && s[i - 1] !in s[i..]
    requires Inv(dir, decodes, s, i - 1, st)
    ensures Inv(dir, decodes, s, i, Step(st, s[i - 1], decodes))
  {
    var n := s[i - 1];
    if n in st.dir && IsSweepCandidate(n) && IsImageCorrupted(st.dir, n, decodes) {
      assert st.dir[n] == dir[n];
      StepRemoveInv(dir, decodes, s, i, st);
    } else {
      StepKeeps(dir, decodes, s, i, st);
      StepKeepsInv(dir, decodes, s, i, st);
    }
  }

  lemma RunInvStart(dir: Dir, decodes: string -> bool, s: seq<string>)
    ensures Inv(dir, decodes, s, 0, Run(dir, s, decodes, 0))
  {
    assert Run(dir, s, decodes, 0).dir == dir;
  }

  lemma {:induction false} RunInv(dir: Dir, decodes: string -> bool, s: seq<string>, i: nat)
    requires Distinct(s) && i <= |s|
    ensures Inv(dir, decodes, s, i, Run(dir, s, decodes, i))
  {
    if i == 0 {
      RunInvStart(dir, decodes, s);
    } else {
      RunInv(dir, decodes, s, i - 1);
      assert s[i - 1] !in s[..i - 1] && s[i - 1] !in s[i..];
      var st := Run(dir, s, decodes, i - 1);
      assert Run(dir, s, decodes, i) == Step(st, s[i - 1], decodes);
      StepInv(dir, decodes, s, i, st);
    }
  }

  // ---------------------------------------------------------------------------
  // Properties of the whole sweep

  /** The corrupted image files of `dir`. */
  ghost function CorruptImages(dir: Dir, decodes: string -> bool): set<string> {
    set n | n in dir && Corrupt(dir, decodes, n)
  }

  /** The corrupted candidate whose sibling a name is. */
  lemma {:induction false} SiblingWitness(dir: Dir, decodes: string -> bool, s: seq<string>, i: nat, n: string)
    returns (m: string)
    requires i <= |s| && n in SiblingsUpTo(dir, decodes, s, i)
    ensures Corrupt(dir, decodes, m) && SiblingTxt(m) == n
  {
    if Corrupt(dir, decodes, s[i - 1]) && SiblingTxt(s[i - 1]) == n {
      m := s[i - 1];
    } else {
      m := SiblingWitness(dir, decodes, s, i - 1, n);
    }
  }

  /** The sibling of every listed corrupted candidate is among the siblings. */
  lemma {:induction false} SiblingsUpToHas(dir: Dir, decodes: string -> bool, s: seq<string>, j: nat, i: nat)
    requires j < i <= |s| && Corrupt(dir, decodes, s[j])
    ensures SiblingTxt(s[j]) in SiblingsUpTo(dir, decodes, s, i)
    decreases i
  {
    if j < i - 1 {
      SiblingsUpToHas(dir, decodes, s, j, i - 1);
    }
  }

  /** Over a listing, the sweep finds exactly the corrupted images. */
  lemma CorruptUpToAll(dir: Dir, decodes: string -> bool, s: seq<string>)
    requires IsListing(s, dir)
    ensures CorruptUpTo(dir, decodes, s, |s|) == CorruptImages(dir, decodes)
  {
    CorruptUpToMembers(dir, decodes, s, |s|);
    assert s[..|s|] == s;
  }

  /** A non-image file is removed exactly when it is the sibling of a
      corrupted image. */
  lemma OthersResult(dir: Dir, decodes: string -> bool, s: seq<string>, st: State)
    requires IsListing(s, dir) && InvOthers(dir, decodes, s, |s|, st)
    ensures forall n :: n in dir && !IsSweepCandidate(n) ==>
      (n in st.dir <==> !exists m :: Corrupt(dir, decodes, m) && SiblingTxt(m) == n)
  {
    forall n | n in dir && !IsSweepCandidate(n)
      ensures n in st.dir <==> !exists m :: Corrupt(dir, decodes, m) && SiblingTxt(m) == n
    {
      if n !in st.dir {
        var m := SiblingWitness(dir, decodes, s, |s|, n);
      }
      if m :| Corrupt(dir, decodes, m) && SiblingTxt(m) == n {
        var j :| 0 <= j < |s| && s[j] == m;
        SiblingsUpToHas(dir, decodes, s, j, |s|);
      }
    }
  }

  /** The sweep over a listing: only deletions; an image file survives exactly
      when it decodes; any other file survives exactly when it is not the
      sibling `.txt` of a corrupted image; the count is the number of
      corrupted images, their siblings not counted. */
  lemma SweepResult(dir: Dir, listing: seq<string>, decodes: string -> bool)
    requires IsListing(listing, dir)
    ensures var r := SweepAll(dir, listing, decodes).dir;
      && SubDir(r, dir)
      && (forall n :: n in dir && IsSweepCandidate(n) ==> (n in r <==> !IsImageCorrupted(dir, n, decodes)))
      && (forall n :: n in dir && !IsSweepCandidate(n) ==>
            (n in r <==> !exists m :: Corrupt(dir, decodes, m) && SiblingTxt(m) == n))
    ensures SweepAll(dir, listing, decodes).deleted == |CorruptImages(dir, decodes)|
  {
    RunInv(dir, decodes, listing, |listing|);
    CorruptUpToAll(dir, decodes, listing);
    OthersResult(dir, decodes, listing, SweepAll(dir, listing, decodes));
  }

  /** In a directory without corrupted images the sweep changes nothing. */
  lemma {:induction false} RunClean(dir: Dir, decodes: string -> bool, s: seq<string>, i: nat)
    requires i <= |s| && CorruptImages(dir, decodes) == {}
    ensures Run(dir, s, decodes, i) == State(dir, 0)
  {
    if i > 0 {
      RunClean(dir, decodes, s, i - 1);
      assert s[i - 1] !in CorruptImages(dir, decodes);
    }
  }

  /** After a sweep no corrupted image remains, so a second sweep over any
      listing deletes nothing and changes nothing. */
  lemma SweepIdempotent(dir: Dir, listing: seq<string>, listing': seq<string>, decodes: string -> bool)
    requires IsListing(listing, dir)
    ensures CorruptImages(SweepAll(dir, listing, decodes).dir, decodes) == {}
    ensures SweepAll(SweepAll(dir, listing, decodes).dir, listing', decodes)
            == State(SweepAll(dir, listing, decodes).dir, 0)
  {
    var r := SweepAll(dir, listing, decodes).dir;
    SweepResult(dir, listing, decodes);
    forall n | n in r ensures !Corrupt(r, decodes, n) {
      assert r[n] == dir[n];
    }
    RunClean(r, decodes, listing', |listing'|);
  }
}
