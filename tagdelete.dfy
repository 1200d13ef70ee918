/**
 * Deletion by tag (`delete_images_by_tag`): every listed `.txt` tag file whose
 * stripped, comma-split content contains the tag is removed together with the
 * image named by replacing ".txt" with ".jpg".
 */
module TagDelete {
  import opened Text
  import opened Order
  import opened Files

  /** `tag in tag_file.read().strip().split(',')` */
  predicate HasTag(content: string, tag: string) {
    tag in Split(Strip(content), ',')
  }

  /** `file.replace('.txt', '.jpg')` */
  function ImageOf(file: string): string {
    ReplaceAll(file, ".txt", ".jpg")
  }

  /** The image named after a tag file is never itself a tag file. */
  lemma ImageOfNotTxt(file: string)
    requires EndsWith(file, ".txt")
    ensures !EndsWith(ImageOf(file), ".txt")
  {
    ReplaceAllKeepsSuffix(file, ".txt", ".jpg");
    var r := ImageOf(file);
    assert r[|r| - 1] == 'g';
  }

  /** A tag file of the original directory that carries the tag. */
  predicate Matches(dir: Dir, tag: string, name: string) {
    name in dir && EndsWith(name, ".txt") && HasTag(dir[name], tag)
  }

  /** The loop's state: the directory and `deleted_count`. */
  datatype State = State(dir: Dir, deleted: nat)

  /** One iteration, for the listed file `file`. */
  function Step(st: State, file: string, tag: string): State {
    if EndsWith(file, ".txt") && file in st.dir && HasTag(st.dir[file], tag) then
      var image := ImageOf(file);
      var d := if image in st.dir then st.dir - {image} else st.dir;
      State(if file in d then d - {file} else d, st.deleted + 1)
    else st
  }

  function Run(dir: Dir, files: seq<string>, tag: string, i: nat): State
    requires i <= |files|
  {
    if i == 0 then State(dir, 0) else Step(Run(dir, files, tag, i - 1), files[i - 1], tag)
  }

  function DeleteAll(dir: Dir, files: seq<string>, tag: string): State {
    Run(dir, files, tag, |files|)
  }

  lemma RunStep(dir: Dir, files: seq<string>, tag: string, i: nat)
    requires i < |files|
    ensures Run(dir, files, tag, i + 1) == Step(Run(dir, files, tag, i), files[i], tag)
  {
  }

  /** The message `delete_images_by_tag` returns. */
  function Report(deleted: nat, tag: string): string {
    "已删除 " + NatToString(deleted) + "张带有标签 '" + tag + "' 的图片及其标签文件。"
  }

  /** `delete_images_by_tag(tag, save_path)` over the files of one directory. */
  method DeleteImagesByTag(dir: Dir, files: seq<string>, tag: string) returns (dir': Dir, message: string)
    ensures dir' == DeleteAll(dir, files, tag).dir
    ensures message == Report(DeleteAll(dir, files, tag).deleted, tag)
  {
    var deleted;
    dir', deleted := DeleteLoop(dir, files, tag);
    message := Report(deleted, tag);
  }

  /** The loop of `delete_images_by_tag`: the new directory and `deleted_count`. */
  method DeleteLoop(dir: Dir, files: seq<string>, tag: string) returns (dir': Dir, deleted: nat)
    ensures State(dir', deleted) == DeleteAll(dir, files, tag)
  {
    deleted := 0;
    dir' := dir;
    for i := 0 to |files|
      invariant State(dir', deleted) == Run(dir, files, tag, i)
    {
      RunStep(dir, files, tag, i);
      var file := files[i];
      if EndsWith(file, ".txt") && file in dir' {
        if HasTag(dir'[file], tag) {
          var imagePath := ImageOf(file);
          ImageOfNotTxt(file);
          if imagePath in dir' {
            dir' := dir' - {imagePath};
          }
          if file in dir' {
            dir' := dir' - {file};
          }
          deleted := deleted + 1;
        }
      }
    }
  }

  // ---------------------------------------------------------------------------
  // What the loop computes

  /** The matching tag files among the first `i` names. */
  function MatchUpTo(dir: Dir, tag: string, s: seq<string>, i: nat): set<string>
    requires i <= |s|
  {
    if i == 0 then {}
    else MatchUpTo(dir, tag, s, i - 1) + if Matches(dir, tag, s[i - 1]) then {s[i - 1]} else {}
  }

  /** Their images. */
  function ImagesUpTo(dir: Dir, tag: string, s: seq<string>, i: nat): set<string>
    requires i <= |s|
  {
    if i == 0 then {}
    else ImagesUpTo(dir, tag, s, i - 1) + if Matches(dir, tag, s[i - 1]) then {ImageOf(s[i - 1])} else {}
  }

  ghost predicate InvFiles(dir: Dir, tag: string, s: seq<string>, i: nat, st: State)
    requires i <= |s|
  {
    && SubDir(st.dir, dir)
    && forall j :: i <= j < |s| && EndsWith(s[j], ".txt") && s[j] in dir ==> s[j] in st.dir
  }

  ghost predicate InvTagFiles(dir: Dir, tag: string, s: seq<string>, i: nat, st: State)
    requires i <= |s|
  {
    forall n :: n in dir && EndsWith(n, ".txt") ==> (n in st.dir <==> n !in MatchUpTo(dir, tag, s, i))
  }

  ghost predicate InvOthers(dir: Dir, tag: string, s: seq<string>, i: nat, st: State)
    requires i <= |s|
  {
    forall n :: n in dir && !EndsWith(n, ".txt") ==> (n in st.dir <==> n !in ImagesUpTo(dir, tag, s, i))
  }

  ghost predicate Inv(dir: Dir, tag: string, s: seq<string>, i: nat, st: State)
    requires i <= |s|
  {
    && InvFiles(dir, tag, s, i, st)
    && InvTagFiles(dir, tag, s, i, st)
    && InvOthers(dir, tag, s, i, st)
    && st.deleted == |MatchUpTo(dir, tag, s, i)|
  }

  lemma {:induction false} MatchUpToMembers(dir: Dir, tag: string, s: seq<string>, i: nat)
    requires i <= |s|
    ensures forall n :: n in MatchUpTo(dir, tag, s, i) <==> n in s[..i] && Matches(dir, tag, n)
  {
    if i > 0 {
      MatchUpToMembers(dir, tag, s, i - 1);
      assert s[..i] == s[..i - 1] + [s[i - 1]];
    }
  }

  /** A listed tag file is still there when the loop reaches it, so reading it
      never fails. */
  lemma ListedTagFilePresent(dir: Dir, tag: string, s: seq<string>, i: nat, st: State)
    requires i < |s| && InvFiles(dir, tag, s, i, st)
    requires EndsWith(s[i], ".txt") && s[i] in dir
    ensures s[i] in st.dir && st.dir[s[i]] == dir[s[i]]
  {
  }

  lemma StepKeeps(dir: Dir, tag: string, s: seq<string>, i: nat, st: State)
    requires 0 < i <= |s| && InvFiles(dir, tag, s, i - 1, st)
    requires !(EndsWith(s[i - 1], ".txt") && s[i - 1] in st.dir && HasTag(st.dir[s[i - 1]], tag))
    ensures Step(st, s[i - 1], tag) == st
    ensures !Matches(dir, tag, s[i - 1])
  {
    if EndsWith(s[i - 1], ".txt") && s[i - 1] in dir {
      ListedTagFilePresent(dir, tag, s, i - 1, st);
    }
  }

  lemma StepKeepsInv(dir: Dir, tag: string, s: seq<string>, i: nat, st: State)
    requires 0 < i <= |s| && Inv(dir, tag, s, i - 1, st)
    requires !Matches(dir, tag, s[i - 1])
    ensures Inv(dir, tag, s, i, st)
  {
    UpToSkip(dir, tag, s, i);
    assert InvFiles(dir, tag, s, i, st);
    assert InvTagFiles(dir, tag, s, i, st);
    assert InvOthers(dir, tag, s, i, st);
  }

  lemma UpToSkip(dir: Dir, tag: string, s: seq<string>, i: nat)
    requires 0 < i <= |s| && !Matches(dir, tag, s[i - 1])
    ensures MatchUpTo(dir, tag, s, i) == MatchUpTo(dir, tag, s, i - 1)
    ensures ImagesUpTo(dir, tag, s, i) == ImagesUpTo(dir, tag, s, i - 1)
  {
    var m, g := MatchUpTo(dir, tag, s, i - 1), ImagesUpTo(dir, tag, s, i - 1);
    assert MatchUpTo(dir, tag, s, i) == m + {};
    assert ImagesUpTo(dir, tag, s, i) == g + {};
  }

  /** How a step changes the state of a matching tag file. */
  lemma StepRemovesShape(st: State, file: string, tag: string)
    requires EndsWith(file, ".txt") && file in st.dir && HasTag(st.dir[file], tag)
    ensures var st' := Step(st, file, tag);
      && SubDir(st'.dir, st.dir) && st'.dir.Keys == st.dir.Keys - {file, ImageOf(file)}
      && st'.deleted == st.deleted + 1
  {
  }

  lemma {:induction false} RemoveFiles(dir: Dir, tag: string, s: seq<string>, i: nat,
                                       st: State, st': State, image: string)
    requires 0 < i <= |s| && s[i - 1] !in s[i..] && InvFiles(dir, tag, s, i - 1, st)
    requires !EndsWith(image, ".txt")
    requires SubDir(st'.dir, st.dir) && st'.dir.Keys == st.dir.Keys - {s[i - 1], image}
    ensures InvFiles(dir, tag, s, i, st')
  {
    forall j | i <= j < |s| && EndsWith(s[j], ".txt") && s[j] in dir ensures s[j] in st'.dir {
      assert s[j] in s[i..];
      assert s[j] in st.dir && s[j] != s[i - 1] && s[j] != image;
    }
  }

  lemma {:induction false} RemoveTagFiles(dir: Dir, tag: string, s: seq<string>, i: nat,
                                          st: State, st': State, image: string)
    requires 0 < i <= |s| && InvTagFiles(dir, tag, s, i - 1, st)
    requires Matches(dir, tag, s[i - 1]) && !EndsWith(image, ".txt")
    requires st'.dir.Keys == st.dir.Keys - {s[i - 1], image}
    ensures InvTagFiles(dir, tag, s, i, st')
  {
    assert MatchUpTo(dir, tag, s, i) == MatchUpTo(dir, tag, s, i - 1) + {s[i - 1]};
  }

  lemma {:induction false} RemoveOthers(dir: Dir, tag: string, s: seq<string>, i: nat,
                                        st: State, st': State, image: string)
    requires 0 < i <= |s| && InvOthers(dir, tag, s, i - 1, st)
    requires Matches(dir, tag, s[i - 1])
    requires ImagesUpTo(dir, tag, s, i) == ImagesUpTo(dir, tag, s, i - 1) + {image}
    requires st'.dir.Keys == st.dir.Keys - {s[i - 1], image}
    ensures InvOthers(dir, tag, s, i, st')
  {
  }

  lemma {:induction false} RemoveCount(dir: Dir, tag: string, s: seq<string>, i: nat)
    requires 0 < i <= |s| && s[i - 1] !in s[..i - 1] && Matches(dir, tag, s[i - 1])
    ensures |MatchUpTo(dir, tag, s, i)| == |MatchUpTo(dir, tag, s, i - 1)| + 1
  {
    MatchUpToMembers(dir, tag, s, i - 1);
    assert s[i - 1] !in MatchUpTo(dir, tag, s, i - 1);
  }

  lemma {:induction false} StepRemoveInv(dir: Dir, tag: string, s: seq<string>, i: nat, st: State)
    requires 0 < i <= |s| && s[i - 1] !in s[..i - 1] && s[i - 1] !in s[i..]
    requires Inv(dir, tag, s, i - 1, st)
    requires Matches(dir, tag, s[i - 1]) && s[i - 1] in st.dir && st.dir[s[i - 1]] == dir[s[i - 1]]
    ensures Inv(dir, tag, s, i, Step(st, s[i - 1], tag))
  {
    var f := s[i - 1];
    var st' := Step(st, f, tag);
    StepRemovesShape(st, f, tag);
    ImageOfNotTxt(f);
    RemoveFiles(dir, tag, s, i, st, st', ImageOf(f));
    RemoveTagFiles(dir, tag, s, i, st, st', ImageOf(f));
    RemoveOthers(dir, tag, s, i, st, st', ImageOf(f));
    RemoveCount(dir, tag, s, i);
  }

  lemma {:induction false} StepInv(dir: Dir, tag: string, s: seq<string>, i: nat, st: State)
    requires 0 < i <= |s| && s[i - 1] !in s[..i - 1] && s[i - 1] !in s[i..]
    requires Inv(dir, tag, s, i - 1, st)
    ensures Inv(dir, tag, s, i, Step(st, s[i - 1], tag))
  {
    var f := s[i - 1];
    if EndsWith(f, ".txt") && f in st.dir && HasTag(st.dir[f], tag) {
      assert st.dir[f] == dir[f];
      StepRemoveInv(dir, tag, s, i, st);
    } else {
      StepKeeps(dir, tag, s, i, st);
      StepKeepsInv(dir, tag, s, i, st);
    }
  }

  lemma RunInvStart(dir: Dir, tag: string, s: seq<string>)
    ensures Inv(dir, tag, s, 0, Run(dir, s, tag, 0))
  {
    assert Run(dir, s, tag, 0).dir == dir;
  }

  lemma {:induction false} RunInv(dir: Dir, tag: string, s: seq<string>, i: nat)
    requires Distinct(s) && i <= |s|
    ensures Inv(dir, tag, s, i, Run(dir, s, tag, i))
  {
    if i == 0 {
      RunInvStart(dir, tag, s);
    } else {
      RunInv(dir, tag, s, i - 1);
      assert s[i - 1] !in s[..i - 1] && s[i - 1] !in s[i..];
      var st := Run(dir, s, tag, i - 1);
      assert Run(dir, s, tag, i) == Step(st, s[i - 1], tag);
      StepInv(dir, tag, s, i, st);
    }
  }

  // ---------------------------------------------------------------------------
  // Properties of the whole loop

  /** The tag files of `dir` that carry the tag. */
  ghost function MatchingFiles(dir: Dir, tag: string): set<string> {
    set n | n in dir && Matches(dir, tag, n)
  }

  lemma {:induction false} ImageWitness(dir: Dir, tag: string, s: seq<string>, i: nat, n: string)
    returns (f: string)
    requires i <= |s| && n in ImagesUpTo(dir, tag, s, i)
    ensures Matches(dir, tag, f) && ImageOf(f) == n
  {
    if Matches(dir, tag, s[i - 1]) && ImageOf(s[i - 1]) == n {
      f := s[i - 1];
    } else {
      f := ImageWitness(dir, tag, s, i - 1, n);
    }
  }

  lemma {:induction false} ImagesUpToHas(dir: Dir, tag: string, s: seq<string>, j: nat, i: nat)
    requires j < i <= |s| && Matches(dir, tag, s[j])
    ensures ImageOf(s[j]) in ImagesUpTo(dir, tag, s, i)
    decreases i
  {
    if j < i - 1 {
      ImagesUpToHas(dir, tag, s, j, i - 1);
    }
  }

  lemma MatchUpToAll(dir: Dir, tag: string, s: seq<string>)
    requires IsListing(s, dir)
    ensures MatchUpTo(dir, tag, s, |s|) == MatchingFiles(dir, tag)
  {
    MatchUpToMembers(dir, tag, s, |s|);
    assert s[..|s|] == s;
  }

  lemma OthersResult(dir: Dir, tag: string, s: seq<string>, st: State)
    requires IsListing(s, dir) && InvOthers(dir, tag, s, |s|, st)
    ensures forall n :: n in dir && !EndsWith(n, ".txt") ==>
      (n in st.dir <==> !exists f :: Matches(dir, tag, f) && ImageOf(f) == n)
  {
    forall n | n in dir && !EndsWith(n, ".txt")
      ensures n in st.dir <==> !exists f :: Matches(dir, tag, f) && ImageOf(f) == n
    {
      if n !in st.dir {
        var f := ImageWitness(dir, tag, s, |s|, n);
      }
      if f :| Matches(dir, tag, f) && ImageOf(f) == n {
        var j :| 0 <= j < |s| && s[j] == f;
        ImagesUpToHas(dir, tag, s, j, |s|);
      }
    }
  }

  /** Over a listing: only deletions; a tag file goes exactly when it carries
      the tag; any other file goes exactly when it is the image of such a tag
      file; every matching tag file is counted, whether its image existed or
      not. */
  lemma DeleteResult(dir: Dir, files: seq<string>, tag: string)
    requires IsListing(files, dir)
    ensures var r := DeleteAll(dir, files, tag).dir;
      && SubDir(r, dir)
      && (forall n :: n in dir && EndsWith(n, ".txt") ==> (n in r <==> !HasTag(dir[n], tag)))
      && (forall n :: n in dir && !EndsWith(n, ".txt") ==>
            (n in r <==> !exists f :: Matches(dir, tag, f) && ImageOf(f) == n))
    ensures DeleteAll(dir, files, tag).deleted == |MatchingFiles(dir, tag)|
  {
    RunInv(dir, tag, files, |files|);
    MatchUpToAll(dir, tag, files);
    OthersResult(dir, tag, files, DeleteAll(dir, files, tag));
  }

  /** In a directory where no tag file carries the tag nothing happens. */
  lemma {:induction false} RunNoMatch(dir: Dir, tag: string, s: seq<string>, i: nat)
    requires i <= |s| && MatchingFiles(dir, tag) == {}
    ensures Run(dir, s, tag, i) == State(dir, 0)
  {
    if i > 0 {
      RunNoMatch(dir, tag, s, i - 1);
      assert s[i - 1] !in MatchingFiles(dir, tag);
    }
  }

  /** Deleting by the same tag a second time deletes nothing. */
  lemma DeleteIdempotent(dir: Dir, files: seq<string>, files': seq<string>, tag: string)
    requires IsListing(files, dir)
    ensures var r := DeleteAll(dir, files, tag).dir;
      DeleteAll(r, files', tag) == State(r, 0)
  {
    var r := DeleteAll(dir, files, tag).dir;
    DeleteResult(dir, files, tag);
    forall n | n in r ensures !Matches(r, tag, n) {
      assert r[n] == dir[n];
    }
    RunNoMatch(r, tag, files', |files'|);
  }
}
