/**
 * Category filtering of tag files (check_tag.py): each `.txt` file is parsed
 * into stripped, comma-separated tags; every tag is looked up in the tag API;
 * artist tags (category 1) get an `artist:` prefix, copyright and meta tags
 * (categories 3 and 5) are dropped, and the rest is kept; the survivors are
 * written back comma-joined in the order the lookups completed.
 */
module TagCategory {
  import opened Wrappers
  import opened Text
  import opened Order
  import opened Files

  // ---------------------------------------------------------------------------
  // get_category

  /** One entry of the JSON list `tags.json` returns; its `category` may be
      missing. */
  datatype TagRecord = TagRecord(category: Option<int>)

  /** What `session.get(...)` followed by `response.json()` produces. */
  datatype LookupReply =
    | TagList(tags: seq<TagRecord>)  // a JSON list
    | NotAList                       // valid JSON of another kind
    | RequestFailed                  // a `RequestException`, or a non-2xx status
    | InvalidJson                    // `ValueError` from `response.json()`
    | OtherFailure                   // any other exception

  /** The tag API, one reply per tag name (`lru_cache` makes repeated
      lookups of a name agree). */
  type TagApi = string -> LookupReply

  /** `get_category(tag_name)` on the reply for that name: the category of the
      first record of a non-empty list, otherwise `None`. */
  function GetCategory(reply: LookupReply): (r: Option<int>)
    ensures r.Some? ==> reply.TagList? && |reply.tags| > 0 && r == reply.tags[0].category
  {
    match reply
    case TagList(tags) => if |tags| > 0 then tags[0].category else None
    case _ => None
  }

  function Category(api: TagApi, tag: string): Option<int> {
    GetCategory(api(tag))
  }

  // ---------------------------------------------------------------------------
  // process_element

  /** `process_element(element)` given the category of `element`; `None`
      means the tag is dropped. */
  function ProcessElement(category: Option<int>, element: string): (r: Option<string>)
    ensures r.None? <==> category == Some(3) || category == Some(5)
    ensures category == Some(1) ==> r == Some("artist:" + element)
    ensures category != Some(1) && r.Some? ==> r == Some(element)
  {
    if category == Some(1) then Some("artist:" + element)
    else if category != Some(3) && category != Some(5) then Some(element)
    else None
  }

  /** What one element adds to `filtered_elements`. */
  function Contribution(api: TagApi, element: string): (r: seq<string>)
    ensures |r| <= 1
  {
    match ProcessElement(Category(api, element), element)
    case Some(x) => [x]
    case None => []
  }

  /** A lookup that fails, or finds nothing, keeps the tag unchanged. */
  lemma LookupFailureKeeps(api: TagApi, element: string)
    requires !api(element).TagList? || api(element).tags == []
    ensures Contribution(api, element) == [element]
  {
  }

  // ---------------------------------------------------------------------------
  // The filtered list of one file

  /** The results of `elements`, in that order, with the dropped ones left
      out. */
  function Kept(api: TagApi, elements: seq<string>): seq<string> {
    if elements == [] then []
    else Kept(api, elements[..|elements| - 1]) + Contribution(api, elements[|elements| - 1])
  }

  /** `as_completed` yields every submitted future exactly once, so the
      elements in the order their lookups complete are a permutation of the
      submitted ones. */
  predicate IsCompletionOrder(completed: seq<string>, elements: seq<string>) {
    multiset(completed) == multiset(elements)
  }

  /** The loop over `as_completed(future_to_element)`; `completed` lists the
      elements in the order their lookups complete. */
  method FilterElements(api: TagApi, elements: seq<string>, completed: seq<string>) returns (filtered: seq<string>)
    requires IsCompletionOrder(completed, elements)
    ensures filtered == Kept(api, completed)
  {
    filtered := [];
    for k := 0 to |completed|
      invariant filtered == Kept(api, completed[..k])
    {
      assert completed[..k + 1][..k] == completed[..k];
      var element := completed[k];
      var result := ProcessElement(Category(api, element), element);
      if result.Some? {
        filtered := filtered + [result.value];
      }
    }
    assert completed[..|completed|] == completed;
  }

  lemma {:induction false} KeptAppend(api: TagApi, a: seq<string>, b: seq<string>)
    ensures Kept(api, a + b) == Kept(api, a) + Kept(api, b)
    decreases |b|
  {
    if b == [] {
      assert a + b == a;
    } else {
      var b' := b[..|b| - 1];
      assert (a + b)[..|a + b| - 1] == a + b';
      KeptAppend(api, a, b');
    }
  }

  lemma RemoveFromBoth<T>(a: seq<T>, b: seq<T>, a': seq<T>, b1: seq<T>, b2: seq<T>, x: T)
    requires a == a' + [x] && b == b1 + [x] + b2 && multiset(a) == multiset(b)
    ensures multiset(a') == multiset(b1 + b2)
  {
    assert multiset(a') == multiset(a) - multiset{x};
    assert multiset(b1 + b2) == multiset(b) - multiset{x};
  }

  /** Taking one element out of the middle takes out its contribution. */
  lemma KeptSplice(api: TagApi, b1: seq<string>, x: string, b2: seq<string>)
    ensures multiset(Kept(api, b1 + [x] + b2)) == multiset(Kept(api, b1 + b2)) + multiset(Contribution(api, x))
  {
    KeptAppend(api, b1, b2);
    KeptAppend(api, b1 + [x], b2);
    KeptAppend(api, b1, [x]);
    assert [x][..0] == [];
    assert Kept(api, [x]) == Contribution(api, x);
  }

  /** Reordering the elements reorders the results: they stay the same
      multiset. */
  lemma {:induction false} KeptPermutation(api: TagApi, a: seq<string>, b: seq<string>)
    requires multiset(a) == multiset(b)
    ensures multiset(Kept(api, a)) == multiset(Kept(api, b))
    decreases |a|
  {
    if a != [] {
      var x := a[|a| - 1];
      var a' := a[..|a| - 1];
      assert a == a' + [x];
      assert x in multiset(b);
      var j :| 0 <= j < |b| && b[j] == x;
      var b1, b2 := b[..j], b[j + 1..];
      assert b == b1 + [x] + b2;
      RemoveFromBoth(a, b, a', b1, b2, x);
      KeptPermutation(api, a', b1 + b2);
      KeptSplice(api, b1, x, b2);
      assert Kept(api, a) == Kept(api, a') + Contribution(api, x);
    } else {
      assert b == [];
    }
  }

  /** `filtered_elements` is a permutation of the kept results in submission
      order, whatever order the lookups complete in. */
  lemma FilteredIsPermutation(api: TagApi, elements: seq<string>, completed: seq<string>)
    requires IsCompletionOrder(completed, elements)
    ensures multiset(Kept(api, completed)) == multiset(Kept(api, elements))
    ensures |Kept(api, completed)| == |Kept(api, elements)|
  {
    KeptPermutation(api, completed, elements);
    assert |multiset(Kept(api, completed))| == |Kept(api, completed)|;
  }

  /** The number of elements whose category is 3 or 5. */
  function Dropped(api: TagApi, elements: seq<string>): nat {
    if elements == [] then 0
    else Dropped(api, elements[..|elements| - 1]) + 1 - |Contribution(api, elements[|elements| - 1])|
  }

  /** Every element except the dropped ones leaves one result. */
  lemma {:induction false} KeptLength(api: TagApi, elements: seq<string>)
    ensures |Kept(api, elements)| == |elements| - Dropped(api, elements)
    decreases |elements|
  {
    if elements != [] {
      KeptLength(api, elements[..|elements| - 1]);
    }
  }

  /** The kept results are exactly the `process_element` results that are not
      `None`. */
  lemma {:induction false} KeptMembers(api: TagApi, elements: seq<string>, x: string)
    ensures x in Kept(api, elements) <==> exists i :: 0 <= i < |elements| && Produces(api, elements[i], x)
    decreases |elements|
  {
    if elements != [] {
      var n := |elements|;
      var init, e := elements[..n - 1], elements[n - 1];
      KeptMembers(api, init, x);
      assert Kept(api, elements) == Kept(api, init) + Contribution(api, e);
      assert x in Contribution(api, e) <==> Produces(api, e, x);
      if i :| 0 <= i < n && Produces(api, elements[i], x) {
        if i < n - 1 {
          assert init[i] == elements[i];
        }
      }
      if j :| 0 <= j < n - 1 && Produces(api, init[j], x) {
        assert elements[j] == init[j];
      }
    }
  }

  /** `process_element` turns `element` into `x`. */
  predicate Produces(api: TagApi, element: string, x: string) {
    ProcessElement(Category(api, element), element) == Some(x)
  }

  // ---------------------------------------------------------------------------
  // txt_files_to_dict

  /** `[element.strip() for element in content.split(',')]` */
  function Parse(content: string): (r: seq<string>)
    ensures |r| == |Split(content, ',')| && |r| >= 1
  {
    var parts := Split(content, ',');
    seq(|parts|, k requires 0 <= k < |parts| => Strip(parts[k]))
  }

  /** Reading back a file written as `','.join(elements)` gives the elements,
      when there is at least one and each is stripped and free of ','. */
  lemma ParseJoin(elements: seq<string>)
    requires elements != []
    requires forall k :: 0 <= k < |elements| ==> IsStripped(elements[k]) && ',' !in elements[k]
    ensures Parse(Join(",", elements)) == elements
  {
    SplitJoin(elements, ',');
    assert Split(Join(",", elements), ',') == elements;
    forall k | 0 <= k < |elements| ensures Strip(elements[k]) == elements[k] {
      StripStripped(elements[k]);
    }
  }

  /** Tags as `txt_files_to_dict` produces them: stripped and free of ','. */
  predicate CleanTags(elements: seq<string>) {
    forall k :: 0 <= k < |elements| ==> IsStripped(elements[k]) && ',' !in elements[k]
  }

  /** The parsed elements are stripped and free of ','. */
  lemma ParseClean(content: string)
    ensures CleanTags(Parse(content))
  {
    var parts := Split(content, ',');
    forall k | 0 <= k < |parts|
      ensures IsStripped(Parse(content)[k]) && ',' !in Parse(content)[k]
    {
      StripChars(parts[k], ',');
    }
  }

  /** The `artist:` prefix keeps a tag stripped and free of ','. */
  lemma {:induction false} KeptClean(api: TagApi, elements: seq<string>)
    requires CleanTags(elements)
    ensures CleanTags(Kept(api, elements))
    decreases |elements|
  {
    if elements != [] {
      var init, e := elements[..|elements| - 1], elements[|elements| - 1];
      assert CleanTags(init);
      KeptClean(api, init);
      ContributionClean(api, e);
      var c := Contribution(api, e);
      assert Kept(api, elements) == Kept(api, init) + c;
      assert forall k :: 0 <= k < |c| ==> c[k] == c[0];
    }
  }

  lemma ContributionClean(api: TagApi, e: string)
    requires IsStripped(e) && ',' !in e
    ensures var c := Contribution(api, e); c == [] || (IsStripped(c[0]) && ',' !in c[0])
  {
    var a := "artist:" + e;
    assert a[0] == 'a' && a[|a| - 1] == if e == [] then ':' else e[|e| - 1];
    assert ',' !in a by {
      assert forall i :: 0 <= i < |a| ==> a[i] == if i < 7 then "artist:"[i] else e[i - 7];
    }
  }

  /** Reading a rewritten tag file again gives back its filtered tags, when
      at least one survived. */
  lemma ReadBack(api: TagApi, completed: seq<string>)
    requires CleanTags(completed) && Kept(api, completed) != []
    ensures Parse(Join(",", Kept(api, completed))) == Kept(api, completed)
  {
    KeptClean(api, completed);
    ParseJoin(Kept(api, completed));
  }

  /** The dictionary after the first `i` names of the glob. */
  function DictUpTo(dir: Dir, names: seq<string>, i: nat): map<string, seq<string>>
    requires i <= |names| && forall k :: 0 <= k < |names| ==> names[k] in dir
  {
    if i == 0 then map[]
    else
      var d := DictUpTo(dir, names, i - 1);
      var n := names[i - 1];
      if EndsWith(n, ".txt") then d[Stem(n) := Parse(dir[n])] else d
  }

  /** `txt_files_to_dict(directory)` over the listing `names` that
      `path.glob('*.txt')` filters. */
  method TxtFilesToDict(dir: Dir, names: seq<string>) returns (filesContent: map<string, seq<string>>)
    requires IsListing(names, dir)
    ensures filesContent == DictUpTo(dir, names, |names|)
  {
    filesContent := map[];
    for i := 0 to |names|
      invariant filesContent == DictUpTo(dir, names, i)
    {
      var n := names[i];
      if EndsWith(n, ".txt") {
        var elements := Parse(dir[n]);
        filesContent := filesContent[Stem(n) := elements];
      }
    }
  }

  /** The dictionary has a key for the stem of every listed `.txt` file and no
      other. */
  lemma {:induction false} DictKeys(dir: Dir, names: seq<string>, i: nat, key: string)
    requires i <= |names| && forall k :: 0 <= k < |names| ==> names[k] in dir
    ensures key in DictUpTo(dir, names, i) <==>
      exists j :: 0 <= j < i && EndsWith(names[j], ".txt") && Stem(names[j]) == key
  {
    if i > 0 {
      DictKeys(dir, names, i - 1, key);
    }
  }

  /** Each key maps to the parsed content of the last listed `.txt` file with
      that stem. */
  lemma {:induction false} DictValue(dir: Dir, names: seq<string>, i: nat, j: nat)
    requires i <= |names| && forall k :: 0 <= k < |names| ==> names[k] in dir
    requires j < i && EndsWith(names[j], ".txt")
    requires forall l :: j < l < i && EndsWith(names[l], ".txt") ==> Stem(names[l]) != Stem(names[j])
    ensures Stem(names[j]) in DictUpTo(dir, names, i)
    ensures DictUpTo(dir, names, i)[Stem(names[j])] == Parse(dir[names[j]])
  {
    if j < i - 1 {
      DictValue(dir, names, i - 1, j);
    }
  }

  // ---------------------------------------------------------------------------
  // filter_and_save_tags

  /** The directory after the entries `keys[..i]` are written back. */
  function SaveUpTo(dir: Dir, dict: map<string, seq<string>>, keys: seq<string>, api: TagApi,
                    completion: string -> seq<string>, i: nat): Dir
    requires i <= |keys| && forall k :: 0 <= k < |keys| ==> keys[k] in dict
  {
    if i == 0 then dir
    else
      var key := keys[i - 1];
      SaveUpTo(dir, dict, keys, api, completion, i - 1)[key + ".txt" := Join(",", Kept(api, completion(key)))]
  }

  /** `filter_and_save_tags(directory, dict_of_files)`: `keys` is the order of
      `dict_of_files.items()` and `completion(key)` the order in which the
      lookups for that file complete. */
  method FilterAndSaveTags(dir: Dir, dict: map<string, seq<string>>, keys: seq<string>, api: TagApi,
                           completion: string -> seq<string>) returns (dir': Dir)
    requires Distinct(keys) && forall key :: key in dict ==> key in keys
    requires forall k :: 0 <= k < |keys| ==> keys[k] in dict
    requires forall k :: 0 <= k < |keys| ==> IsCompletionOrder(completion(keys[k]), dict[keys[k]])
    ensures dir' == SaveUpTo(dir, dict, keys, api, completion, |keys|)
  {
    dir' := dir;
    for i := 0 to |keys|
      invariant dir' == SaveUpTo(dir, dict, keys, api, completion, i)
    {
      var key := keys[i];
      assert IsCompletionOrder(completion(key), dict[key]);
      var filtered := FilterElements(api, dict[key], completion(key));
      dir' := dir'[key + ".txt" := Join(",", filtered)];
      SaveStep(dir, dict, keys, api, completion, i);
    }
  }

  lemma SaveStep(dir: Dir, dict: map<string, seq<string>>, keys: seq<string>, api: TagApi,
                 completion: string -> seq<string>, i: nat)
    requires i < |keys| && forall k :: 0 <= k < |keys| ==> keys[k] in dict
    ensures SaveUpTo(dir, dict, keys, api, completion, i + 1)
      == SaveUpTo(dir, dict, keys, api, completion, i)[keys[i] + ".txt" := Join(",", Kept(api, completion(keys[i])))]
  {
  }

  /** The files written are the keys with ".txt" appended. */
  lemma {:induction false} SaveKeys(dir: Dir, dict: map<string, seq<string>>, keys: seq<string>, api: TagApi,
                                    completion: string -> seq<string>, i: nat, n: string)
    requires i <= |keys| && forall k :: 0 <= k < |keys| ==> keys[k] in dict
    ensures n in SaveUpTo(dir, dict, keys, api, completion, i) <==>
      n in dir || exists k :: 0 <= k < i && n == keys[k] + ".txt"
  {
    if i > 0 {
      SaveKeys(dir, dict, keys, api, completion, i - 1, n);
    }
  }

  /** The file written for an entry holds its filtered list joined by ','. */
  lemma {:induction false} SaveWritten(dir: Dir, dict: map<string, seq<string>>, keys: seq<string>, api: TagApi,
                                       completion: string -> seq<string>, i: nat, k: nat)
    requires i <= |keys| && forall k :: 0 <= k < |keys| ==> keys[k] in dict
    requires k < i
    ensures keys[k] + ".txt" in SaveUpTo(dir, dict, keys, api, completion, i)
    ensures SaveUpTo(dir, dict, keys, api, completion, i)[keys[k] + ".txt"] ==
      Join(",", Kept(api, completion(keys[k])))
  {
    if k < i - 1 {
      SaveWritten(dir, dict, keys, api, completion, i - 1, k);
      var key := keys[i - 1];
      if key + ".txt" == keys[k] + ".txt" {
        assert key == (key + ".txt")[..|key|];
        assert keys[k] == (keys[k] + ".txt")[..|keys[k]|];
      }
    }
  }

  /** Files no entry is written to keep their content. */
  lemma {:induction false} SaveUnchanged(dir: Dir, dict: map<string, seq<string>>, keys: seq<string>, api: TagApi,
                                         completion: string -> seq<string>, i: nat, n: string)
    requires i <= |keys| && forall k :: 0 <= k < |keys| ==> keys[k] in dict
    requires n in dir && forall k :: 0 <= k < i ==> n != keys[k] + ".txt"
    ensures n in SaveUpTo(dir, dict, keys, api, completion, i)
    ensures SaveUpTo(dir, dict, keys, api, completion, i)[n] == dir[n]
  {
    if i > 0 {
      SaveUnchanged(dir, dict, keys, api, completion, i - 1, n);
    }
  }

  /** A tag file of the glob whose stem no later tag file shares is, after both
      steps, rewritten in place with its kept tags in completion order. */
  lemma RewrittenInPlace(dir: Dir, names: seq<string>, j: nat, api: TagApi, keys: seq<string>,
                         completion: string -> seq<string>)
    requires IsListing(names, dir)
    requires j < |names| && EndsWith(names[j], ".txt") && |names[j]| > 4
    requires forall l :: j < l < |names| && EndsWith(names[l], ".txt") ==> Stem(names[l]) != Stem(names[j])
    requires forall key :: key in DictUpTo(dir, names, |names|) ==> key in keys
    requires forall k :: 0 <= k < |keys| ==> keys[k] in DictUpTo(dir, names, |names|)
    requires forall k :: 0 <= k < |keys| ==>
      IsCompletionOrder(completion(keys[k]), DictUpTo(dir, names, |names|)[keys[k]])
    ensures names[j] in SaveUpTo(dir, DictUpTo(dir, names, |names|), keys, api, completion, |keys|)
    ensures SaveUpTo(dir, DictUpTo(dir, names, |names|), keys, api, completion, |keys|)[names[j]]
         == Join(",", Kept(api, completion(Stem(names[j]))))
    ensures multiset(Kept(api, completion(Stem(names[j])))) == multiset(Kept(api, Parse(dir[names[j]])))
  {
    var n := names[j];
    var dict := DictUpTo(dir, names, |names|);
    DictValue(dir, names, |names|, j);
    TxtStem(n);
    var k :| 0 <= k < |keys| && keys[k] == Stem(n);
    SaveWritten(dir, dict, keys, api, completion, |keys|, k);
    FilteredIsPermutation(api, Parse(dir[n]), completion(Stem(n)));
  }
}
