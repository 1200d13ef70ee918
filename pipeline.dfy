/**
 * The orchestrator (`download_and_preview`): collect posts page by page, then
 * download them in three waves (primary, retry, backfill), each wave settling
 * its results against the posts positionally, and finally run the duplicate
 * and corruption cleanups and build the summary.
 * The waves run one after another; inside a wave the downloads run one after
 * another in task order, and only then are the results settled.
 */
module Pipeline {
  import opened Wrappers
  import opened Text
  import opened Files
  import opened Catalog
  import opened Download
  import Dedup
  import Sweep

  /** The user's settings that `download_and_preview` reads. */
  datatype Settings = Settings(login: string, apiKey: string, criteria: Criteria, limit: int)

  // ---------------------------------------------------------------------------
  // Collecting posts

  function FetchPage(s: Settings, catalog: Query -> PageReply, page: int): seq<Post> {
    FetchPosts(catalog(SearchQuery(s.login, s.apiKey, s.criteria, page)), s.criteria)
  }

  /** The collection loop, continuing from `acc` at page `page`. */
  function Collect(s: Settings, catalog: Query -> PageReply, acc: seq<Post>, page: int): seq<Post>
    decreases s.limit - |acc|
  {
    if |acc| >= s.limit then acc
    else
      var posts := FetchPage(s, catalog, page);
      if posts == [] then acc else Collect(s, catalog, acc + posts, page + 1)
  }

  /** The pages `page`, ..., `page + n - 1`, concatenated. */
  function Pages(s: Settings, catalog: Query -> PageReply, page: int, n: nat): seq<Post>
    decreases n
  {
    if n == 0 then [] else FetchPage(s, catalog, page) + Pages(s, catalog, page + 1, n - 1)
  }

  /** The `while len(all_posts) < limit` loop. */
  method CollectPosts(s: Settings, catalog: Query -> PageReply) returns (allPosts: seq<Post>)
    ensures allPosts == Collect(s, catalog, [], 1)
  {
    allPosts := [];
    var page := 1;
    while |allPosts| < s.limit
      invariant Collect(s, catalog, allPosts, page) == Collect(s, catalog, [], 1)
      decreases s.limit - |allPosts|
    {
      var posts := FetchPosts(catalog(SearchQuery(s.login, s.apiKey, s.criteria, page)), s.criteria);
      if posts == [] {
        break;
      }
      allPosts := allPosts + posts;
      if |allPosts| >= s.limit {
        break;
      }
      page := page + 1;
    }
  }

  /** Page `page + j` was requested and was not empty. */
  predicate Requested(s: Settings, catalog: Query -> PageReply, acc: seq<Post>, page: int, j: nat) {
    FetchPage(s, catalog, page + j) != [] && |acc + Pages(s, catalog, page, j)| < s.limit
  }

  lemma RequestedShift(s: Settings, catalog: Query -> PageReply, acc: seq<Post>, page: int, j: nat)
    requires j > 0 && Requested(s, catalog, acc + FetchPage(s, catalog, page), page + 1, j - 1)
    ensures Requested(s, catalog, acc, page, j)
  {
    var first := FetchPage(s, catalog, page);
    assert page + j == (page + 1) + (j - 1);
    assert acc + Pages(s, catalog, page, j) == (acc + first) + Pages(s, catalog, page + 1, j - 1);
  }

  /** Collection requests pages `page`, `page + 1`, ... and stops at the first
      empty page or once `limit` posts are collected: the result is the
      concatenation of `n` non-empty pages, each requested while fewer than
      `limit` posts were collected. */
  lemma {:induction false} CollectShape(s: Settings, catalog: Query -> PageReply, acc: seq<Post>, page: int)
    returns (n: nat)
    ensures Collect(s, catalog, acc, page) == acc + Pages(s, catalog, page, n)
    ensures forall j :: 0 <= j < n ==> Requested(s, catalog, acc, page, j)
    ensures |Collect(s, catalog, acc, page)| >= s.limit || FetchPage(s, catalog, page + n) == []
    decreases s.limit - |acc|
  {
    if |acc| >= s.limit || FetchPage(s, catalog, page) == [] {
      n := 0;
      assert acc + [] == acc;
    } else {
      var first := FetchPage(s, catalog, page);
      var m := CollectShape(s, catalog, acc + first, page + 1);
      n := m + 1;
      assert acc + Pages(s, catalog, page, n) == (acc + first) + Pages(s, catalog, page + 1, m);
      forall j | 0 <= j < n
        ensures Requested(s, catalog, acc, page, j)
      {
        if j > 0 {
          assert Requested(s, catalog, acc + first, page + 1, j - 1);
          RequestedShift(s, catalog, acc, page, j);
        } else {
          assert acc + Pages(s, catalog, page, 0) == acc;
        }
      }
      assert page + n == (page + 1) + m;
    }
  }

  // ---------------------------------------------------------------------------
  // One wave of downloads

  datatype Wave = Primary | Retry | Backfill

  /** `max_retries` of the wave's `download_image` calls. */
  function Retries(w: Wave): nat {
    if w == Retry then RetryWaveRetries else DefaultRetries
  }

  /** The outside world of the waves: the timestamp and the replies of the
      `k`-th download of a wave, and `validate_image` on file contents. */
  datatype Env = Env(clock: (Wave, nat) -> nat, assets: (Wave, nat) -> nat -> AssetReply, validate: string -> bool)

  /** `[download_image(...) for post in posts if post['id'] not in downloaded_ids]` */
  function TasksOf(posts: seq<Post>, ids: set<int>): (r: seq<Post>)
    ensures |r| <= |posts|
  {
    if posts == [] then []
    else TasksOf(posts[..|posts| - 1], ids) + if posts[|posts| - 1].id in ids then [] else [posts[|posts| - 1]]
  }

  lemma {:induction false} TasksOfNoIds(posts: seq<Post>)
    ensures TasksOf(posts, {}) == posts
  {
    if posts != [] {
      TasksOfNoIds(posts[..|posts| - 1]);
    }
  }

  /** The tasks are the posts, in order, whose id is not in `ids`. */
  lemma {:induction false} TasksOfMembers(posts: seq<Post>, ids: set<int>)
    ensures forall x :: x in TasksOf(posts, ids) <==> x in posts && x.id !in ids
  {
    if posts != [] {
      var init := posts[..|posts| - 1];
      TasksOfMembers(init, ids);
      assert posts == init + [posts[|posts| - 1]];
    }
  }

  /** The positional pairing of `zip(posts, results)`: when the first post has
      already been downloaded and the second has not, the only task is the
      second post, and its result is paired with the first post. */
  lemma ShiftedPairing(p: Progress, a: Post, b: Post, w: Wave, env: Env)
    requires a.id in p.ids && b.id !in p.ids
    ensures TasksOf([a, b], p.ids) == [b]
    ensures var g := Gather(p.dir, [b], w, env, 1);
      && (g.results[0].None? || g.results[0].value.0 == ImageName(b.id, env.clock(w, 0)))
      && RunWave(p, [a, b], w, env) == Settle1(p.(dir := g.dir), a, g.results[0], w, env.validate)
  {
    assert [a, b][..1] == [a];
    assert [a][..0] == [];
    GatherResults(p.dir, [b], w, env, 1, 0);
    var g := Gather(p.dir, [b], w, env, 1);
    assert Min(|[a, b]|, |g.results|) == 1;
    assert Settle(p.(dir := g.dir), [a, b], g.results, w, env.validate, 1)
        == Settle1(p.(dir := g.dir), a, g.results[0], w, env.validate);
  }

  /** The directory and the result list after the first `i` downloads. */
  datatype Gathered = Gathered(dir: Dir, results: seq<Option<(string, string)>>)

  function Gather(dir: Dir, tasks: seq<Post>, w: Wave, env: Env, i: nat): (g: Gathered)
    requires i <= |tasks|
    ensures |g.results| == i
  {
    if i == 0 then Gathered(dir, [])
    else
      var g := Gather(dir, tasks, w, env, i - 1);
      var f := Fetch(g.dir, tasks[i - 1], env.clock(w, i - 1), Retries(w), env.assets(w, i - 1));
      Gathered(f.dir, g.results + [f.result])
  }

  /** `await asyncio.gather(*tasks)`, the downloads made in task order. */
  method GatherWave(dir: Dir, tasks: seq<Post>, w: Wave, env: Env) returns (dir': Dir, results: seq<Option<(string, string)>>)
    ensures Gathered(dir', results) == Gather(dir, tasks, w, env, |tasks|)
  {
    dir' := dir;
    results := [];
    for i := 0 to |tasks|
      invariant Gathered(dir', results) == Gather(dir, tasks, w, env, i)
    {
      var result, attempts, sleeps;
      result, dir', attempts, sleeps := DownloadImage(dir', tasks[i], env.clock(w, i), Retries(w), env.assets(w, i));
      results := results + [result];
      GatherStep(dir, tasks, w, env, i);
    }
  }

  lemma GatherStep(dir: Dir, tasks: seq<Post>, w: Wave, env: Env, i: nat)
    requires i < |tasks|
    ensures var g := Gather(dir, tasks, w, env, i);
      var f := Fetch(g.dir, tasks[i], env.clock(w, i), Retries(w), env.assets(w, i));
      Gather(dir, tasks, w, env, i + 1) == Gathered(f.dir, g.results + [f.result])
  {
  }

  /** Every result is `None` or the image name and tag string of its own task. */
  lemma {:induction false} GatherResults(dir: Dir, tasks: seq<Post>, w: Wave, env: Env, i: nat, k: nat)
    requires k < i <= |tasks|
    ensures var r := Gather(dir, tasks, w, env, i).results[k];
      r.None? || r.value == (ImageName(tasks[k].id, env.clock(w, k)), tasks[k].tagString)
  {
    var g := Gather(dir, tasks, w, env, i - 1);
    var f := Fetch(g.dir, tasks[i - 1], env.clock(w, i - 1), Retries(w), env.assets(w, i - 1));
    assert Gather(dir, tasks, w, env, i).results == g.results + [f.result];
    if k < i - 1 {
      GatherResults(dir, tasks, w, env, i - 1, k);
      assert (g.results + [f.result])[k] == g.results[k];
    }
  }

  /** The variables of `download_and_preview` between the waves; `crashed`
      records that `os.remove` raised because the file was already gone. */
  datatype Progress = Progress(
    dir: Dir,
    images: seq<string>,
    tagsList: seq<string>,
    failed: seq<Post>,
    ids: set<int>,
    totalFailed: nat,
    initialInvalid: nat,
    reDownloaded: nat,
    finalInvalid: nat,
    crashed: bool)

  /** `validate_image(filename)`: opening a missing file raises, so it fails. */
  predicate ValidImage(dir: Dir, name: string, validate: string -> bool) {
    name in dir && validate(dir[name])
  }

  /** The body of `for post, result in zip(...)`. */
  function Settle1(p: Progress, post: Post, result: Option<(string, string)>, w: Wave, validate: string -> bool): Progress {
    if p.crashed then p
    else match result
      case None => p.(failed := p.failed + [post], totalFailed := p.totalFailed + 1)
      case Some((name, tags)) =>
        if ValidImage(p.dir, name, validate) then
          p.(images := p.images + [name], tagsList := p.tagsList + [tags], ids := p.ids + {post.id},
             reDownloaded := if w == Primary then p.reDownloaded else p.reDownloaded + 1)
        else if name !in p.dir then p.(crashed := true)
        else
          var d := p.dir - {name};
          var txt := ReplaceAll(name, ".jpg", ".txt");
          p.(dir := if txt in d then d - {txt} else d,
             initialInvalid := if w == Primary then p.initialInvalid + 1 else p.initialInvalid,
             finalInvalid := if w == Primary then p.finalInvalid else p.finalInvalid + 1,
             failed := p.failed + [post], totalFailed := p.totalFailed + 1)
  }

  function Min(a: nat, b: nat): nat {
    if a <= b then a else b
  }

  /** The first `i` pairs of `zip(posts, results)`. */
  function Settle(p: Progress, posts: seq<Post>, results: seq<Option<(string, string)>>, w: Wave,
                  validate: string -> bool, i: nat): Progress
    requires i <= |posts| && i <= |results|
  {
    if i == 0 then p else Settle1(Settle(p, posts, results, w, validate, i - 1), posts[i - 1], results[i - 1], w, validate)
  }

  /** Once `os.remove` has raised, nothing more happens. */
  lemma {:induction false} SettleCrashed(p: Progress, posts: seq<Post>, results: seq<Option<(string, string)>>, w: Wave,
                                         validate: string -> bool, i: nat, j: nat)
    requires i <= j <= |posts| && j <= |results|
    requires Settle(p, posts, results, w, validate, i).crashed
    ensures Settle(p, posts, results, w, validate, j) == Settle(p, posts, results, w, validate, i)
    decreases j
  {
    if i < j {
      SettleCrashed(p, posts, results, w, validate, i, j - 1);
    }
  }

  lemma SettleStep(p: Progress, posts: seq<Post>, results: seq<Option<(string, string)>>, w: Wave,
                   validate: string -> bool, i: nat)
    requires i < |posts| && i < |results|
    ensures Settle(p, posts, results, w, validate, i + 1)
      == Settle1(Settle(p, posts, results, w, validate, i), posts[i], results[i], w, validate)
  {
  }

  /** The settling loop of one wave. */
  method SettleWave(p: Progress, posts: seq<Post>, results: seq<Option<(string, string)>>, w: Wave,
                    validate: string -> bool) returns (p': Progress)
    ensures p' == Settle(p, posts, results, w, validate, Min(|posts|, |results|))
  {
    p' := p;
    var n := Min(|posts|, |results|);
    if p.crashed {
      SettleCrashed(p, posts, results, w, validate, 0, n);
      return;
    }
    for i := 0 to n
      invariant p' == Settle(p, posts, results, w, validate, i) && !p'.crashed
    {
      SettleStep(p, posts, results, w, validate, i);
      var post, result := posts[i], results[i];
      if result.Some? && ValidImage(p'.dir, result.value.0, validate) {
        p' := p'.(images := p'.images + [result.value.0], tagsList := p'.tagsList + [result.value.1],
                  ids := p'.ids + {post.id});
        if w != Primary {
          p' := p'.(reDownloaded := p'.reDownloaded + 1);
        }
      } else {
        if result.Some? {
          var name := result.value.0;
          if name !in p'.dir {
            p' := p'.(crashed := true);
            SettleCrashed(p, posts, results, w, validate, i + 1, n);
            return;
          }
          p' := p'.(dir := p'.dir - {name});
          var tagFilename := ReplaceAll(name, ".jpg", ".txt");
          if tagFilename in p'.dir {
            p' := p'.(dir := p'.dir - {tagFilename});
          }
          if w == Primary {
            p' := p'.(initialInvalid := p'.initialInvalid + 1);
          } else {
            p' := p'.(finalInvalid := p'.finalInvalid + 1);
          }
        }
        p' := p'.(failed := p'.failed + [post], totalFailed := p'.totalFailed + 1);
      }
    }
  }

  /** The bookkeeping that settling keeps: one failure count per failed post,
      one tag string per image, and at most one invalid-image count per failure. */
  predicate Consistent(p: Progress) {
    p.totalFailed == |p.failed| && |p.tagsList| == |p.images| && p.initialInvalid + p.finalInvalid <= p.totalFailed
  }

  /** One settled pair: the result is accepted exactly when it names an image
      that `validate_image` accepts; a result naming a missing file raises;
      a rejected image is removed together with its `.txt` file. */
  lemma Settle1Outcome(p: Progress, post: Post, result: Option<(string, string)>, w: Wave, validate: string -> bool)
    requires !p.crashed
    ensures var q := Settle1(p, post, result, w, validate);
      && (|q.images| > |p.images| <==> result.Some? && ValidImage(p.dir, result.value.0, validate))
      && (q.crashed <==> result.Some? && result.value.0 !in p.dir)
      && (|q.images| > |p.images| ==>
            (q.images == p.images + [result.value.0] && q.tagsList == p.tagsList + [result.value.1]
             && q.ids == p.ids + {post.id} && q.failed == p.failed && q.dir == p.dir))
      && (!q.crashed && |q.images| == |p.images| ==> q.failed == p.failed + [post] && q.ids == p.ids)
      && (result.Some? && result.value.0 in p.dir && !ValidImage(p.dir, result.value.0, validate) ==>
            q.dir == p.dir - {result.value.0, ReplaceAll(result.value.0, ".jpg", ".txt")})
  {
  }

  /** A rejected download of post `id` at time `ts` loses both its files. */
  lemma RejectedPairRemoved(p: Progress, post: Post, id: int, ts: nat, tags: string, w: Wave, validate: string -> bool)
    requires !p.crashed && ImageName(id, ts) in p.dir && !ValidImage(p.dir, ImageName(id, ts), validate)
    ensures var q := Settle1(p, post, Some((ImageName(id, ts), tags)), w, validate);
      !q.crashed && ImageName(id, ts) !in q.dir && TagName(id, ts) !in q.dir && q.failed == p.failed + [post]
  {
    FileNamesPaired(id, ts);
  }

  lemma {:induction false} SettleConsistent(p: Progress, posts: seq<Post>, results: seq<Option<(string, string)>>, w: Wave,
                                            validate: string -> bool, i: nat)
    requires i <= |posts| && i <= |results| && Consistent(p)
    ensures Consistent(Settle(p, posts, results, w, validate, i))
  {
    if i > 0 {
      SettleConsistent(p, posts, results, w, validate, i - 1);
    }
  }

  /** Over `i` pairs the images and the failures together grow by at most `i`
      (by exactly `i` unless a removal raised); in the retry and backfill
      waves every accepted image counts as re-downloaded, and each wave
      touches only its own invalid-image counter. */
  lemma {:induction false} SettleGrowth(p: Progress, posts: seq<Post>, results: seq<Option<(string, string)>>, w: Wave,
                                        validate: string -> bool, i: nat)
    requires i <= |posts| && i <= |results|
    ensures var q := Settle(p, posts, results, w, validate, i);
      && |p.images| <= |q.images| && |p.failed| <= |q.failed|
      && |q.images| + |q.failed| <= |p.images| + |p.failed| + i
      && (!q.crashed ==> |q.images| + |q.failed| == |p.images| + |p.failed| + i)
      && q.reDownloaded == p.reDownloaded + (if w == Primary then 0 else |q.images| - |p.images|)
      && (w == Primary ==> q.finalInvalid == p.finalInvalid)
      && (w != Primary ==> q.initialInvalid == p.initialInvalid)
  {
    if i > 0 {
      SettleGrowth(p, posts, results, w, validate, i - 1);
    }
  }

  /** Every image a wave adds was accepted by `validate_image` when its pair
      was settled. */
  lemma {:induction false} SettleAccepted(p: Progress, posts: seq<Post>, results: seq<Option<(string, string)>>, w: Wave,
                                          validate: string -> bool, i: nat, j: nat)
    returns (k: nat)
    requires i <= |posts| && i <= |results|
    requires |p.images| <= j < |Settle(p, posts, results, w, validate, i).images|
    ensures k < i && results[k].Some? && results[k].value.0 == Settle(p, posts, results, w, validate, i).images[j]
    ensures var before := Settle(p, posts, results, w, validate, k);
      !before.crashed && ValidImage(before.dir, results[k].value.0, validate)
  {
    var prev := Settle(p, posts, results, w, validate, i - 1);
    assert Settle(p, posts, results, w, validate, i) == Settle1(prev, posts[i - 1], results[i - 1], w, validate);
    Settle1Images(prev, posts[i - 1], results[i - 1], w, validate);
    if j < |prev.images| {
      k := SettleAccepted(p, posts, results, w, validate, i - 1, j);
      assert Settle(p, posts, results, w, validate, i).images[j] == prev.images[j];
    } else {
      k := i - 1;
    }
  }

  /** Settling only ever appends to `images`. */
  lemma {:induction false} SettlePrefix(p: Progress, posts: seq<Post>, results: seq<Option<(string, string)>>, w: Wave,
                                        validate: string -> bool, i: nat)
    requires i <= |posts| && i <= |results|
    ensures p.images <= Settle(p, posts, results, w, validate, i).images
  {
    if i > 0 {
      var prev := Settle(p, posts, results, w, validate, i - 1);
      assert Settle(p, posts, results, w, validate, i) == Settle1(prev, posts[i - 1], results[i - 1], w, validate);
      SettlePrefix(p, posts, results, w, validate, i - 1);
      Settle1Images(prev, posts[i - 1], results[i - 1], w, validate);
    }
  }

  /** One pair either leaves the images alone or appends the accepted one. */
  lemma Settle1Images(p: Progress, post: Post, result: Option<(string, string)>, w: Wave, validate: string -> bool)
    ensures var q := Settle1(p, post, result, w, validate);
      || q.images == p.images
      || (!p.crashed && result.Some? && ValidImage(p.dir, result.value.0, validate) && q.images == p.images + [result.value.0])
  {
  }

  /** One wave: the tasks are the posts whose id has not been downloaded; the
      results are then zipped with the unfiltered posts. */
  function RunWave(p: Progress, posts: seq<Post>, w: Wave, env: Env): Progress {
    var g := WaveGather(p, posts, w, env);
    Settle(p.(dir := g.dir), posts, g.results, w, env.validate, Min(|posts|, |g.results|))
  }

  /** The downloads of one wave: the directory and the results `asyncio.gather`
      returns. */
  function WaveGather(p: Progress, posts: seq<Post>, w: Wave, env: Env): Gathered {
    var tasks := TasksOf(posts, p.ids);
    Gather(p.dir, tasks, w, env, |tasks|)
  }

  method RunWaveMethod(p: Progress, posts: seq<Post>, w: Wave, env: Env) returns (p': Progress)
    ensures p' == RunWave(p, posts, w, env)
  {
    var tasks := TasksOf(posts, p.ids);
    var dir', results := GatherWave(p.dir, tasks, w, env);
    p' := SettleWave(p.(dir := dir'), posts, results, w, env.validate);
  }

  /** Where an image came from: the `k`-th result of the wave's downloads named
      it, and `validate_image` accepted it on the directory as it was when that
      pair was settled. */
  predicate AcceptedAt(p: Progress, posts: seq<Post>, w: Wave, env: Env, k: nat, name: string) {
    var g := WaveGather(p, posts, w, env);
    && k < |posts| && k < |g.results| && g.results[k].Some? && g.results[k].value.0 == name
    && var before := Settle(p.(dir := g.dir), posts, g.results, w, env.validate, k);
       !before.crashed && ValidImage(before.dir, name, env.validate)
  }

  /** Every image a wave adds was validated when its pair was settled. */
  lemma RunWaveAccepted(p: Progress, posts: seq<Post>, w: Wave, env: Env, j: nat) returns (k: nat)
    requires |p.images| <= j < |RunWave(p, posts, w, env).images|
    ensures AcceptedAt(p, posts, w, env, k, RunWave(p, posts, w, env).images[j])
  {
    var g := WaveGather(p, posts, w, env);
    k := SettleAccepted(p.(dir := g.dir), posts, g.results, w, env.validate, Min(|posts|, |g.results|), j);
  }

  /** A wave keeps the images of the waves before it, in place. */
  lemma RunWavePrefix(p: Progress, posts: seq<Post>, w: Wave, env: Env)
    ensures p.images <= RunWave(p, posts, w, env).images
  {
    var g := WaveGather(p, posts, w, env);
    SettlePrefix(p.(dir := g.dir), posts, g.results, w, env.validate, Min(|posts|, |g.results|));
  }

  // ---------------------------------------------------------------------------
  // The three waves

  /** `s[:n]` for `n >= 0`. */
  function Take<T>(s: seq<T>, n: nat): (r: seq<T>)
    ensures |r| == Min(|s|, n) && r == s[..|r|]
  {
    if n <= |s| then s[..n] else s
  }

  /** `s[lo:hi]` for `0 <= lo`, `0 <= hi`: both bounds are clipped to `len(s)`. */
  function Slice<T>(s: seq<T>, lo: nat, hi: nat): (r: seq<T>)
    ensures |r| <= hi - lo || (hi < lo && r == [])
    ensures lo <= |s| && lo <= hi ==> r == s[lo..Min(hi, |s|)]
  {
    var a := Min(lo, |s|);
    var b := Min(hi, |s|);
    if a <= b then s[a..b] else []
  }

  function Initial(dir: Dir): Progress {
    Progress(dir, [], [], [], {}, 0, 0, 0, 0, false)
  }

  /** The primary wave over `all_posts[:limit]`. */
  function PrimaryWave(dir: Dir, all: seq<Post>, limit: nat, env: Env): Progress {
    RunWave(Initial(dir), Take(all, limit), Primary, env)
  }

  /** The retry wave over the posts that failed in the primary wave.  Python's
      `zip(failed_posts, results)` reads `failed_posts` while the loop appends
      to it, but there are never more results than posts that failed before
      the wave, so only those posts are paired. */
  function RetryWave(p: Progress, env: Env): Progress {
    if !p.crashed && p.failed != [] then RunWave(p, p.failed, Retry, env) else p
  }

  /** The backfill wave over `all_posts[limit:limit + (limit - len(images))]`. */
  function BackfillWave(p: Progress, all: seq<Post>, limit: nat, env: Env): Progress {
    if !p.crashed && |p.images| < limit then
      RunWave(p, Slice(all, limit, limit + (limit - |p.images|)), Backfill, env)
    else p
  }

  lemma BackfillRuns(p: Progress, all: seq<Post>, limit: nat, env: Env)
    requires !p.crashed && |p.images| < limit
    ensures BackfillWave(p, all, limit, env) == RunWave(p, Slice(all, limit, limit + (limit - |p.images|)), Backfill, env)
  {
  }

  /** The three waves, before `images[:limit]` and `tags_list[:limit]`. */
  function AllWaves(dir: Dir, all: seq<Post>, limit: nat, env: Env): Progress {
    BackfillWave(RetryWave(PrimaryWave(dir, all, limit, env), env), all, limit, env)
  }

  /** The three waves and the final truncation. */
  function Waves(dir: Dir, all: seq<Post>, limit: nat, env: Env): Progress {
    var p := AllWaves(dir, all, limit, env);
    p.(images := Take(p.images, limit), tagsList := Take(p.tagsList, limit))
  }

  method RunWaves(dir: Dir, all: seq<Post>, limit: nat, env: Env) returns (p: Progress)
    ensures p == Waves(dir, all, limit, env)
  {
    p := RunWaveMethod(Initial(dir), Take(all, limit), Primary, env);
    assert p == PrimaryWave(dir, all, limit, env);
    if !p.crashed && p.failed != [] {
      var snapshot := p.failed;
      ghost var p1 := p;
      p := RunWaveMethod(p, snapshot, Retry, env);
      assert p == RetryWave(p1, env);
    }
    assert p == RetryWave(PrimaryWave(dir, all, limit, env), env);
    if !p.crashed && |p.images| < limit {
      var additional := Slice(all, limit, limit + (limit - |p.images|));
      ghost var p2 := p;
      p := RunWaveMethod(p, additional, Backfill, env);
      BackfillRuns(p2, all, limit, env);
    }
    assert p == AllWaves(dir, all, limit, env);
    p := p.(images := Take(p.images, limit), tagsList := Take(p.tagsList, limit));
  }

  /** The state each wave starts from. */
  function WaveStart(dir: Dir, all: seq<Post>, limit: nat, env: Env, w: Wave): Progress {
    match w
    case Primary => Initial(dir)
    case Retry => PrimaryWave(dir, all, limit, env)
    case Backfill => RetryWave(PrimaryWave(dir, all, limit, env), env)
  }

  /** The posts a wave starting from `p` zips its results with; the backfill
      slice is only taken when fewer than `limit` images were kept. */
  function WavePosts(all: seq<Post>, limit: nat, p: Progress, w: Wave): seq<Post> {
    match w
    case Primary => Take(all, limit)
    case Retry => p.failed
    case Backfill => if |p.images| < limit then Slice(all, limit, limit + (limit - |p.images|)) else []
  }

  /** The guards of the retry and backfill waves, on the state they start from. */
  predicate WaveRuns(limit: nat, p: Progress, w: Wave) {
    match w
    case Primary => true
    case Retry => !p.crashed && p.failed != []
    case Backfill => !p.crashed && |p.images| < limit
  }

  lemma PrimaryAccepted(dir: Dir, all: seq<Post>, limit: nat, env: Env, j: nat) returns (k: nat)
    requires j < |PrimaryWave(dir, all, limit, env).images|
    ensures AcceptedAt(Initial(dir), Take(all, limit), Primary, env, k, PrimaryWave(dir, all, limit, env).images[j])
  {
    k := RunWaveAccepted(Initial(dir), Take(all, limit), Primary, env, j);
  }

  lemma RetryAccepted(p1: Progress, env: Env, j: nat) returns (k: nat)
    requires |p1.images| <= j < |RetryWave(p1, env).images|
    ensures !p1.crashed && p1.failed != []
    ensures AcceptedAt(p1, p1.failed, Retry, env, k, RetryWave(p1, env).images[j])
  {
    k := RunWaveAccepted(p1, p1.failed, Retry, env, j);
  }

  lemma BackfillAccepted(p2: Progress, all: seq<Post>, limit: nat, env: Env, j: nat) returns (k: nat)
    requires |p2.images| <= j < |BackfillWave(p2, all, limit, env).images|
    ensures !p2.crashed && |p2.images| < limit
    ensures AcceptedAt(p2, Slice(all, limit, limit + (limit - |p2.images|)), Backfill, env, k,
                       BackfillWave(p2, all, limit, env).images[j])
  {
    BackfillRuns(p2, all, limit, env);
    k := RunWaveAccepted(p2, Slice(all, limit, limit + (limit - |p2.images|)), Backfill, env, j);
  }

  /** The retry and backfill waves keep the images before them, in place. */
  lemma WavesPrefix(dir: Dir, all: seq<Post>, limit: nat, env: Env)
    ensures var p1 := PrimaryWave(dir, all, limit, env);
      var p2 := RetryWave(p1, env);
      p1.images <= p2.images <= BackfillWave(p2, all, limit, env).images
  {
    var p1 := PrimaryWave(dir, all, limit, env);
    if !p1.crashed && p1.failed != [] {
      RunWavePrefix(p1, p1.failed, Retry, env);
    }
    var p2 := RetryWave(p1, env);
    if !p2.crashed && |p2.images| < limit {
      BackfillRuns(p2, all, limit, env);
      RunWavePrefix(p2, Slice(all, limit, limit + (limit - |p2.images|)), Backfill, env);
    }
  }

  /** An image of the three waves that the primary wave kept. */
  lemma PrimaryIn(dir: Dir, all: seq<Post>, limit: nat, env: Env, j: nat) returns (k: nat)
    requires j < |PrimaryWave(dir, all, limit, env).images|
    ensures j < |AllWaves(dir, all, limit, env).images|
    ensures var p := WaveStart(dir, all, limit, env, Primary);
      && WaveRuns(limit, p, Primary)
      && AcceptedAt(p, WavePosts(all, limit, p, Primary), Primary, env, k, AllWaves(dir, all, limit, env).images[j])
  {
    WavesPrefix(dir, all, limit, env);
    k := PrimaryAccepted(dir, all, limit, env, j);
    var p1 := PrimaryWave(dir, all, limit, env);
    assert AllWaves(dir, all, limit, env).images[j] == p1.images[j];
    WaveAt(dir, all, limit, env, Primary, Initial(dir), Take(all, limit), k, p1.images[j]);
  }

  /** An image of the three waves that the retry wave added. */
  lemma RetryIn(dir: Dir, all: seq<Post>, limit: nat, env: Env, j: nat) returns (k: nat)
    requires var p1 := PrimaryWave(dir, all, limit, env);
      |p1.images| <= j < |RetryWave(p1, env).images|
    ensures j < |AllWaves(dir, all, limit, env).images|
    ensures var p := WaveStart(dir, all, limit, env, Retry);
      && WaveRuns(limit, p, Retry)
      && AcceptedAt(p, WavePosts(all, limit, p, Retry), Retry, env, k, AllWaves(dir, all, limit, env).images[j])
  {
    WavesPrefix(dir, all, limit, env);
    var p1 := PrimaryWave(dir, all, limit, env);
    k := RetryAccepted(p1, env, j);
    var p2 := RetryWave(p1, env);
    assert AllWaves(dir, all, limit, env).images[j] == p2.images[j];
    WaveAt(dir, all, limit, env, Retry, p1, p1.failed, k, p2.images[j]);
  }

  /** An image of the three waves that the backfill wave added. */
  lemma BackfillIn(dir: Dir, all: seq<Post>, limit: nat, env: Env, j: nat) returns (k: nat)
    requires var p2 := RetryWave(PrimaryWave(dir, all, limit, env), env);
      |p2.images| <= j < |AllWaves(dir, all, limit, env).images|
    ensures var p := WaveStart(dir, all, limit, env, Backfill);
      && WaveRuns(limit, p, Backfill)
      && AcceptedAt(p, WavePosts(all, limit, p, Backfill), Backfill, env, k, AllWaves(dir, all, limit, env).images[j])
  {
    var p2 := RetryWave(PrimaryWave(dir, all, limit, env), env);
    var p3 := BackfillWave(p2, all, limit, env);
    assert AllWaves(dir, all, limit, env) == p3;
    k := BackfillAccepted(p2, all, limit, env, j);
    var posts := Slice(all, limit, limit + (limit - |p2.images|));
    assert AcceptedAt(p2, posts, Backfill, env, k, p3.images[j]);
    assert WaveStart(dir, all, limit, env, Backfill) == p2;
    BackfillPosts(all, limit, p2);
    WaveAt(dir, all, limit, env, Backfill, p2, posts, k, p3.images[j]);
  }

  lemma BackfillPosts(all: seq<Post>, limit: nat, p: Progress)
    requires |p.images| < limit
    ensures WavePosts(all, limit, p, Backfill) == Slice(all, limit, limit + (limit - |p.images|))
  {
  }

  lemma WaveAt(dir: Dir, all: seq<Post>, limit: nat, env: Env, w: Wave, p: Progress, posts: seq<Post>, k: nat, name: string)
    requires p == WaveStart(dir, all, limit, env, w) && posts == WavePosts(all, limit, p, w)
    requires WaveRuns(limit, p, w) && AcceptedAt(p, posts, w, env, k, name)
    ensures var q := WaveStart(dir, all, limit, env, w);
      && WaveRuns(limit, q, w) && AcceptedAt(q, WavePosts(all, limit, q, w), w, env, k, name)
  {
  }

  /** Every image the three waves keep was accepted in a wave that ran, from a
      result that `validate_image` accepted when its pair was settled. */
  lemma WavesAccepted(dir: Dir, all: seq<Post>, limit: nat, env: Env, j: nat) returns (w: Wave, k: nat)
    requires j < |AllWaves(dir, all, limit, env).images|
    ensures var p := WaveStart(dir, all, limit, env, w);
      && WaveRuns(limit, p, w)
      && AcceptedAt(p, WavePosts(all, limit, p, w), w, env, k, AllWaves(dir, all, limit, env).images[j])
  {
    var p1 := PrimaryWave(dir, all, limit, env);
    var p2 := RetryWave(p1, env);
    if j < |p1.images| {
      w := Primary;
      k := PrimaryIn(dir, all, limit, env, j);
    } else if j < |p2.images| {
      w := Retry;
      k := RetryIn(dir, all, limit, env, j);
    } else {
      w := Backfill;
      k := BackfillIn(dir, all, limit, env, j);
    }
  }

  /** One wave as a whole. */
  lemma WaveGrowth(p: Progress, posts: seq<Post>, w: Wave, env: Env)
    ensures var q := RunWave(p, posts, w, env);
      && |p.images| <= |q.images| && |p.failed| <= |q.failed|
      && |q.images| + |q.failed| <= |p.images| + |p.failed| + |posts|
      && q.reDownloaded == p.reDownloaded + (if w == Primary then 0 else |q.images| - |p.images|)
      && (w == Primary ==> q.finalInvalid == p.finalInvalid)
      && (w != Primary ==> q.initialInvalid == p.initialInvalid)
      && (Consistent(p) ==> Consistent(q))
  {
    var tasks := TasksOf(posts, p.ids);
    var g := Gather(p.dir, tasks, w, env, |tasks|);
    var n := Min(|posts|, |g.results|);
    SettleGrowth(p.(dir := g.dir), posts, g.results, w, env.validate, n);
    if Consistent(p) {
      SettleConsistent(p.(dir := g.dir), posts, g.results, w, env.validate, n);
    }
  }

  /** The primary wave settles at most `limit` pairs, starting from nothing. */
  lemma PrimaryBounds(dir: Dir, all: seq<Post>, limit: nat, env: Env)
    ensures var q := PrimaryWave(dir, all, limit, env);
      Consistent(q) && |q.images| + |q.failed| <= limit && q.reDownloaded == 0
  {
    WaveGrowth(Initial(dir), Take(all, limit), Primary, env);
  }

  /** The retry wave has one task at most per failed post. */
  lemma RetryBounds(p: Progress, env: Env)
    requires Consistent(p)
    ensures var q := RetryWave(p, env);
      && Consistent(q) && |p.images| <= |q.images| <= |p.images| + |p.failed|
      && q.reDownloaded == p.reDownloaded + (|q.images| - |p.images|) && q.initialInvalid == p.initialInvalid
  {
    if !p.crashed && p.failed != [] {
      WaveGrowth(p, p.failed, Retry, env);
    }
  }

  /** The backfill set is no larger than the shortfall. */
  lemma BackfillBounds(p: Progress, all: seq<Post>, limit: nat, env: Env)
    requires Consistent(p) && |p.images| <= limit
    ensures var q := BackfillWave(p, all, limit, env);
      && Consistent(q) && |p.images| <= |q.images| <= limit
      && q.reDownloaded == p.reDownloaded + (|q.images| - |p.images|) && q.initialInvalid == p.initialInvalid
  {
    if !p.crashed && |p.images| < limit {
      var extra := Slice(all, limit, limit + (limit - |p.images|));
      assert |extra| <= limit - |p.images|;
      BackfillRuns(p, all, limit, env);
      WaveGrowth(p, extra, Backfill, env);
    }
  }

  /** The waves never collect more than `limit` images, so `images[:limit]`
      and `tags_list[:limit]` remove nothing; the re-downloaded count is the
      number of images the retry and backfill waves added, and only the
      primary wave counts initial invalid images. */
  lemma WavesBounds(dir: Dir, all: seq<Post>, limit: nat, env: Env)
    ensures var q := Waves(dir, all, limit, env);
      && q == AllWaves(dir, all, limit, env)
      && Consistent(q) && |q.images| <= limit
      && q.reDownloaded == |q.images| - |PrimaryWave(dir, all, limit, env).images|
      && q.initialInvalid == PrimaryWave(dir, all, limit, env).initialInvalid
  {
    var p1 := PrimaryWave(dir, all, limit, env);
    PrimaryBounds(dir, all, limit, env);
    var p2 := RetryWave(p1, env);
    RetryBounds(p1, env);
    var p3 := BackfillWave(p2, all, limit, env);
    BackfillBounds(p2, all, limit, env);
    assert AllWaves(dir, all, limit, env) == p3;
    assert Take(p3.images, limit) == p3.images;
    assert Take(p3.tagsList, limit) == p3.tagsList;
  }

  // ---------------------------------------------------------------------------
  // The whole run

  /** What the returned message reports. */
  datatype Report =
    | NoPosts
    | NoImages
    | Counts(downloaded: int, failed: nat, initial: nat, final: nat, redone: nat, duplicates: nat)

  /** The message `download_and_preview` returns for a report; `downloaded`
      is `len(images) - deleted_images_count`. The contract only tells the
      three kinds of message apart; what the counts are is stated by
      `FinishCounts`. */
  function Message(r: Report): (m: string)
    ensures |m| > 0
    ensures m[0] == match r case NoPosts => '未' case NoImages => '没' case Counts(_, _, _, _, _, _) => '实'
  {
    match r
    case NoPosts => "未找到符合条件的图片。"
    case NoImages => "没有下载任何图片。"
    case Counts(downloaded, failed, initial, final, redone, duplicates) =>
      "实际下载 " + IntToString(downloaded) + " 张图片，" + NatToString(failed) + " 张图片下载失败，初始损坏图片 "
      + NatToString(initial) + " 张，最终损坏图片 " + NatToString(final) + " 张，重新下载了 " + NatToString(redone)
      + " 张图片，删除图片重复" + NatToString(duplicates) + "张。"
  }

  /** The three messages are told apart by their text. */
  lemma MessageDistinct(r: Report, r': Report)
    ensures Message(r) == Message(r') ==> (r.NoPosts? <==> r'.NoPosts?) && (r.NoImages? <==> r'.NoImages?)
  {
    if Message(r) == Message(r') {
      assert Message(r)[0] == Message(r')[0];
    }
  }

  /** What `download_and_preview` returns (images, tags and the report its
      message renders), with the directory it leaves; `Crashed` is the
      `FileNotFoundError` of `os.remove`. */
  datatype Outcome =
    | Finished(dir: Dir, images: seq<string>, tagsList: seq<string>, report: Report)
    | Crashed(dir: Dir)

  /** The cleanups after the waves and the returned triple. */
  function Finish(p: Progress, listdir: Lister, hash: string -> Option<string>, decodes: string -> bool): Outcome {
    if p.images == [] then Finished(p.dir, [], [], NoImages)
    else
      var dd := Dedup.Dedup(p.dir, listdir(p.dir), hash);
      var sw := Sweep.SweepAll(dd.dir, listdir(dd.dir), decodes);
      Finished(sw.dir, p.images, p.tagsList,
               Counts(|p.images| - dd.deleted, p.totalFailed, p.initialInvalid, p.finalInvalid + sw.deleted,
                      p.reDownloaded, dd.deleted))
  }

  /** `download_and_preview` as a function of its inputs and of the outside world. */
  function Pipeline(s: Settings, catalog: Query -> PageReply, dir: Dir, env: Env, listdir: Lister,
                    hash: string -> Option<string>, decodes: string -> bool): Outcome {
    var all := Collect(s, catalog, [], 1);
    if all == [] then Finished(dir, [], [], NoPosts)
    else
      var p := Waves(dir, all, s.limit as nat, env);
      if p.crashed then Crashed(p.dir) else Finish(p, listdir, hash, decodes)
  }

  method DownloadAndPreview(s: Settings, catalog: Query -> PageReply, dir: Dir, env: Env, listdir: Lister,
                            hash: string -> Option<string>, decodes: string -> bool)
    returns (o: Outcome, message: string)
    requires IsLister(listdir)
    ensures o == Pipeline(s, catalog, dir, env, listdir, hash, decodes)
    ensures o.Finished? ==> message == Message(o.report)
  {
    var all := CollectPosts(s, catalog);
    if all == [] {
      o := Finished(dir, [], [], NoPosts);
      message := Message(o.report);
      return;
    }
    var p := RunWaves(dir, all, s.limit as nat, env);
    if p.crashed {
      o := Crashed(p.dir);
      message := "";
      return;
    }
    o := FinishWaves(p, listdir, hash, decodes);
    message := Message(o.report);
  }

  /** The cleanups and the summary, once the waves are over. */
  method FinishWaves(p: Progress, listdir: Lister, hash: string -> Option<string>, decodes: string -> bool)
    returns (o: Outcome)
    requires IsLister(listdir)
    ensures o == Finish(p, listdir, hash, decodes)
  {
    if p.images != [] {
      var names := listdir(p.dir);
      assert IsListing(names, p.dir);
      var d1, duplicates, log := Dedup.RemoveDuplicates(p.dir, names, hash);
      var d2, swept := Sweep.RemoveCorrupted(d1, listdir(d1), decodes);
      o := Finished(d2, p.images, p.tagsList,
                    Counts(|p.images| - duplicates, p.totalFailed, p.initialInvalid, p.finalInvalid + swept,
                           p.reDownloaded, duplicates));
    } else {
      o := Finished(p.dir, [], [], NoImages);
    }
  }

  /** Nothing collected is reported by its own message, and then no file is
      touched. */
  lemma PipelineNoPosts(s: Settings, catalog: Query -> PageReply, dir: Dir, env: Env, listdir: Lister,
                        hash: string -> Option<string>, decodes: string -> bool)
    ensures var o := Pipeline(s, catalog, dir, env, listdir, hash, decodes);
      (o.Finished? && Message(o.report) == Message(NoPosts) <==> Collect(s, catalog, [], 1) == [])
    ensures Collect(s, catalog, [], 1) == [] ==> Pipeline(s, catalog, dir, env, listdir, hash, decodes).dir == dir
  {
    var o := Pipeline(s, catalog, dir, env, listdir, hash, decodes);
    if o.Finished? {
      MessageDistinct(o.report, NoPosts);
    }
  }

  /** The returned lists: at most `limit` images, one tag string each. */
  lemma PipelineImages(s: Settings, catalog: Query -> PageReply, dir: Dir, env: Env, listdir: Lister,
                       hash: string -> Option<string>, decodes: string -> bool)
    ensures var o := Pipeline(s, catalog, dir, env, listdir, hash, decodes);
      o.Finished? ==> |o.images| == |o.tagsList| <= s.limit || (o.images == [] && o.tagsList == [])
  {
    var all := Collect(s, catalog, [], 1);
    if all != [] {
      WavesBounds(dir, all, s.limit as nat, env);
    }
  }

  /** Every returned image passed `validate_image`: the `j`-th one was accepted
      in a wave that ran, from the `k`-th result of that wave's downloads, on
      the directory as it was when that pair was settled. */
  lemma PipelineImagesValidated(s: Settings, catalog: Query -> PageReply, dir: Dir, env: Env, listdir: Lister,
                                hash: string -> Option<string>, decodes: string -> bool, j: nat)
    returns (w: Wave, k: nat)
    requires var o := Pipeline(s, catalog, dir, env, listdir, hash, decodes); o.Finished? && j < |o.images|
    ensures s.limit > 0
    ensures var all, limit := Collect(s, catalog, [], 1), s.limit as nat;
      var p := WaveStart(dir, all, limit, env, w);
      && WaveRuns(limit, p, w)
      && AcceptedAt(p, WavePosts(all, limit, p, w), w, env, k, Pipeline(s, catalog, dir, env, listdir, hash, decodes).images[j])
  {
    var all := Collect(s, catalog, [], 1);
    var o := Pipeline(s, catalog, dir, env, listdir, hash, decodes);
    assert all != [];
    var limit := s.limit as nat;
    var p := Waves(dir, all, limit, env);
    assert !p.crashed && o == Finish(p, listdir, hash, decodes);
    assert o.images == p.images;
    WavesBounds(dir, all, limit, env);
    w, k := WavesAccepted(dir, all, limit, env, j);
  }

  /** The summary's counts, in terms of the directory the waves leave: the
      duplicates are the hashable images beyond one per distinct hash, and
      the swept images are the corrupted images left after deduplication. */
  lemma FinishCounts(p: Progress, listdir: Lister, hash: string -> Option<string>, decodes: string -> bool)
    requires IsLister(listdir) && p.images != []
    ensures var o := Finish(p, listdir, hash, decodes);
      var d1 := Dedup.Dedup(p.dir, listdir(p.dir), hash).dir;
      var duplicates := |Dedup.HashableFiles(p.dir, hash)| - |Dedup.ImageHashes(p.dir, hash)|;
      && o.Finished? && o.images == p.images && o.tagsList == p.tagsList
      && duplicates >= 0
      && o.report == Counts(|p.images| - duplicates, p.totalFailed, p.initialInvalid,
                            p.finalInvalid + |Sweep.CorruptImages(d1, decodes)|, p.reDownloaded, duplicates)
  {
    Dedup.DedupCounts(p.dir, listdir(p.dir), hash);
    var d1 := Dedup.Dedup(p.dir, listdir(p.dir), hash).dir;
    Sweep.SweepResult(d1, listdir(d1), decodes);
  }
}
