/**
 * The download engine (`download_image`): a bounded attempt loop that, on the
 * first 200 response, writes the image and its comma-joined tag file.
 * The network is an oracle giving the reply to each attempt; the timestamp
 * `int(time.time())` is a parameter.
 */
module Download {
  import opened Wrappers
  import opened Text
  import opened Files
  import opened Catalog

  /** The exceptions `download_image` catches. */
  datatype NetError = ConnectionError | ResponseError | PayloadError | Timeout

  /** Reading the response body either yields the bytes or raises. */
  datatype Body = Body(data: string) | BodyFails(error: NetError)

  /** What one `session.get(image_url, ...)` attempt produces. */
  datatype AssetReply = Response(status: int, body: Body) | Raised(error: NetError)

  /** Retry budget of the primary and backfill waves (the default argument). */
  const DefaultRetries: nat := 5

  /** Retry budget of the retry wave. */
  const RetryWaveRetries: nat := 10

  /** `f"{post['id']}_{int(time.time())}"` */
  function BaseName(id: int, ts: nat): string {
    IntToString(id) + "_" + NatToString(ts)
  }

  function ImageName(id: int, ts: nat): string {
    BaseName(id, ts) + ".jpg"
  }

  function TagName(id: int, ts: nat): string {
    BaseName(id, ts) + ".txt"
  }

  /** Content of the tag file: `','.join(tags.split())`. */
  function TagFileText(tagString: string): string {
    Join(",", Tokens(tagString))
  }

  /** The image and the tag file share the base name and differ in extension;
      the orchestrator's `.replace('.jpg', '.txt')` maps one to the other. */
  lemma {:induction false} FileNamesPaired(id: int, ts: nat)
    ensures ImageName(id, ts) != TagName(id, ts)
    ensures EndsWith(ImageName(id, ts), ".jpg") && EndsWith(TagName(id, ts), ".txt")
    ensures ReplaceAll(ImageName(id, ts), ".jpg", ".txt") == TagName(id, ts)
  {
    var b := BaseName(id, ts);
    assert ImageName(id, ts)[|b| + 1] == 'j' != TagName(id, ts)[|b| + 1];
    assert forall i :: 0 <= i < |IntToString(id)| ==> IntToString(id)[i] != '.';
    assert '.' !in b by {
      assert b == IntToString(id) + "_" + NatToString(ts);
    }
    ReplaceAllFinal(b, ".jpg", ".txt");
  }

  /** The example of a tag string and its file content. */
  lemma TagFileExample(tagString: string)
    requires tagString == "1girl solo long_hair"
    ensures TagFileText(tagString) == "1girl,solo,long_hair"
  {
    ExampleTokens(tagString);
    ExampleJoin(["1girl", "solo", "long_hair"]);
  }

  lemma ExampleTokens(tagString: string)
    requires tagString == "1girl solo long_hair"
    ensures Tokens(tagString) == ["1girl", "solo", "long_hair"]
  {
    var ws := ["1girl", "solo", "long_hair"];
    JoinThree(" ", "1girl", "solo", "long_hair");
    assert "1girl" + " " + "solo" + " " + "long_hair" == tagString;
    TokensJoin(ws);
  }

  lemma ExampleJoin(ws: seq<string>)
    requires ws == ["1girl", "solo", "long_hair"]
    ensures Join(",", ws) == "1girl,solo,long_hair"
  {
    JoinThree(",", "1girl", "solo", "long_hair");
    assert "1girl" + "," + "solo" + "," + "long_hair" == "1girl,solo,long_hair";
  }

  lemma JoinThree(sep: string, a: string, b: string, c: string)
    ensures Join(sep, [a, b, c]) == a + sep + b + sep + c
  {
    assert [a, b, c][1..] == [b, c];
    assert [b, c][1..] == [c];
    assert Join(sep, [c]) == c;
    assert Join(sep, [b, c]) == b + sep + c;
    assert Join(sep, [a, b, c]) == a + sep + (b + sep + c);
  }

  /** Splitting the tag file on ',' gives back the whitespace tokens of the tag
      string when there is at least one token and none contains ','. */
  lemma TagFileRoundTrip(tagString: string)
    requires Tokens(tagString) != []
    requires forall i :: 0 <= i < |Tokens(tagString)| ==> ',' !in Tokens(tagString)[i]
    ensures Split(TagFileText(tagString), ',') == Tokens(tagString)
  {
    SplitJoin(Tokens(tagString), ',');
  }

  /** A 200 response whose body could be read. */
  predicate Succeeds(r: AssetReply) {
    r.Response? && r.status == 200 && r.body.Body?
  }

  /** A 200 response whose body read raised: `open(filename, 'wb')` has already
      created an empty image file. */
  predicate TruncatesImage(r: AssetReply) {
    r.Response? && r.status == 200 && r.body.BodyFails?
  }

  /** The first attempt from `k` to `maxRetries` whose reply succeeds. */
  function FirstSuccess(replies: nat -> AssetReply, k: nat, maxRetries: nat): (r: Option<nat>)
    ensures r.Some? ==> k <= r.value <= maxRetries && Succeeds(replies(r.value))
    ensures forall j :: k <= j <= maxRetries && (r.None? || j < r.value) ==> !Succeeds(replies(j))
    decreases maxRetries + 1 - k
  {
    if k > maxRetries then None
    else if Succeeds(replies(k)) then Some(k)
    else FirstSuccess(replies, k + 1, maxRetries)
  }

  /** Whether one of the first `n` attempts left an empty image file. */
  predicate TruncatedBefore(replies: nat -> AssetReply, n: nat) {
    exists k :: 0 <= k < n && TruncatesImage(replies(k))
  }

  /** What `download_image` returns and the directory it leaves behind. */
  datatype Fetched = Fetched(result: Option<(string, string)>, dir: Dir)

  /** The outcome of `download_image`, as one value: the pipeline's waves are
      specified with it. */
  function Fetch(dir: Dir, post: Post, ts: nat, maxRetries: nat, replies: nat -> AssetReply): Fetched
  {
    match FirstSuccess(replies, 0, maxRetries)
    case Some(k) =>
      Fetched(Some((ImageName(post.id, ts), post.tagString)),
              dir[ImageName(post.id, ts) := replies(k).body.data][TagName(post.id, ts) := TagFileText(post.tagString)])
    case None =>
      Fetched(None, if TruncatedBefore(replies, maxRetries + 1) then dir[ImageName(post.id, ts) := ""] else dir)
  }

  /** The number of attempts `download_image` makes. */
  function Attempts(replies: nat -> AssetReply, maxRetries: nat): nat {
    match FirstSuccess(replies, 0, maxRetries)
    case Some(k) => k + 1
    case None => maxRetries + 1
  }

  /** `download_image(session, post, save_path, semaphore, max_retries)`, where
      `replies(k)` is the outcome of attempt `k`. Returns `(filename, tags)` or
      `None` for `(None, None)`, the new directory, the number of attempts made
      and the number of one-second sleeps. */
  method DownloadImage(dir: Dir, post: Post, ts: nat, maxRetries: nat, replies: nat -> AssetReply)
    returns (result: Option<(string, string)>, dir': Dir, attempts: nat, sleeps: nat)
    ensures Fetched(result, dir') == Fetch(dir, post, ts, maxRetries, replies)
    ensures attempts == Attempts(replies, maxRetries) && sleeps == attempts - 1
  {
    var image := ImageName(post.id, ts);
    var tagFile := TagName(post.id, ts);
    dir' := dir;
    sleeps := 0;
    var attempt: nat := 0;
    while attempt < maxRetries + 1
      invariant attempt <= maxRetries + 1
      invariant sleeps == if attempt <= maxRetries then attempt else maxRetries
      invariant FirstSuccess(replies, 0, maxRetries) == FirstSuccess(replies, attempt, maxRetries)
      invariant dir' == if TruncatedBefore(replies, attempt) then dir[image := ""] else dir
      decreases maxRetries + 1 - attempt
    {
      var reply := replies(attempt);
      TruncatedStep(replies, attempt);
      if reply.Response? && reply.status == 200 {
        match reply.body
        case Body(data) =>
          Overwrite(dir, image, "", data);
          dir' := dir'[image := data][tagFile := TagFileText(post.tagString)];
          result, attempts := Some((image, post.tagString)), attempt + 1;
          return;
        case BodyFails(_) =>
          Overwrite(dir, image, "", "");
          dir' := dir'[image := ""];
      }
      if attempt < maxRetries {
        sleeps := sleeps + 1;
      }
      attempt := attempt + 1;
    }
    result, attempts := None, attempt;
  }

  /** Whether the first `n + 1` attempts left an empty image file. */
  lemma TruncatedStep(replies: nat -> AssetReply, n: nat)
    ensures TruncatedBefore(replies, n + 1) <==> TruncatedBefore(replies, n) || TruncatesImage(replies(n))
  {
    if TruncatedBefore(replies, n + 1) && !TruncatesImage(replies(n)) {
      var k :| 0 <= k < n + 1 && TruncatesImage(replies(k));
      assert k < n;
    }
    if TruncatesImage(replies(n)) {
      assert 0 <= n < n + 1;
    }
  }

  lemma Overwrite(dir: Dir, name: string, a: string, b: string)
    ensures dir[name := a][name := b] == dir[name := b]
  {
  }

  /** What `download_image` promises: at most `max_retries + 1` attempts, and
      exactly that many when none succeeds; no sleep after the last attempt;
      on the first 200 response with a readable body, both files written and
      `(filename, tags)` returned; `None` only when every attempt failed, an
      empty image file then being left behind when some 200 response's body
      could not be read. */
  lemma FetchSpec(dir: Dir, post: Post, ts: nat, maxRetries: nat, replies: nat -> AssetReply)
    ensures var a := Attempts(replies, maxRetries); 1 <= a <= maxRetries + 1
    ensures var f := Fetch(dir, post, ts, maxRetries, replies);
      f.result.Some? <==> exists k :: 0 <= k <= maxRetries && Succeeds(replies(k))
    ensures var f, a := Fetch(dir, post, ts, maxRetries, replies), Attempts(replies, maxRetries);
      f.result.Some? ==>
        && Succeeds(replies(a - 1))
        && (forall k :: 0 <= k < a - 1 ==> !Succeeds(replies(k)))
        && f.result.value == (ImageName(post.id, ts), post.tagString)
        && f.dir == dir[ImageName(post.id, ts) := replies(a - 1).body.data]
                       [TagName(post.id, ts) := TagFileText(post.tagString)]
    ensures var f, a := Fetch(dir, post, ts, maxRetries, replies), Attempts(replies, maxRetries);
      f.result.None? ==>
        && a == maxRetries + 1
        && f.dir == if exists k :: 0 <= k <= maxRetries && TruncatesImage(replies(k))
                    then dir[ImageName(post.id, ts) := ""] else dir
  {
    var r := FirstSuccess(replies, 0, maxRetries);
    if r.None? {
      assert TruncatedBefore(replies, maxRetries + 1) <==>
        exists k :: 0 <= k <= maxRetries && TruncatesImage(replies(k));
    }
  }
}
