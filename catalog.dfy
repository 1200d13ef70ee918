/**
 * The catalog client (`fetch_posts`, `is_valid_post`): one page of search
 * results, filtered locally by required tags, excluded tags, score and file
 * extension. The HTTP request is an oracle from the query to the reply.
 */
module Catalog {
  import opened Wrappers
  import opened Text

  /** One element of the JSON array that `posts.json` returns; the optional
      fields are the ones the code reads with `'file_url' in post` or
      `post.get(...)`. */
  datatype Post = Post(
    id: int,
    fileUrl: Option<string>,
    tagString: string,
    score: Option<int>,
    fileExt: Option<string>)

  /** The filter settings the user typed: comma-separated tag lists and the
      score threshold. */
  datatype Criteria = Criteria(tags: string, excludeTags: string, threshold: int)

  /** Query parameters of the search request. */
  datatype Query = Query(login: string, apiKey: string, tags: string, limit: int, page: int, score: int)

  /** The catalog's answer to one request: the HTTP status and the decoded body. */
  datatype PageReply = PageReply(status: int, posts: seq<Post>)

  /** Number of posts requested per page. */
  const PageSize := 200

  const AllowedExtensions: set<string> := {"jpg", "jpeg", "png", "gif"}

  /** `set(tag_string.split())` */
  function TagSet(s: string): set<string> {
    set t | t in Tokens(s)
  }

  /** `set(s.split(',')) if s else set()` */
  function CommaSet(s: string): set<string> {
    if s == "" then {} else set t | t in Split(s, ',')
  }

  /** `is_valid_post(post, tags, exclude_tags, score_threshold)`, as written:
      set operations over the whitespace tokens of the tag string. */
  predicate IsValidPost(p: Post, c: Criteria) {
    var postTags := TagSet(p.tagString);
    var required := CommaSet(c.tags);
    var excluded := CommaSet(c.excludeTags);
    && (required == {} || required <= postTags)
    && (excluded == {} || excluded * postTags == {})
    && p.score.GetOr(0) >= c.threshold
    && Lower(p.fileExt.GetOr("")) in AllowedExtensions
  }

  /** The four conditions of validity, stated on the token lists. */
  lemma IsValidPostIff(p: Post, c: Criteria)
    ensures IsValidPost(p, c) <==>
      && (c.tags == "" || forall r :: r in Split(c.tags, ',') ==> r in Tokens(p.tagString))
      && (c.excludeTags == "" || forall e :: e in Split(c.excludeTags, ',') ==> e !in Tokens(p.tagString))
      && (if p.score.Some? then p.score.value else 0) >= c.threshold
      && var ext := Lower(if p.fileExt.Some? then p.fileExt.value else "");
         ext == "jpg" || ext == "jpeg" || ext == "png" || ext == "gif"
  {
    var tokens := Tokens(p.tagString);
    var postTags := TagSet(p.tagString);
    if c.tags != "" {
      var parts := Split(c.tags, ',');
      assert parts[0] in CommaSet(c.tags);
      if CommaSet(c.tags) <= postTags {
        forall r | r in parts ensures r in tokens {
          assert r in CommaSet(c.tags);
        }
      }
      if forall r :: r in parts ==> r in tokens {
        forall r | r in CommaSet(c.tags) ensures r in postTags {
          assert r in parts;
        }
      }
    }
    if c.excludeTags != "" {
      var parts := Split(c.excludeTags, ',');
      if CommaSet(c.excludeTags) * postTags == {} {
        forall e | e in parts ensures e !in tokens {
          assert e in CommaSet(c.excludeTags);
          assert e in tokens ==> e in CommaSet(c.excludeTags) * postTags;
        }
      }
      assert forall x :: x in CommaSet(c.excludeTags) * postTags ==> x in parts && x in tokens;
    }
  }

  /** An empty field in the required list (a doubled or trailing comma, as in
      "1girl,") can never be matched, since whitespace tokens are non-empty:
      no post passes. */
  lemma {:induction false} EmptyRequiredFieldRejects(p: Post, c: Criteria)
    requires c.tags != "" && "" in Split(c.tags, ',')
    ensures !IsValidPost(p, c)
  {
    assert "" in CommaSet(c.tags);
    assert "" !in TagSet(p.tagString);
  }

  /** The query parameters built by `fetch_posts`: commas in the tag list
      become spaces, 200 posts per page, the threshold as the score filter. */
  function SearchQuery(login: string, apiKey: string, c: Criteria, page: int): (q: Query)
    ensures q.limit == PageSize && q.page == page && q.score == c.threshold
    ensures |q.tags| == |c.tags| && ',' !in q.tags
    ensures forall i :: 0 <= i < |c.tags| ==> q.tags[i] == if c.tags[i] == ',' then ' ' else c.tags[i]
  {
    Query(login, apiKey, if c.tags == "" then "" else ReplaceChar(c.tags, ',', ' '), PageSize, page, c.threshold)
  }

  /** The comprehension's condition: a file URL and a valid post. */
  predicate Wanted(p: Post, c: Criteria) {
    p.fileUrl.Some? && IsValidPost(p, c)
  }

  /** `[post for post in posts if 'file_url' in post and is_valid_post(...)]` */
  function FilterPosts(posts: seq<Post>, c: Criteria): seq<Post>
  {
    if posts == [] then []
    else
      var last := posts[|posts| - 1];
      FilterPosts(posts[..|posts| - 1], c) + if Wanted(last, c) then [last] else []
  }

  /** Indices of the wanted posts, in increasing order. */
  function WantedIndices(posts: seq<Post>, c: Criteria): seq<nat>
  {
    if posts == [] then []
    else
      var n := |posts| - 1;
      WantedIndices(posts[..n], c) + if Wanted(posts[n], c) then [n] else []
  }

  predicate Increasing(idx: seq<nat>) {
    forall i, j :: 0 <= i < j < |idx| ==> idx[i] < idx[j]
  }

  /** The filtered page is exactly the wanted posts, in their original order:
      the posts at the increasing indices of the wanted ones. */
  lemma {:induction false} FilterPostsSpec(posts: seq<Post>, c: Criteria)
    ensures var idx := WantedIndices(posts, c);
      && |FilterPosts(posts, c)| == |idx|
      && Increasing(idx)
      && (forall k :: 0 <= k < |idx| ==> idx[k] < |posts| && FilterPosts(posts, c)[k] == posts[idx[k]])
      && (forall i :: 0 <= i < |posts| ==> (i in idx <==> Wanted(posts[i], c)))
    decreases |posts|
  {
    if posts != [] {
      var n := |posts| - 1;
      FilterPostsSpec(posts[..n], c);
      var idx0 := WantedIndices(posts[..n], c);
      assert forall k :: 0 <= k < |idx0| ==> idx0[k] < n;
      assert forall i :: 0 <= i < n ==> posts[..n][i] == posts[i];
    }
  }

  lemma FilterPostsMembers(posts: seq<Post>, c: Criteria)
    ensures forall p :: p in FilterPosts(posts, c) <==> p in posts && Wanted(p, c)
    ensures |FilterPosts(posts, c)| <= |posts|
  {
    FilterPostsSpec(posts, c);
    var idx := WantedIndices(posts, c);
    var r := FilterPosts(posts, c);
    forall p | p in posts && Wanted(p, c) ensures p in r {
      var i :| 0 <= i < |posts| && posts[i] == p;
      var k :| 0 <= k < |idx| && idx[k] == i;
      assert r[k] == p;
    }
    IncreasingBounded(idx, |posts|);
  }

  lemma {:induction false} IncreasingBounded(idx: seq<nat>, n: nat)
    requires Increasing(idx) && forall k :: 0 <= k < |idx| ==> idx[k] < n
    ensures |idx| <= n
    decreases n
  {
    if idx != [] {
      var m := |idx| - 1;
      assert forall k :: 0 <= k < m ==> idx[k] < idx[m];
      IncreasingBounded(idx[..m], idx[m]);
    }
  }

  /** `fetch_posts` given the catalog's reply: the filtered posts on status
      200, nothing otherwise. */
  function FetchPosts(reply: PageReply, c: Criteria): seq<Post>
  {
    if reply.status == 200 then FilterPosts(reply.posts, c) else []
  }

  /** Every returned post has a file URL and is valid; a non-200 reply yields
      no posts. */
  lemma FetchPostsSound(reply: PageReply, c: Criteria)
    ensures reply.status != 200 ==> FetchPosts(reply, c) == []
    ensures reply.status == 200 ==>
      forall p :: p in FetchPosts(reply, c) <==> p in reply.posts && p.fileUrl.Some? && IsValidPost(p, c)
  {
    FilterPostsMembers(reply.posts, c);
  }
}
