/** The list update at the end of `handleRewrite`: the re-generated text is
    parsed again and, when that yields at least one post, the first one
    replaces the post being rewritten in a copy of the list. */
module PostRewrite {
  import opened PostParser

  /** Every field of every post is non-empty, as `parseResponse` guarantees. */
  predicate AllFilled(posts: seq<GeneratedPost>) {
    forall i :: 0 <= i < |posts| ==>
      posts[i].title != [] && posts[i].angle != [] && posts[i].imageKeyword != [] && posts[i].content != []
  }

  /** Copy `posts` and overwrite position `index` with `parsed[0]` when
      `parsed` is non-empty; otherwise the list stays as it is. */
  method ApplyRewrite(posts: seq<GeneratedPost>, index: nat, parsed: seq<GeneratedPost>)
    returns (newPosts: seq<GeneratedPost>)
    requires index < |posts|
    ensures |newPosts| == |posts|
    ensures forall i :: 0 <= i < |posts| && i != index ==> newPosts[i] == posts[i]
    ensures |parsed| > 0 ==> newPosts[index] == parsed[0]
    ensures |parsed| == 0 ==> newPosts == posts
  {
    newPosts := posts;
    if |parsed| > 0 {
      newPosts := newPosts[index := parsed[0]];
    }
  }

  /** The whole rewrite step on the model's reply `text`: the list keeps its
      length, only position `index` may change, and it changes exactly when
      the reply holds a post chunk, to the post built from the first one. */
  method Rewrite(posts: seq<GeneratedPost>, index: nat, text: string) returns (newPosts: seq<GeneratedPost>)
    requires index < |posts|
    ensures |newPosts| == |posts|
    ensures forall i :: 0 <= i < |posts| && i != index ==> newPosts[i] == posts[i]
    ensures |Chunks(text)| > 0 ==> newPosts[index] == BuildPost(Chunks(text)[0])
    ensures |Chunks(text)| == 0 ==> newPosts == posts
    ensures AllFilled(posts) ==> AllFilled(newPosts)
  {
    var parsed := ParseResponse(text);
    newPosts := ApplyRewrite(posts, index, parsed);
  }
}
