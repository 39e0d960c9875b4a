/** `ForumManager`: the forum feed, newest post first, with reaction counters
    and a case-insensitive search. */
module Forum {
  import opened Basics
  import opened Json
  import Text

  /** The counters a new post starts with. */
  const ZeroReactions: map<string, Json> :=
    map["support" := JNum(0), "helpful" := JNum(0), "concerned" := JNum(0)]

  /** The fields `addPost` generates after spreading the caller's data. */
  function PostDefaults(isoNow: string): Record {
    map["date" := JStr(Text.BeforeT(isoNow)),
        "reactions" := JObj(ZeroReactions),
        "replies" := JArr([])]
  }

  /** The record `addPost(postData)` builds: a generated id the caller's data
      may override, then the caller's fields, then date, zeroed reactions and
      an empty reply list that override the caller's. */
  function NewPost(data: Record, now: int, isoNow: string): (p: Record)
    ensures p.Keys == data.Keys + {"id", "date", "reactions", "replies"}
    ensures p["id"] == (if "id" in data then data["id"] else JNum(now))
    ensures p["date"] == JStr(Text.BeforeT(isoNow))
    ensures p["reactions"] == JObj(ZeroReactions)
    ensures p["replies"] == JArr([])
    ensures forall k :: k in data && k !in {"id", "date", "reactions", "replies"} ==> p[k] == data[k]
  {
    Spread(Spread(map["id" := JNum(now)], data), PostDefaults(isoNow))
  }

  /** `addPost`: the new post goes in front (`unshift`), every older post
      keeps its contents and moves up one place. */
  function AddPost(posts: seq<Record>, data: Record, now: int, isoNow: string): (r: seq<Record>)
    ensures |r| == |posts| + 1
    ensures r[0] == NewPost(data, now, isoNow)
    ensures forall i :: 0 <= i < |posts| ==> r[i + 1] == posts[i]
  {
    [NewPost(data, now, isoNow)] + posts
  }

  /** `p.id == postId` for the numeric ids the feed renders into its buttons. */
  predicate HasId(p: Record, postId: int) {
    Get(p, "id") == Some(JNum(postId))
  }

  /** `posts.find(p => p.id == postId)`, as an index. */
  function FindPost(posts: seq<Record>, postId: int): (r: Option<nat>)
    ensures r.Some? ==> r.value < |posts| && HasId(posts[r.value], postId)
    ensures r.Some? ==> forall j :: 0 <= j < r.value ==> !HasId(posts[j], postId)
    ensures r.None? <==> forall j :: 0 <= j < |posts| ==> !HasId(posts[j], postId)
  {
    if |posts| == 0 then None
    else if HasId(posts[0], postId) then Some(0)
    else match FindPost(posts[1..], postId)
      case None => None
      case Some(i) => Some(i + 1)
  }

  /** A stored counter that `+ 1` adds to as a number: absent or falsy (read
      as 0 by `|| 0`), a number, or `true` (which `+` reads as 1). */
  predicate IsCounter(v: Option<Json>) {
    !Truthy(v) || (v.Some? && (v.value.JNum? || v.value.JBool?))
  }

  /** The number `(v || 0)` converts to under `+`. */
  function CountOf(v: Option<Json>): int {
    if v.Some? && v.value.JNum? then v.value.n
    else if v == Some(JBool(true)) then 1
    else 0
  }

  /** An array or object counter, which `+` would first turn into text
      through its `toString`. */
  predicate IsCompound(v: Option<Json>) {
    v.Some? && (v.value.JArr? || v.value.JObj?)
  }

  /** `(counter || 0) + 1`: numeric addition for a numeric counter,
      concatenation of "1" for a non-empty string. */
  function Bump(v: Option<Json>): (r: Result<Json, Fault>)
    ensures IsCounter(v) ==> r == Ok(JNum(CountOf(v) + 1))
    ensures v.Some? && v.value.JStr? && v.value.s != "" ==> r == Ok(JStr(v.value.s + "1"))
    ensures r.Err? <==> IsCompound(v)
    ensures r.Err? ==> r.error == NotModelled
  {
    if !Truthy(v) then Ok(JNum(1))
    else match v.value
      case JNum(n) => Ok(JNum(n + 1))
      case JBool(_) => Ok(JNum(2))
      case JStr(t) => Ok(JStr(t + "1"))
      case _ => Err(NotModelled)
  }

  /** A `reactions` value whose properties can be set: an object or an
      array. Reading a property of `undefined` or `null` throws, and class
      code is strict, so setting one on a number, string or boolean throws
      as well. */
  predicate HasSettableReactions(post: Record) {
    "reactions" in post && (post["reactions"].JObj? || post["reactions"].JArr?)
  }

  /** `post.reactions[reaction] = (post.reactions[reaction] || 0) + 1` on one
      post. */
  function React(post: Record, reaction: string): Result<Record, Fault> {
    match Get(post, "reactions")
    case Some(JObj(counts)) =>
      (match Bump(Get(counts, reaction))
       case Err(e) => Err(e)
       case Ok(c) => Ok(post["reactions" := JObj(counts[reaction := c])]))
    case Some(JArr(_)) => Err(NotModelled)
    case _ => Err(TypeError)
  }

  /** `addReaction(postId, reactionType)`. */
  function AddReaction(posts: seq<Record>, postId: int, reaction: string): Result<seq<Record>, Fault> {
    match FindPost(posts, postId)
    case None => Ok(posts)
    case Some(i) =>
      (match React(posts[i], reaction)
       case Err(e) => Err(e)
       case Ok(p) => Ok(posts[i := p]))
  }

  /** A post whose reactions are an object, and whose counter for the given
      reaction is not itself an array or object. */
  predicate CanReact(post: Record, reaction: string) {
    "reactions" in post && post["reactions"].JObj?
    && !IsCompound(Get(post["reactions"].fields, reaction))
  }

  /** What `addReaction` promises: with no matching post nothing changes.
      Otherwise it throws exactly when that post's `reactions` is missing or
      a primitive, and on success only the first matching post's one counter
      moves, to `(counter || 0) + 1`. */
  lemma AddReactionEffect(posts: seq<Record>, postId: int, reaction: string)
    ensures FindPost(posts, postId).None? ==> AddReaction(posts, postId, reaction) == Ok(posts)
    ensures FindPost(posts, postId).Some? ==>
      var i := FindPost(posts, postId).value;
      (AddReaction(posts, postId, reaction).Ok? <==> CanReact(posts[i], reaction))
      && (AddReaction(posts, postId, reaction) == Err(TypeError) <==> !HasSettableReactions(posts[i]))
      && (AddReaction(posts, postId, reaction).Ok? ==>
        var r := AddReaction(posts, postId, reaction).value;
        var before := posts[i]["reactions"].fields;
        && |r| == |posts|
        && (forall j :: 0 <= j < |posts| && j != i ==> r[j] == posts[j])
        && r[i].Keys == posts[i].Keys
        && (forall k :: k in posts[i] && k != "reactions" ==> r[i][k] == posts[i][k])
        && r[i]["reactions"].JObj?
        && r[i]["reactions"].fields.Keys == before.Keys + {reaction}
        && (IsCounter(Get(before, reaction)) ==>
              r[i]["reactions"].fields[reaction] == JNum(CountOf(Get(before, reaction)) + 1))
        && (forall k :: k in before && k != reaction ==> r[i]["reactions"].fields[k] == before[k]))
  {
  }

  /** A counter holding `true` becomes 2, and a non-empty string counter
      gets "1" appended. */
  lemma CoercedCounters(post: Record, postId: int, reaction: string, counts: map<string, Json>)
    requires HasId(post, postId) && Get(post, "reactions") == Some(JObj(counts))
    ensures Get(counts, reaction) == Some(JBool(true)) ==>
      AddReaction([post], postId, reaction) == Ok([post["reactions" := JObj(counts[reaction := JNum(2)])]])
    ensures Get(counts, reaction) == Some(JStr("4")) ==>
      AddReaction([post], postId, reaction) == Ok([post["reactions" := JObj(counts[reaction := JStr("41")])]])
  {
    assert FindPost([post], postId) == Some(0);
    var v := Get(counts, reaction);
    if v == Some(JBool(true)) || v == Some(JStr("4")) {
      var c := if v == Some(JBool(true)) then JNum(2) else JStr("41");
      assert "4" + "1" == "41";
      assert Bump(v) == Ok(c);
      var p' := post["reactions" := JObj(counts[reaction := c])];
      assert React(post, reaction) == Ok(p');
      assert [post][0 := p'] == [p'];
    }
  }

  /** One reaction on a single-post feed whose counters are the given numbers. */
  lemma ReactOnce(post: Record, postId: int, reaction: string, counts: map<string, Json>, n: int)
    requires HasId(post, postId) && Get(post, "reactions") == Some(JObj(counts))
    requires Get(counts, reaction) == Some(JNum(n))
    ensures AddReaction([post], postId, reaction)
         == Ok([post["reactions" := JObj(counts[reaction := JNum(n + 1)])]])
  {
    assert FindPost([post], postId) == Some(0);
    assert Bump(Get(counts, reaction)) == Ok(JNum(n + 1));
    var p' := post["reactions" := JObj(counts[reaction := JNum(n + 1)])];
    assert React(post, reaction) == Ok(p');
    assert [post][0 := p'] == [p'];
  }

  /** Three `support` reactions on a fresh post leave it at support 3 and
      the other two counters at 0. */
  lemma ThreeSupports(data: Record, now: int, isoNow: string)
    requires "id" !in data
    ensures var p0 := NewPost(data, now, isoNow);
      AddReaction([p0], now, "support").Ok? &&
      var r1 := AddReaction([p0], now, "support").value;
      AddReaction(r1, now, "support").Ok? &&
      var r2 := AddReaction(r1, now, "support").value;
      AddReaction(r2, now, "support").Ok? &&
      AddReaction(r2, now, "support").value[0]["reactions"]
        == JObj(map["support" := JNum(3), "helpful" := JNum(0), "concerned" := JNum(0)])
  {
    var p0 := NewPost(data, now, isoNow);
    var c0 := ZeroReactions;
    ReactOnce(p0, now, "support", c0, 0);
    var c1 := c0["support" := JNum(1)];
    var p1 := p0["reactions" := JObj(c1)];
    ReactOnce(p1, now, "support", c1, 1);
    var c2 := c1["support" := JNum(2)];
    var p2 := p1["reactions" := JObj(c2)];
    ReactOnce(p2, now, "support", c2, 2);
    var c3 := c2["support" := JNum(3)];
    assert c3 == map["support" := JNum(3), "helpful" := JNum(0), "concerned" := JNum(0)];
  }

  /** `rec[key].toLowerCase().includes(term.toLowerCase())`; a missing or
      non-string field has no `toLowerCase` and throws. */
  function FieldIncludes(rec: Record, key: string, term: string): (r: Result<bool, Fault>)
    ensures r.Ok? <==> key in rec && rec[key].JStr?
    ensures r.Ok? ==> (r.value <==> Text.Includes(Text.Lower(rec[key].s), Text.Lower(term)))
  {
    if key in rec && rec[key].JStr? then Ok(Text.Includes(Text.Lower(rec[key].s), Text.Lower(term)))
    else Err(TypeError)
  }

  /** The `searchPosts` callback: subject, then content, then category, with
      `||` stopping at the first match. */
  function PostMatches(post: Record, term: string): Result<bool, Fault> {
    match FieldIncludes(post, "subject", term)
    case Err(e) => Err(e)
    case Ok(true) => Ok(true)
    case Ok(false) =>
      (match FieldIncludes(post, "content", term)
       case Err(e) => Err(e)
       case Ok(true) => Ok(true)
       case Ok(false) => FieldIncludes(post, "category", term))
  }

  /** A post whose three searched fields are strings. */
  predicate Searchable(post: Record) {
    && "subject" in post && post["subject"].JStr?
    && "content" in post && post["content"].JStr?
    && "category" in post && post["category"].JStr?
  }

  /** The search predicate on a searchable post. */
  predicate Matches(post: Record, term: string)
    requires Searchable(post)
  {
    var t := Text.Lower(term);
    || Text.Includes(Text.Lower(post["subject"].s), t)
    || Text.Includes(Text.Lower(post["content"].s), t)
    || Text.Includes(Text.Lower(post["category"].s), t)
  }

  lemma PostMatchesSearchable(post: Record, term: string)
    requires Searchable(post)
    ensures PostMatches(post, term) == Ok(Matches(post, term))
  {
  }

  /** `posts.filter(callback)`: the first throwing callback aborts the search. */
  function SearchPosts(posts: seq<Record>, term: string): Result<seq<Record>, Fault> {
    if |posts| == 0 then Ok([])
    else match PostMatches(posts[0], term)
      case Err(e) => Err(e)
      case Ok(keep) =>
        (match SearchPosts(posts[1..], term)
         case Err(e) => Err(e)
         case Ok(rest) => Ok(if keep then [posts[0]] + rest else rest))
  }

  /** `sub` keeps some of the elements of `s` in their original order. */
  ghost predicate SubsequenceOf<T>(sub: seq<T>, s: seq<T>)
    decreases |s|
  {
    if |sub| == 0 then true
    else if |s| == 0 then false
    else (sub[0] == s[0] && SubsequenceOf(sub[1..], s[1..])) || SubsequenceOf(sub, s[1..])
  }

  /** Search over searchable posts never fails, returns a subsequence of the
      feed in feed order, and keeps exactly the matching posts: each matching
      post as many times as the feed holds it, and no other post. */
  lemma {:induction false} SearchPostsSound(posts: seq<Record>, term: string)
    requires forall i :: 0 <= i < |posts| ==> Searchable(posts[i])
    ensures SearchPosts(posts, term).Ok?
    ensures SubsequenceOf(SearchPosts(posts, term).value, posts)
    ensures forall p :: p in SearchPosts(posts, term).value <==> p in posts && Matches(p, term)
    ensures forall p :: multiset(SearchPosts(posts, term).value)[p]
                        == (if p in posts && Matches(p, term) then multiset(posts)[p] else 0)
  {
    if |posts| > 0 {
      var tail := posts[1..];
      PostMatchesSearchable(posts[0], term);
      assert forall i :: 0 <= i < |tail| ==> Searchable(tail[i]) by {
        forall i | 0 <= i < |tail| ensures Searchable(tail[i]) {
          assert tail[i] == posts[i + 1];
        }
      }
      SearchPostsSound(tail, term);
      var rest := SearchPosts(tail, term).value;
      assert posts == [posts[0]] + tail;
      assert multiset(posts) == multiset{posts[0]} + multiset(tail);
      if Matches(posts[0], term) {
        assert ([posts[0]] + rest)[1..] == rest;
        assert multiset([posts[0]] + rest) == multiset{posts[0]} + multiset(rest);
      } else {
        forall p | p in posts && Matches(p, term) ensures p in rest {
          if p != posts[0] {
            assert p in tail;
          }
        }
      }
    }
  }

  /** With the empty term every post whose subject is a string is kept
      (the subject test succeeds first), so the feed comes back whole. */
  lemma {:induction false} SearchEmptyTermKeepsAll(posts: seq<Record>)
    requires forall i :: 0 <= i < |posts| ==> "subject" in posts[i] && posts[i]["subject"].JStr?
    ensures SearchPosts(posts, "") == Ok(posts)
  {
    if |posts| > 0 {
      Text.IncludesEmpty(Text.Lower(posts[0]["subject"].s));
      assert forall i :: 0 <= i < |posts[1..]| ==> posts[1..][i] == posts[i + 1];
      SearchEmptyTermKeepsAll(posts[1..]);
      assert [posts[0]] + posts[1..] == posts;
    }
  }

  /** The search result never outgrows the feed. */
  lemma {:induction false} SearchPostsLength(posts: seq<Record>, term: string)
    ensures SearchPosts(posts, term).Ok? ==> |SearchPosts(posts, term).value| <= |posts|
  {
    if |posts| > 0 {
      SearchPostsLength(posts[1..], term);
    }
  }
}
