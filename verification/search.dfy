/** `SearchManager.searchAll`: forum posts and coalition members matching a
    term. */
module Search {
  import opened Basics
  import opened Json
  import Text
  import Forum

  /** `m[key]?.toLowerCase().includes(term.toLowerCase())`: a missing or
      `null` field short-circuits to `undefined` (no match); a non-string
      field has no `toLowerCase` and throws. */
  function OptionalFieldIncludes(m: Record, key: string, term: string): (r: Result<bool, Fault>)
    ensures (key !in m || m[key] == JNull) ==> r == Ok(false)
    ensures key in m && m[key].JStr? ==> r == Ok(Text.Includes(Text.Lower(m[key].s), Text.Lower(term)))
    ensures r.Err? <==> key in m && m[key] != JNull && !m[key].JStr?
  {
    if key !in m || m[key] == JNull then Ok(false)
    else if m[key].JStr? then Ok(Text.Includes(Text.Lower(m[key].s), Text.Lower(term)))
    else Err(TypeError)
  }

  /** The member callback: institution name, then state. */
  function MemberMatches(m: Record, term: string): Result<bool, Fault> {
    match OptionalFieldIncludes(m, "institutionName", term)
    case Err(e) => Err(e)
    case Ok(true) => Ok(true)
    case Ok(false) => OptionalFieldIncludes(m, "state", term)
  }

  /** `members.filter(callback)`. */
  function SearchMembers(members: seq<Record>, term: string): Result<seq<Record>, Fault> {
    if |members| == 0 then Ok([])
    else match MemberMatches(members[0], term)
      case Err(e) => Err(e)
      case Ok(keep) =>
        (match SearchMembers(members[1..], term)
         case Err(e) => Err(e)
         case Ok(rest) => Ok(if keep then [members[0]] + rest else rest))
  }

  /** A member whose searched fields are absent, `null` or strings. */
  predicate MemberSearchable(m: Record) {
    && ("institutionName" in m ==> m["institutionName"] == JNull || m["institutionName"].JStr?)
    && ("state" in m ==> m["state"] == JNull || m["state"].JStr?)
  }

  /** A string-valued field that contains the term. */
  predicate TextFieldHas(m: Record, key: string, term: string) {
    key in m && m[key].JStr? && Text.Includes(Text.Lower(m[key].s), Text.Lower(term))
  }

  /** A member whose institution name or state contains the term. */
  predicate MemberHit(m: Record, term: string) {
    TextFieldHas(m, "institutionName", term) || TextFieldHas(m, "state", term)
  }

  /** The member search keeps exactly the members whose institution name or
      state contains the term, skipping fields that are missing: each such
      member as many times as the list holds it, in list order. */
  lemma {:induction false} SearchMembersSound(members: seq<Record>, term: string)
    requires forall i :: 0 <= i < |members| ==> MemberSearchable(members[i])
    ensures SearchMembers(members, term).Ok?
    ensures Forum.SubsequenceOf(SearchMembers(members, term).value, members)
    ensures forall m :: m in SearchMembers(members, term).value <==> m in members && MemberHit(m, term)
    ensures forall m :: multiset(SearchMembers(members, term).value)[m]
                        == (if m in members && MemberHit(m, term) then multiset(members)[m] else 0)
  {
    if |members| > 0 {
      var tail := members[1..];
      assert forall i :: 0 <= i < |tail| ==> tail[i] == members[i + 1];
      SearchMembersSound(tail, term);
      var rest := SearchMembers(tail, term).value;
      var m0 := members[0];
      assert members == [m0] + tail;
      assert multiset(members) == multiset{m0} + multiset(tail);
      if MemberHit(m0, term) {
        assert MemberMatches(m0, term) == Ok(true);
        assert ([m0] + rest)[1..] == rest;
        assert multiset([m0] + rest) == multiset{m0} + multiset(rest);
      } else {
        assert MemberMatches(m0, term) == Ok(false);
        forall m | m in members && MemberHit(m, term)
          ensures m in rest
        {
          if m != m0 {
            assert m in tail;
          }
        }
      }
    }
  }

  datatype SearchResult = SearchResult(posts: seq<Record>, members: seq<Record>, total: nat)

  /** `searchAll(term)` over the stored posts and members. */
  function SearchAll(posts: seq<Record>, members: seq<Record>, term: string): (r: Result<SearchResult, Fault>)
    ensures r.Ok? ==> r.value.total == |r.value.posts| + |r.value.members|
    ensures r.Ok? <==> Forum.SearchPosts(posts, term).Ok? && SearchMembers(members, term).Ok?
    ensures r.Ok? ==> r.value.posts == Forum.SearchPosts(posts, term).value
    ensures r.Ok? ==> r.value.members == SearchMembers(members, term).value
  {
    match Forum.SearchPosts(posts, term)
    case Err(e) => Err(e)
    case Ok(found) =>
      (match SearchMembers(members, term)
       case Err(e) => Err(e)
       case Ok(joined) => Ok(SearchResult(found, joined, |found| + |joined|)))
  }

  /** On well-formed data the combined search never fails, keeps exactly
      the matching posts and members (in order, with their multiplicities),
      and its total is at most the number
      of records searched. */
  lemma SearchAllSound(posts: seq<Record>, members: seq<Record>, term: string)
    requires forall i :: 0 <= i < |posts| ==> Forum.Searchable(posts[i])
    requires forall i :: 0 <= i < |members| ==> MemberSearchable(members[i])
    ensures SearchAll(posts, members, term).Ok?
    ensures Forum.SubsequenceOf(SearchAll(posts, members, term).value.posts, posts)
    ensures forall p :: p in SearchAll(posts, members, term).value.posts <==> p in posts && Forum.Matches(p, term)
    ensures forall p :: multiset(SearchAll(posts, members, term).value.posts)[p]
                        == (if p in posts && Forum.Matches(p, term) then multiset(posts)[p] else 0)
    ensures Forum.SubsequenceOf(SearchAll(posts, members, term).value.members, members)
    ensures forall m :: m in SearchAll(posts, members, term).value.members <==> m in members && MemberHit(m, term)
    ensures forall m :: multiset(SearchAll(posts, members, term).value.members)[m]
                        == (if m in members && MemberHit(m, term) then multiset(members)[m] else 0)
    ensures SearchAll(posts, members, term).value.total <= |posts| + |members|
  {
    Forum.SearchPostsSound(posts, term);
    Forum.SearchPostsLength(posts, term);
    SearchMembersSound(members, term);
    SearchMembersLength(members, term);
  }

  lemma {:induction false} SearchMembersLength(members: seq<Record>, term: string)
    ensures SearchMembers(members, term).Ok? ==> |SearchMembers(members, term).value| <= |members|
  {
    if |members| > 0 {
      SearchMembersLength(members[1..], term);
    }
  }
}
