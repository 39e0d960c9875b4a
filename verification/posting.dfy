/** `enhancedSubmitPost`: a logged-in user's forum post, credited to the
    user's account. */
module Posting {
  import opened Basics
  import opened Json
  import Forum
  import Auth

  /** The forum form's fields. */
  datatype PostForm = PostForm(subject: string, message: string, category: string, anonymity: string)

  /** The directory together with the forum feed. */
  datatype Board = Board(dir: Auth.Directory, posts: seq<Record>)

  /** The author label: "Anonymous <role>" when posting anonymously, else the
      user's name. */
  function AuthorName(user: Auth.Profile, anonymity: string): string {
    if anonymity == "anonymous" then "Anonymous " + user.role else user.name
  }

  /** The data handed to `forumManager.addPost`; it carries no `id`. */
  function PostData(user: Auth.Profile, form: PostForm): (d: Record)
    ensures "id" !in d
  {
    map["author" := JStr(AuthorName(user, form.anonymity)),
        "authorId" := JNum(user.id),
        "category" := JStr(form.category),
        "subject" := JStr(form.subject),
        "content" := JStr(form.message),
        "userRole" := JStr(user.role),
        "institution" := JStr(user.institution)]
  }

  /** The bookkeeping after a post: when the session's account is stored,
      the post id is appended to its posts and five activity points are
      added; the session copy is not refreshed. */
  function CreditPost(dir: Auth.Directory, postId: int): (r: Auth.Directory)
    requires dir.session.Some?
    ensures r.session == dir.session
    ensures r.users.Keys == dir.users.Keys
    ensures forall k :: k in dir.users && k != dir.session.value.email ==> r.users[k] == dir.users[k]
    ensures dir.session.value.email !in dir.users ==> r == dir
    ensures dir.session.value.email in dir.users ==>
      var before := dir.users[dir.session.value.email];
      var after := r.users[dir.session.value.email];
      && after.profile.posts == before.profile.posts + [postId]
      && after.profile.activityScore == before.profile.activityScore + 5
      && after.password == before.password
      && after.profile.(posts := before.profile.posts, activityScore := before.profile.activityScore)
         == before.profile
  {
    var key := dir.session.value.email;
    if key !in dir.users then dir
    else
      var account := dir.users[key];
      var profile := account.profile.(posts := account.profile.posts + [postId],
                                      activityScore := account.profile.activityScore + 5);
      Auth.Directory(dir.users[key := account.(profile := profile)], dir.session)
  }

  /** `enhancedSubmitPost()`. Nothing happens for a guest or an empty
      subject or message. Otherwise the user's post goes to the top of the
      feed and its generated id is credited to the user's account. */
  function SubmitPost(b: Board, form: PostForm, now: int, isoNow: string): (r: Board)
    ensures !Auth.IsLoggedIn(b.dir) ==> r == b
    ensures form.subject == "" || form.message == "" ==> r == b
    ensures Auth.IsLoggedIn(b.dir) && form.subject != "" && form.message != "" ==>
      && r.posts == Forum.AddPost(b.posts, PostData(b.dir.session.value, form), now, isoNow)
      && r.dir == CreditPost(b.dir, now)
  {
    if b.dir.session.None? || form.subject == "" || form.message == "" then b
    else
      var posts := Forum.AddPost(b.posts, PostData(b.dir.session.value, form), now, isoNow);
      Board(CreditPost(b.dir, posts[0]["id"].n), posts)
  }

  /** What a successful post looks like: one more post, in front, with the
      generated id, the author label (anonymous role or name), the subject
      and message, and zeroed reactions. */
  lemma SubmitPostContent(b: Board, form: PostForm, now: int, isoNow: string)
    requires Auth.IsLoggedIn(b.dir) && form.subject != "" && form.message != ""
    ensures var r := SubmitPost(b, form, now, isoNow);
      var user := b.dir.session.value;
      && |r.posts| == |b.posts| + 1
      && r.posts[1..] == b.posts
      && Get(r.posts[0], "id") == Some(JNum(now))
      && Get(r.posts[0], "author") == Some(JStr(if form.anonymity == "anonymous" then "Anonymous " + user.role else user.name))
      && Get(r.posts[0], "subject") == Some(JStr(form.subject))
      && Get(r.posts[0], "content") == Some(JStr(form.message))
      && Get(r.posts[0], "reactions") == Some(JObj(Forum.ZeroReactions))
  {
    var r := SubmitPost(b, form, now, isoNow);
    var data := PostData(b.dir.session.value, form);
    var post := Forum.NewPost(data, now, isoNow);
    assert r.posts == [post] + b.posts;
    assert r.posts[1..] == b.posts;
    NewPostCarries(data, now, isoNow, "author");
    NewPostCarries(data, now, isoNow, "subject");
    NewPostCarries(data, now, isoNow, "content");
  }

  lemma NewPostCarries(data: Record, now: int, isoNow: string, key: string)
    requires key in data && key !in {"id", "date", "reactions", "replies"}
    ensures Get(Forum.NewPost(data, now, isoNow), key) == Some(data[key])
  {
  }

  /** Posting keeps the directory valid. */
  lemma SubmitPostPreservesValid(b: Board, form: PostForm, now: int, isoNow: string)
    requires Auth.Valid(b.dir)
    ensures Auth.Valid(SubmitPost(b, form, now, isoNow).dir)
  {
  }
}
