/** The forms of the application as operations on append-only tables: the
    user-details form, a new post, a top-level comment and a reply. Each one
    refuses text that is empty once stripped, and otherwise appends one row
    holding the stripped text under a fresh autoincremented id. */
module Forum {
  import opened Wrappers
  import opened Text
  import opened Threads
  import opened ThreadReach

  datatype User = User(id: int, name: string, age: nat, gender: string, knowsAutonomous: string)

  datatype Post = Post(id: int, userId: int, content: string)

  /** The messages the page shows instead of writing. */
  datatype FormError =
    | NotSignedIn    // no user id in the session: the form is not offered
    | EmptyName      // "Name cannot be empty."
    | EmptyPost      // "Post content cannot be empty."
    | EmptyComment   // "Comment cannot be empty."
    | EmptyReply     // "Reply cannot be empty."

  /** The id AUTOINCREMENT hands out next: one more than the largest id in
      use, and 1 for an empty table (rows are never deleted). */
  function NextId(ids: seq<int>): (r: int)
    ensures r >= 1
    ensures forall k :: 0 <= k < |ids| ==> ids[k] < r
  {
    if ids == [] then 1
    else
      var rest := NextId(ids[1..]);
      assert forall k :: 1 <= k < |ids| ==> ids[k] == ids[1..][k - 1];
      if ids[0] + 1 > rest then ids[0] + 1 else rest
  }

  /** The ids of the rows of a table, in table order. */
  function Ids<T>(rows: seq<T>, id: T -> int): (r: seq<int>)
    ensures |r| == |rows| && forall k :: 0 <= k < |rows| ==> r[k] == id(rows[k])
  {
    seq(|rows|, k requires 0 <= k < |rows| => id(rows[k]))
  }

  /** The user-details form: a name that is blank once stripped is refused;
      otherwise one user row with the stripped name is added, and its id
      becomes the session's current user. */
  function SubmitDetails(users: seq<User>, name: string, age: nat, gender: string, knows: string)
    : (r: Result<(seq<User>, int), FormError>)
    ensures r.Ok? <==> Accept(name)
    ensures r.Err? ==> r.error == EmptyName
    ensures r.Ok? ==> |r.value.0| == |users| + 1 && r.value.0[..|users|] == users
    ensures r.Ok? ==> r.value.0[|users|] == User(r.value.1, Trim(name), age, gender, knows)
    ensures r.Ok? ==> forall k :: 0 <= k < |users| ==> users[k].id < r.value.1
  {
    if !Accept(name) then Err(EmptyName)
    else
      var uid := NextId(Ids(users, (u: User) => u.id));
      Ok((users + [User(uid, Trim(name), age, gender, knows)], uid))
  }

  /** The new-post form. */
  function CreatePost(posts: seq<Post>, session: Option<int>, text: string): (r: Result<seq<Post>, FormError>)
    ensures r.Ok? <==> session.Some? && Accept(text)
    ensures r.Err? ==> r.error == (if session.None? then NotSignedIn else EmptyPost)
    ensures r.Ok? ==> |r.value| == |posts| + 1 && r.value[..|posts|] == posts
    ensures r.Ok? ==> r.value[|posts|].userId == session.value
    ensures r.Ok? ==> IsStripOf(text, r.value[|posts|].content) && r.value[|posts|].content != []
    ensures r.Ok? ==> forall k :: 0 <= k < |posts| ==> posts[k].id < r.value[|posts|].id
  {
    if session.None? then Err(NotSignedIn)
    else match Validate(text)
      case None => Err(EmptyPost)
      case Some(content) => Ok(posts + [Post(NextId(Ids(posts, (p: Post) => p.id)), session.value, content)])
  }

  /** The documented examples: an empty or blank post is refused and writes
      nothing; "hello" adds exactly one post, holding "hello". */
  lemma CreatePostExamples(posts: seq<Post>, uid: int)
    ensures CreatePost(posts, Some(uid), "") == Err(EmptyPost)
    ensures CreatePost(posts, Some(uid), "   ") == Err(EmptyPost)
    ensures CreatePost(posts, Some(uid), "hello").Ok?
    ensures var r := CreatePost(posts, Some(uid), "hello").value;
      |r| == |posts| + 1 && r[..|posts|] == posts && r[|posts|].content == "hello"
  {
    ValidateExamples();
  }

  /** The state the comment table is kept in by the forms: ids are unique,
      every reply points to a smaller id, and every reply's parent is a
      comment of the same post. */
  ghost predicate TableOk(cs: seq<Comment>) {
    && UniqueIds(cs)
    && ParentsBelow(cs)
    && forall c :: c in cs && c.parent.Some? ==> exists d :: d in cs && d.id == c.parent.value && d.postId == c.postId
  }

  /** Append a comment row; shared by the comment and the reply form. */
  function Insert(cs: seq<Comment>, session: Option<int>, postId: int, parent: Option<int>, text: string,
                  empty: FormError): (r: Result<seq<Comment>, FormError>)
    ensures r.Ok? <==> session.Some? && Accept(text)
    ensures r.Err? ==> r.error == (if session.None? then NotSignedIn else empty)
    ensures r.Ok? ==> |r.value| == |cs| + 1 && r.value[..|cs|] == cs
    ensures r.Ok? ==> var c := r.value[|cs|];
      && c.postId == postId && c.userId == session.value && c.parent == parent
      && IsStripOf(text, c.content) && c.content != []
      && forall k :: 0 <= k < |cs| ==> cs[k].id < c.id
  {
    if session.None? then Err(NotSignedIn)
    else match Validate(text)
      case None => Err(empty)
      case Some(content) => Ok(cs + [Comment(NextId(Ids(cs, (c: Comment) => c.id)), postId, session.value, parent, content)])
  }

  /** A row appended under a fresh id, whose parent (if any) is an older
      comment of the same post, keeps the table in shape. */
  lemma InsertKeepsTableOk(cs: seq<Comment>, c: Comment)
    requires TableOk(cs)
    requires forall k :: 0 <= k < |cs| ==> cs[k].id < c.id
    requires c.parent.Some? ==> exists d :: d in cs && d.id == c.parent.value && d.postId == c.postId
    ensures TableOk(cs + [c])
  {
    var cs' := cs + [c];
    forall x | x in cs'
      ensures x in cs || x == c
    {
    }
    forall d | d in cs
      ensures d.id < c.id
    {
      var k :| 0 <= k < |cs| && cs[k] == d;
    }
  }

  /** The comment form under a post (no parent). */
  function AddComment(cs: seq<Comment>, session: Option<int>, postId: int, text: string): (r: Result<seq<Comment>, FormError>)
    ensures r.Ok? <==> session.Some? && Accept(text)
    ensures r.Err? ==> r.error == (if session.None? then NotSignedIn else EmptyComment)
    ensures r.Ok? ==> |r.value| == |cs| + 1 && r.value[..|cs|] == cs && r.value[|cs|].parent == None
    ensures r.Ok? ==> r.value[|cs|].postId == postId && IsStripOf(text, r.value[|cs|].content)
    ensures r.Ok? ==> r.value[|cs|].userId == session.value
    ensures r.Ok? ==> forall k :: 0 <= k < |cs| ==> cs[k].id < r.value[|cs|].id
  {
    Insert(cs, session, postId, None, text, EmptyComment)
  }

  /** A successful top-level comment keeps the table in shape. */
  lemma AddCommentKeepsTableOk(cs: seq<Comment>, session: Option<int>, postId: int, text: string)
    requires TableOk(cs) && session.Some? && Accept(text)
    ensures TableOk(AddComment(cs, session, postId, text).value)
  {
    var r := AddComment(cs, session, postId, text);
    assert r.value == cs + [r.value[|cs|]];
    InsertKeepsTableOk(cs, r.value[|cs|]);
  }

  /** The reply form under a shown comment `target` of post `postId`. The
      page offers it only for comments it displays, which all belong to
      that post. */
  function AddReply(cs: seq<Comment>, session: Option<int>, postId: int, target: Comment, text: string)
    : (r: Result<seq<Comment>, FormError>)
    requires target in cs && target.postId == postId
    ensures r.Ok? <==> session.Some? && Accept(text)
    ensures r.Err? ==> r.error == (if session.None? then NotSignedIn else EmptyReply)
    ensures r.Ok? ==> |r.value| == |cs| + 1 && r.value[..|cs|] == cs && r.value[|cs|].parent == Some(target.id)
    ensures r.Ok? ==> r.value[|cs|].postId == postId && IsStripOf(text, r.value[|cs|].content)
    ensures r.Ok? ==> r.value[|cs|].userId == session.value
    ensures r.Ok? ==> forall k :: 0 <= k < |cs| ==> cs[k].id < r.value[|cs|].id
  {
    Insert(cs, session, postId, Some(target.id), text, EmptyReply)
  }

  /** A successful reply to the comment at position `t` of the table keeps
      the table in shape. */
  lemma AddReplyKeepsTableOk(cs: seq<Comment>, session: Option<int>, t: nat, text: string)
    requires TableOk(cs) && t < |cs| && session.Some? && Accept(text)
    ensures TableOk(AddReply(cs, session, cs[t].postId, cs[t], text).value)
  {
    var r := AddReply(cs, session, cs[t].postId, cs[t], text);
    assert r.value == cs + [r.value[|cs|]];
    InsertKeepsTableOk(cs, r.value[|cs|]);
  }

  /** The comments of one post in table order (`get_comments`). */
  function PostComments(cs: seq<Comment>, postId: int): (r: seq<Comment>)
    ensures forall c :: c in r <==> c in cs && c.postId == postId
    ensures Subsequence(r, cs)
  {
    if cs == [] then []
    else
      var tail := PostComments(cs[1..], postId);
      if cs[0].postId == postId then
        assert ([cs[0]] + tail)[1..] == tail;
        [cs[0]] + tail
      else
        assert tail == [] || Subsequence(tail, cs[1..]);
        tail
  }

  lemma {:induction false} SubsequenceUnique(a: seq<Comment>, b: seq<Comment>)
    requires Subsequence(a, b) && UniqueIds(b)
    ensures UniqueIds(a)
    decreases |b|
  {
    if a != [] {
      UniqueTail(b);
      if a[0] == b[0] && Subsequence(a[1..], b[1..]) {
        SubsequenceUnique(a[1..], b[1..]);
        SubsequenceMembers(a[1..], b[1..]);
        forall i, j | 0 <= i < |a| && 0 <= j < |a| && a[i].id == a[j].id
          ensures i == j
        {
          if i == 0 && j > 0 {
            assert a[j] in a[1..];
            UniqueFront(b, a[j]);
          } else if j == 0 && i > 0 {
            assert a[i] in a[1..];
            UniqueFront(b, a[i]);
          } else if i > 0 && j > 0 {
            assert a[1..][i - 1].id == a[1..][j - 1].id;
          }
        }
      } else {
        SubsequenceUnique(a, b[1..]);
      }
    }
  }

  lemma {:induction false} SubsequenceMembers(a: seq<Comment>, b: seq<Comment>)
    requires Subsequence(a, b)
    ensures forall x :: x in a ==> x in b
    decreases |b|
  {
    if a != [] {
      if a[0] == b[0] && Subsequence(a[1..], b[1..]) {
        SubsequenceMembers(a[1..], b[1..]);
        assert forall x :: x in a ==> x == a[0] || x in a[1..];
      } else {
        SubsequenceMembers(a, b[1..]);
      }
    }
  }

  /** The comments of a post taken from a table in shape meet everything the
      walk needs, and no parent of theirs is missing. */
  lemma PostCommentsReady(cs: seq<Comment>, postId: int)
    requires TableOk(cs)
    ensures var pc := PostComments(cs, postId);
      ParentsBelow(pc) && UniqueIds(pc) && ParentsListed(pc)
  {
    var pc := PostComments(cs, postId);
    SubsequenceUnique(pc, cs);
    forall c | c in pc && c.parent.Some?
      ensures exists d :: d in pc && d.id == c.parent.value
    {
      var d :| d in cs && d.id == c.parent.value && d.postId == c.postId;
      assert d in pc;
    }
  }

  /** End to end: in a comment table kept by the forms, the thread of any post
      shows every comment of that post, each exactly once. */
  lemma EveryCommentShownOnce(cs: seq<Comment>, postId: int, c: Comment)
    requires TableOk(cs)
    requires c in cs && c.postId == postId
    ensures var pc := PostComments(cs, postId);
      ParentsBelow(pc) &&
      (exists j :: 0 <= j < |Walk(pc, None, 0)| && Walk(pc, None, 0)[j].comment == c) &&
      NoCommentTwice(Walk(pc, None, 0))
  {
    var pc := PostComments(cs, postId);
    PostCommentsReady(cs, postId);
    RootedWhenParentsListed(pc, c);
    ShownExactlyOnce(pc, c);
  }
}
