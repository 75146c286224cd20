/** The blog handlers' decisions over the `users` and `blogs` collections:
    creating a post, the profile and single-post lookups, the ownership gate
    of the edit pages, the full-replacement update and the delete by id. */
module Content {
  import opened Records
  import opened Http

  const NoUserMessage := "There is no user registered that matches that query"
  const NoBlogMessage := "There is no blog posted that matches that query"
  const NoPermissionMessage := "You do not have permission to modify this blog post."

  /** The document POST `/post` inserts, and POST `/update` writes in place of
      the old one: the submitted fields, the author's id and the author record. */
  function Post(author: User, title: string, content: string, id: string): (r: Blog)
    ensures WithBlogId(id)(r) && WrittenBy(author.id)(r)
    ensures r.user == author && r.title == title && r.content == content
  {
    Blog(id, title, content, author.id, author)
  }

  /** The user a `currentUser` cookie stands for: its first element. Absent
      when there is no cookie or it holds no user, where reading `_id` throws. */
  function SessionUser(cookie: Option<seq<User>>): (r: Option<User>)
    ensures r.Some? <==> cookie.Some? && cookie.value != []
    ensures r.Some? ==> r.value == cookie.value[0]
  {
    match cookie
    case Some(session) => if session != [] then Some(session[0]) else None
    case None => None
  }

  /** GET `/user/:id`: the user with that id and exactly the posts whose
      `_userId` is that id, or the not-found text; an id of the wrong length
      is turned away without looking at the store. */
  function Profile(users: seq<User>, blogs: seq<Blog>, id: string): (r: Response)
    ensures JsLength(id) != IdLength ==> r == SendText(NoUserMessage)
    ensures r == SendText(NoUserMessage) <==> JsLength(id) != IdLength || forall u :: u in users ==> u.id != id
    ensures r != SendText(NoUserMessage) ==>
      r.Render? && r.page.UserPage? && r.page.user in users && r.page.user.id == id &&
      forall b :: b in r.page.blogs <==> b in blogs && b.userId == id
  {
    if JsLength(id) != IdLength then SendText(NoUserMessage)
    else
      var found := Find(users, WithUserId(id));
      if |found| == 0 then SendText(NoUserMessage)
      else
        assert found[0] in found;
        Render(UserPage(found[0], Find(blogs, WrittenBy(id))))
  }

  /** GET `/blog/:id`: the post with that id, or the not-found text; an id of
      the wrong length is turned away without looking at the store. */
  function BlogById(blogs: seq<Blog>, id: string): (r: Response)
    ensures JsLength(id) != IdLength ==> r == SendText(NoBlogMessage)
    ensures r == SendText(NoBlogMessage) <==> JsLength(id) != IdLength || forall b :: b in blogs ==> b.id != id
    ensures r != SendText(NoBlogMessage) ==> r.Render? && r.page.BlogPage? && r.page.blog in blogs && r.page.blog.id == id
  {
    if JsLength(id) != IdLength then SendText(NoBlogMessage)
    else
      var found := Find(blogs, WithBlogId(id));
      if |found| == 0 then SendText(NoBlogMessage)
      else
        assert found[0] in found;
        Render(BlogPage(found[0]))
  }

  /** The ownership gate of both edit handlers: does the user own ANY post?
      Which post is to be edited plays no part. */
  function OwnsAnyPost(blogs: seq<Blog>, userId: string): (r: bool)
    ensures r <==> exists b :: b in blogs && b.userId == userId
  {
    var owned := Find(blogs, WrittenBy(userId));
    assert owned != [] ==> owned[0] in owned;
    |owned| != 0
  }

  /** GET `/update/:id`: the edit form for the post with that id. Reading the
      session's first element throws when there is no cookie at all; the id
      length is checked next; reading the session user's `_id` throws when the
      cookie holds no user; then the gate, then the lookup. */
  function EditForm(blogs: seq<Blog>, cookie: Option<seq<User>>, id: string): (r: Response)
    ensures r == Crash <==> cookie.None? || (JsLength(id) == IdLength && cookie.value == [])
    ensures cookie.Some? && JsLength(id) != IdLength ==> r == SendText(NoBlogMessage)
    ensures r == SendText(NoPermissionMessage) <==>
      JsLength(id) == IdLength && SessionUser(cookie).Some? && !OwnsAnyPost(blogs, SessionUser(cookie).value.id)
    ensures r.Render? ==>
      r.page.UpdatePage? && r.page.blog in blogs && r.page.blog.id == id &&
      OwnsAnyPost(blogs, SessionUser(cookie).value.id)
    ensures r.Render? <==>
      JsLength(id) == IdLength && SessionUser(cookie).Some? && OwnsAnyPost(blogs, SessionUser(cookie).value.id) &&
      exists b :: b in blogs && b.id == id
    ensures r == SendText(NoBlogMessage) <==>
      cookie.Some? &&
      (JsLength(id) != IdLength ||
       (cookie.value != [] && OwnsAnyPost(blogs, cookie.value[0].id) && forall b :: b in blogs ==> b.id != id))
  {
    if cookie.None? then Crash
    else if JsLength(id) != IdLength then SendText(NoBlogMessage)
    else if cookie.value == [] then Crash
    else if !OwnsAnyPost(blogs, cookie.value[0].id) then SendText(NoPermissionMessage)
    else
      var found := Find(blogs, WithBlogId(id));
      if |found| == 0 then SendText(NoBlogMessage)
      else
        assert found[0] in found;
        Render(UpdatePage(found[0]))
  }

  /** `update(filter, doc)` without operators: the first document with the id
      is replaced whole by `doc`; nothing happens when none has it. */
  function ReplaceOne(blogs: seq<Blog>, id: string, doc: Blog): (r: seq<Blog>)
    ensures |r| == |blogs|
    ensures forall i :: 0 <= i < |blogs| ==> r[i] == blogs[i] || (blogs[i].id == id && r[i] == doc)
    ensures (forall b :: b in blogs ==> b.id != id) ==> r == blogs
  {
    if blogs == [] then []
    else if blogs[0].id == id then [doc] + blogs[1..]
    else
      var rest := ReplaceOne(blogs[1..], id, doc);
      assert forall i :: 0 < i < |blogs| ==> ([blogs[0]] + rest)[i] == rest[i - 1];
      assert forall b :: b in blogs[1..] ==> b in blogs;
      [blogs[0]] + rest
  }

  /** `deleteOne(filter)`: the first document with the id is removed; nothing
      happens when none has it. */
  function DeleteOne(blogs: seq<Blog>, id: string): (r: seq<Blog>)
    ensures |r| == if exists b :: b in blogs && b.id == id then |blogs| - 1 else |blogs|
    ensures forall b :: b in r ==> b in blogs
    ensures (forall b :: b in blogs ==> b.id != id) ==> r == blogs
  {
    if blogs == [] then []
    else if blogs[0].id == id then blogs[1..]
    else
      var rest := DeleteOne(blogs[1..], id);
      assert forall b :: b in blogs <==> b == blogs[0] || b in blogs[1..];
      [blogs[0]] + rest
  }

  datatype UpdateOutcome = UpdateCrash | UpdateRefused | Updated(blogs: seq<Blog>)

  /** POST `/update`: there is no id-length check; when the session user owns
      any post, the post with `blogId` is replaced by the submitted title and
      content under the session user's id and record. */
  function UpdatePost(blogs: seq<Blog>, cookie: Option<seq<User>>, blogId: string,
                      title: string, content: string): (r: UpdateOutcome)
    ensures r.UpdateCrash? <==> SessionUser(cookie).None?
    ensures r.UpdateRefused? <==>
      SessionUser(cookie).Some? && !OwnsAnyPost(blogs, SessionUser(cookie).value.id)
    ensures r.Updated? ==>
      r.blogs == ReplaceOne(blogs, blogId, Post(SessionUser(cookie).value, title, content, blogId))
  {
    match SessionUser(cookie)
    case None => UpdateCrash
    case Some(user) =>
      if !OwnsAnyPost(blogs, user.id) then UpdateRefused
      else Updated(ReplaceOne(blogs, blogId, Post(user, title, content, blogId)))
  }

  /** With unique ids, an update replaces exactly the post with the id and
      leaves every other post as it was. */
  lemma {:induction false} ReplaceOneExactly(blogs: seq<Blog>, id: string, doc: Blog)
    requires UniqueBlogIds(blogs)
    ensures forall i :: 0 <= i < |blogs| ==>
      ReplaceOne(blogs, id, doc)[i] == if blogs[i].id == id then doc else blogs[i]
  {
    if blogs != [] {
      UniqueTail(blogs);
      if blogs[0].id == id {
        assert forall i :: 0 < i < |blogs| ==> blogs[i] in blogs[1..];
      } else {
        ReplaceOneExactly(blogs[1..], id, doc);
      }
    }
  }

  /** Replacing a post by one with the same id keeps the ids unique. */
  lemma {:induction false} ReplaceOneKeepsUniqueIds(blogs: seq<Blog>, id: string, doc: Blog)
    requires UniqueBlogIds(blogs) && doc.id == id
    ensures UniqueBlogIds(ReplaceOne(blogs, id, doc))
  {
    ReplaceOneExactly(blogs, id, doc);
  }

  /** With unique ids, deleting removes exactly the post with the id, keeping
      the others in order. */
  lemma {:induction false} DeleteOneExactly(blogs: seq<Blog>, id: string)
    requires UniqueBlogIds(blogs)
    ensures DeleteOne(blogs, id) == Find(blogs, WithOtherBlogId(id))
  {
    if blogs != [] {
      UniqueTail(blogs);
      if blogs[0].id == id {
        FindAll(blogs[1..], WithOtherBlogId(id));
      } else {
        DeleteOneExactly(blogs[1..], id);
      }
    }
  }

  /** Deleting keeps the ids unique. */
  lemma {:induction false} DeleteOneKeepsUniqueIds(blogs: seq<Blog>, id: string)
    requires UniqueBlogIds(blogs)
    ensures UniqueBlogIds(DeleteOne(blogs, id))
    ensures forall b :: b in DeleteOne(blogs, id) ==> b.id != id
  {
    if blogs != [] {
      UniqueTail(blogs);
      if blogs[0].id != id {
        DeleteOneKeepsUniqueIds(blogs[1..], id);
        var rest := DeleteOne(blogs[1..], id);
        forall p, q | 0 <= p < q < |[blogs[0]] + rest|
          ensures ([blogs[0]] + rest)[p].id != ([blogs[0]] + rest)[q].id
        {
          if p == 0 {
            assert ([blogs[0]] + rest)[q] == rest[q - 1] && rest[q - 1] in rest;
          } else {
            assert ([blogs[0]] + rest)[p] == rest[p - 1] && ([blogs[0]] + rest)[q] == rest[q - 1];
          }
        }
      }
    }
  }

  /** Deleting twice is deleting once: the second delete finds nothing. */
  lemma {:induction false} DeleteTwiceIsDeleteOnce(blogs: seq<Blog>, id: string)
    requires UniqueBlogIds(blogs)
    ensures DeleteOne(DeleteOne(blogs, id), id) == DeleteOne(blogs, id)
  {
    DeleteOneKeepsUniqueIds(blogs, id);
  }

  /** After a post is created under a fresh id, the post list holds it exactly
      once, under the author's id, and the author's profile lists their earlier
      posts followed by it; the ids stay unique. */
  lemma CreatedPostListedOnce(blogs: seq<Blog>, author: User, title: string, content: string, id: string)
    requires UniqueBlogIds(blogs) && FreshBlogId(blogs, id)
    ensures var post := Post(author, title, content, id);
      UniqueBlogIds(blogs + [post]) &&
      Find(blogs + [post], WithBlogId(id)) == [post] && post.userId == author.id &&
      Find(blogs + [post], WrittenBy(author.id)) == Find(blogs, WrittenBy(author.id)) + [post]
  {
    var post := Post(author, title, content, id);
    InsertKeepsUniqueBlogIds(blogs, post);
    FindUniqueBlog(blogs + [post], |blogs|);
    FindAppend(blogs, [post], WrittenBy(author.id));
    assert Find([post], WrittenBy(author.id)) == [post] + Find([post][1..], WrittenBy(author.id));
  }

  /** The gate does not protect the target: a user who owns some post Q can
      edit another author's post P, and P then carries the editor as author. */
  lemma ForeignPostTakeover(blogs: seq<Blog>, editor: User, i: nat, j: nat, title: string, content: string)
    requires UniqueBlogIds(blogs)
    requires i < |blogs| && j < |blogs|
    requires blogs[i].userId != editor.id && blogs[j].userId == editor.id
    ensures var r := UpdatePost(blogs, Some([editor]), blogs[i].id, title, content);
      r.Updated? && r.blogs[i] == Post(editor, title, content, blogs[i].id) && r.blogs[i].userId == editor.id
  {
    assert blogs[j] in blogs;
    ReplaceOneExactly(blogs, blogs[i].id, Post(editor, title, content, blogs[i].id));
  }
}
