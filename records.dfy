/** The two document collections of the blog server, `users` and `blogs`,
    and the store's `find(filter)` query, modelled as filtering a sequence. */
module Records {

  datatype Option<T> = None | Some(value: T)

  /** A document of the `users` collection. `id` is the store-assigned `_id` as
      text and `password` the salted digest stored at registration. */
  datatype User = User(id: string, name: string, email: string, username: string, password: string)

  /** A document of the `blogs` collection. `userId` is the author's `_id` as
      text (the `_userId` field) and `user` the author record copied in when the
      post was written (the `user` field), never refreshed afterwards. */
  datatype Blog = Blog(id: string, title: string, content: string, userId: string, user: User)

  /** Length of the text form of a store id; a path id of any other length is
      rejected before the store is queried. */
  const IdLength := 24

  /** A text's `length` in JavaScript: its UTF-16 code units, so a character
      outside the Basic Multilingual Plane counts twice. The length equals the
      number of characters exactly when there is no such character. */
  function JsLength(s: string): (n: nat)
    ensures |s| <= n <= 2 * |s|
    ensures n == |s| <==> forall i :: 0 <= i < |s| ==> (s[i] as int) < 0x10000
  {
    if s == [] then 0
    else
      var rest := JsLength(s[1..]);
      assert forall i :: 0 < i < |s| ==> s[i] == s[1..][i - 1];
      (if (s[0] as int) >= 0x10000 then 2 else 1) + rest
  }

  /** `collection.find(filter).toArray()`: the documents that match, in store order. */
  function Find<T(!new)>(s: seq<T>, matches: T -> bool): (r: seq<T>)
    ensures |r| <= |s|
    ensures forall x :: x in r <==> x in s && matches(x)
  {
    if s == [] then []
    else
      var rest := Find(s[1..], matches);
      assert forall x :: x in s <==> x == s[0] || x in s[1..];
      (if matches(s[0]) then [s[0]] else []) + rest
  }

  // The filters the handlers pass to `find`.

  function WithUsername(username: string): User -> bool { (u: User) => u.username == username }
  function WithEmail(email: string): User -> bool { (u: User) => u.email == email }
  function WithUserId(id: string): User -> bool { (u: User) => u.id == id }
  function WithBlogId(id: string): Blog -> bool { (b: Blog) => b.id == id }
  function WrittenBy(userId: string): Blog -> bool { (b: Blog) => b.userId == userId }
  function WithOtherBlogId(id: string): Blog -> bool { (b: Blog) => b.id != id }

  /** Querying a concatenation is querying both parts. */
  lemma {:induction false} FindAppend<T(!new)>(a: seq<T>, b: seq<T>, matches: T -> bool)
    ensures Find(a + b, matches) == Find(a, matches) + Find(b, matches)
  {
    if a == [] {
      assert a + b == b;
    } else {
      assert (a + b)[1..] == a[1..] + b;
      FindAppend(a[1..], b, matches);
    }
  }

  /** The first document of a query result is the first matching document. */
  lemma {:induction false} FindFirst<T(!new)>(s: seq<T>, matches: T -> bool, i: nat)
    requires i < |s| && matches(s[i])
    requires forall j :: 0 <= j < i ==> !matches(s[j])
    ensures Find(s, matches) != [] && Find(s, matches)[0] == s[i]
  {
    if i > 0 {
      FindFirst(s[1..], matches, i - 1);
    }
  }

  /** A query that matches nothing returns nothing. */
  lemma {:induction false} FindNone<T(!new)>(s: seq<T>, matches: T -> bool)
    requires forall x :: x in s ==> !matches(x)
    ensures Find(s, matches) == []
  {
    if s != [] {
      FindNone(s[1..], matches);
    }
  }

  /** A query that every document matches returns them all. */
  lemma {:induction false} FindAll<T(!new)>(s: seq<T>, matches: T -> bool)
    requires forall x :: x in s ==> matches(x)
    ensures Find(s, matches) == s
  {
    if s != [] {
      FindAll(s[1..], matches);
    }
  }

  /** The store keeps `_id` unique within a collection. */
  predicate UniqueUserIds(users: seq<User>) {
    forall i, j :: 0 <= i < j < |users| ==> users[i].id != users[j].id
  }

  predicate UniqueBlogIds(blogs: seq<Blog>) {
    forall i, j :: 0 <= i < j < |blogs| ==> blogs[i].id != blogs[j].id
  }

  /** An id the store may hand out for a new document. */
  predicate FreshUserId(users: seq<User>, id: string) {
    forall u :: u in users ==> u.id != id
  }

  predicate FreshBlogId(blogs: seq<Blog>, id: string) {
    forall b :: b in blogs ==> b.id != id
  }

  /** Inserting a document under a fresh id keeps the ids unique. */
  lemma InsertKeepsUniqueUserIds(users: seq<User>, u: User)
    requires UniqueUserIds(users) && FreshUserId(users, u.id)
    ensures UniqueUserIds(users + [u])
  {
    forall i, j | 0 <= i < j < |users + [u]|
      ensures (users + [u])[i].id != (users + [u])[j].id
    {
      if j == |users| {
        assert (users + [u])[i] == users[i] && users[i] in users;
      }
    }
  }

  lemma InsertKeepsUniqueBlogIds(blogs: seq<Blog>, b: Blog)
    requires UniqueBlogIds(blogs) && FreshBlogId(blogs, b.id)
    ensures UniqueBlogIds(blogs + [b])
  {
    forall i, j | 0 <= i < j < |blogs + [b]|
      ensures (blogs + [b])[i].id != (blogs + [b])[j].id
    {
      if j == |blogs| {
        assert (blogs + [b])[i] == blogs[i] && blogs[i] in blogs;
      }
    }
  }

  /** The tail of a collection with unique ids has unique ids, none of them the head's. */
  lemma UniqueTail(blogs: seq<Blog>)
    requires UniqueBlogIds(blogs) && blogs != []
    ensures UniqueBlogIds(blogs[1..])
    ensures forall b :: b in blogs[1..] ==> b.id != blogs[0].id
  {
    forall p, q | 0 <= p < q < |blogs[1..]| ensures blogs[1..][p].id != blogs[1..][q].id {
      assert blogs[1..][p] == blogs[p + 1] && blogs[1..][q] == blogs[q + 1];
    }
    forall b | b in blogs[1..] ensures b.id != blogs[0].id {
      var k :| 0 <= k < |blogs[1..]| && blogs[1..][k] == b;
      assert b == blogs[k + 1];
    }
  }

  /** With unique ids, looking a blog up by id finds exactly that blog. */
  lemma {:induction false} FindUniqueBlog(blogs: seq<Blog>, i: nat)
    requires UniqueBlogIds(blogs) && i < |blogs|
    ensures Find(blogs, WithBlogId(blogs[i].id)) == [blogs[i]]
  {
    UniqueTail(blogs);
    if i > 0 {
      FindUniqueBlog(blogs[1..], i - 1);
    } else {
      FindNone(blogs[1..], WithBlogId(blogs[0].id));
    }
  }
}
