/** The middleware that runs before every route: a request for a restricted
    page without a `currentUser` cookie is redirected to the login page. */
module Guard {
  import opened Records

  /** The first path segments that need a logged-in user. */
  const RestrictedPages: seq<string> := ["blogs", "post", "user", "blog", "update"]

  /** The inverse of `Split`: the parts with `sep` between them. */
  function Join(parts: seq<string>, sep: char): string
    requires |parts| > 0
  {
    if |parts| == 1 then parts[0] else parts[0] + [sep] + Join(parts[1..], sep)
  }

  /** `s.split(sep)` of JavaScript: the maximal pieces free of `sep`, empty ones included. */
  function Split(s: string, sep: char): (parts: seq<string>)
    ensures |parts| > 0
    ensures forall i :: 0 <= i < |parts| ==> sep !in parts[i]
    ensures Join(parts, sep) == s
    ensures |parts| == 1 <==> sep !in s
  {
    if s == [] then [""]
    else
      var rest := Split(s[1..], sep);
      assert s == [s[0]] + s[1..];
      if s[0] == sep then
        assert ([""] + rest)[1..] == rest;
        [""] + rest
      else
        var parts := [[s[0]] + rest[0]] + rest[1..];
        assert |rest| > 1 ==> parts[1..] == rest[1..] && Join(rest, sep) == rest[0] + [sep] + Join(rest[1..], sep);
        parts
  }

  /** `url.split("/")[1]`, which is `undefined` when the url holds no `/`. */
  function FirstSegment(url: string): (r: Option<string>)
    ensures r.None? <==> '/' !in url
    ensures r.Some? ==> '/' !in r.value
  {
    var parts := Split(url, '/');
    if |parts| > 1 then Some(parts[1]) else None
  }

  /** The guard sends the request to the login page instead of the route. */
  predicate Redirects(hasCookie: bool, url: string): (r: bool)
    ensures hasCookie ==> !r
    ensures '/' !in url ==> !r
  {
    !hasCookie &&
    match FirstSegment(url)
    case Some(segment) => segment in RestrictedPages
    case None => false
  }

  /** Splitting a text that starts with a separator-free `segment`, followed by
      nothing or by a separator, yields `segment` first. */
  lemma {:induction false} SplitHead(segment: string, rest: string, sep: char)
    requires sep !in segment
    requires rest == [] || rest[0] == sep
    ensures Split(segment + rest, sep)[0] == segment
  {
    if segment != [] {
      assert (segment + rest)[1..] == segment[1..] + rest;
      SplitHead(segment[1..], rest, sep);
    } else {
      assert segment + rest == rest;
    }
  }

  /** The first segment of `/segment/...` (or of `/segment`) is `segment`, taken whole. */
  lemma SegmentOfPath(segment: string, rest: string)
    requires '/' !in segment
    requires rest == [] || rest[0] == '/'
    ensures FirstSegment("/" + segment + rest) == Some(segment)
  {
    var url := "/" + segment + rest;
    assert url[1..] == segment + rest;
    SplitHead(segment, rest, '/');
  }

  /** A request is redirected exactly when there is no cookie and its first
      path segment is, exactly, one of the restricted pages. */
  lemma RedirectsExactly(hasCookie: bool, segment: string, rest: string)
    requires '/' !in segment
    requires rest == [] || rest[0] == '/'
    ensures Redirects(hasCookie, "/" + segment + rest) <==> !hasCookie && segment in RestrictedPages
  {
    SegmentOfPath(segment, rest);
  }

  /** The landing, login, register, logout and api paths always proceed. */
  lemma OpenPagesProceed(segment: string, rest: string)
    requires segment in ["", "login", "register", "logout", "api"]
    requires rest == [] || rest[0] == '/'
    ensures !Redirects(false, "/" + segment + rest)
  {
    RedirectsExactly(false, segment, rest);
  }

  /** Matching is exact: a query string glued to a restricted segment
      (`/blogs?page=2`) makes a segment that is not on the list, so it proceeds. */
  lemma QueryStringSlipsThrough(segment: string, query: string)
    requires segment in RestrictedPages
    requires query != [] && query[0] == '?' && '/' !in query
    ensures !Redirects(false, "/" + segment + query)
  {
    var glued := segment + query;
    assert glued[|segment|] == '?';
    assert forall page :: page in RestrictedPages ==> '?' !in page;
    assert '/' !in glued;
    RedirectsExactly(false, glued, "");
    assert "/" + segment + query == "/" + glued + "";
  }

  /** Matching is case-sensitive, while the router ignores case: `/Blog/<id>`
      and `/BLOGS` are not redirected, yet reach the single-post view and the
      listing. */
  lemma CaseVariantSlipsThrough(id: string)
    requires '/' !in id
    ensures !Redirects(false, "/Blog/" + id)
    ensures !Redirects(false, "/BLOGS")
  {
    assert "/Blog/" + id == "/" + "Blog" + ("/" + id);
    RedirectsExactly(false, "Blog", "/" + id);
    assert "/BLOGS" == "/" + "BLOGS" + "";
    RedirectsExactly(false, "BLOGS", "");
  }

  /** The single-post view is on the restricted list, as is the post listing. */
  lemma BlogViewRestricted(id: string)
    requires '/' !in id
    ensures Redirects(false, "/blog/" + id)
    ensures Redirects(false, "/blogs")
  {
    assert "/blog/" + id == "/" + "blog" + ("/" + id);
    RedirectsExactly(false, "blog", "/" + id);
    assert "/blogs" == "/" + "blogs" + "";
    RedirectsExactly(false, "blogs", "");
  }
}
