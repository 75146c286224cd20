/** What a handler sends back, with the views reduced to the data they are given. */
module Http {
  import opened Records

  const HomePath := "/"
  const LoginPath := "/login"
  const BlogsPath := "/blogs"

  /** A rendered view and the context it is rendered with. */
  datatype Page =
    | IndexPage
    | LoginPage(error: Option<string>)
    | RegisterPage(error: Option<string>)
    | BlogsPage(blogs: seq<Blog>)
    | ComposePage
    | UserPage(user: User, blogs: seq<Blog>)
    | BlogPage(blog: Blog)
    | UpdatePage(blog: Blog)

  datatype Response =
    | Redirect(location: string)
    | Render(page: Page)
    /** `res.send(text)`: a plain-text body. */
    | SendText(text: string)
    /** The handler threw reading the session user's `_id` (or its first
        element). A throw in the handler itself is answered by Express with an
        error; one inside a store callback is not caught by Express. */
    | Crash
    /** The handler never answers. */
    | NoReply
}
