/** The server: the `users` and `blogs` collections and the client's
    `currentUser` cookie as fields, one method per handler that changes them,
    and `Handle`, which runs the login guard before the route's handler. */
module Server {
  import opened Records
  import opened Http
  import Guard
  import Auth
  import Content

  /** The routes, each with the request data its handler reads. */
  datatype Route =
    | GetIndex
    | GetLogin
    | PostLogin(username: string, password: string)
    | GetRegister
    | PostRegister(name: string, email: string, username: string, password: string)
    | GetLogout
    | GetBlogs
    | GetPost
    | PostPost(title: string, content: string)
    | GetUser(id: string)
    | GetBlog(id: string)
    | GetUpdate(id: string)
    | PostUpdate(blogId: string, title: string, content: string)
    | DeleteBlog(blogId: string, userId: string)
  {
    /** The routes whose handlers change neither collection nor the cookie. */
    predicate ReadOnly() {
      !(PostLogin? || PostRegister? || GetLogout? || PostPost? || PostUpdate? || DeleteBlog?)
    }
  }

  /** What the handlers take from outside: the password-hash library's
      `generate` and `verify`, and the id the store gives a new document. */
  datatype Env = Env(generate: string -> string, verify: (string, string) -> bool, freshId: string)

  /** The response of a route that only reads. */
  function View(route: Route, users: seq<User>, blogs: seq<Blog>, cookie: Option<seq<User>>): (r: Response)
    requires route.ReadOnly()
    ensures !r.Redirect? && !r.NoReply?
    ensures r.Crash? ==> route.GetUpdate?
  {
    match route
    case GetIndex => Render(IndexPage)
    case GetLogin => Render(LoginPage(None))
    case GetRegister => Render(RegisterPage(None))
    case GetBlogs => Render(BlogsPage(blogs))
    case GetPost => Render(ComposePage)
    case GetUser(id) => Content.Profile(users, blogs, id)
    case GetBlog(id) => Content.BlogById(blogs, id)
    case GetUpdate(id) => Content.EditForm(blogs, cookie, id)
  }

  /** POST `/register` took `users0` to `users1` with response `resp`: a taken
      username or email re-renders the form with its message and inserts
      nothing; otherwise the one new user is appended and the client is sent
      to the login page. */
  ghost predicate Registers(users0: seq<User>, users1: seq<User>, resp: Response, name: string, email: string,
                            username: string, hashed: string, freshId: string)
  {
    match Auth.Register(users0, name, email, username, hashed, freshId)
    case UsernameTaken => users1 == users0 && resp == Render(RegisterPage(Some(Auth.UsernameTakenMessage)))
    case EmailTaken => users1 == users0 && resp == Render(RegisterPage(Some(Auth.EmailTakenMessage)))
    case Registered(user) => users1 == users0 + [user] && resp == Redirect(LoginPath)
  }

  /** POST `/login` took the cookie from `cookie0` to `cookie1`: a failure
      re-renders the form with its message and leaves the cookie alone; a
      success sets it to the list of matching users and goes home. */
  ghost predicate LogsIn(users: seq<User>, cookie0: Option<seq<User>>, cookie1: Option<seq<User>>, resp: Response,
                         username: string, password: string, verify: (string, string) -> bool)
  {
    match Auth.Login(users, username, password, verify)
    case UnknownUsername => cookie1 == cookie0 && resp == Render(LoginPage(Some(Auth.UnknownUsernameMessage)))
    case InvalidCredentials => cookie1 == cookie0 && resp == Render(LoginPage(Some(Auth.InvalidCredentialsMessage)))
    case LoggedIn(session) => cookie1 == Some(session) && resp == Redirect(HomePath)
  }

  /** POST `/post` took `blogs0` to `blogs1`: with a session user, exactly one
      post by that user is appended and the client is sent to the list. */
  ghost predicate CreatesPost(blogs0: seq<Blog>, blogs1: seq<Blog>, cookie: Option<seq<User>>, resp: Response,
                              title: string, content: string, freshId: string)
  {
    match Content.SessionUser(cookie)
    case None => blogs1 == blogs0 && resp == Crash
    case Some(author) => blogs1 == blogs0 + [Content.Post(author, title, content, freshId)] && resp == Redirect(BlogsPath)
  }

  /** POST `/update` took `blogs0` to `blogs1`: refused with the permission
      text, or the replacement written and the client sent home. */
  ghost predicate UpdatesPost(blogs0: seq<Blog>, blogs1: seq<Blog>, cookie: Option<seq<User>>, resp: Response,
                              blogId: string, title: string, content: string)
  {
    match Content.UpdatePost(blogs0, cookie, blogId, title, content)
    case UpdateCrash => blogs1 == blogs0 && resp == Crash
    case UpdateRefused => blogs1 == blogs0 && resp == SendText(Content.NoPermissionMessage)
    case Updated(blogs) => blogs1 == blogs && resp == Redirect(HomePath)
  }

  class BlogServer {
    var users: seq<User>
    var blogs: seq<Blog>
    /** The `currentUser` cookie of the client being served; `None` when absent. */
    var cookie: Option<seq<User>>

    /** The store keeps `_id` unique in each collection; handling one request
        after another keeps usernames and emails unique too. */
    ghost predicate Valid()
      reads this
    {
      UniqueUserIds(users) && UniqueBlogIds(blogs) && Auth.UniqueAccounts(users)
    }

    constructor ()
      ensures Valid() && users == [] && blogs == [] && cookie == None
    {
      users, blogs, cookie := [], [], None;
    }

    /** POST `/register`; the password is hashed before the store is queried. */
    method Register(name: string, email: string, username: string, password: string,
                    generate: string -> string, freshId: string) returns (resp: Response)
      requires Valid() && FreshUserId(users, freshId)
      modifies this`users
      ensures Valid()
      ensures Registers(old(users), users, resp, name, email, username, generate(password), freshId)
    {
      var hashed := generate(password);
      match Auth.Register(users, name, email, username, hashed, freshId)
      case UsernameTaken =>
        resp := Render(RegisterPage(Some(Auth.UsernameTakenMessage)));
      case EmailTaken =>
        resp := Render(RegisterPage(Some(Auth.EmailTakenMessage)));
      case Registered(user) =>
        InsertKeepsUniqueUserIds(users, user);
        Auth.RegisterKeepsAccountsUnique(users, name, email, username, hashed, freshId);
        users := users + [user];
        resp := Redirect(LoginPath);
    }

    /** POST `/login`: changes the cookie and nothing in the store. */
    method Login(username: string, password: string, verify: (string, string) -> bool) returns (resp: Response)
      modifies this`cookie
      ensures users == old(users) && blogs == old(blogs)
      ensures LogsIn(users, old(cookie), cookie, resp, username, password, verify)
    {
      match Auth.Login(users, username, password, verify)
      case UnknownUsername =>
        resp := Render(LoginPage(Some(Auth.UnknownUsernameMessage)));
      case InvalidCredentials =>
        resp := Render(LoginPage(Some(Auth.InvalidCredentialsMessage)));
      case LoggedIn(session) =>
        cookie := Some(session);
        resp := Redirect(HomePath);
    }

    /** GET `/logout`: clears the cookie. */
    method Logout() returns (resp: Response)
      modifies this`cookie
      ensures cookie == None && resp == Redirect(HomePath)
    {
      cookie := None;
      resp := Redirect(HomePath);
    }

    /** POST `/post`; reading the session user's `_id` throws before anything
      is inserted when the cookie holds no user. */
    method CreatePost(title: string, content: string, freshId: string) returns (resp: Response)
      requires Valid() && FreshBlogId(blogs, freshId)
      modifies this`blogs
      ensures Valid()
      ensures CreatesPost(old(blogs), blogs, cookie, resp, title, content, freshId)
    {
      match Content.SessionUser(cookie)
      case None =>
        resp := Crash;
      case Some(author) =>
        var post := Content.Post(author, title, content, freshId);
        InsertKeepsUniqueBlogIds(blogs, post);
        blogs := blogs + [post];
        resp := Redirect(BlogsPath);
    }

    /** POST `/update`. */
    method UpdatePost(blogId: string, title: string, content: string) returns (resp: Response)
      requires Valid()
      modifies this`blogs
      ensures Valid()
      ensures UpdatesPost(old(blogs), blogs, cookie, resp, blogId, title, content)
    {
      match Content.UpdatePost(blogs, cookie, blogId, title, content)
      case UpdateCrash =>
        resp := Crash;
      case UpdateRefused =>
        resp := SendText(Content.NoPermissionMessage);
      case Updated(replaced) =>
        Content.ReplaceOneKeepsUniqueIds(blogs, blogId, Content.Post(Content.SessionUser(cookie).value, title, content, blogId));
        blogs := replaced;
        resp := Redirect(HomePath);
    }

    /** DELETE `/api/delete-blog`: `userId` is read and never used; no reply is sent. */
    method DeleteBlog(blogId: string, userId: string) returns (resp: Response)
      requires Valid()
      modifies this`blogs
      ensures Valid()
      ensures blogs == Content.DeleteOne(old(blogs), blogId) && resp == NoReply
    {
      Content.DeleteOneKeepsUniqueIds(blogs, blogId);
      blogs := Content.DeleteOne(blogs, blogId);
      resp := NoReply;
    }

    /** One request: the guard runs first, on the cookie as it arrived and the
      full url; only a request it lets through reaches the route's handler. */
    method Handle(url: string, route: Route, env: Env) returns (resp: Response)
      requires Valid() && FreshUserId(users, env.freshId) && FreshBlogId(blogs, env.freshId)
      modifies this
      ensures Valid()
      ensures Guard.Redirects(old(cookie).Some?, url) ==>
        resp == Redirect(LoginPath) && users == old(users) && blogs == old(blogs) && cookie == old(cookie)
      ensures !Guard.Redirects(old(cookie).Some?, url) ==>
        match route
        case PostRegister(name, email, username, password) =>
          Registers(old(users), users, resp, name, email, username, env.generate(password), env.freshId) &&
          blogs == old(blogs) && cookie == old(cookie)
        case PostLogin(username, password) =>
          LogsIn(old(users), old(cookie), cookie, resp, username, password, env.verify) &&
          users == old(users) && blogs == old(blogs)
        case GetLogout =>
          cookie == None && resp == Redirect(HomePath) && users == old(users) && blogs == old(blogs)
        case PostPost(title, content) =>
          CreatesPost(old(blogs), blogs, old(cookie), resp, title, content, env.freshId) &&
          users == old(users) && cookie == old(cookie)
        case PostUpdate(blogId, title, content) =>
          UpdatesPost(old(blogs), blogs, old(cookie), resp, blogId, title, content) &&
          users == old(users) && cookie == old(cookie)
        case DeleteBlog(blogId, _) =>
          blogs == Content.DeleteOne(old(blogs), blogId) && resp == NoReply &&
          users == old(users) && cookie == old(cookie)
        case _ =>
          resp == View(route, old(users), old(blogs), old(cookie)) &&
          users == old(users) && blogs == old(blogs) && cookie == old(cookie)
    {
      if Guard.Redirects(cookie.Some?, url) {
        resp := Redirect(LoginPath);
        return;
      }
      match route
      case PostRegister(name, email, username, password) =>
        resp := Register(name, email, username, password, env.generate, env.freshId);
      case PostLogin(username, password) =>
        resp := Login(username, password, env.verify);
      case GetLogout =>
        resp := Logout();
      case PostPost(title, content) =>
        resp := CreatePost(title, content, env.freshId);
      case PostUpdate(blogId, title, content) =>
        resp := UpdatePost(blogId, title, content);
      case DeleteBlog(blogId, userId) =>
        resp := DeleteBlog(blogId, userId);
      case _ =>
        resp := View(route, users, blogs, cookie);
    }
  }
}
