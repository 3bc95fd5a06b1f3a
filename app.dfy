/**
  The route handlers of app.py as state transitions of one application object.

  The state is what the handlers read and write: the `post` and `user` tables
  of the store, the client's `session` dictionary, and the names of the files
  written to the upload folder. A handler returns a `Response` instead of
  rendering, redirecting or raising.
 */
module App {
  import opened Wrappers
  import opened Upload

  /** `datetime.utcnow()` at the moment a row is created, given by the caller. */
  type Timestamp = int

  datatype User = User(id: int, username: string, email: string, password: string, createdAt: Timestamp)

  datatype Post = Post(id: int, title: string, content: string, image: string, author: string, createdAt: Timestamp)

  datatype HttpMethod = GET | POST

  /** An uploaded file part; a form sent with no file chosen has the empty file name. */
  datatype FileStorage = FileStorage(filename: string)

  /** The parts of `flask.request` the handlers read. */
  datatype Request = Request(verb: HttpMethod, form: map<string, string>, files: map<string, FileStorage>)

  datatype Response =
    | Redirect(location: string)
    | Render(template: string)
    | Text(body: string)
    | BadRequest(missingKey: string)  // a form or file field the request lacks (HTTP 400)
    | ServerError(exception: string)  // an exception the handler does not catch (HTTP 500)

  /**
    flask_bcrypt, whose code is not part of this model: `hash(password, salt)`
    stands for `generate_password_hash` with the salt it draws, `check(hash, password)`
    for `check_password_hash`.
   */
  datatype Bcrypt = Bcrypt(hash: (string, string) -> string, check: (string, string) -> bool)

  const UsernameKey := "username"
  const EmailKey := "email"

  /** The form fields create_post reads, in the order it reads them. */
  const CreateFields: seq<string> := ["title", "author", "content"]
  /** The form fields edit_post reads after the title, in order. */
  const EditFields: seq<string> := ["author", "content", "old_image"]

  /** A werkzeug FileStorage is truthy exactly when a file name was sent. */
  predicate IsFile(file: FileStorage) {
    file.filename != []
  }

  /**
    The key Python looks up first and does not find, when `keys` are looked up
    in order in a dictionary whose keys are `present`.
   */
  function FirstMissing(keys: seq<string>, present: set<string>): (r: Option<string>)
    ensures r.None? <==> forall k :: k in keys ==> k in present
    ensures r.Some? ==> exists i :: 0 <= i < |keys| && keys[i] == r.value && r.value !in present &&
                          forall j :: 0 <= j < i ==> keys[j] in present
  {
    if keys == [] then None
    else if keys[0] !in present then Some(keys[0])
    else
      var r := FirstMissing(keys[1..], present);
      if r.Some? then
        var i :| 0 <= i < |keys[1..]| && keys[1..][i] == r.value && r.value !in present &&
                 forall j :: 0 <= j < i ==> keys[1..][j] in present;
        assert keys[i + 1] == r.value;
        r
      else
        assert forall k :: k in keys ==> k == keys[0] || k in keys[1..];
        r
  }

  /**
    The first field a handler looks up and does not find: the form fields
    `formKeys` in order, then the file fields `fileKeys` in order.
   */
  function MissingField(req: Request, formKeys: seq<string>, fileKeys: seq<string>): (r: Option<string>)
    ensures r.None? <==> (forall k :: k in formKeys ==> k in req.form) && (forall k :: k in fileKeys ==> k in req.files)
    ensures r.Some? ==>
              (exists i :: 0 <= i < |formKeys| && formKeys[i] == r.value && r.value !in req.form &&
                 forall j :: 0 <= j < i ==> formKeys[j] in req.form) ||
              ((forall k :: k in formKeys ==> k in req.form) &&
               exists i :: 0 <= i < |fileKeys| && fileKeys[i] == r.value && r.value !in req.files &&
                 forall j :: 0 <= j < i ==> fileKeys[j] in req.files)
  {
    match FirstMissing(formKeys, req.form.Keys)
    case Some(key) => Some(key)
    case None => FirstMissing(fileKeys, req.files.Keys)
  }

  /** create_post stores an upload only when a file was sent and allowed_file accepts its name. */
  predicate UploadAccepted(file: FileStorage) {
    IsFile(file) && AllowedFile(file.filename)
  }

  /**
    The row SQLite gives a new row of a table whose integer primary key is
    the rowid: one more than the largest key present, or 1 in an empty table.
   */
  function NextRowId(keys: set<int>): (id: int)
    ensures id !in keys
    ensures forall k :: k in keys ==> k < id
    ensures keys == {} ==> id == 1
    ensures keys != {} ==> id - 1 in keys
  {
    if keys == {} then 1
    else
      LargestExists(keys);
      var m :| m in keys && forall k :: k in keys ==> k <= m;
      m + 1
  }

  /** A finite set of integers is empty or has a largest element. */
  lemma {:induction false} LargestExists(keys: set<int>)
    ensures keys == {} || exists m :: m in keys && forall k :: k in keys ==> k <= m
  {
    if exists x :: x in keys {
      var x :| x in keys;
      var rest := keys - {x};
      assert forall k :: k in keys ==> k == x || k in rest;
      if forall k :: k in rest ==> k <= x {
        assert forall k :: k in keys ==> k <= x;
      } else {
        var y :| y in rest && y > x;
        LargestExists(rest);
        var m :| m in rest && forall k :: k in rest ==> k <= m;
        assert m in keys && forall k :: k in keys ==> k <= m;
      }
    } else {
      assert keys == {};
    }
  }

  /** The user login looks up: the earliest stored user with that email, if any. */
  function FirstWithEmail(users: seq<User>, email: string): (r: Option<nat>)
    ensures r.Some? ==> r.value < |users| && users[r.value].email == email &&
                        forall j :: 0 <= j < r.value ==> users[j].email != email
    ensures r.None? ==> forall j :: 0 <= j < |users| ==> users[j].email != email
  {
    if users == [] then None
    else if users[0].email == email then Some(0)
    else
      match FirstWithEmail(users[1..], email)
      case None => None
      case Some(i) => Some(i + 1)
  }

  /** Every post is stored under its own id; users carry ids 1, 2, ... in insertion order. */
  predicate Consistent(posts: map<int, Post>, users: seq<User>) {
    && (forall k :: k in posts ==> posts[k].id == k)
    && (forall i :: 0 <= i < |users| ==> users[i].id == i + 1)
  }

  /** The caller counts as logged in: the session holds a username that is not None. */
  predicate LoggedIn(session: map<string, Option<string>>) {
    UsernameKey in session && session[UsernameKey].Some?
  }

  /**
    The application: the two tables, the client's session, and the file names
    written to the upload folder so far. `flashes` is the message list Flask's
    `flash` keeps in the session under `_flashes`, held apart from the
    string-valued keys. `bcrypt` and `secureFilename`
    (werkzeug's `secure_filename`) are the libraries the handlers call.
   */
  class Blog {
    var posts: map<int, Post>
    var users: seq<User>
    var session: map<string, Option<string>>
    var saved: seq<string>
    var flashes: seq<string>
    const bcrypt: Bcrypt
    const secureFilename: string -> string

    ghost predicate Valid()
      reads this
    {
      Consistent(posts, users)
    }

    /** The application over tables and a session that already hold the given rows and keys. */
    constructor (bcrypt: Bcrypt, secureFilename: string -> string,
                 posts: map<int, Post>, users: seq<User>, session: map<string, Option<string>>,
                 flashes: seq<string>)
      requires Consistent(posts, users)
      ensures Valid()
      ensures this.bcrypt == bcrypt && this.secureFilename == secureFilename
      ensures this.posts == posts && this.users == users && this.session == session && saved == []
      ensures this.flashes == flashes
    {
      this.bcrypt := bcrypt;
      this.secureFilename := secureFilename;
      this.posts := posts;
      this.users := users;
      this.session := session;
      this.flashes := flashes;
      saved := [];
    }

    /** GET /member: the management page for a logged-in caller, else back to the login page. */
    method Member() returns (r: Response)
      ensures UsernameKey !in session ==> r.ServerError?
      ensures UsernameKey in session ==> (r == Render("member.html") <==> LoggedIn(session))
      ensures UsernameKey in session && !LoggedIn(session) ==> r == Redirect("/login")
    {
      if UsernameKey !in session {
        return ServerError("KeyError: 'username'");
      }
      if session[UsernameKey] != None {
        r := Render("member.html");
      } else {
        r := Redirect("/login");
      }
    }

    /** GET|POST /register: hash the password and append a user. */
    method Register(req: Request, salt: string, now: Timestamp, committed: bool) returns (r: Response)
      requires Valid()
      modifies this`users
      ensures Valid()
      ensures req.verb == GET ==> r == Render("register.html") && users == old(users)
      ensures req.verb == POST && FirstMissing(["name", "email", "password"], req.form.Keys).Some? ==>
                r == BadRequest(FirstMissing(["name", "email", "password"], req.form.Keys).value) &&
                users == old(users)
      ensures req.verb == POST && FirstMissing(["name", "email", "password"], req.form.Keys).None? ==>
                if committed then
                  r == Redirect("/") &&
                  users == old(users) + [User(|old(users)| + 1, req.form["name"], req.form["email"],
                                              bcrypt.hash(req.form["password"], salt), now)]
                else
                  r == Text("New User insert error " + req.form["name"]) && users == old(users)
    {
      if req.verb == GET {
        return Render("register.html");
      }
      var missing := FirstMissing(["name", "email", "password"], req.form.Keys);
      if missing.Some? {
        return BadRequest(missing.value);
      }
      var name, email, password := req.form["name"], req.form["email"], req.form["password"];
      var hashed := bcrypt.hash(password, salt);
      if committed {
        users := users + [User(|users| + 1, name, email, hashed, now)];
        r := Redirect("/");
      } else {
        r := Text("New User insert error " + name);
      }
    }

    /** GET|POST /post/create: store the upload and add one post. */
    method CreatePost(req: Request, now: Timestamp) returns (r: Response)
      requires Valid()
      modifies this`posts, this`saved
      ensures Valid()
      ensures UsernameKey !in session ==> r.ServerError? && posts == old(posts) && saved == old(saved)
      ensures UsernameKey in session && !LoggedIn(session) ==>
                r == Redirect("/login") && posts == old(posts) && saved == old(saved)
      ensures LoggedIn(session) && req.verb == GET ==>
                r == (if session[UsernameKey] == Some("") then Redirect("/login") else Render("post/create.html")) &&
                posts == old(posts) && saved == old(saved)
      ensures LoggedIn(session) && req.verb == POST && MissingField(req, CreateFields, ["file"]).Some? ==>
                r == BadRequest(MissingField(req, CreateFields, ["file"]).value) &&
                posts == old(posts) && saved == old(saved)
      ensures LoggedIn(session) && req.verb == POST && MissingField(req, CreateFields, ["file"]).None? &&
              !UploadAccepted(req.files["file"]) ==>
                r == Text("File upload Error!") && posts == old(posts) && saved == old(saved)
      ensures LoggedIn(session) && req.verb == POST && MissingField(req, CreateFields, ["file"]).None? &&
              UploadAccepted(req.files["file"]) ==>
                var id, name := NextRowId(old(posts).Keys), req.files["file"].filename;
                r == Redirect("/") &&
                saved == old(saved) + [secureFilename(name)] &&
                posts == old(posts)[id := Post(id, req.form["title"], req.form["content"], name, req.form["author"], now)]
    {
      if UsernameKey !in session {
        return ServerError("KeyError: 'username'");
      }
      if session[UsernameKey] == None {
        return Redirect("/login");
      }
      if req.verb == GET {
        if session[UsernameKey] == Some("") {
          r := Redirect("/login");
        } else {
          r := Render("post/create.html");
        }
        return;
      }
      var missing := MissingField(req, CreateFields, ["file"]);
      if missing.Some? {
        return BadRequest(missing.value);
      }
      var title, author, content := req.form["title"], req.form["author"], req.form["content"];
      var file := req.files["file"];
      if IsFile(file) && AllowedFile(file.filename) {
        saved := saved + [secureFilename(file.filename)];
        var id := NextRowId(posts.Keys);
        posts := posts[id := Post(id, title, content, file.filename, author, now)];
        r := Redirect("/");
      } else {
        r := Text("File upload Error!");
      }
    }

    /** GET|POST /post/edit/<id>: overwrite the post's fields; the upload is not checked. */
    method EditPost(id: int, req: Request) returns (r: Response)
      requires Valid()
      modifies this`posts, this`saved
      ensures Valid()
      ensures req.verb == GET ==> r == Render("post/edit.html") && posts == old(posts) && saved == old(saved)
      ensures req.verb == POST && "title" !in req.form ==>
                r == BadRequest("title") && posts == old(posts) && saved == old(saved)
      ensures req.verb == POST && "title" in req.form && id !in old(posts) ==>
                r.ServerError? && posts == old(posts) && saved == old(saved)
      ensures req.verb == POST && "title" in req.form && id in old(posts) &&
              MissingField(req, EditFields, ["file"]).Some? ==>
                r == BadRequest(MissingField(req, EditFields, ["file"]).value) &&
                posts == old(posts) && saved == old(saved)
      ensures req.verb == POST && "title" in req.form && id in old(posts) &&
              MissingField(req, EditFields, ["file"]).None? ==>
                var file := req.files["file"];
                var image := if IsFile(file) then file.filename else req.form["old_image"];
                r == Redirect("/member") &&
                saved == (if IsFile(file) then old(saved) + [secureFilename(file.filename)] else old(saved)) &&
                posts == old(posts)[id := old(posts)[id].(title := req.form["title"], author := req.form["author"],
                                                          content := req.form["content"], image := image)]
    {
      if req.verb == GET {
        return Render("post/edit.html");
      }
      var post := if id in posts then Some(posts[id]) else None;
      if "title" !in req.form {
        return BadRequest("title");
      }
      if post.None? {
        return ServerError("AttributeError: 'NoneType' object has no attribute 'title'");
      }
      var missing := MissingField(req, EditFields, ["file"]);
      if missing.Some? {
        return BadRequest(missing.value);
      }
      var edited := post.value.(title := req.form["title"], author := req.form["author"],
                                content := req.form["content"]);
      var filename := req.form["old_image"];
      var file := req.files["file"];
      if IsFile(file) {
        filename := file.filename;
        saved := saved + [secureFilename(file.filename)];
      }
      posts := posts[id := edited.(image := filename)];
      r := Redirect("/member");
    }

    /** GET /post/delete/<pk>: remove the post. */
    method DeletePost(pk: int) returns (r: Response)
      requires Valid()
      modifies this`posts
      ensures Valid()
      ensures pk !in old(posts) ==> r.ServerError? && posts == old(posts)
      ensures pk in old(posts) ==> r == Redirect("/member") && posts == old(posts) - {pk}
    {
      if pk !in posts {
        return ServerError("UnmappedInstanceError: Class 'builtins.NoneType' is not mapped");
      }
      posts := posts - {pk};
      r := Redirect("/member");
    }

    /** GET|POST /login: on a matching password, record the user in the session and flash a greeting. */
    method Login(req: Request) returns (r: Response)
      modifies this`session, this`flashes
      ensures req.verb == GET ==> r == Render("login.html") && session == old(session) && flashes == old(flashes)
      ensures req.verb == POST && FirstMissing(["email", "password"], req.form.Keys).Some? ==>
                r == BadRequest(FirstMissing(["email", "password"], req.form.Keys).value) &&
                session == old(session) && flashes == old(flashes)
      ensures req.verb == POST && FirstMissing(["email", "password"], req.form.Keys).None? ==>
                match FirstWithEmail(users, req.form["email"])
                case None => r.ServerError? && session == old(session) && flashes == old(flashes)
                case Some(i) =>
                  if bcrypt.check(users[i].password, req.form["password"]) then
                    r == Redirect("/member") &&
                    session == old(session)[UsernameKey := Some(users[i].username)][EmailKey := Some(users[i].email)] &&
                    flashes == old(flashes) + ["Welcome Back!"]
                  else
                    r == Text("Something is not right") && session == old(session) && flashes == old(flashes)
    {
      if req.verb == GET {
        return Render("login.html");
      }
      var missing := FirstMissing(["email", "password"], req.form.Keys);
      if missing.Some? {
        return BadRequest(missing.value);
      }
      var email, password := req.form["email"], req.form["password"];
      var found := FirstWithEmail(users, email);
      if found.None? {
        return ServerError("AttributeError: 'NoneType' object has no attribute 'password'");
      }
      var user := users[found.value];
      if bcrypt.check(user.password, password) {
        session := session[UsernameKey := Some(user.username)][EmailKey := Some(user.email)];
        flashes := flashes + ["Welcome Back!"];
        r := Redirect("/member");
      } else {
        r := Text("Something is not right");
      }
    }

    /** GET /logout: set both session keys to None. */
    method Logout() returns (r: Response)
      modifies this`session
      ensures r == Redirect("/login")
      ensures session == old(session)[UsernameKey := None][EmailKey := None]
      ensures !LoggedIn(session)
    {
      session := session[UsernameKey := None][EmailKey := None];
      r := Redirect("/login");
    }
  }
}
