/**
  Request sequences against one application object, and what the handlers'
  contracts guarantee about them: registering and logging in, logging out,
  uploading, editing and deleting.
 */
module Scenarios {
  import opened Wrappers
  import opened Upload
  import opened App

  /** bcrypt's promise: the hash of a password checks against that password, whatever the salt. */
  ghost predicate HashChecks(bcrypt: Bcrypt) {
    forall password, salt :: bcrypt.check(bcrypt.hash(password, salt), password)
  }

  function RegisterForm(name: string, email: string, password: string): Request {
    Request(POST, map["name" := name, "email" := email, "password" := password], map[])
  }

  function LoginForm(email: string, password: string): Request {
    Request(POST, map["email" := email, "password" := password], map[])
  }

  function PostForm(title: string, author: string, content: string, filename: string): Request {
    Request(POST, map["title" := title, "author" := author, "content" := content],
            map["file" := FileStorage(filename)])
  }

  function EditForm(title: string, author: string, content: string, oldImage: string, filename: string): Request {
    Request(POST, map["title" := title, "author" := author, "content" := content, "old_image" := oldImage],
            map["file" := FileStorage(filename)])
  }

  /**
    A new account with a fresh email can log in with its password: the
    session then names it, one greeting is flashed, and the member page renders.
   */
  method LoginAfterRegister(bcrypt: Bcrypt, secureFilename: string -> string,
                            posts: map<int, Post>, users: seq<User>, session: map<string, Option<string>>,
                            name: string, email: string, password: string, salt: string, now: Timestamp)
    returns (registered: Response, loggedIn: Response, member: Response, identity: map<string, Option<string>>,
             flashed: seq<string>)
    requires Consistent(posts, users)
    requires HashChecks(bcrypt)
    requires forall i :: 0 <= i < |users| ==> users[i].email != email
    ensures registered == Redirect("/") && loggedIn == Redirect("/member") && member == Render("member.html")
    ensures identity == session[UsernameKey := Some(name)][EmailKey := Some(email)]
    ensures flashed == ["Welcome Back!"]
  {
    var app := new Blog(bcrypt, secureFilename, posts, users, session, []);
    registered := app.Register(RegisterForm(name, email, password), salt, now, true);
    assert app.users[|users|].email == email;
    loggedIn := app.Login(LoginForm(email, password));
    member := app.Member();
    identity, flashed := app.session, app.flashes;
  }

  /** A wrong password is refused and leaves the session as it was, with nothing flashed. */
  method WrongPasswordRefused(bcrypt: Bcrypt, secureFilename: string -> string,
                              posts: map<int, Post>, users: seq<User>, session: map<string, Option<string>>,
                              name: string, email: string, password: string, wrong: string, salt: string,
                              now: Timestamp)
    returns (loggedIn: Response, identity: map<string, Option<string>>, flashed: seq<string>)
    requires Consistent(posts, users)
    requires !bcrypt.check(bcrypt.hash(password, salt), wrong)
    requires forall i :: 0 <= i < |users| ==> users[i].email != email
    ensures loggedIn == Text("Something is not right")
    ensures identity == session && flashed == []
  {
    var app := new Blog(bcrypt, secureFilename, posts, users, session, []);
    var registered := app.Register(RegisterForm(name, email, password), salt, now, true);
    assert app.users[|users|].email == email;
    loggedIn := app.Login(LoginForm(email, wrong));
    identity, flashed := app.session, app.flashes;
  }

  /** Logging in with an email nobody registered raises instead of refusing. */
  method LoginUnknownEmailFails(bcrypt: Bcrypt, secureFilename: string -> string,
                                posts: map<int, Post>, users: seq<User>, session: map<string, Option<string>>,
                                email: string, password: string)
    returns (loggedIn: Response, identity: map<string, Option<string>>)
    requires Consistent(posts, users)
    requires forall i :: 0 <= i < |users| ==> users[i].email != email
    ensures loggedIn.ServerError?
    ensures identity == session
  {
    var app := new Blog(bcrypt, secureFilename, posts, users, session, []);
    loggedIn := app.Login(LoginForm(email, password));
    identity := app.session;
  }

  /** After logging out, from any session, the member page sends the caller to the login page. */
  method LogoutThenMember(bcrypt: Bcrypt, secureFilename: string -> string,
                          posts: map<int, Post>, users: seq<User>, session: map<string, Option<string>>)
    returns (loggedOut: Response, member: Response, identity: map<string, Option<string>>)
    requires Consistent(posts, users)
    ensures loggedOut == Redirect("/login") && member == Redirect("/login")
    ensures UsernameKey in identity && identity[UsernameKey] == None
    ensures EmailKey in identity && identity[EmailKey] == None
  {
    var app := new Blog(bcrypt, secureFilename, posts, users, session, []);
    loggedOut := app.Logout();
    member := app.Member();
    identity := app.session;
  }

  /**
    A logged-in caller uploading "img.png" adds one post with the form's
    fields, which refers to the file by the name the client sent.
   */
  method CreateWithImage(bcrypt: Bcrypt, secureFilename: string -> string,
                         posts: map<int, Post>, users: seq<User>, session: map<string, Option<string>>,
                         title: string, author: string, content: string, now: Timestamp)
    returns (created: Response, after: map<int, Post>, saved: seq<string>)
    requires Consistent(posts, users)
    requires LoggedIn(session)
    ensures created == Redirect("/")
    ensures NextRowId(posts.Keys) !in posts
    ensures after.Keys == posts.Keys + {NextRowId(posts.Keys)} && |after| == |posts| + 1
    ensures forall k :: k in posts ==> after[k] == posts[k]
    ensures after[NextRowId(posts.Keys)] == Post(NextRowId(posts.Keys), title, content, "img.png", author, now)
    ensures saved == [secureFilename("img.png")]
  {
    var app := new Blog(bcrypt, secureFilename, posts, users, session, []);
    var form := PostForm(title, author, content, "img.png");
    PostFormComplete(title, author, content, "img.png");
    PngAccepted();
    var id := NextRowId(posts.Keys);
    created := app.CreatePost(form, now);
    after, saved := app.posts, app.saved;
    InsertFresh(posts, id, Post(id, title, content, "img.png", author, now));
  }

  lemma PostFormComplete(title: string, author: string, content: string, filename: string)
    ensures MissingField(PostForm(title, author, content, filename), CreateFields, ["file"]).None?
    ensures PostForm(title, author, content, filename).files["file"] == FileStorage(filename)
  {
  }

  lemma PngAccepted()
    ensures UploadAccepted(FileStorage("img.png"))
  {
    assert "img.png" == "img" + "." + "png";
    LowerPng();
    OnlyLastExtensionCounts("img", "png");
  }

  lemma EditFormComplete(title: string, author: string, content: string, oldImage: string, filename: string)
    ensures MissingField(EditForm(title, author, content, oldImage, filename), EditFields, ["file"]).None?
    ensures EditForm(title, author, content, oldImage, filename).files["file"] == FileStorage(filename)
  {
  }

  /** Adding a key the map lacks grows it by one entry and keeps the others. */
  lemma InsertFresh(m: map<int, Post>, k: int, v: Post)
    requires k !in m
    ensures m[k := v].Keys == m.Keys + {k} && |m[k := v]| == |m| + 1
  {
    assert m[k := v].Keys == m.Keys + {k};
  }

  /** Uploading "img.exe" is refused: no post is added and no file is written. */
  method CreateWithExecutable(bcrypt: Bcrypt, secureFilename: string -> string,
                              posts: map<int, Post>, users: seq<User>, session: map<string, Option<string>>,
                              title: string, author: string, content: string, now: Timestamp)
    returns (created: Response, after: map<int, Post>, saved: seq<string>)
    requires Consistent(posts, users)
    requires LoggedIn(session)
    ensures created == Text("File upload Error!")
    ensures after == posts && saved == []
  {
    var app := new Blog(bcrypt, secureFilename, posts, users, session, []);
    assert !AllowedFile("img.exe") by {
      assert "img.exe" == "img" + "." + "exe";
      LowerExe();
      OnlyLastExtensionCounts("img", "exe");
    }
    PostFormComplete(title, author, content, "img.exe");
    created := app.CreatePost(PostForm(title, author, content, "img.exe"), now);
    after, saved := app.posts, app.saved;
  }

  /**
    Editing with no file chosen, from a form that echoes the stored image name,
    keeps the image; the id and creation time never change and other posts
    are untouched.
   */
  method EditWithoutFile(bcrypt: Bcrypt, secureFilename: string -> string,
                         posts: map<int, Post>, users: seq<User>, session: map<string, Option<string>>,
                         id: int, title: string, author: string, content: string)
    returns (edited: Response, after: map<int, Post>)
    requires Consistent(posts, users)
    requires id in posts
    ensures edited == Redirect("/member")
    ensures after.Keys == posts.Keys
    ensures after[id].image == posts[id].image && after[id].createdAt == posts[id].createdAt
    ensures after[id].id == id && after[id].title == title && after[id].author == author
    ensures after[id].content == content
    ensures forall k :: k in posts && k != id ==> after[k] == posts[k]
  {
    var app := new Blog(bcrypt, secureFilename, posts, users, session, []);
    EditFormComplete(title, author, content, posts[id].image, "");
    edited := app.EditPost(id, EditForm(title, author, content, posts[id].image, ""));
    after := app.posts;
  }

  /** An edit accepts any upload: the image becomes a name the create form would refuse. */
  method EditSkipsAllowList(bcrypt: Bcrypt, secureFilename: string -> string,
                            posts: map<int, Post>, users: seq<User>, session: map<string, Option<string>>,
                            id: int, title: string, author: string, content: string, oldImage: string)
    returns (edited: Response, after: map<int, Post>, saved: seq<string>)
    requires Consistent(posts, users)
    requires id in posts
    ensures edited == Redirect("/member")
    ensures id in after && after[id].image == "run.exe" && !AllowedFile(after[id].image)
    ensures saved == [secureFilename("run.exe")]
  {
    var app := new Blog(bcrypt, secureFilename, posts, users, session, []);
    EditFormComplete(title, author, content, oldImage, "run.exe");
    edited := app.EditPost(id, EditForm(title, author, content, oldImage, "run.exe"));
    after, saved := app.posts, app.saved;
    assert !AllowedFile("run.exe") by {
      assert "run.exe" == "run" + "." + "exe";
      LowerExe();
      OnlyLastExtensionCounts("run", "exe");
    }
  }

  /** Deleting removes exactly that post; deleting it again raises. */
  method DeleteTwice(bcrypt: Bcrypt, secureFilename: string -> string,
                     posts: map<int, Post>, users: seq<User>, session: map<string, Option<string>>, pk: int)
    returns (first: Response, second: Response, after: map<int, Post>)
    requires Consistent(posts, users)
    requires pk in posts
    ensures first == Redirect("/member") && second.ServerError?
    ensures after.Keys == posts.Keys - {pk}
    ensures forall k :: k in after ==> after[k] == posts[k]
  {
    var app := new Blog(bcrypt, secureFilename, posts, users, session, []);
    first := app.DeletePost(pk);
    second := app.DeletePost(pk);
    after := app.posts;
  }
}
