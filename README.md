# Blog application: upload allow-list and route handler effects

A Dafny model of the two parts of the Flask blog in `app.py` that carry
security-relevant rules:

- **The upload allow-list** (`ALLOWED_EXTENSIONS`, `allowed_file`), module
  `Upload` in `upload.dfy`. The function is modelled the way Python computes it:
  a right split at the last `'.'` (`RSplitOnce`), then ASCII lower-casing
  (`Lower`), then membership in the six allowed extensions. It is proved equal
  to a rule stated without `rsplit` ("the name has a last `'.'` and what follows
  it, lower-cased, is allowed"). The model also proves that only the last
  extension counts, that case is ignored, and the known accepted and rejected
  names.
- **The route handlers' effects on state**, module `App` in `app.dfy`. One
  object of class `Blog` holds the post table (`map<int, Post>` keyed by id),
  the user table (`seq<User>` in insertion order), the client's session
  (`map<string, Option<string>>`, where `None` is Python's `None`), the
  messages `flash` queues in that session under `_flashes` (`flashes`), and the
  names written to the upload folder (`saved`). `member`, `register`,
  `createPost`, `editPost`, `deletePost`, `login` and `logout` are methods.
  Each method returns a `Response`: a redirect, a rendered template, a text
  body, a 400 for a missing form or file field, or a 500 for an exception the
  handler does not catch. Each method's contract gives the new state for every
  branch of the source: which row changes, which fields change, and what stays
  the same.
- **Request sequences**, module `Scenarios` in `scenarios.dfy`. Each method
  builds a `Blog` over arbitrary consistent tables and session, runs a few
  handlers, and proves the outcome from the handlers' contracts alone.
  Covered sequences: register then log in; log in with a wrong password; log in
  with an unknown email; log out then open the member page; upload `img.png`;
  upload `img.exe`; edit with no file; edit with an `.exe` file; delete twice.

Library calls whose code is not part of this model are parameters:

- bcrypt is a `Bcrypt` value with two functions. `hash(password, salt)` stands
  for `generate_password_hash`, with the random salt passed to `Register`.
  `check(hash, password)` stands for `check_password_hash`. The library's
  promise that a hash checks against its own password (`HashChecks`) is only a
  hypothesis of the scenario that needs it.
- werkzeug's `secure_filename` is the function `secureFilename`. Saving a file
  is modelled as appending its sanitized name to `saved`.
- The timestamp from `datetime.utcnow` is a parameter.
- Whether the store's commit in `register` succeeds is the parameter
  `committed`.

New post ids follow SQLite's rule for an integer primary key: one more than
the largest id present, or 1 for an empty table (`NextRowId`). Users are
never deleted, so the n-th user gets id n.

The model follows the code as written, including these behaviours:

- A login whose email matches no user raises `AttributeError` (500). The code
  does not refuse it cleanly.
- Editing or deleting a missing post id raises (500). The code does not
  return a clean not-found response.
- Editing never consults the allow-list, and editing and deleting check no
  session.
- The stored image reference is the file name the client sent, not the
  sanitized name under which the file is saved.
- For a GET of the create page, a session username of `""` counts as logged
  out. For a POST, only `None` counts as logged out.
- The edit form's hidden `old_image` field, which the client controls, becomes
  the image when no file is sent. The stored image is kept only when the form
  echoes it (`EditWithoutFile`).

## Model

| member | source | states |
|---|---|---|
| `Upload.Lower` | app.py:173 | lower-casing keeps the length and maps every character through ASCII lower-casing |
| `Upload.RSplitOnce` | app.py:173 | a right split at `sep` gives the whole string when `sep` is absent; otherwise two parts that rejoin with `sep` to the string, the second part holding no `sep` |
| `Upload.RSplitAtLast` | app.py:173 | splitting `stem + sep + ext` with no `sep` in `ext` gives back exactly `stem` and `ext` |
| `Upload.AllowedFile` | app.py:171-173 | a name it accepts contains a `'.'`; its full meaning is `AllowedFileMeaning` |
| `Upload.AllowedAtLastDot` | app.py:171-173 | at the last `'.'` of a name, `allowed_file` is true iff the text after it, lower-cased, is an allowed extension |
| `Upload.AllowedFileSound` | app.py:171-173 | every name `allowed_file` accepts has a last `'.'` followed by an allowed extension |
| `Upload.AllowedFileComplete` | app.py:171-173 | every name with a last `'.'` followed by an allowed extension (any case) is accepted |
| `Upload.AllowedFileMeaning` | app.py:171-173 | `allowed_file(f)` iff `f` contains `'.'` and the lower-cased text after its last `'.'` is one of txt, pdf, png, jpg, jpeg, gif, in both directions |
| `Upload.OnlyLastExtensionCounts` | app.py:172-173 | for any stem, `stem + "." + ext` (no `'.'` in `ext`) is accepted iff `ext` lower-cased is allowed: earlier extensions never matter |
| `Upload.LowerKeepsDots` | app.py:173 | lower-casing neither adds nor removes a `'.'` |
| `Upload.LowerSuffix` | app.py:173 | lower-casing commutes with taking a suffix |
| `Upload.AllowedFileIgnoresCase` | app.py:171-173 | a name and its lower-cased form get the same verdict |
| `Upload.AcceptedExamples` | app.py:171-173 | `"a.b.png"` and `"a.PNG"` are accepted |
| `Upload.RejectsHiddenExtension` | app.py:171-173 | `"a.png.exe"` is rejected |
| `Upload.RejectsUpperCaseExe` | app.py:171-173 | `"a.EXE"` is rejected |
| `Upload.RejectsMissingExtension` | app.py:171-173 | `"noext"` and `"a."` are rejected |
| `App.FirstMissing` | app.py:87-90 | the first key, in lookup order, that the dictionary lacks; none exactly when every key is present |
| `App.MissingField` | app.py:87-90 | the first form field, in lookup order, that the form lacks; only when every form field is present, the first file field the request lacks; none exactly when all are present |
| `App.NextRowId` | app.py:95-98 | the id a new row gets is absent from the table, above every id in it, 1 for an empty table, else one more than the largest id |
| `App.LargestExists` | app.py:95-98 | a set of ids is empty or has a largest element |
| `App.FirstWithEmail` | app.py:151 | the index of the earliest user with the email, with no earlier match; none exactly when no user has that email |
| `App.Blog.constructor` | app.py:26-40 | the application starts over the given consistent tables, session and flashed messages, with no file saved |
| `App.Blog.Member` | app.py:52-57 | no username key raises; a non-None username renders the member page; None redirects to `/login` |
| `App.Blog.Register` | app.py:60-80 | GET renders the form; a missing field is a 400; on commit, exactly one user is appended with the form's name and email, the hash of the password and the next id; a failed commit returns the insert error and adds nothing |
| `App.Blog.CreatePost` | app.py:83-108 | no username key raises; None redirects to login; GET checks for `""`; a missing field is a 400; no file or a refused name returns the upload error and changes nothing; an accepted file saves its sanitized name and adds exactly one post under a fresh id, with the form's title, author and content and the client's original file name as image, leaving every other post as it was |
| `App.Blog.EditPost` | app.py:111-134 | a missing title is a 400 before the post lookup, and a missing post raises; otherwise only the title, author, content and image of post `id` change. Its id and creation time and all other posts stay. The image is the sent file's own name, or the form's `old_image` when no file is sent; the allow-list is not consulted |
| `App.Blog.DeletePost` | app.py:137-142 | a missing id raises and changes nothing; otherwise exactly entry `pk` is removed |
| `App.Blog.Login` | app.py:145-161 | GET renders; a missing field is a 400; no user with the email raises; when the hash check of the first such user succeeds the session's username and email become that user's, "Welcome Back!" is appended to the flashed messages, and no other session key changes; otherwise the session and the flashed messages are unchanged |
| `App.Blog.Logout` | app.py:164-168 | both session keys become None, every other key stays, and the caller is no longer logged in |
| `Scenarios.LoginAfterRegister` | app.py:145-161 | after registering a fresh email, logging in with its password redirects to `/member`, the session names the new user, exactly one "Welcome Back!" is flashed, and the member page renders |
| `Scenarios.WrongPasswordRefused` | app.py:152-158 | logging in with a password that does not check is refused, the session is left as it was and nothing is flashed |
| `Scenarios.LoginUnknownEmailFails` | app.py:151-152 | logging in with an email nobody registered raises and leaves the session unchanged |
| `Scenarios.LogoutThenMember` | app.py:164-168 | from any session, logging out sets both keys to None and the member page then redirects to `/login` |
| `Scenarios.CreateWithImage` | app.py:92-99 | uploading `img.png` while logged in adds exactly one post, whose image is `img.png`, and saves `img.png`'s sanitized name; existing posts are unchanged |
| `Scenarios.CreateWithExecutable` | app.py:92-101 | uploading `img.exe` returns the upload error; no post is added and no file is saved |
| `Scenarios.EditWithoutFile` | app.py:115-129 | editing with no file, from a form that echoes the stored image, keeps the image, id and creation time and sets the new title, author and content; other posts are untouched |
| `Scenarios.EditSkipsAllowList` | app.py:121-128 | editing with the file `run.exe` stores `run.exe` as the image though the allow-list refuses it |
| `Scenarios.DeleteTwice` | app.py:137-142 | deleting an existing post removes exactly it; deleting it again raises |

## Left out

- Flask routing, `render_template` and `redirect` are presentation. A handler returns a `Response` naming the template or location. The data passed to the template is not modelled. `flash` is modelled only as the message it appends to the session's `_flashes` list (`flashes`); how a template later reads and clears that list is not.
- The home page and the post detail page are read-only views and are not part of this model.
- SQLAlchemy sessions, transactions and concurrency are not modelled. The tables are in-memory values, and a handler that fails before its commit leaves them unchanged, which matches the rollback at the end of the request. Commit failures in `createPost`, `editPost` and `deletePost` are not modelled.
- bcrypt's hashing and salting are a `Bcrypt` parameter, as described above.
- `secure_filename` is a function parameter and its output is not constrained. Only the fact that a file is saved, and under which name, is modelled; the file's bytes and the upload folder path are not. When two saves use the same name, the later one wins on disk; `saved` only lists the names in order.
- Timestamps, `LoginManager`, `app.secret_key`, the database URI and `app.run` are configuration or clock input.
- `Upload.Lower` lower-cases ASCII letters only. Python's `str.lower` also changes other characters, but no non-ASCII character lower-cases to a name in the all-ASCII allow-list. This is because the only non-ASCII characters that lower-case into ASCII letters are the Kelvin sign (to `k`) and the dotted capital I (to `i` followed by a combining dot).
- `App.FirstWithEmail` takes the earliest stored user with the email. `filter_by(...).first()` has no `ORDER BY`, so SQL does not fix which match comes back; the earliest row is what SQLite's table scan returns when `email` has no index.
- Route parameters are modelled as integers. Python passes them as strings, and the store converts them.
- `App.NextRowId` models SQLite's usual rule for a new id: one more than the largest id present, so the id of a deleted last post is reused. It does not model the different rule SQLite uses once the largest id is 2^63-1.
