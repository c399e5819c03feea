# File hosting service: allow-list and request handlers

This project models the logic of a small multi-user file-hosting web application.
Users register with a username, log in, upload files, list their own uploads and
download them. It has two parts:

- `extensions.dfy` (module `Extensions`) covers the upload allow-list. A client file
  name is accepted only when it contains a `.` and the text after its *last* `.`,
  lower-cased, is one of `txt pdf png jpg jpeg gif doc docx`. These are pure functions,
  and the lemmas say where the name is split and what case-folding does.
- `file_hosting.dfy` (module `FileHosting`) covers the request handlers as state
  transitions of one object, `FileHost`. Its state is:
  - `users`: the user table;
  - `files`: the file table, where `filename` is the storage name and
    `originalFilename` is the client's name;
  - `blobs`: the upload directory, a map from storage name to bytes;
  - `currentUser`: the id of the logged-in user, if any.

  Each handler has a method whose `modifies` frame names the fields it may change.
  Its `ensures` give every outcome: the error cases and the exact new state.
  `Valid()` is the invariant every handler keeps:
  - ids are auto-increment row numbers;
  - usernames are unique;
  - every record belongs to an existing user;
  - storage names are built from distinct tokens;
  - the blob store holds exactly the records' storage names.
- `scenarios.dfy` (module `Scenarios`) holds request sequences on a freshly
  constructed `FileHost`. They are proved from the handlers' contracts alone:
  - signing up twice with the same name;
  - anonymous access;
  - upload then list then download round trips;
  - cross-user download;
  - two uploads under one name.

`secure_filename` (an external library function) is kept uninterpreted, as the
constant function field `FileHost.secureFilename` fixed at construction.
The random UUID drawn per upload is the `token` parameter of `UploadFile`.
It must have the text form of a UUID (36 characters, hexadecimal digits and `-`)
and must differ from every token already used (`token !in tokens`, a ghost record of
the tokens behind the stored files). That freshness condition is the only thing that
makes storage names unique. Because every token has the same length, a storage name
`token + "_" + sanitised` determines its token (`StorageNameInjective`).

Three behaviours of the code worth stating:
- An upload with an empty body is accepted. Only a missing `file` part (`NoFilePart`)
  or an empty file name (`NoSelectedFile`) is refused; these are two distinct outcomes.
- The listing is returned in table order. The code sets no order; the model picks one.
- `login` picks the first user with the name. Usernames are unique (`Valid()`), so this
  is *the* user with that name.

## Model

| member | source | states |
|---|---|---|
| `Extensions.Lower` | app.py:49 | the lower-cased string has the same length and is, position by position, the ASCII lower-casing of the input |
| `Extensions.LastDot` | app.py:48-49 | the result is -1 or the index of a `.`, and no `.` follows it, so it is the split point of `rsplit('.', 1)` |
| `Extensions.AfterLastDot` | app.py:49 | the part compared with the allow-list contains no `.` and is shorter than the name |
| `Extensions.LastDotOfSplit` | app.py:49 | in `p + "." + e` with a dot-free `e`, the split happens right after `p`, at index len(p), whatever `p` contains |
| `Extensions.SuffixOfSplit` | app.py:49 | the suffix taken from `p + "." + e` with a dot-free `e` is exactly `e` |
| `Extensions.AllowedFileOfSplit` | app.py:47-49 | `p + "." + e` with a dot-free `e` is accepted iff `lower(e)` is one of the eight extensions |
| `Extensions.NoDotRejected` | app.py:48 | a name that contains no `.` is rejected |
| `Extensions.AllowedFileCharacterization` | app.py:47-49 | accepted iff the name is `p + "." + e` with `e` dot-free and `lower(e)` in the allow-list of line 20 (both directions) |
| `Extensions.TarPdfAccepted` | app.py:48-49 | `"a.tar.PDF"` is accepted: only the last suffix counts, compared case-insensitively |
| `Extensions.PdfExeRejected` | app.py:48-49 | `"x.pdf.exe"` is rejected: an allowed inner extension does not help |
| `Extensions.EdgeNames` | app.py:48-49 | `".txt"` (empty stem) is accepted and `"notes."` (empty suffix) is rejected |
| `Extensions.LowerKeepsDots` | app.py:49 | lower-casing neither creates nor removes a `.` |
| `Extensions.LowerOfSuffix` | app.py:49 | lower-casing a suffix equals taking the suffix of the lower-cased string |
| `Extensions.LastDotIgnoresCase` | app.py:49 | names equal up to ASCII case split at the same index |
| `Extensions.AllowedFileIgnoresCase` | app.py:47-49 | names equal up to ASCII case get the same verdict |
| `Extensions.LowerIdempotent` | app.py:49 | lower-casing twice equals lower-casing once |
| `Extensions.AllowedFileOfLower` | app.py:47-49 | lower-casing a name before the check never changes the verdict |
| `FileHosting.StorageNameInjective` | app.py:114 | a storage name `token + "_" + sanitised` built from UUID text determines both the token and the sanitised name |
| `FileHosting.FirstByUsername` | app.py:61 | the result is -1 exactly when no user has the name, and otherwise the first position holding that name |
| `FileHosting.FileById` | app.py:139 | the lookup by primary key finds a record with that id, or reports none only when no record has it |
| `FileHosting.OwnedBy` | app.py:132 | a record is in the result iff it is in the table and owned by the given user, and it occurs there exactly as often as in the table (each matching row once); other records occur zero times |
| `FileHosting.FileHost.constructor` | app.py:28-39 | the service starts with empty tables, an empty blob store, nobody logged in, and the invariant holds |
| `FileHosting.FileHost.StorageNamesDistinct` | app.py:113-116 | under the invariant, no two records share a storage name, so no upload overwrites another's bytes |
| `FileHosting.FileHost.Signup` | app.py:59-68 | refused with DuplicateUsername, table unchanged, iff the name is taken; otherwise appends exactly one user with that name and a fresh id `n + 1`; afterwards the name is registered; the file table, the blobs and the session are outside its frame |
| `FileHosting.FileHost.Login` | app.py:74-83 | succeeds iff some user has the name, then the session holds that user's id and that user is the only one with the name; on UnknownUser the session is unchanged |
| `FileHosting.FileHost.Logout` | app.py:87-92 | Unauthenticated iff nobody was logged in; afterwards nobody is |
| `FileHosting.FileHost.UploadFile` | app.py:96-125 | Unauthenticated, NoFilePart, NoSelectedFile, DisallowedExtension in that order, and on each no record, blob or token is added; succeeds iff logged in, a part is present and its name passes the allow-list; then appends exactly one record with id `n + 1`, the current user as owner, the client name unchanged and storage name `token + "_" + secure_filename(name)`, which was not in the blob store before, and stores the bytes under it, leaving every other blob unchanged |
| `FileHosting.FileHost.UploadedFiles` | app.py:130-133 | Unauthenticated iff nobody is logged in; otherwise exactly the records owned by the current user |
| `FileHosting.FileHost.DownloadFile` | app.py:137-144 | Unauthenticated if nobody is logged in; NotFound iff no record has the id; Forbidden iff the record is someone else's (no bytes returned); otherwise the bytes stored under the record's storage name, paired with its original name |
| `Scenarios.RegisterTwice` | app.py:61-66 | on a fresh service the first signup gives user 1 and a second signup with the same name gives DuplicateUsername |
| `Scenarios.AnonymousRequests` | app.py:87-144 | with nobody logged in, upload, listing, download and logout all give Unauthenticated |
| `Scenarios.UploadThenDownload` | app.py:111-144 | after signup, login and one allowed upload, the listing holds exactly one record with the client name and downloading it returns the uploaded bytes under that name |
| `Scenarios.AliceNotes` | app.py:111-144 | `alice` uploading `notes.txt` with content `hello` lists one `notes.txt` record and downloads `hello` |
| `Scenarios.OtherUserForbidden` | app.py:141-143 | a file uploaded by `alice` downloads as Forbidden for `bob` |
| `Scenarios.SameNameTwice` | app.py:113-120 | two uploads under one client name with distinct tokens give two records with distinct ids and storage names, each downloading its own bytes |

## Left out

- Routing, templates, `flash` messages, `redirect` and `url_for` (app.py:52-54 and every handler), and the GET branches that only render a form. Each error outcome of the model stands for one redirect-with-message, except NotFound, which is the 404 page that `get_or_404` aborts with (app.py:139).
- The ORM and the sqlite persistence, including `db.create_all` (app.py:12-13, 39). The tables are in-memory sequences, and ids are row positions plus one. That matches sqlite's auto-increment when no row is ever deleted, and no handler deletes.
- The 150-character `String` columns (app.py:30, 35-36): sqlite does not enforce the length, so the model has no bound.
- The internals of `secure_filename` (app.py:112), an external library call. It is an arbitrary fixed function.
- The randomness of `uuid.uuid4()` (app.py:114). The token is a parameter, and its freshness is a precondition of `UploadFile`.
- `file.save`, `send_from_directory` and its attachment headers, and creating the upload directory (app.py:116, 144, 147-149). These are I/O; the directory is the map `blobs`, which starts empty.
- The login-manager set-up, `load_user`, the secret key and `app.run` (app.py:9, 23-25, 42-44, 150). The session is modelled as the user id the login manager would reload.
- A missing `username` form field (app.py:60, 75), which the framework answers with a 400 error before the handler logic runs.
- The check-then-insert race on usernames under concurrent requests. Requests are sequential here.
- Extensions.Lower: lower-cases ASCII letters only, not full Unicode. For this allow-list the verdict is the same: the only non-ASCII character whose lower-case form is a plain ASCII letter is the Kelvin sign, which lowers to `k`, and no listed extension contains `k`.
- The truth test `file and ...` (app.py:110): an uploaded part is truthy exactly when its name is non-empty. That has already been checked on line 106, so the model tests only `allowed_file`.
- FileHosting.FileHost.DownloadFile: "the blob store is not read on Forbidden" cannot be written as a method contract. The model returns no bytes on that outcome, and its result on that branch does not depend on `blobs`.
- FileHosting.FileHost.DownloadFile: a `file_id` of 2^63 or more passes the `<int:file_id>` converter (app.py:136), but the sqlite driver cannot bind it as a 64-bit INTEGER inside `get_or_404` (app.py:139), so the code answers with a server error; the model's ids are unbounded and it answers NotFound there.
