/** The request handlers of the file-hosting service, taken apart from their HTTP
    wiring: a user table, a file table, a blob store keyed by storage name and the
    identity of the logged-in user, changed one request at a time. */
module FileHosting {
  import opened Extensions

  newtype byte = x: int | 0 <= x < 0x100
  type Bytes = seq<byte>

  /** A row of the user table; `id` is the auto-increment primary key. */
  datatype User = User(id: nat, username: string)

  /** A row of the file table: `filename` is the name the bytes are stored under,
      `originalFilename` the name the client sent, `ownerId` the uploading user. */
  datatype UserFile = UserFile(id: nat, filename: string, originalFilename: string, ownerId: nat)

  /** The `file` part of an upload request. */
  datatype FilePart = FilePart(filename: string, content: Bytes)

  /** What a successful download sends: the stored bytes and the name to save them under. */
  datatype Download = Download(content: Bytes, attachmentFilename: string)

  /** The outcomes on which a handler stops early: a redirect with a message, except
      NotFound, which is a 404 page. */
  datatype Error =
    | DuplicateUsername
    | UnknownUser
    | Unauthenticated
    | NoFilePart
    | NoSelectedFile
    | DisallowedExtension
    | NotFound
    | Forbidden

  datatype Option<+T> = None | Some(value: T)

  datatype Result<+T> = Success(value: T) | Failure(error: Error)

  /** The characters of the text form of a version-4 UUID. */
  const UuidAlphabet: set<char> :=
    {'0', '1', '2', '3', '4', '5', '6', '7', '8', '9', 'a', 'b', 'c', 'd', 'e', 'f', '-'}

  /** The text form of a UUID: 36 lower-case hexadecimal digits and hyphens. */
  predicate IsUuidText(t: string)
  {
    |t| == 36 && forall c :: c in t ==> c in UuidAlphabet
  }

  /** The name an upload is stored under: a random token, an underscore, the sanitised name. */
  function StorageName(token: string, secured: string): string
  {
    token + "_" + secured
  }

  /** A storage name determines the token and the sanitised name it was built from. */
  lemma StorageNameInjective(t1: string, s1: string, t2: string, s2: string)
    requires IsUuidText(t1) && IsUuidText(t2)
    requires StorageName(t1, s1) == StorageName(t2, s2)
    ensures t1 == t2 && s1 == s2
  {
    var n := StorageName(t1, s1);
    assert n[..36] == t1 && n[37..] == s1;
    assert n[..36] == t2 && n[37..] == s2;
  }

  /** The position of the first user named `username`, or -1 when there is none. */
  function FirstByUsername(users: seq<User>, username: string): (r: int)
    ensures -1 <= r < |users|
    ensures r >= 0 ==> users[r].username == username
    ensures forall j :: 0 <= j < |users| && (r < 0 || j < r) ==> users[j].username != username
  {
    if users == [] then -1
    else if users[0].username == username then 0
    else
      var k := FirstByUsername(users[1..], username);
      if k < 0 then -1 else k + 1
  }

  /** The record whose primary key is `id`, if any. */
  function FileById(files: seq<UserFile>, id: nat): (r: Option<UserFile>)
    ensures r.Some? ==> r.value in files && r.value.id == id
    ensures r.None? ==> forall f :: f in files ==> f.id != id
  {
    if files == [] then None
    else if files[0].id == id then Some(files[0])
    else FileById(files[1..], id)
  }

  /** The records owned by `owner`, in table order. */
  function OwnedBy(files: seq<UserFile>, owner: nat): (r: seq<UserFile>)
    ensures forall f :: f in r <==> f in files && f.ownerId == owner
    ensures forall f :: multiset(r)[f] == if f.ownerId == owner then multiset(files)[f] else 0
    ensures |r| <= |files|
  {
    if files == [] then []
    else
      assert files == [files[0]] + files[1..];
      (if files[0].ownerId == owner then [files[0]] else []) + OwnedBy(files[1..], owner)
  }

  /** The storage names of a file table. */
  function StorageNames(files: seq<UserFile>): set<string>
  {
    set f | f in files :: f.filename
  }

  class FileHost {
    /** The sanitiser applied to client-supplied names (an external library function). */
    const secureFilename: string -> string

    var users: seq<User>
    var files: seq<UserFile>
    var blobs: map<string, Bytes>
    /** The id of the logged-in user, if any. */
    var currentUser: Option<nat>
    /** The token each file record's storage name was built from, record by record. */
    ghost var tokens: seq<string>

    /** The state every handler keeps: ids are row positions plus one, usernames are
        unique, every record belongs to an existing user and is stored under a name
        built from its own token, tokens are distinct, and the blob store holds exactly
        the records' storage names. */
    ghost predicate Valid()
      reads this
    {
      && (forall i :: 0 <= i < |users| ==> users[i].id == i + 1)
      && (forall i, j :: 0 <= i < j < |users| ==> users[i].username != users[j].username)
      && (forall i :: 0 <= i < |files| ==> files[i].id == i + 1)
      && (forall i :: 0 <= i < |files| ==> 1 <= files[i].ownerId <= |users|)
      && |tokens| == |files|
      && (forall i :: 0 <= i < |files| ==>
            IsUuidText(tokens[i]) &&
            files[i].filename == StorageName(tokens[i], secureFilename(files[i].originalFilename)))
      && (forall i, j :: 0 <= i < j < |tokens| ==> tokens[i] != tokens[j])
      && blobs.Keys == StorageNames(files)
      && (currentUser.Some? ==> 1 <= currentUser.value <= |users|)
    }

    constructor (secureFilename: string -> string)
      ensures this.secureFilename == secureFilename
      ensures Valid()
      ensures users == [] && files == [] && blobs == map[] && currentUser == None && tokens == []
    {
      this.secureFilename := secureFilename;
      users, files, blobs, currentUser, tokens := [], [], map[], None, [];
    }

    /** No two records share a storage name, so no upload overwrites another's bytes. */
    lemma StorageNamesDistinct()
      requires Valid()
      ensures forall i, j :: 0 <= i < j < |files| ==> files[i].filename != files[j].filename
    {
      forall i, j | 0 <= i < j < |files|
        ensures files[i].filename != files[j].filename
      {
        if files[i].filename == files[j].filename {
          StorageNameInjective(tokens[i], secureFilename(files[i].originalFilename),
                               tokens[j], secureFilename(files[j].originalFilename));
        }
      }
    }

    /** Registration: refused when the username is taken, otherwise one new user. */
    method Signup(username: string) returns (r: Result<User>)
      requires Valid()
      modifies this`users
      ensures Valid()
      ensures r.Failure? <==> exists u :: u in old(users) && u.username == username
      ensures r.Failure? ==> r.error == DuplicateUsername && users == old(users)
      ensures r.Success? ==>
        && r.value == User(|old(users)| + 1, username)
        && (forall u :: u in old(users) ==> u.id != r.value.id)
        && users == old(users) + [r.value]
      ensures exists u :: u in users && u.username == username
    {
      var k := FirstByUsername(users, username);
      if k >= 0 {
        return Failure(DuplicateUsername);
      }
      var user := User(|users| + 1, username);
      users := users + [user];
      r := Success(user);
    }

    /** Login by username alone: binds the session to the user with that name. */
    method Login(username: string) returns (r: Result<User>)
      requires Valid()
      modifies this`currentUser
      ensures Valid()
      ensures r.Success? <==> exists u :: u in users && u.username == username
      ensures r.Success? ==> r.value in users && r.value.username == username && currentUser == Some(r.value.id)
      ensures r.Failure? ==> r.error == UnknownUser && currentUser == old(currentUser)
      ensures forall u :: u in users && u.username == username ==> r == Success(u)
    {
      var k := FirstByUsername(users, username);
      if k < 0 {
        return Failure(UnknownUser);
      }
      var user := users[k];
      currentUser := Some(user.id);
      r := Success(user);
    }

    /** Logout: only for a logged-in user; afterwards nobody is. */
    method Logout() returns (r: Result<()>)
      requires Valid()
      modifies this`currentUser
      ensures Valid()
      ensures r.Failure? <==> old(currentUser).None?
      ensures r.Failure? ==> r.error == Unauthenticated
      ensures currentUser == None
    {
      if currentUser.None? {
        return Failure(Unauthenticated);
      }
      currentUser := None;
      r := Success(());
    }

    /** Upload: checks the session, the file part, its name and the allow-list in that
        order; on success stores the bytes under a fresh storage name and appends one
        record owned by the current user. `token` is the random UUID text drawn for it. */
    method UploadFile(part: Option<FilePart>, token: string) returns (r: Result<UserFile>)
      requires Valid()
      requires IsUuidText(token) && token !in tokens
      modifies this`files, this`blobs, this`tokens
      ensures Valid()
      ensures currentUser.None? ==> r == Failure(Unauthenticated)
      ensures currentUser.Some? && part.None? ==> r == Failure(NoFilePart)
      ensures currentUser.Some? && part.Some? && part.value.filename == "" ==> r == Failure(NoSelectedFile)
      ensures currentUser.Some? && part.Some? && part.value.filename != "" && !AllowedFile(part.value.filename) ==>
        r == Failure(DisallowedExtension)
      ensures r.Success? <==> currentUser.Some? && part.Some? && AllowedFile(part.value.filename)
      ensures r.Failure? ==> files == old(files) && blobs == old(blobs) && tokens == old(tokens)
      ensures r.Success? ==>
        && r.value.id == |old(files)| + 1
        && r.value.ownerId == currentUser.value
        && r.value.originalFilename == part.value.filename
        && r.value.filename == StorageName(token, secureFilename(part.value.filename))
        && r.value.filename !in old(blobs)
        && files == old(files) + [r.value]
        && blobs == old(blobs)[r.value.filename := part.value.content]
        && tokens == old(tokens) + [token]
    {
      if currentUser.None? {
        return Failure(Unauthenticated);
      }
      if part.None? {
        return Failure(NoFilePart);
      }
      var file := part.value;
      if file.filename == "" {
        return Failure(NoSelectedFile);
      }
      if !AllowedFile(file.filename) {
        return Failure(DisallowedExtension);
      }
      var uniqueFilename := StorageName(token, secureFilename(file.filename));
      forall f | f in files
        ensures f.filename != uniqueFilename
      {
        var i :| 0 <= i < |files| && files[i] == f;
        if f.filename == uniqueFilename {
          StorageNameInjective(tokens[i], secureFilename(f.originalFilename), token, secureFilename(file.filename));
        }
      }
      blobs := blobs[uniqueFilename := file.content];
      var record := UserFile(|files| + 1, uniqueFilename, file.filename, currentUser.value);
      files := files + [record];
      tokens := tokens + [token];
      assert StorageNames(files) == StorageNames(old(files)) + {uniqueFilename};
      r := Success(record);
    }

    /** Listing: the records the logged-in user owns. */
    method UploadedFiles() returns (r: Result<seq<UserFile>>)
      ensures currentUser.None? ==> r == Failure(Unauthenticated)
      ensures currentUser.Some? ==> r == Success(OwnedBy(files, currentUser.value))
      ensures currentUser.Some? ==> forall f :: f in r.value <==> f in files && f.ownerId == currentUser.value
    {
      if currentUser.None? {
        return Failure(Unauthenticated);
      }
      r := Success(OwnedBy(files, currentUser.value));
    }

    /** Download: a record that does not exist is NotFound, one owned by someone else is
        Forbidden (and no bytes are returned), otherwise its bytes under its original name. */
    method DownloadFile(fileId: nat) returns (r: Result<Download>)
      requires Valid()
      ensures currentUser.None? ==> r == Failure(Unauthenticated)
      ensures r == Failure(NotFound) <==>
        currentUser.Some? && forall f :: f in files ==> f.id != fileId
      ensures r == Failure(Forbidden) <==>
        currentUser.Some? && exists f :: f in files && f.id == fileId && f.ownerId != currentUser.value
      ensures r.Success? <==>
        currentUser.Some? && exists f :: f in files && f.id == fileId && f.ownerId == currentUser.value
      ensures r.Success? ==>
        exists f :: f in files && f.id == fileId && f.filename in blobs &&
          r.value == Download(blobs[f.filename], f.originalFilename)
    {
      if currentUser.None? {
        return Failure(Unauthenticated);
      }
      var found := FileById(files, fileId);
      if found.None? {
        return Failure(NotFound);
      }
      var userFile := found.value;
      if userFile.ownerId != currentUser.value {
        return Failure(Forbidden);
      }
      assert userFile.filename in StorageNames(files);
      r := Success(Download(blobs[userFile.filename], userFile.originalFilename));
    }
  }
}
