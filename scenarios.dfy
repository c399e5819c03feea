/** Request sequences against a freshly started service, proved from the handlers'
    contracts alone. The sanitiser and the drawn tokens are left open. */
module Scenarios {
  import opened Extensions
  import opened FileHosting

  /** The bytes of the text "hello". */
  const Hello: Bytes := [104, 101, 108, 108, 111]

  /** Registering the same name twice: the second attempt is refused. */
  method RegisterTwice(secure: string -> string, username: string)
    returns (first: Result<User>, second: Result<User>)
    ensures first == Success(User(1, username))
    ensures second == Failure(DuplicateUsername)
  {
    var host := new FileHost(secure);
    first := host.Signup(username);
    second := host.Signup(username);
  }

  /** Before anyone logs in, every protected handler answers Unauthenticated. */
  method AnonymousRequests(secure: string -> string, part: Option<FilePart>, token: string, fileId: nat)
    returns (up: Result<UserFile>, listed: Result<seq<UserFile>>, got: Result<Download>, out: Result<()>)
    requires IsUuidText(token)
    ensures up == Failure(Unauthenticated)
    ensures listed == Failure(Unauthenticated)
    ensures got == Failure(Unauthenticated)
    ensures out == Failure(Unauthenticated)
  {
    var host := new FileHost(secure);
    var _ := host.Signup("alice");
    up := host.UploadFile(part, token);
    listed := host.UploadedFiles();
    got := host.DownloadFile(1);
    out := host.Logout();
  }

  /** Register, log in, upload one allowed file: the listing shows exactly that record
      and downloading it gives back the same bytes under the client's name. */
  method UploadThenDownload(secure: string -> string, username: string, name: string, content: Bytes, token: string)
    returns (listed: Result<seq<UserFile>>, got: Result<Download>)
    requires AllowedFile(name) && IsUuidText(token)
    ensures listed.Success? && |listed.value| == 1 && listed.value[0].originalFilename == name
    ensures got == Success(Download(content, name))
  {
    var host := new FileHost(secure);
    var _ := host.Signup(username);
    var _ := host.Login(username);
    var up := host.UploadFile(Some(FilePart(name, content)), token);
    listed := host.UploadedFiles();
    assert up.value in listed.value;
    got := host.DownloadFile(up.value.id);
  }

  /** The walk-through with concrete names: alice uploads "notes.txt" holding "hello". */
  method AliceNotes(secure: string -> string, token: string)
    returns (listed: Result<seq<UserFile>>, got: Result<Download>)
    requires IsUuidText(token)
    ensures listed.Success? && |listed.value| == 1 && listed.value[0].originalFilename == "notes.txt"
    ensures got == Success(Download(Hello, "notes.txt"))
  {
    assert "notes" + "." + "txt" == "notes.txt";
    AllowedFileOfSplit("notes", "txt");
    assert Lower("txt") == "txt";
    listed, got := UploadThenDownload(secure, "alice", "notes.txt", Hello, token);
  }

  /** A file uploaded by one user cannot be downloaded by another, even by its id. */
  method OtherUserForbidden(secure: string -> string, name: string, content: Bytes, token: string)
    returns (got: Result<Download>)
    requires AllowedFile(name) && IsUuidText(token)
    ensures got == Failure(Forbidden)
  {
    var host := new FileHost(secure);
    var _ := host.Signup("alice");
    var _ := host.Signup("bob");
    var _ := host.Login("alice");
    var up := host.UploadFile(Some(FilePart(name, content)), token);
    var _ := host.Login("bob");
    got := host.DownloadFile(up.value.id);
  }

  /** Two uploads under the same client name make two records with two storage names,
      and each still downloads its own bytes. */
  method SameNameTwice(secure: string -> string, name: string, c1: Bytes, c2: Bytes, t1: string, t2: string)
    returns (a: Result<UserFile>, b: Result<UserFile>, da: Result<Download>, db: Result<Download>)
    requires AllowedFile(name) && IsUuidText(t1) && IsUuidText(t2) && t1 != t2
    ensures a.Success? && b.Success?
    ensures a.value.id != b.value.id && a.value.filename != b.value.filename
    ensures da == Success(Download(c1, name)) && db == Success(Download(c2, name))
  {
    var host := new FileHost(secure);
    var _ := host.Signup("alice");
    var _ := host.Login("alice");
    a := host.UploadFile(Some(FilePart(name, c1)), t1);
    b := host.UploadFile(Some(FilePart(name, c2)), t2);
    host.StorageNamesDistinct();
    assert host.files == [a.value, b.value];
    da := host.DownloadFile(a.value.id);
    db := host.DownloadFile(b.value.id);
  }
}
