/**
 * The controller that serves stored files: the path is split at `/` and its first segment is
 * looked up as a storage key; a download (`dl`) response names the file, any other response
 * carries cache headers and may be answered as not modified.
 */
module StoredFileController {
  import opened Wrappers
  import opened Strings
  import opened Entities
  import opened UrlGeneration

  /** `MimeTypes::getExtensions`: the extensions known for a mime type, most usual first. */
  type MimeExtensions = string -> seq<string>

  /** The request: whether it has a `dl` parameter, and Symfony's conditional-request check of an
      ETag and a last-modified time against its headers. */
  datatype Request = Request(download: bool, notModified: (Option<string>, int) -> bool)

  /** The `Content-Disposition: attachment` header built from a file name and its ASCII fallback. */
  datatype Disposition = Attachment(filename: string, fallback: string)

  datatype Body = NoBody | Text(text: string) | Blob(bytes: Bytes)

  datatype Response = Response(
    status: nat,
    body: Body,
    disposition: Option<Disposition>,
    etag: Option<string>,
    lastModified: Option<int>,
    contentType: Option<string>,
    contentLength: Option<string>)

  /** A fresh `Response`: status 200, nothing set. */
  const EmptyResponse := Response(200, NoBody, None, None, None, None, None)

  /** The answer for a key no record has. */
  const NotFound := EmptyResponse.(status := 404, body := Text("File not found."))

  /** Why a request is not answered with a response. */
  datatype HttpError = AccessDenied | Raised(error: Error)

  /** `getFile`: the first record with the storage key. */
  function FindByStorageKey(records: seq<StoredFile>, key: string): (r: StoredFile?)
    ensures r != null ==> r in records && r.storageKey == Some(key)
    ensures r == null ==> forall i :: 0 <= i < |records| ==> records[i].storageKey != Some(key)
    decreases |records|
  {
    if |records| == 0 then null
    else if records[0].storageKey == Some(key) then records[0]
    else FindByStorageKey(records[1..], key)
  }

  /** With storage keys unique among the records, the lookup finds the record holding the key. */
  lemma {:induction false} FindByUniqueKey(records: seq<StoredFile>, sf: StoredFile)
    requires sf in records && sf.storageKey.Some?
    requires forall i, j :: 0 <= i < j < |records| ==> records[i].storageKey != records[j].storageKey
    ensures FindByStorageKey(records, sf.storageKey.value) == sf
    decreases |records|
  {
    if records[0] != sf {
      assert records[0].storageKey != sf.storageKey by {
        var k :| 0 <= k < |records| && records[k] == sf;
        assert k > 0;
      }
      assert sf in records[1..];
      FindByUniqueKey(records[1..], sf);
    }
  }

  /** The record a path names: the record of its first `/`-segment. */
  function RequestedFile(records: seq<StoredFile>, path: string): (r: StoredFile?)
    ensures r != null ==> r in records && r.storageKey == Some(Split(path, '/')[0])
  {
    FindByStorageKey(records, Split(path, '/')[0])
  }

  /** The download name: the last segment of a path with several, else the record's file name. */
  function DownloadName(parts: seq<string>, recordFilename: Option<string>): (r: string)
    requires |parts| >= 1
    ensures |parts| == 1 ==> r == recordFilename.GetOr("")
    ensures |parts| > 1 ==> r == parts[|parts| - 1]
  {
    if |parts| > 1 then parts[|parts| - 1] else recordFilename.GetOr("")
  }

  /** The fallback made from the record: its storage key, with `.` and the sanitised extension
      (the first one known for the mime type, else the record's) when that is truthy. */
  function KeyFallback(storageKey: Option<string>, mimeType: Option<string>, extension: Option<string>,
                       extensionsOf: MimeExtensions): string
  {
    var known := extensionsOf(mimeType.GetOr(""));
    var ext := SanitizeUrl(if |known| > 0 then known[0] else extension.GetOr(""));
    storageKey.GetOr("") + (if Truthy(ext) then "." + ext else "")
  }

  /** The ASCII fallback of a download name: the sanitised name (falsy read as ""), unless
      sanitising changed the name, in which case the record's key fallback. */
  function DownloadFallback(name: string, storageKey: Option<string>, mimeType: Option<string>,
                            extension: Option<string>, extensionsOf: MimeExtensions): (r: string)
    ensures Truthy(name) && (forall i :: 0 <= i < |name| ==> IsUrlChar(name[i])) ==> r == name
    ensures name == "" ==> r == ""
    ensures (name == "0" || exists i :: 0 <= i < |name| && !IsUrlChar(name[i])) ==>
      r == KeyFallback(storageKey, mimeType, extension, extensionsOf)
  {
    var sanitized := SanitizeUrl(name);
    var fallback := if Truthy(sanitized) then sanitized else "";
    if fallback != name then KeyFallback(storageKey, mimeType, extension, extensionsOf) else fallback
  }

  /** The response with the record's contents: the bytes, the record's mime type, and a length
      that is the number of bytes; a backend failure is raised instead. */
  function WithContents(response: Response, file: StoredFile, fsMap: map<string, Filesystem>): (r: Result<Response, Error>)
    reads file, file.repository, fsMap.Values
    ensures r.Success? <==> file.Contents(fsMap).Success?
    ensures r.Failure? ==> r.error == file.Contents(fsMap).error
    ensures r.Success? ==> var bytes := file.Contents(fsMap).value;
      r.value == response.(body := Blob(bytes), contentType := file.mimeType, contentLength := Some(Decimal(|bytes|)))
  {
    match file.Contents(fsMap)
    case Failure(e) => Failure(e)
    case Success(bytes) => Success(response.(body := Blob(bytes), contentType := file.mimeType, contentLength := Some(Decimal(|bytes|))))
  }

  /** The repositories of the records, as a frame. */
  function RepositoriesOf(records: seq<StoredFile>): set<Repository>
    reads records
  {
    set x | x in records && x.repository != null :: x.repository
  }

  /** What `createFileResponse` at time `now` answers with `r`, and how it leaves the records: 404
      for an unknown key; a download names the file; any other response sets the storage key as
      ETag and the creation time (initialised on first read) as last-modified, and is 304 without
      contents when the request is not modified; only the requested record's creation time may
      change, and only when it is not a download. */
  twostate predicate Served(request: Request, path: string, records: seq<StoredFile>,
                            fsMap: map<string, Filesystem>, extensionsOf: MimeExtensions, now: int,
                            new r: Result<Response, Error>)
    reads records, RepositoriesOf(records), fsMap.Values
  {
    (forall x :: x in records && (x != RequestedFile(records, path) || request.download) ==>
       x.createdAt == old(x.createdAt)) &&
    (RequestedFile(records, path) == null ==> r == Success(NotFound)) &&
    (var file := RequestedFile(records, path);
     file != null && request.download ==>
       var name := DownloadName(Split(path, '/'), file.filename);
       var fallback := DownloadFallback(name, file.storageKey, file.mimeType, file.extension, extensionsOf);
       r == WithContents(EmptyResponse.(disposition := Some(Attachment(name, fallback))), file, fsMap)) &&
    (var file := RequestedFile(records, path);
     file != null && !request.download ==>
       file.createdAt == Some(old(file.createdAt).GetOr(now)) &&
       var cached := EmptyResponse.(etag := file.storageKey, lastModified := file.createdAt);
       if request.notModified(file.storageKey, file.createdAt.value) then r == Success(cached.(status := 304))
       else r == WithContents(cached, file, fsMap))
  }

  /** `createFileResponse` at time `now`: 404 for an unknown key; a download names the file; any
      other response sets the storage key as ETag and the creation time (initialised on first
      read) as last-modified, and is 304 without contents when the request is not modified. */
  method CreateFileResponse(request: Request, path: string, records: seq<StoredFile>,
                            fsMap: map<string, Filesystem>, extensionsOf: MimeExtensions, now: int)
    returns (r: Result<Response, Error>)
    modifies records`createdAt
    ensures Served(request, path, records, fsMap, extensionsOf, now, r)
  {
    var parts := Split(path, '/');
    var file := FindByStorageKey(records, parts[0]);
    if file == null {
      return Success(NotFound);
    }
    var response := EmptyResponse;
    if request.download {
      var name := DownloadName(parts, file.filename);
      var fallback := DownloadFallback(name, file.storageKey, file.mimeType, file.extension, extensionsOf);
      response := response.(disposition := Some(Attachment(name, fallback)));
    } else {
      var created := file.GetCreatedAt(now);
      response := response.(etag := file.storageKey, lastModified := Some(created));
      if request.notModified(file.storageKey, created) {
        return Success(response.(status := 304));
      }
    }
    var contents := file.Contents(fsMap);
    if contents.Failure? {
      return Failure(contents.error);
    }
    var size := file.Size(fsMap);
    file.SizeIsContentLength(fsMap);
    r := Success(response.(body := Blob(contents.value), contentType := file.mimeType,
                           contentLength := Some(Decimal(size.value))));
  }

  /** A failure of the response raised as an error of the request. */
  function Raise(r: Result<Response, Error>): (h: Result<Response, HttpError>)
    ensures r.Success? ==> h == Success(r.value)
    ensures r.Failure? ==> h == Failure(Raised(r.error))
  {
    match r
    case Success(response) => Success(response)
    case Failure(e) => Failure(Raised(e))
  }

  /** `getAction`: a disabled controller is denied before anything is looked up; an enabled one
      answers with `createFileResponse`'s response, `response`, whose failure is raised. */
  method GetAction(enabled: bool, request: Request, path: string, records: seq<StoredFile>,
                   fsMap: map<string, Filesystem>, extensionsOf: MimeExtensions, now: int)
    returns (r: Result<Response, HttpError>, ghost response: Result<Response, Error>)
    modifies records`createdAt
    ensures !enabled ==> r == Failure(AccessDenied) && forall x :: x in records ==> x.createdAt == old(x.createdAt)
    ensures enabled ==> r == Raise(response) && Served(request, path, records, fsMap, extensionsOf, now, response)
    ensures enabled && RequestedFile(records, path) == null ==> r == Success(NotFound)
  {
    if !enabled {
      return Failure(AccessDenied), Failure(NoStorageKey);
    }
    var served := CreateFileResponse(request, path, records, fsMap, extensionsOf, now);
    response := served;
    r := Raise(served);
  }

  /** The URL of a record leads back to it: with unique storage keys and a storage key without
      `/`, the controller looks up that very record, and when neither the repository name nor the
      file name contains `/` a download is named by the record's file name. */
  lemma GeneratedKeyServesRecord(records: seq<StoredFile>, sf: StoredFile)
    requires sf in records && sf.repository != null && sf.storageKey.Some? && '/' !in sf.storageKey.value
    requires forall i, j :: 0 <= i < j < |records| ==> records[i].storageKey != records[j].storageKey
    ensures RequestedFile(records, RecordKey(sf)) == sf
    ensures '/' !in sf.repository.Name() && '/' !in sf.filename.GetOr("") ==>
      DownloadName(Split(RecordKey(sf), '/'), sf.filename) == sf.filename.GetOr("")
  {
    CompositeFirstSegment(sf.storageKey.value, sf.repository.Name(), sf.filename.GetOr(""));
    FindByUniqueKey(records, sf);
    if '/' !in sf.repository.Name() && '/' !in sf.filename.GetOr("") {
      CompositeSplit(sf.storageKey.value, sf.repository.Name(), sf.filename.GetOr(""));
    }
  }
}
