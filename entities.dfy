/**
 * The persistent entities of the file repository: `Repository` (a named, configured container of
 * files), `StoredFile` (the record of one stored blob), the storage backend `Filesystem`, and the
 * `SourceFile` value handed to a put.
 */
module Entities {
  import opened Wrappers
  import opened Strings
  import opened RepositoryConfig
  import opened Exceptions
  import opened PutContext
  import opened KeyGenerators

  newtype byte = b: int | 0 <= b < 256
  type Bytes = seq<byte>

  /** A value of a record's `meta` array. */
  datatype MetaValue = MetaText(text: string) | MetaMap(entries: map<string, string>)
  type Meta = map<string, MetaValue>

  /** The class of the PHP file object: a bare `SplFileInfo`, Symfony's `File` (also the class of
      the thumbnail alternatives), an `UploadedFile` with its client-side name and mime type, or a
      `Base64File`. */
  datatype FileKind = Plain | SymfonyFile | Uploaded(clientName: string, clientMime: Option<string>) | Base64Encoded

  /** Whether the file class uses the alternative-file marker trait, and the trait's payload. */
  datatype Origin =
    | Fresh
    | Derived(originalFile: Option<SourceFile>, originalStoredFile: StoredFile?, thumbnailConfig: ThumbConfig)

  /** A file handed to a put. `mimeType` is what mime guessing reports for it, `contents` the bytes
      `file_get_contents` yields at its pathname (None when unreadable). */
  datatype SourceFile = SourceFile(
    pathname: string,
    filename: string,
    extension: string,
    kind: FileKind,
    mimeType: Option<string>,
    contents: Option<Bytes>,
    origin: Origin)
  {
    /** `$file instanceof File`. */
    predicate IsFile()
    {
      kind.SymfonyFile? || kind.Uploaded?
    }

    /** `is_file` on the pathname: never for a `Base64File`, whose pathname is its `data:` URI;
        for the other classes, exactly when the bytes at the pathname can be read. */
    predicate IsRegularFile()
    {
      !kind.Base64Encoded? && contents.Some?
    }

    /** `Interceptor::isAlternative`: the class uses the marker trait. */
    predicate IsAlternative()
    {
      origin.Derived?
    }

    /** The name a record gets: the client name for uploads, the file name otherwise. */
    function RecordFilename(): string
    {
      if kind.Uploaded? then kind.clientName else filename
    }

    /** The extension a record gets: the client name's extension for uploads. */
    function RecordExtension(): string
    {
      if kind.Uploaded? then PathExtension(kind.clientName) else extension
    }

    /** The mime type a record gets: only files and base64 files report one. */
    function RecordMime(): Option<string>
    {
      if IsFile() || kind.Base64Encoded? then mimeType else None
    }

    /** `setOriginalFile`. */
    function SetOriginalFile(f: SourceFile): (r: SourceFile)
      requires origin.Derived?
      ensures r.origin.Derived? && r.origin.originalFile == Some(f)
      ensures r.origin.originalStoredFile == origin.originalStoredFile
      ensures r.origin.thumbnailConfig == origin.thumbnailConfig
      ensures r.(origin := origin) == this
    {
      this.(origin := origin.(originalFile := Some(f)))
    }

    /** `setOriginalStoredFile`. */
    function SetOriginalStoredFile(s: StoredFile): (r: SourceFile)
      requires origin.Derived?
      ensures r.origin.Derived? && r.origin.originalStoredFile == s
      ensures r.origin.originalFile == origin.originalFile
      ensures r.origin.thumbnailConfig == origin.thumbnailConfig
      ensures r.(origin := origin) == this
    {
      this.(origin := origin.(originalStoredFile := s))
    }

    /** `setThumbnailConfig`. */
    function SetThumbnailConfig(c: ThumbConfig): (r: SourceFile)
      requires origin.Derived?
      ensures r.origin.Derived? && r.origin.thumbnailConfig == c
      ensures r.origin.originalFile == origin.originalFile
      ensures r.origin.originalStoredFile == origin.originalStoredFile
      ensures r.(origin := origin) == this
    {
      this.(origin := origin.(thumbnailConfig := c))
    }
  }

  /** A new object of a class that uses the marker trait: nothing set yet, the config `[]`. */
  function NewAlternative(pathname: string, filename: string, extension: string, kind: FileKind,
                          mimeType: Option<string>, contents: Option<Bytes>): (r: SourceFile)
    ensures r.IsAlternative()
    ensures r.origin.originalFile.None? && r.origin.originalStoredFile == null && r.origin.thumbnailConfig == map[]
  {
    SourceFile(pathname, filename, extension, kind, mimeType, contents, Derived(None, null, map[]))
  }

  /** Each trait getter returns the value its setter last stored, whatever else was set in between. */
  lemma TraitGettersReturnLastSet(f: SourceFile, o1: SourceFile, o2: SourceFile, s: StoredFile, c1: ThumbConfig, c2: ThumbConfig)
    requires f.origin.Derived?
    ensures f.SetOriginalFile(o1).SetOriginalStoredFile(s).SetThumbnailConfig(c1).origin.originalFile == Some(o1)
    ensures f.SetOriginalFile(o1).SetOriginalFile(o2).origin.originalFile == Some(o2)
    ensures f.SetOriginalStoredFile(s).SetThumbnailConfig(c1).SetOriginalFile(o1).origin.originalStoredFile == s
    ensures f.SetThumbnailConfig(c1).SetOriginalFile(o1).SetThumbnailConfig(c2).origin.thumbnailConfig == c2
  {
  }

  /** The failures the core can raise. */
  datatype Error =
    | RepositoryNotFound(repositoryName: string)
    | InvalidConfig(invalid: InvalidRepositoryConfig)
    | ServiceNotFound(serviceId: string)
    | UnknownFilesystem(filesystemName: string)
    | NoStorageKey
    | Unreadable(path: string)
    | FileAlreadyExists(key: string)
    | FileNotFound(key: string)
    | DuplicateStorageKey(key: string)
    | ValidationFailed(validation: FileValidationException<SourceFile, Repository>)
    | BadContext(contextKey: string)
    | MissingAlternativePayload
    | MissingRepository
    | BadThumbnailConfig
    | InvalidBoxSize
    | NotImageGiven(path: string)
    | PathNotFound(path: string)

  /** `Repository::setConfig`'s rule: `filesystem` is required; an unset `storage_key_generator`
      becomes the uniqid generator; every other key is kept as given. */
  function ValidatedConfig(config: Config): (r: Result<Config, InvalidRepositoryConfig>)
    ensures r.Failure? <==> config.filesystem.None?
    ensures r.Failure? ==> r.error == CreateInvalidRepositoryConfig("filesystem", config)
    ensures r.Success? ==> r.value.filesystem == config.filesystem && r.value.storageKeyGenerator.Some?
    ensures r.Success? ==> r.value.interceptors == config.interceptors
    ensures r.Success? && config.storageKeyGenerator.Some? ==> r.value == config
    ensures r.Success? && config.storageKeyGenerator.None? ==>
      r.value == config.(storageKeyGenerator := Some(UNIQID_KEY_GENERATOR))
  {
    if config.filesystem.None? then Failure(CreateInvalidRepositoryConfig("filesystem", config))
    else if config.storageKeyGenerator.None? then Success(config.(storageKeyGenerator := Some(UNIQID_KEY_GENERATOR)))
    else Success(config)
  }

  /** Validating twice changes nothing more: an accepted config is accepted unchanged. */
  lemma ValidatedConfigIdempotent(config: Config)
    requires ValidatedConfig(config).Success?
    ensures ValidatedConfig(ValidatedConfig(config).value) == ValidatedConfig(config)
  {
  }

  /** The author a new record takes from the put context: only a string `author`. */
  function ContextAuthor(ctx: Context): (r: Option<string>)
    ensures r.Some? <==> "author" in ctx && ctx["author"].Str?
    ensures r.Some? ==> r.value == ctx["author"].s
  {
    if "author" in ctx && ctx["author"].Str? then Some(ctx["author"].s) else None
  }

  /** `array_merge($current, $m)` on string keys: `m`'s keys override, all other keys stay. */
  function ArrayMerge(current: Meta, m: Meta): (r: Meta)
    ensures r.Keys == current.Keys + m.Keys
    ensures forall k :: k in m ==> r[k] == m[k]
    ensures forall k :: k in current && k !in m ==> r[k] == current[k]
  {
    current + m
  }

  /** The meta entry `updateStoredFileAlternativeMeta` merges in. */
  function ThumbnailMeta(config: ThumbConfig): Meta
  {
    map["thumbnail" := MetaMap(config)]
  }

  /** Merging the thumbnail entry stores exactly that config under `thumbnail`, keeps every other key,
      and a later merge replaces an earlier one. */
  lemma ThumbnailMetaMerge(current: Meta, c1: ThumbConfig, c2: ThumbConfig)
    ensures ArrayMerge(current, ThumbnailMeta(c1))["thumbnail"] == MetaMap(c1)
    ensures forall k :: k in current && k != "thumbnail" ==> ArrayMerge(current, ThumbnailMeta(c1))[k] == current[k]
    ensures ArrayMerge(ArrayMerge(current, ThumbnailMeta(c1)), ThumbnailMeta(c2)) == ArrayMerge(current, ThumbnailMeta(c2))
  {
    var once := ArrayMerge(current, ThumbnailMeta(c2));
    var twice := ArrayMerge(ArrayMerge(current, ThumbnailMeta(c1)), ThumbnailMeta(c2));
    assert twice.Keys == once.Keys;
    forall k | k in twice
      ensures twice[k] == once[k]
    {
    }
  }

  /** A storage backend: blobs by key, plus per-key metadata when the adapter supports it. */
  class Filesystem {
    var blobs: map<string, Bytes>
    var metadata: map<string, map<string, string>>
    const supportsMetadata: bool

    constructor(supportsMetadata: bool)
      ensures blobs == map[] && metadata == map[] && this.supportsMetadata == supportsMetadata
    {
      blobs := map[];
      metadata := map[];
      this.supportsMetadata := supportsMetadata;
    }

    /** Writes a blob; without `overwrite` an existing key makes it throw `FileAlreadyExists`. */
    method Write(key: string, content: Bytes, overwrite: bool) returns (o: Outcome<Error>)
      modifies this`blobs
      ensures !overwrite && key in old(blobs) ==> o == Fail(FileAlreadyExists(key)) && blobs == old(blobs)
      ensures overwrite || key !in old(blobs) ==> o == Pass && blobs == old(blobs)[key := content]
    {
      if !overwrite && key in blobs {
        return Fail(FileAlreadyExists(key));
      }
      blobs := blobs[key := content];
      o := Pass;
    }

    /** Reads a blob, or throws `FileNotFound`. */
    function Read(key: string): (r: Result<Bytes, Error>)
      reads this
      ensures key in blobs <==> r.Success?
      ensures r.Success? ==> r.value == blobs[key]
      ensures r.Failure? ==> r.error == FileNotFound(key)
    {
      if key in blobs then Success(blobs[key]) else Failure(FileNotFound(key))
    }

    /** The size of a blob, or `FileNotFound`. */
    function Size(key: string): (r: Result<nat, Error>)
      reads this
      ensures key in blobs <==> r.Success?
      ensures r.Success? ==> r.value == |blobs[key]|
    {
      if key in blobs then Success(|blobs[key]|) else Failure(FileNotFound(key))
    }

    /** The checksum of a blob (`checksumOf` is the digest function), or `FileNotFound`. */
    function Checksum(key: string, checksumOf: Bytes -> string): (r: Result<string, Error>)
      reads this
      ensures key in blobs <==> r.Success?
      ensures r.Success? ==> r.value == checksumOf(blobs[key])
    {
      if key in blobs then Success(checksumOf(blobs[key])) else Failure(FileNotFound(key))
    }

    /** Deletes a blob, or throws `FileNotFound`. */
    method Delete(key: string) returns (o: Outcome<Error>)
      modifies this`blobs
      ensures key in old(blobs) ==> o == Pass && blobs == old(blobs) - {key}
      ensures key !in old(blobs) ==> o == Fail(FileNotFound(key)) && blobs == old(blobs)
    {
      if key !in blobs {
        return Fail(FileNotFound(key));
      }
      blobs := blobs - {key};
      o := Pass;
    }

    /** `MetadataSupporter::setMetadata`. */
    method SetMetadata(key: string, m: map<string, string>)
      modifies this`metadata
      ensures metadata == old(metadata)[key := m]
    {
      metadata := metadata[key := m];
    }
  }

  /** A file repository: a name, a configuration, and the records stored in it. */
  class Repository {
    var id: Option<int>
    const name: Option<string>
    var config: Config
    var displayLabel: Option<string>
    var files: Option<seq<StoredFile>>

    /** An object whose constructor has only assigned the name so far. */
    constructor(name: Option<string>)
      ensures this.name == name && config == EmptyConfig && files.None? && id.None? && displayLabel.None?
    {
      this.name := name;
      config := EmptyConfig;
      files := None;
      id := None;
      displayLabel := None;
    }

    /** `new Repository($name, $config)`: assigns the name, goes through `setConfig` (which may throw),
        then initialises the file collection. */
    static method Create(name: string, config: Config) returns (r: Result<Repository, Error>)
      ensures config.filesystem.None? ==> r == Failure(InvalidConfig(CreateInvalidRepositoryConfig("filesystem", config)))
      ensures config.filesystem.Some? ==> r.Success?
      ensures r.Success? ==> (fresh(r.value) && r.value.name == Some(name) &&
        r.value.config == ValidatedConfig(config).value && r.value.Valid() &&
        r.value.files == Some([]) && r.value.id.None? && r.value.displayLabel.None?)
    {
      var repo := new Repository(Some(name));
      var o := repo.SetConfig(config);
      if o.Fail? {
        return Failure(o.error);
      }
      var _ := repo.GetFiles();
      r := Success(repo);
    }

    /** Both keys every accepted config has. */
    predicate Valid()
      reads this`config
    {
      config.filesystem.Some? && config.storageKeyGenerator.Some?
    }

    /** `setConfig`: rejects a config without `filesystem` and keeps the old one; otherwise stores the
        validated config. */
    method SetConfig(c: Config) returns (o: Outcome<Error>)
      modifies this`config
      ensures ValidatedConfig(c).Failure? ==> o == Fail(InvalidConfig(ValidatedConfig(c).error)) && config == old(config)
      ensures ValidatedConfig(c).Success? ==> o == Pass && config == ValidatedConfig(c).value && Valid()
    {
      var v := ValidatedConfig(c);
      if v.Failure? {
        return Fail(InvalidConfig(v.error));
      }
      config := v.value;
      o := Pass;
    }

    /** `getName`: the name, or "" when it is null. */
    function Name(): (r: string)
      reads {}
      ensures name.Some? ==> r == name.value
      ensures name.None? ==> r == ""
    {
      name.GetOr("")
    }

    /** `getFiles`: creates the empty collection on first use and returns the collection. */
    method GetFiles() returns (fs: seq<StoredFile>)
      modifies this`files
      ensures files == Some(old(files).GetOr([])) && fs == files.value
    {
      if files.None? {
        files := Some([]);
      }
      fs := files.value;
    }

    /** `getFilesystem`: the backend named by `filesystem` ("" when unset) in the filesystem map. */
    function GetFilesystem(fsMap: map<string, Filesystem>): (r: Result<Filesystem, Error>)
      reads this`config
      ensures config.filesystem.GetOr("") in fsMap ==> r == Success(fsMap[config.filesystem.GetOr("")])
      ensures config.filesystem.GetOr("") !in fsMap ==> r == Failure(UnknownFilesystem(config.filesystem.GetOr("")))
    {
      var n := config.filesystem.GetOr("");
      if n in fsMap then Success(fsMap[n]) else Failure(UnknownFilesystem(n))
    }

    /** `generateStorageKey`: delegates to the generator service named by `storage_key_generator`;
        `token` is the value `uniqid()` yields for this call. */
    function StorageKeyFor(file: SourceFile, ctx: Context, generators: map<string, KeyGenerator>, token: string)
      : (r: Result<string, Error>)
      reads this`config
      ensures config.storageKeyGenerator.GetOr("") !in generators ==>
        r == Failure(ServiceNotFound(config.storageKeyGenerator.GetOr("")))
      ensures config.storageKeyGenerator.GetOr("") in generators ==>
        r == Success(GenerateStorageKey(generators[config.storageKeyGenerator.GetOr("")], token, file.filename, file.extension, ctx))
    {
      var id := config.storageKeyGenerator.GetOr("");
      if id !in generators then Failure(ServiceNotFound(id))
      else Success(GenerateStorageKey(generators[id], token, file.filename, file.extension, ctx))
    }

    /** `createFile`: builds a new record for `file` and appends it to the collection, growing it by
        exactly that one record; a failed construction leaves the collection as it was. */
    method CreateFile(file: SourceFile, ctx: Context, generators: map<string, KeyGenerator>, token: string, now: int)
      returns (r: Result<StoredFile, Error>)
      modifies this`files
      ensures r.Failure? <==> !StoredFile.KeyAccepted(this, file, ctx, generators, token)
      ensures r.Failure? ==> r.error == StoredFile.KeyError(this, file, ctx, generators, token)
      ensures r.Failure? ==> files == old(files)
      ensures r.Success? ==> (fresh(r.value) && files == Some(old(files).GetOr([]) + [r.value]) &&
        r.value.IsNewRecordOf(this, file, ctx, StorageKeyFor(file, ctx, generators, token).value, now))
    {
      r := StoredFile.Create(this, file, ctx, generators, token, now);
      if r.Failure? {
        return;
      }
      var current := GetFiles();
      files := Some(current + [r.value]);
    }
  }

  /** The record of one stored blob. */
  class StoredFile {
    var id: Option<int>
    const repository: Repository?
    const storageKey: Option<string>
    var filename: Option<string>
    var extension: Option<string>
    var mimeType: Option<string>
    var meta: Meta
    var author: Option<string>
    var owner: Option<CtxEntry>
    var createdAt: Option<int>
    var alternativeOf: StoredFile?
    var alternatives: Option<seq<StoredFile>>
    var isMissingFileIgnoredOnDelete: bool

    /** A record's state right after its constructor assigned the given values and its defaults. */
    constructor(repository: Repository?, storageKey: Option<string>, filename: Option<string>, extension: Option<string>,
                mimeType: Option<string>, author: Option<string>, owner: Option<CtxEntry>, now: int)
      ensures this.repository == repository && this.storageKey == storageKey
      ensures this.filename == filename && this.extension == extension && this.mimeType == mimeType
      ensures this.author == author && this.owner == owner
      ensures createdAt == Some(now) && alternatives == Some([]) && alternativeOf == null
      ensures meta == map[] && id.None? && isMissingFileIgnoredOnDelete
    {
      this.repository := repository;
      this.storageKey := storageKey;
      this.filename := filename;
      this.extension := extension;
      this.mimeType := mimeType;
      this.author := author;
      this.owner := owner;
      createdAt := Some(now);
      alternatives := Some([]);
      alternativeOf := null;
      meta := map[];
      id := None;
      isMissingFileIgnoredOnDelete := true;
    }

    /** Why `new StoredFile($repository, $file, $context)` throws: the generator service is missing,
        or the generated key is empty (falsy). */
    static function KeyError(repository: Repository, file: SourceFile, ctx: Context,
                             generators: map<string, KeyGenerator>, token: string): Error
      reads repository`config
    {
      match repository.StorageKeyFor(file, ctx, generators, token)
      case Failure(e) => e
      case Success(_) => NoStorageKey
    }

    /** The key generation succeeds with a truthy key. */
    static predicate KeyAccepted(repository: Repository, file: SourceFile, ctx: Context,
                                 generators: map<string, KeyGenerator>, token: string)
      reads repository`config
    {
      var k := repository.StorageKeyFor(file, ctx, generators, token);
      k.Success? && Truthy(k.value)
    }

    /** The fields a freshly constructed record has: key, name, extension and mime from the file
        (client name and extension for uploads), author and owner from the context, no id, no meta. */
    ghost predicate IsNewRecordOf(repository: Repository, file: SourceFile, ctx: Context, key: string, now: int)
      reads this
    {
      this.repository == repository && storageKey == Some(key) && Truthy(key) &&
      filename == Some(file.RecordFilename()) && extension == Some(file.RecordExtension()) &&
      mimeType == file.RecordMime() && author == ContextAuthor(ctx) &&
      (owner.Some? <==> "owner" in ctx) && (owner.Some? ==> owner.value == ctx["owner"]) &&
      createdAt == Some(now) && alternatives == Some([]) && alternativeOf == null &&
      meta == map[] && id.None? && isMissingFileIgnoredOnDelete
    }

    /** `new StoredFile($repository, $file, $context)`: generates the storage key (throwing when it is
        empty), then takes name, extension and mime from the file and author/owner from the context. */
    static method Create(repository: Repository, file: SourceFile, ctx: Context,
                         generators: map<string, KeyGenerator>, token: string, now: int)
      returns (r: Result<StoredFile, Error>)
      ensures r.Failure? <==> !KeyAccepted(repository, file, ctx, generators, token)
      ensures r.Failure? ==> r.error == KeyError(repository, file, ctx, generators, token)
      ensures r.Success? ==> (fresh(r.value) &&
        r.value.IsNewRecordOf(repository, file, ctx, repository.StorageKeyFor(file, ctx, generators, token).value, now))
    {
      var key := repository.StorageKeyFor(file, ctx, generators, token);
      if key.Failure? {
        return Failure(key.error);
      }
      if !Truthy(key.value) {
        return Failure(NoStorageKey);
      }
      var filename := file.filename;
      var extension := file.extension;
      var mime: Option<string> := None;
      if file.IsFile() || file.kind.Base64Encoded? {
        mime := file.mimeType;
      }
      if file.kind.Uploaded? {
        filename := file.kind.clientName;
        extension := PathExtension(file.kind.clientName);
      }
      var author: Option<string> := None;
      if "author" in ctx && ctx["author"].Str? {
        author := Some(ctx["author"].s);
      }
      var owner: Option<CtxEntry> := None;
      if "owner" in ctx {
        owner := Some(ctx["owner"]);
      }
      var sf := new StoredFile(repository, Some(key.value), Some(filename), Some(extension), mime, author, owner, now);
      r := Success(sf);
    }

    /** `addAlternative`: appends `a` to this record's alternatives and points `a` back at this record. */
    method AddAlternative(a: StoredFile)
      modifies this`alternatives, a`alternativeOf
      ensures alternatives == Some(old(alternatives).GetOr([]) + [a])
      ensures a.alternativeOf == this
    {
      var current := if alternatives.None? then [] else alternatives.value;
      alternatives := Some(current + [a]);
      a.SetAlternativeOf(this);
    }

    method SetAlternativeOf(o: StoredFile?)
      modifies this`alternativeOf
      ensures alternativeOf == o
    {
      alternativeOf := o;
    }

    /** `mergeMeta`: `m`'s keys override, every other existing key is kept. */
    method MergeMeta(m: Meta)
      modifies this`meta
      ensures meta == ArrayMerge(old(meta), m)
    {
      meta := meta + m;
    }

    method SetAuthor(a: string)
      modifies this`author
      ensures author == Some(a)
    {
      author := Some(a);
    }

    method SetCreatedAt(date: int)
      modifies this`createdAt
      ensures createdAt == Some(date)
    {
      createdAt := Some(date);
    }

    /** `getCreatedAt`: the first call without a date stores `now`; afterwards the date is stable. */
    method GetCreatedAt(now: int) returns (d: int)
      modifies this`createdAt
      ensures old(createdAt).Some? ==> d == old(createdAt).value && createdAt == old(createdAt)
      ensures old(createdAt).None? ==> d == now && createdAt == Some(now)
    {
      if createdAt.None? {
        createdAt := Some(now);
      }
      d := createdAt.value;
    }

    /** The record has a repository and a (truthy) storage key, so it has a blob to talk about. */
    predicate HasBlob()
    {
      repository != null && storageKey.Some? && Truthy(storageKey.value)
    }

    /** `getContents`: "" without repository or key, otherwise the backend's bytes. */
    function Contents(fsMap: map<string, Filesystem>): (r: Result<Bytes, Error>)
      reads repository, fsMap.Values
      ensures !HasBlob() ==> r == Success([])
      ensures HasBlob() && repository.GetFilesystem(fsMap).Success? ==>
        r == repository.GetFilesystem(fsMap).value.Read(storageKey.value)
    {
      if !HasBlob() then Success([])
      else match repository.GetFilesystem(fsMap)
        case Failure(e) => Failure(e)
        case Success(fs) => fs.Read(storageKey.value)
    }

    /** `getSize`: 0 without repository or key, otherwise the backend's size. */
    function Size(fsMap: map<string, Filesystem>): (r: Result<nat, Error>)
      reads repository, fsMap.Values
      ensures !HasBlob() ==> r == Success(0)
      ensures HasBlob() && repository.GetFilesystem(fsMap).Success? ==>
        r == repository.GetFilesystem(fsMap).value.Size(storageKey.value)
    {
      if !HasBlob() then Success(0)
      else match repository.GetFilesystem(fsMap)
        case Failure(e) => Failure(e)
        case Success(fs) => fs.Size(storageKey.value)
    }

    /** `getChecksum`: "" without repository or key, otherwise the backend's checksum. */
    function Checksum(fsMap: map<string, Filesystem>, checksumOf: Bytes -> string): (r: Result<string, Error>)
      reads repository, fsMap.Values
      ensures !HasBlob() ==> r == Success("")
      ensures HasBlob() && repository.GetFilesystem(fsMap).Success? ==>
        r == repository.GetFilesystem(fsMap).value.Checksum(storageKey.value, checksumOf)
    {
      if !HasBlob() then Success("")
      else match repository.GetFilesystem(fsMap)
        case Failure(e) => Failure(e)
        case Success(fs) => fs.Checksum(storageKey.value, checksumOf)
    }

    /** The size and contents accessors agree: the size is the length of the contents. */
    lemma SizeIsContentLength(fsMap: map<string, Filesystem>)
      requires Contents(fsMap).Success?
      ensures Size(fsMap) == Success(|Contents(fsMap).value|)
    {
    }

    /** `onRemove`: without repository or key nothing happens; otherwise the blob is deleted, and a
        missing blob is an error only when missing files are not ignored. */
    method OnRemove(fsMap: map<string, Filesystem>) returns (o: Outcome<Error>)
      modifies fsMap.Values
      ensures !HasBlob() ==> o == Pass && forall fs :: fs in fsMap.Values ==> fs.blobs == old(fs.blobs)
      ensures HasBlob() && repository.GetFilesystem(fsMap).Failure? ==> o == Fail(repository.GetFilesystem(fsMap).error)
      ensures HasBlob() && repository.GetFilesystem(fsMap).Success? ==>
        var fs := repository.GetFilesystem(fsMap).value;
        var key := storageKey.value;
        (key in old(fs.blobs) ==> o == Pass && fs.blobs == old(fs.blobs) - {key}) &&
        (key !in old(fs.blobs) ==> (fs.blobs == old(fs.blobs) &&
          (o == Pass <==> isMissingFileIgnoredOnDelete) &&
          (o.Fail? ==> o.error == FileNotFound(key))))
      ensures forall fs :: fs in fsMap.Values ==> fs.metadata == old(fs.metadata)
      ensures forall fs :: fs in fsMap.Values && (repository == null || repository.GetFilesystem(fsMap) != Success(fs)) ==>
        fs.blobs == old(fs.blobs)
    {
      if !HasBlob() {
        return Pass;
      }
      var found := repository.GetFilesystem(fsMap);
      if found.Failure? {
        return Fail(found.error);
      }
      o := found.value.Delete(storageKey.value);
      if o.Fail? && isMissingFileIgnoredOnDelete {
        o := Pass;
      }
    }
  }
}
