/**
 * The file repository service: repository lookup and creation, and the put pipeline
 * (before-stage, record selection, read, put-stage, write, persist, after-stage), together with
 * the filtered interceptor dispatch of each stage and the thumbnails interceptor, whose `onPut`
 * calls `put` again for every thumbnail it schedules.
 */
module Pipeline {
  import opened Wrappers
  import opened Strings
  import opened RepositoryConfig
  import opened Exceptions
  import opened Intercepting
  import opened PutContext
  import opened KeyGenerators
  import opened Entities
  import opened Thumbnails
  import opened InterceptorHooks

  /** What the core obtains from code it does not contain: the file-properties validator (the
      errors it finds for a file under a config), the image resizer, mime and extension guessing,
      and the system temp directory. */
  datatype Oracles = Oracles(
    validate: (SourceFile, Config) -> seq<ErrorItem>,
    resize: Resizer,
    guessMime: Bytes -> Option<string>,
    guessExtension: SourceFile -> string,
    tempDir: string)

  /** The value `uniqid()` yields at tick `t`. */
  function UniqueToken(t: nat): (r: string)
    ensures '.' !in r && |r| > 0
  {
    DecimalDigits(t);
    Decimal(t)
  }

  /** Distinct ticks give distinct tokens. */
  lemma UniqueTokensDistinct(t1: nat, t2: nat)
    requires t1 != t2
    ensures UniqueToken(t1) != UniqueToken(t2)
  {
    if UniqueToken(t1) == UniqueToken(t2) {
      DecimalInjective(t1, t2);
    }
  }

  /** The file `tempnam(sys_get_temp_dir(), 'thumbnail_')` creates at tick `t`. */
  function TempName(dir: string, t: nat): string
  {
    dir + "/thumbnail_" + Decimal(t)
  }

  /** The error the validation interceptor raises for a file it rejects with `errors`. */
  function ValidationRejection(file: SourceFile, errors: seq<ErrorItem>, repository: Repository): Error
  {
    ValidationFailed(FileValidationException(VALIDATION_FAILED_PREFIX + Implode(", ", ParsedErrors(errors)),
                                             file, ParsedErrors(errors), Some(repository)))
  }

  /** The first repository with the given name, in creation order. */
  function FirstNamed(repositories: seq<Repository>, name: string): (r: Option<Repository>)
    ensures r.Some? ==> r.value in repositories && r.value.name == Some(name)
    decreases |repositories|
  {
    if |repositories| == 0 then None
    else if repositories[0].name == Some(name) then Some(repositories[0])
    else FirstNamed(repositories[1..], name)
  }

  /** The lookup finds nothing exactly when no repository has the name, and otherwise the first
      one that has it. */
  lemma {:induction false} FirstNamedFirst(repositories: seq<Repository>, name: string)
    ensures FirstNamed(repositories, name).None? ==> forall i :: 0 <= i < |repositories| ==> repositories[i].name != Some(name)
    ensures FirstNamed(repositories, name).Some? ==>
      exists i :: (0 <= i < |repositories| && repositories[i] == FirstNamed(repositories, name).value &&
        forall j :: 0 <= j < i ==> repositories[j].name != Some(name))
    decreases |repositories|
  {
    if |repositories| > 0 && repositories[0].name != Some(name) {
      FirstNamedFirst(repositories[1..], name);
      assert forall j :: 1 <= j < |repositories| ==> repositories[j] == repositories[1..][j - 1];
      if FirstNamed(repositories, name).Some? {
        var i :| 0 <= i < |repositories[1..]| && repositories[1..][i] == FirstNamed(repositories, name).value &&
          forall j :: 0 <= j < i ==> repositories[1..][j].name != Some(name);
        assert repositories[i + 1] == FirstNamed(repositories, name).value;
      }
    } else if |repositories| > 0 {
      assert repositories[0] == FirstNamed(repositories, name).value;
    }
  }

  /** The first record of `repository` with the given file name, in persist order. */
  function FirstRecord(records: seq<StoredFile>, repository: Repository, filename: string): (r: StoredFile?)
    reads records`filename
    ensures r != null ==> r in records && r.repository == repository && r.filename == Some(filename)
    ensures r == null ==> forall i :: 0 <= i < |records| ==>
      !(records[i].repository == repository && records[i].filename == Some(filename))
    decreases |records|
  {
    if |records| == 0 then null
    else if records[0].repository == repository && records[0].filename == Some(filename) then records[0]
    else FirstRecord(records[1..], repository, filename)
  }

  /** The thumbnails interceptor: the pending thumbnail configs of every original it is working on.
      `scheduled` logs every file it hands to a recursive put. */
  class ThumbnailsInterceptor {
    var progress: Progress
    ghost var scheduled: seq<SourceFile>

    constructor()
      ensures progress == map[] && scheduled == []
    {
      progress := map[];
      scheduled := [];
    }

    /** `Interceptor::onPut`: examines the put, then either stops with the examined result or
        schedules the thumbnail for the popped config. Every scheduled thumbnail comes back through
        this hook, so a put whose original reaches the queue ends with that queue drained: one
        thumbnail put per pending config, then the entry removed. */
    method OnPut(fr: FileRepository, sf: StoredFile, file: SourceFile, repository: Repository)
      returns (r: Result<ThumbResult, Error>)
      requires fr.thumbnails == this
      requires fr.Valid()
      modifies this`progress, this`scheduled, fr`storedFiles, fr`nextId, fr`ticks
      modifies fr.filesystems.Values, fr.repositories`files
      modifies fr.storedFiles`createdAt, fr.storedFiles`alternatives, fr.storedFiles`alternativeOf
      modifies fr.storedFiles`meta, fr.storedFiles`author, fr.storedFiles`id
      modifies OriginalRecords(file)`alternatives, sf`meta, sf`alternatives, sf`alternativeOf
      decreases Pending(progress, LookupKey(file), SizesFor(sf)), 0
      ensures fr.Valid()
      ensures forall x :: x in fr.storedFiles ==> x in old(fr.storedFiles) || fresh(x)
      ensures old(scheduled) <= scheduled
      ensures !old(ReachesQueue(sf, file)) ==> progress == old(progress) && scheduled == old(scheduled)
      ensures old(ReachesQueue(sf, file)) && old(StepFor(progress, sf, file)).1.Some? && r.Success? ==>
        (r.value == Scheduled && |scheduled| > |old(scheduled)| &&
         scheduled[|old(scheduled)|].origin ==
           Derived(Some(AsFile(OriginalOf(file).value).value), OriginalRecordOf(sf, file), old(StepFor(progress, sf, file)).1.value))
      ensures old(ReachesQueue(sf, file)) && old(Chain(fr, sf, repository)) && r.Success? ==>
        (progress == old(DrainFor(progress, sf, file)).1 && |scheduled| == |old(scheduled)| + old(DrainFor(progress, sf, file)).0)
    {
      ghost var chained := Chain(fr, sf, repository) && ReachesQueue(sf, file);
      ghost var start := progress;
      ghost var sizes := SizesFor(sf);
      var decision := Examine(sf, file);
      if decision.Stop? {
        return decision.result;
      }
      r := Continue(fr, decision, repository, start, sizes, chained);
    }

    /** The end of `onPut`, after the pop of `decision.config` from the queue `start` held
        for the original: the thumbnail put, which drains what is left of that queue when the put
        comes back into this interceptor. */
    method Continue(fr: FileRepository, decision: Decision, repository: Repository,
                    ghost start: Progress, ghost sizes: seq<ThumbConfig>, ghost chained: bool)
      returns (r: Result<ThumbResult, Error>)
      requires fr.thumbnails == this
      requires fr.Valid()
      requires decision.Proceed? && decision.original.pathname in progress
      requires decision.original.IsFile() && IsImage(decision.original.mimeType) && ThumbnailArgs(decision.config)
      requires QueueStep(start, decision.original.pathname, sizes) == (progress, Some(decision.config))
      requires chained ==> Chained(fr, repository) && Sizes(repository.config) == sizes
      modifies this`progress, this`scheduled, fr`storedFiles, fr`nextId, fr`ticks
      modifies fr.filesystems.Values, fr.repositories`files
      modifies fr.storedFiles`createdAt, fr.storedFiles`alternatives, fr.storedFiles`alternativeOf
      modifies fr.storedFiles`meta, fr.storedFiles`author, fr.storedFiles`id
      modifies {decision.originalStoredFile}`alternatives
      decreases Pending(progress, Some(decision.original.pathname), []), 10
      ensures fr.Valid()
      ensures forall x :: x in fr.storedFiles ==> x in old(fr.storedFiles) || fresh(x)
      ensures old(scheduled) <= scheduled
      ensures r.Success? ==>
        (r.value == Scheduled && |scheduled| > |old(scheduled)| &&
         scheduled[|old(scheduled)|].origin == Derived(Some(decision.original), decision.originalStoredFile, decision.config))
      ensures r.Success? && chained ==>
        (progress == Drain(start, decision.original.pathname, sizes).1 &&
         |scheduled| == |old(scheduled)| + Drain(start, decision.original.pathname, sizes).0)
    {
      r := Schedule(fr, decision.originalStoredFile, decision.original, decision.config, repository);
    }

    /** `onPut` up to the pop: works out the original (the carried one for an
        alternative, which is linked to its original record first), refuses non-images,
        initialises the original's queue on first sight, stores an alternative's carried config in
        its meta, then drops an exhausted queue or pops its next config. */
    method Examine(sf: StoredFile, file: SourceFile) returns (d: Decision)
      modifies this`progress, OriginalRecords(file)`alternatives, sf`meta, sf`alternatives, sf`alternativeOf
      ensures sf.repository == null ==> d == Stop(Failure(MissingRepository)) && progress == old(progress)
      ensures sf.repository != null && |old(SizesFor(sf))| == 0 ==> d == Stop(Success(NoConfigAvailable)) && progress == old(progress)
      ensures |old(SizesFor(sf))| > 0 && !PayloadPresent(file) ==> d == Stop(Failure(MissingAlternativePayload)) && progress == old(progress)
      ensures |old(SizesFor(sf))| > 0 && file.IsAlternative() && file.origin.originalStoredFile != null ==>
        (file.origin.originalStoredFile.alternatives == Some(old(file.origin.originalStoredFile.alternatives).GetOr([]) + [sf]) &&
         sf.alternativeOf == file.origin.originalStoredFile)
      ensures |old(SizesFor(sf))| > 0 && PayloadPresent(file) && AsFile(OriginalOf(file).value).Failure? ==>
        d == Stop(Failure(AsFile(OriginalOf(file).value).error)) && progress == old(progress)
      ensures |old(SizesFor(sf))| > 0 && PayloadPresent(file) && AsFile(OriginalOf(file).value).Success? ==>
        (!IsImage(OriginalOf(file).value.mimeType) ==> d == Stop(Success(NotAnImage)) && progress == old(progress))
      ensures !old(ReachesQueue(sf, file)) ==> d.Stop? && progress == old(progress)
      ensures old(ReachesQueue(sf, file)) ==> progress == old(StepFor(progress, sf, file)).0
      ensures old(ReachesQueue(sf, file)) && file.IsAlternative() ==>
        sf.meta == ArrayMerge(old(sf.meta), ThumbnailMeta(file.origin.thumbnailConfig))
      ensures old(ReachesQueue(sf, file)) && old(StepFor(progress, sf, file)).1.None? ==> d == Stop(Success(NoMoreThumbnails))
      ensures old(ReachesQueue(sf, file)) && old(StepFor(progress, sf, file)).1.Some? ==>
        (!ThumbnailArgs(old(StepFor(progress, sf, file)).1.value) ==>
           d == Stop(Failure(ArgsError(old(StepFor(progress, sf, file)).1.value))))
      ensures old(ReachesQueue(sf, file)) && old(StepFor(progress, sf, file)).1.Some? ==>
        (ThumbnailArgs(old(StepFor(progress, sf, file)).1.value) ==>
           d.Proceed? && d.original == AsFile(OriginalOf(file).value).value && d.originalStoredFile == OriginalRecordOf(sf, file) &&
           d.config == old(StepFor(progress, sf, file)).1.value)
      ensures d.Proceed? ==>
        (old(ReachesQueue(sf, file)) && d.original.pathname in progress && d.original.IsFile() && IsImage(d.original.mimeType) &&
         ThumbnailArgs(d.config) && LookupKey(file) == Some(d.original.pathname) &&
         Pending(progress, Some(d.original.pathname), []) < old(Pending(progress, LookupKey(file), SizesFor(sf))))
    {
      if sf.repository == null {
        return Stop(Failure(MissingRepository));
      }
      var config := sf.repository.config;
      if config.thumbnailSizes.None? || |config.thumbnailSizes.value| == 0 {
        return Stop(Success(NoConfigAvailable));
      }
      var sizes := config.thumbnailSizes.value;
      var isAlternative := file.IsAlternative();
      var originalStoredFile: StoredFile := sf;
      var originalFile: Option<SourceFile> := Some(file);
      if isAlternative {
        if file.origin.originalStoredFile == null {
          return Stop(Failure(MissingAlternativePayload));
        }
        originalStoredFile := file.origin.originalStoredFile;
        originalFile := file.origin.originalFile;
        originalStoredFile.AddAlternative(sf);
      }
      if originalFile.None? {
        return Stop(Failure(MissingAlternativePayload));
      }
      var asFile := AsFile(originalFile.value);
      if asFile.Failure? {
        return Stop(Failure(asFile.error));
      }
      var original := asFile.value;
      if !IsImage(original.mimeType) {
        return Stop(Success(NotAnImage));
      }
      d := Dequeue(sf, file, original, originalStoredFile, sizes);
    }

    /** The queue part of `onPut`: initialises the original's queue on first sight, stores an
        alternative's carried config in its meta, then drops an exhausted queue or pops its next
        config, whose width and height must be set, coercible to `int` (`generateThumbnail` passes
        them to `generate` uncast) and at least 1 (the sides of the image library's `Box`). */
    method Dequeue(sf: StoredFile, file: SourceFile, original: SourceFile, originalStoredFile: StoredFile,
                   sizes: seq<ThumbConfig>) returns (d: Decision)
      modifies this`progress, sf`meta
      ensures progress == QueueStep(old(progress), original.pathname, sizes).0
      ensures file.IsAlternative() ==> sf.meta == ArrayMerge(old(sf.meta), ThumbnailMeta(file.origin.thumbnailConfig))
      ensures !file.IsAlternative() ==> sf.meta == old(sf.meta)
      ensures QueueStep(old(progress), original.pathname, sizes).1.None? ==> d == Stop(Success(NoMoreThumbnails))
      ensures QueueStep(old(progress), original.pathname, sizes).1.Some? ==>
        (!ThumbnailArgs(QueueStep(old(progress), original.pathname, sizes).1.value) ==>
           d == Stop(Failure(ArgsError(QueueStep(old(progress), original.pathname, sizes).1.value))))
      ensures QueueStep(old(progress), original.pathname, sizes).1.Some? ==>
        (ThumbnailArgs(QueueStep(old(progress), original.pathname, sizes).1.value) ==>
           d == Proceed(original, originalStoredFile, QueueStep(old(progress), original.pathname, sizes).1.value))
      ensures d.Proceed? ==>
        (original.pathname in progress && ThumbnailArgs(d.config) &&
         Pending(progress, Some(original.pathname), []) < Pending(old(progress), Some(original.pathname), sizes))
    {
      var lookupKey := original.pathname;
      if lookupKey !in progress {
        progress := progress[lookupKey := sizes];
      }
      if file.IsAlternative() {
        UpdateStoredFileAlternativeMeta(sf, file.origin.thumbnailConfig);
      }
      var queue := progress[lookupKey];
      if |queue| == 0 || queue[0] == map[] {
        progress := progress - {lookupKey};
        assert progress == old(progress) - {lookupKey};
        return Stop(Success(NoMoreThumbnails));
      }
      var thumbnailConfig := queue[0];
      assert queue == if lookupKey in old(progress) then old(progress)[lookupKey] else sizes;
      progress := progress[lookupKey := queue[1..]];
      assert progress == old(progress)[lookupKey := queue[1..]];
      if !ThumbnailArgs(thumbnailConfig) {
        return Stop(Failure(ArgsError(thumbnailConfig)));
      }
      d := Proceed(original, originalStoredFile, thumbnailConfig);
    }

    /** The scheduling at the end of `onPut`: generates the thumbnail for `config` into a temp file and puts it
        into `repository` (by name, with no context) as an alternative carrying the original file,
        the original record and the config. */
    method Schedule(fr: FileRepository, originalStoredFile: StoredFile, original: SourceFile, config: ThumbConfig,
                    repository: Repository) returns (r: Result<ThumbResult, Error>)
      requires fr.thumbnails == this
      requires fr.Valid()
      requires original.pathname in progress && original.IsFile() && IsImage(original.mimeType)
      requires ThumbnailArgs(config)
      modifies this`progress, this`scheduled, fr`storedFiles, fr`nextId, fr`ticks
      modifies fr.filesystems.Values, fr.repositories`files
      modifies fr.storedFiles`createdAt, fr.storedFiles`alternatives, fr.storedFiles`alternativeOf
      modifies fr.storedFiles`meta, fr.storedFiles`author, fr.storedFiles`id
      modifies {originalStoredFile}`alternatives
      decreases Pending(progress, Some(original.pathname), []), 9
      ensures fr.Valid()
      ensures forall x :: x in fr.storedFiles ==> x in old(fr.storedFiles) || fresh(x)
      ensures old(scheduled) <= scheduled
      ensures r.Success? ==>
        (r.value == Scheduled && |scheduled| > |old(scheduled)| &&
         scheduled[|old(scheduled)|] == ThumbnailOf(fr.oracles, old(fr.ticks) + 1, original, originalStoredFile, config))
      ensures r.Success? && old(Chained(fr, repository)) ==>
        (progress == Drain(old(progress), original.pathname, Sizes(repository.config)).1 &&
         |scheduled| == |old(scheduled)| + 1 + Drain(old(progress), original.pathname, Sizes(repository.config)).0)
    {
      var newFile := Enqueue(fr, originalStoredFile, original, config);
      r := Submit(fr, newFile, original.pathname, repository);
    }

    /** The generation step of `onPut`: the thumbnail file of the next tick, appended to the log of
        scheduled thumbnail puts. */
    method Enqueue(fr: FileRepository, originalStoredFile: StoredFile, original: SourceFile, config: ThumbConfig)
      returns (newFile: SourceFile)
      requires original.IsFile() && IsImage(original.mimeType) && ThumbnailArgs(config)
      modifies this`scheduled, fr`ticks
      ensures fr.ticks == old(fr.ticks) + 1
      ensures newFile == ThumbnailOf(fr.oracles, fr.ticks, original, originalStoredFile, config)
      ensures scheduled == old(scheduled) + [newFile]
    {
      fr.ticks := fr.ticks + 1;
      newFile := ThumbnailOf(fr.oracles, fr.ticks, original, originalStoredFile, config);
      scheduled := scheduled + [newFile];
    }

    /** The recursive put at the end of `onPut`: the put of a scheduled thumbnail, which comes back into this
        interceptor with the queue of `key`. */
    method Submit(fr: FileRepository, newFile: SourceFile, key: string, repository: Repository)
      returns (r: Result<ThumbResult, Error>)
      requires fr.thumbnails == this
      requires fr.Valid()
      requires key in progress && LookupKey(newFile) == Some(key)
      requires PayloadPresent(newFile) && AsFile(OriginalOf(newFile).value).Success? && IsImage(OriginalOf(newFile).value.mimeType)
      modifies this`progress, this`scheduled, fr`storedFiles, fr`nextId, fr`ticks
      modifies fr.filesystems.Values, fr.repositories`files
      modifies fr.storedFiles`createdAt, fr.storedFiles`alternatives, fr.storedFiles`alternativeOf
      modifies fr.storedFiles`meta, fr.storedFiles`author, fr.storedFiles`id
      modifies OriginalRecords(newFile)`alternatives
      decreases Pending(progress, Some(key), []), 8
      ensures fr.Valid()
      ensures forall x :: x in fr.storedFiles ==> x in old(fr.storedFiles) || fresh(x)
      ensures old(scheduled) <= scheduled
      ensures r.Success? ==> r.value == Scheduled
      ensures r.Success? && old(Chained(fr, repository)) ==>
        (progress == Drain(old(progress), key, Sizes(repository.config)).1 &&
         |scheduled| == |old(scheduled)| + Drain(old(progress), key, Sizes(repository.config)).0)
    {
      if Chained(fr, repository) {
        assert fr.PutDrains(repository.Name(), newFile, map[]);
      }
      var put := fr.Put(repository.Name(), newFile, map[]);
      if put.Failure? {
        return Failure(put.error);
      }
      r := Success(Scheduled);
    }
  }

  /** The file a thumbnail put stores: the generated thumbnail (under the temp name of tick `t`)
      as an alternative file, an uploaded one keeping the original's client name and mime type,
      carrying the original file, the original record and the config it was made for. */
  function ThumbnailOf(oracles: Oracles, t: nat, original: SourceFile, originalStoredFile: StoredFile, config: ThumbConfig)
    : (r: SourceFile)
    requires original.IsFile() && IsImage(original.mimeType) && ThumbnailArgs(config)
    ensures r.IsAlternative() && r.origin == Derived(Some(original), originalStoredFile, config)
    ensures r.pathname == TempName(oracles.tempDir, t) + "." + oracles.guessExtension(original)
    ensures r.contents == Some(oracles.resize(original, config["width"], config["height"], Inset))
    ensures r.mimeType == oracles.guessMime(r.contents.value)
    ensures r.kind == if original.kind.Uploaded? then original.kind else SymfonyFile
    ensures LookupKey(r) == Some(original.pathname) && PayloadPresent(r) && AsFile(OriginalOf(r).value).Success? &&
      IsImage(OriginalOf(r).value.mimeType)
  {
    var generated := Generate(original, config["width"], config["height"], None,
                              TempName(oracles.tempDir, t), oracles.guessExtension(original), oracles.resize);
    var pathname := generated.value.0;
    var bytes := generated.value.1;
    var kind := if original.kind.Uploaded? then Uploaded(original.kind.clientName, original.kind.clientMime) else SymfonyFile;
    var bare := NewAlternative(pathname, Basename(pathname), PathExtension(Basename(pathname)), kind, oracles.guessMime(bytes), Some(bytes));
    bare.SetOriginalFile(original).SetOriginalStoredFile(originalStoredFile).SetThumbnailConfig(config)
  }

  /** What the examination part of `onPut` decided: stop with a result, or generate the
      thumbnail for `config` from `original` and attach it to `originalStoredFile`. */
  datatype Decision =
    | Stop(result: Result<ThumbResult, Error>)
    | Proceed(original: SourceFile, originalStoredFile: StoredFile, config: ThumbConfig)

  /** A put with this context never calls the thumbnails interceptor: its put stage is switched
      off or fails, or its filter refuses that interceptor. */
  predicate SkipsThumbnails(ctx: Context)
  {
    IsInterceptorDisabled(ctx, OnPut) != Success(false) || !CreateInterceptorsFilter(ctx, OnPut)(Thumbnails)
  }

  /** The meta and the alternative links of the given records are as they were. */
  twostate predicate LinksKept(records: seq<StoredFile>)
    reads records
  {
    forall x :: x in records ==>
      x.meta == old(x.meta) && x.alternatives == old(x.alternatives) && x.alternativeOf == old(x.alternativeOf)
  }

  /** The record an alternative file names as its original, as a frame. */
  function OriginalRecords(file: SourceFile): set<StoredFile>
  {
    if file.IsAlternative() && file.origin.originalStoredFile != null then {file.origin.originalStoredFile} else {}
  }

  /** The record the thumbnails of a put are attached to: the carried original record for an
      alternative, the put's own record otherwise. */
  function OriginalRecordOf(sf: StoredFile, file: SourceFile): StoredFile?
  {
    if file.IsAlternative() then file.origin.originalStoredFile else sf
  }

  /** The repository of a record, as a frame. */
  function RepositoryFrame(sf: StoredFile): set<Repository>
  {
    if sf.repository == null then {} else {sf.repository}
  }

  /** The thumbnail sizes of a record's repository. */
  function SizesFor(sf: StoredFile): seq<ThumbConfig>
    reads RepositoryFrame(sf)`config
  {
    if sf.repository == null then [] else Sizes(sf.repository.config)
  }

  /** The thumbnails interceptor, called with this record and file, gets as far as its queue. */
  predicate ReachesQueue(sf: StoredFile, file: SourceFile)
    reads RepositoryFrame(sf)`config
  {
    sf.repository != null && QueueReached(sf.repository.config, file)
  }

  /** The queue step of such a call. */
  function StepFor(progress: Progress, sf: StoredFile, file: SourceFile): (Progress, Option<ThumbConfig>)
    reads RepositoryFrame(sf)`config
  {
    QueueStep(progress, LookupKey(file).GetOr(""), SizesFor(sf))
  }

  /** The drain of the queue such a call starts. */
  function DrainFor(progress: Progress, sf: StoredFile, file: SourceFile): (nat, Progress)
    reads RepositoryFrame(sf)`config
  {
    Drain(progress, LookupKey(file).GetOr(""), SizesFor(sf))
  }

  /** A thumbnail put into `repository` by name comes back into the same interceptor and queue:
      the name finds the repository again, it has sizes, and it lists the thumbnails interceptor once. */
  ghost predicate Chained(fr: FileRepository, repository: Repository)
    reads fr`repositories, repository`config
  {
    fr.LookupRepository(repository.Name()) == Some(repository) && |Sizes(repository.config)| > 0 &&
    Occurrences(ConfiguredIds(repository.config), THUMBNAILS_INTERCEPTOR) == 1
  }

  /** The conditions under which a thumbnail put comes back into the same interceptor with the same
      queue: the record belongs to `repository`, its name finds it again, and it lists the
      thumbnails interceptor once. */
  ghost predicate Chain(fr: FileRepository, sf: StoredFile, repository: Repository)
    reads fr`repositories, repository`config
  {
    sf.repository == repository && fr.LookupRepository(repository.Name()) == Some(repository) &&
    Occurrences(ConfiguredIds(repository.config), THUMBNAILS_INTERCEPTOR) == 1
  }

  /** A config that passed `setConfig` and lists the thumbnails interceptor at most once. */
  predicate WellConfigured(c: Config)
  {
    c.filesystem.Some? && c.storageKeyGenerator.Some? && Occurrences(ConfiguredIds(c), THUMBNAILS_INTERCEPTOR) <= 1
  }

  /** `FileRepository`: the repositories and records of the store, the backends, the services the
      interceptors and key generators resolve to, and the clock. */
  class FileRepository {
    var repositories: seq<Repository>
    var storedFiles: seq<StoredFile>
    var nextId: nat
    var ticks: nat
    const filesystems: map<string, Filesystem>
    const keyGenerators: map<string, KeyGenerator>
    const registry: set<string>
    const token: Option<User>
    const oracles: Oracles
    const thumbnails: ThumbnailsInterceptor

    constructor(filesystems: map<string, Filesystem>, keyGenerators: map<string, KeyGenerator>, registry: set<string>,
                token: Option<User>, oracles: Oracles, thumbnails: ThumbnailsInterceptor)
      ensures Valid() && repositories == [] && storedFiles == [] && ticks == 0
      ensures this.filesystems == filesystems && this.keyGenerators == keyGenerators && this.registry == registry
      ensures this.token == token && this.thumbnails == thumbnails
    {
      repositories := [];
      storedFiles := [];
      nextId := 1;
      ticks := 0;
      this.filesystems := filesystems;
      this.keyGenerators := keyGenerators;
      this.registry := registry;
      this.token := token;
      this.oracles := oracles;
      this.thumbnails := thumbnails;
    }

    /** The store's invariant: every repository went through `setConfig`, has an id, and lists the
        thumbnails interceptor at most once; every stored record has an id and a key, and no two
        stored records share a key (the unique column). */
    ghost predicate Valid()
      reads this`repositories, repositories`config, repositories`id, this`storedFiles, storedFiles`id
    {
      RepositoriesValid() && RecordsValid()
    }

    /** The repository half of the invariant. */
    ghost predicate RepositoriesValid()
      reads this`repositories, repositories`config, repositories`id
    {
      forall r :: r in repositories ==>
        r.id.Some? && WellConfigured(r.config)
    }

    /** The record half of the invariant. */
    ghost predicate RecordsValid()
      reads this`storedFiles, storedFiles`id
    {
      (forall i :: 0 <= i < |storedFiles| ==> storedFiles[i].id.Some? && storedFiles[i].storageKey.Some?) &&
      (forall i, j :: 0 <= i < j < |storedFiles| ==> storedFiles[i].storageKey != storedFiles[j].storageKey)
    }

    /** `getRepository`: the repository with that name, if any. */
    function LookupRepository(name: string): (r: Option<Repository>)
      reads this`repositories
      ensures r.Some? ==> r.value in repositories && r.value.name == Some(name)
    {
      FirstNamed(repositories, name)
    }

    /** The thumbnail sizes of the named repository. */
    function SizesOf(name: string): seq<ThumbConfig>
      reads this`repositories, repositories`config
    {
      match LookupRepository(name)
      case None => []
      case Some(repository) => Sizes(repository.config)
    }

    /** `findOneBy(['repository' => .., 'filename' => ..])` over the stored records. */
    function FindStoredFile(repository: Repository, filename: string): (r: StoredFile?)
      reads this`storedFiles, storedFiles`filename
      ensures r != null ==> r in storedFiles && r.repository == repository && r.filename == Some(filename)
      ensures r == null ==> forall i :: 0 <= i < |storedFiles| ==>
        !(storedFiles[i].repository == repository && storedFiles[i].filename == Some(filename))
    {
      FirstRecord(storedFiles, repository, filename)
    }

    /** The record a put reuses: with `overwrite_files` on, the stored record of the repository with
        the file's name (the client name for uploads); otherwise none. */
    function ReusedRecord(repository: Repository, file: SourceFile): (r: StoredFile?)
      reads repository`config, this`storedFiles, storedFiles`filename
      ensures r != null ==> (repository.config.overwriteFiles == Some(true) && r in storedFiles &&
        r.repository == repository && r.filename == Some(file.RecordFilename()))
      ensures repository.config.overwriteFiles == Some(true) ==> r == FindStoredFile(repository, file.RecordFilename())
    {
      if repository.config.overwriteFiles.GetOr(false) then FindStoredFile(repository, file.RecordFilename()) else null
    }

    /** Another stored record already holds `sf`'s storage key. */
    predicate KeyTaken(sf: StoredFile)
      reads this`storedFiles
    {
      exists i :: 0 <= i < |storedFiles| && storedFiles[i] != sf && storedFiles[i].storageKey == sf.storageKey
    }

    /** The interceptors resolved for a repository. */
    function Resolved(repository: Repository): Result<seq<Interceptor>, string>
      reads repository`config
    {
      ResolveAll(DefaultIds + ConfiguredIds(repository.config), registry)
    }

    /** The before-stage outcome of a dispatch with `filter`: an unknown interceptor id, the veto of
        an accepted validation interceptor that finds errors, or success. */
    function BeforeVerdict(repository: Repository, file: SourceFile, filter: Filter): Outcome<Error>
      reads repository`config
    {
      match Resolved(repository)
      case Failure(id) => Fail(ServiceNotFound(id))
      case Success(list) =>
        if Validation in Accepted(list, filter) && |oracles.validate(file, repository.config)| > 0
        then Fail(ValidationRejection(file, oracles.validate(file, repository.config), repository))
        else Pass
    }

    /** The before stage of a put with context `ctx`. */
    function BeforeStage(repository: Repository, file: SourceFile, ctx: Context): Outcome<Error>
      reads repository`config
    {
      match IsInterceptorDisabled(ctx, Before)
      case Failure(k) => Fail(BadContext(k))
      case Success(disabled) => if disabled then Pass else BeforeVerdict(repository, file, CreateInterceptorsFilter(ctx, Before))
    }

    /** A put of `file` into `repository` with `ctx` reaches the queue of the thumbnails
        interceptor, and so will every thumbnail put it schedules. */
    ghost predicate PutIntoDrains(repository: Repository, file: SourceFile, ctx: Context)
      reads this`repositories, repository`config
    {
      Occurrences(ConfiguredIds(repository.config), THUMBNAILS_INTERCEPTOR) == 1 &&
      IsInterceptorDisabled(ctx, OnPut) == Success(false) && CreateInterceptorsFilter(ctx, OnPut)(Thumbnails) &&
      QueueReached(repository.config, file) && LookupRepository(repository.Name()) == Some(repository)
    }

    /** The same for a put under a repository name. */
    ghost predicate PutDrains(name: string, file: SourceFile, ctx: Context)
      reads this`repositories, repositories`config
    {
      LookupRepository(name).Some? && PutIntoDrains(LookupRepository(name).value, file, ctx)
    }

    /** The record selection of a put succeeds: a record is reused, or a new one gets a key from
        the `uniqid()` two ticks ahead. */
    ghost predicate Selects(repository: Repository, file: SourceFile, ctx: Context)
      reads repository`config, this`storedFiles, storedFiles`filename, this`ticks
    {
      ReusedRecord(repository, file) != null ||
      StoredFile.KeyAccepted(repository, file, ctx, keyGenerators, UniqueToken(ticks + 2))
    }

    /** The error a failing record selection raises. */
    ghost function SelectionError(repository: Repository, file: SourceFile, ctx: Context): Error
      reads repository`config, this`ticks
    {
      StoredFile.KeyError(repository, file, ctx, keyGenerators, UniqueToken(ticks + 2))
    }

    /** `sf` is persisted, has an id, and its repository's backend holds `contents` under its key. */
    ghost predicate HoldsFile(sf: StoredFile, contents: Bytes)
      reads this`storedFiles, sf`id, RepositoryFrame(sf)`config, filesystems.Values`blobs
    {
      sf in storedFiles && sf.id.Some? && sf.repository != null && sf.storageKey.Some? &&
      sf.repository.GetFilesystem(filesystems).Success? &&
      var fs := sf.repository.GetFilesystem(filesystems).value;
      sf.storageKey.value in fs.blobs && fs.blobs[sf.storageKey.value] == contents
    }

    /** Nothing was stored: the records, the thumbnail queue and every backend's blobs are as they
        were. */
    twostate predicate NothingStored()
      reads this`storedFiles, thumbnails`progress, filesystems.Values`blobs
    {
      storedFiles == old(storedFiles) && thumbnails.progress == old(thumbnails.progress) &&
      forall fs :: fs in filesystems.Values ==> fs.blobs == old(fs.blobs)
    }

    /** `time()` / `uniqid()`: a fresh tick per call. */
    method Tick() returns (t: nat)
      modifies this`ticks
      ensures ticks == old(ticks) + 1 && t == ticks
    {
      ticks := ticks + 1;
      t := ticks;
    }

    /** `createRepository`: a new repository built through `setConfig`, labelled and persisted
        (given the next id). A config without `filesystem` is refused and nothing is stored. */
    method CreateRepository(name: string, config: Config, displayLabel: Option<string>)
      returns (r: Result<Repository, Error>)
      requires Valid()
      requires Occurrences(ConfiguredIds(config), THUMBNAILS_INTERCEPTOR) <= 1
      modifies this`repositories, this`nextId
      ensures Valid()
      ensures config.filesystem.None? ==>
        r == Failure(InvalidConfig(CreateInvalidRepositoryConfig("filesystem", config))) && repositories == old(repositories)
      ensures config.filesystem.Some? ==> r.Success?
      ensures r.Success? ==> (fresh(r.value) && repositories == old(repositories) + [r.value] &&
        r.value.name == Some(name) && r.value.config == ValidatedConfig(config).value &&
        r.value.id == Some(old(nextId)) && r.value.displayLabel == displayLabel && r.value.files == Some([]))
      ensures r.Success? ==>
        LookupRepository(name) == if old(LookupRepository(name)).Some? then old(LookupRepository(name)) else Some(r.value)
    {
      r := Repository.Create(name, config);
      if r.Failure? {
        return;
      }
      var repository := r.value;
      assert ConfiguredIds(repository.config) == ConfiguredIds(config);
      repository.displayLabel := displayLabel;
      repository.id := Some(nextId);
      nextId := nextId + 1;
      Register(repository);
      FirstNamedExtend(old(repositories), repository, name);
    }

    /** Appends a set-up repository to the store, keeping the invariant. */
    method Register(repository: Repository)
      requires Valid() && repository.Valid() && repository.id.Some?
      requires Occurrences(ConfiguredIds(repository.config), THUMBNAILS_INTERCEPTOR) <= 1
      modifies this`repositories
      ensures Valid() && repositories == old(repositories) + [repository]
    {
      repositories := repositories + [repository];
    }

    /** Picks the record of a put: with `overwrite_files` on and a stored record of that name, that
        record with `createdAt` refreshed and overwrite kept on; otherwise overwrite is off and a new
        record comes from `createFile` (the first tick is its creation time, the second the
        `uniqid()` of its key). */
    method SelectRecord(repository: Repository, file: SourceFile, ctx: Context) returns (r: Result<StoredFile, Error>, overwrite: bool)
      requires Valid()
      modifies this`ticks, repository`files, storedFiles`createdAt
      ensures Valid()
      ensures r.Success? ==> r.value.repository == repository && r.value.storageKey.Some?
      ensures LinksKept(old(storedFiles))
      ensures old(ReusedRecord(repository, file)) != null ==>
        (r.Success? && r.value == old(ReusedRecord(repository, file)) && overwrite && ticks == old(ticks) + 1 &&
         r.value.createdAt == Some(ticks) && repository.files == old(repository.files))
      ensures old(ReusedRecord(repository, file)) == null ==> !overwrite && ticks == old(ticks) + 2
      ensures old(ReusedRecord(repository, file)) == null ==>
        (r.Failure? <==> !StoredFile.KeyAccepted(repository, file, ctx, keyGenerators, UniqueToken(old(ticks) + 2)))
      ensures old(ReusedRecord(repository, file)) == null && r.Failure? ==>
        (r.error == StoredFile.KeyError(repository, file, ctx, keyGenerators, UniqueToken(old(ticks) + 2)) &&
         repository.files == old(repository.files))
      ensures old(ReusedRecord(repository, file)) == null && r.Success? ==>
        (fresh(r.value) && repository.files == Some(old(repository.files).GetOr([]) + [r.value]) &&
         r.value.IsNewRecordOf(repository, file, ctx,
           repository.StorageKeyFor(file, ctx, keyGenerators, UniqueToken(old(ticks) + 2)).value, old(ticks) + 1))
    {
      overwrite := repository.config.overwriteFiles.GetOr(false);
      var found: StoredFile? := null;
      if overwrite {
        found := FindStoredFile(repository, file.RecordFilename());
        if found != null {
          var now := Tick();
          found.SetCreatedAt(now);
        } else {
          overwrite := false;
        }
      }
      if found == null {
        var now := Tick();
        var t := Tick();
        r := repository.CreateFile(file, ctx, keyGenerators, UniqueToken(t), now);
      } else {
        r := Success(found);
      }
    }

    /** The persist-and-flush of a record: refused when another stored record holds its key (the
        unique column); otherwise the record gets an id if it has none and is in the store. */
    method Persist(sf: StoredFile) returns (o: Outcome<Error>)
      requires Valid() && sf.storageKey.Some?
      modifies this`storedFiles, this`nextId, sf`id
      ensures Valid()
      ensures old(KeyTaken(sf)) ==>
        o == Fail(DuplicateStorageKey(sf.storageKey.value)) && storedFiles == old(storedFiles) && sf.id == old(sf.id)
      ensures !old(KeyTaken(sf)) ==> (o == Pass && sf.id.Some? && (old(sf.id).Some? ==> sf.id == old(sf.id)) &&
        storedFiles == old(storedFiles) + (if sf in old(storedFiles) then [] else [sf]))
    {
      if KeyTaken(sf) {
        return Fail(DuplicateStorageKey(sf.storageKey.value));
      }
      if sf.id.None? {
        sf.id := Some(nextId);
        nextId := nextId + 1;
      }
      if sf !in storedFiles {
        storedFiles := storedFiles + [sf];
      }
      o := Pass;
    }

    /** The write of `put`: writes the bytes under the record's key with the overwrite flag,
        then persists the record; when persisting fails the blob is deleted again, but only for a
        record that has no id yet, and the failure is passed on. */
    method WriteAndPersist(fs: Filesystem, sf: StoredFile, contents: Bytes, overwrite: bool) returns (o: Outcome<Error>)
      requires Valid() && sf.storageKey.Some?
      modifies fs`blobs, this`storedFiles, this`nextId, sf`id
      ensures Valid()
      ensures var key := sf.storageKey.value;
        (!overwrite && key in old(fs.blobs) ==>
           o == Fail(FileAlreadyExists(key)) && fs.blobs == old(fs.blobs) && storedFiles == old(storedFiles)) &&
        ((overwrite || key !in old(fs.blobs)) && old(KeyTaken(sf)) ==>
           o == Fail(DuplicateStorageKey(key)) && storedFiles == old(storedFiles) &&
           (old(sf.id).None? ==> fs.blobs == old(fs.blobs) - {key}) &&
           (old(sf.id).Some? ==> fs.blobs == old(fs.blobs)[key := contents])) &&
        ((overwrite || key !in old(fs.blobs)) && !old(KeyTaken(sf)) ==>
           o == Pass && fs.blobs == old(fs.blobs)[key := contents] && sf.id.Some? &&
           storedFiles == old(storedFiles) + (if sf in old(storedFiles) then [] else [sf]))
    {
      var key := sf.storageKey.value;
      o := fs.Write(key, contents, overwrite);
      if o.Fail? {
        return;
      }
      o := Persist(sf);
      if o.Fail? && sf.id.None? {
        var _ := fs.Delete(key);
      }
    }

    /** `Repository::beforePut`: calls `beforePut` on every interceptor the filter accepts, in
        provider order; the validation interceptor vetoes a file its validator finds errors in. */
    method DispatchBefore(repository: Repository, file: SourceFile, filter: Filter)
      returns (o: Outcome<Error>, ghost called: seq<Interceptor>)
      ensures o == BeforeVerdict(repository, file, filter)
      ensures o.Pass? ==> called == Accepted(Resolved(repository).value, filter)
    {
      called := [];
      var found := GetInterceptors(repository.config, registry);
      if found.Failure? {
        o := Fail(ServiceNotFound(found.error));
        return;
      }
      var list := found.value;
      var i := 0;
      while i < |list|
        invariant 0 <= i <= |list|
        invariant called == Accepted(list[..i], filter)
        invariant |oracles.validate(file, repository.config)| > 0 ==> Validation !in called
      {
        AcceptedStep(list, i, filter);
        if filter(list[i]) {
          called := called + [list[i]];
          if list[i] == Validation {
            var errors := oracles.validate(file, repository.config);
            if |errors| > 0 {
              var e := CreateFileValidationException(file, errors, Some(repository));
              AcceptedMembership(list, filter, Validation);
              assert e == FileValidationException(e.message, e.validatedFile, e.errors, e.repository);
              o := Fail(ValidationFailed(e));
              return;
            }
          }
        }
        i := i + 1;
      }
      assert list[..i] == list;
      o := Pass;
    }

    /** `Repository::afterPut`: every interceptor's `afterPut` is the inherited no-op, so the stage
        only calls the accepted interceptors in order. */
    method DispatchAfter(repository: Repository, filter: Filter) returns (o: Outcome<Error>, ghost called: seq<Interceptor>)
      ensures Resolved(repository).Failure? ==> o == Fail(ServiceNotFound(Resolved(repository).error)) && called == []
      ensures Resolved(repository).Success? ==>
        o == Pass && called == Accepted(Resolved(repository).value, filter)
    {
      called := [];
      var found := GetInterceptors(repository.config, registry);
      if found.Failure? {
        o := Fail(ServiceNotFound(found.error));
        return;
      }
      var list := found.value;
      var i := 0;
      while i < |list|
        invariant 0 <= i <= |list|
        invariant called == Accepted(list[..i], filter)
      {
        AcceptedStep(list, i, filter);
        if filter(list[i]) {
          called := called + [list[i]];
        }
        i := i + 1;
      }
      assert list[..i] == list;
      o := Pass;
    }

    /** The `onPut` of an interceptor other than the thumbnails one, called with an empty hook
        context (the put's own context is not passed on): the mime saver, the authoring stamp, and
        the inherited no-op of every other interceptor. */
    method StatelessOnPut(interceptor: Interceptor, repository: Repository, sf: StoredFile) returns (o: Outcome<Error>)
      modifies filesystems.Values, sf`author
      ensures interceptor != MimeSaver ==> o == Pass
      ensures interceptor == MimeSaver ==> (TruthyOpt(sf.mimeType) && repository.GetFilesystem(filesystems).Failure? <==> o.Fail?)
      ensures forall fs :: fs in filesystems.Values ==> fs.blobs == old(fs.blobs)
      ensures interceptor != MimeSaver ==> forall fs :: fs in filesystems.Values ==> fs.metadata == old(fs.metadata)
      ensures interceptor == MimeSaver ==> forall fs :: fs in filesystems.Values ==>
        (if TruthyOpt(sf.mimeType) && repository.GetFilesystem(filesystems) == Success(fs) && fs.supportsMetadata
         then fs.metadata == old(fs.metadata)[sf.storageKey.GetOr("") := map["contentType" := sf.mimeType.value]]
         else fs.metadata == old(fs.metadata))
      ensures interceptor == Authoring && AuthorToStamp(false, token).Some? ==> sf.author == AuthorToStamp(false, token)
      ensures !(interceptor == Authoring && AuthorToStamp(false, token).Some?) ==> sf.author == old(sf.author)
    {
      match interceptor {
        case MimeSaver =>
          o := MimeSaverOnPut(sf, repository, filesystems);
        case Authoring =>
          AuthoringOnPut(sf, map[], token);
          o := Pass;
        case _ =>
          o := Pass;
      }
    }

    /** `Repository::onPut`: calls `onPut` on every interceptor the filter accepts, in provider
        order, with an empty hook context: the mime saver, the authoring stamp and the thumbnails
        interceptor (which may put thumbnails). */
    method DispatchOnPut(repository: Repository, sf: StoredFile, file: SourceFile, filter: Filter)
      returns (o: Outcome<Error>, ghost called: seq<Interceptor>)
      requires Valid()
      requires Occurrences(ConfiguredIds(repository.config), THUMBNAILS_INTERCEPTOR) <= 1
      modifies this`storedFiles, this`nextId, this`ticks, thumbnails`progress, thumbnails`scheduled
      modifies filesystems.Values, repositories`files
      modifies storedFiles`createdAt, storedFiles`alternatives, storedFiles`alternativeOf
      modifies storedFiles`meta, storedFiles`author, storedFiles`id
      modifies OriginalRecords(file)`alternatives, sf`meta, sf`alternatives, sf`alternativeOf, sf`author
      decreases Pending(thumbnails.progress, LookupKey(file), SizesFor(sf)), 3
      ensures Valid()
      ensures forall x :: x in storedFiles ==> x in old(storedFiles) || fresh(x)
      ensures old(thumbnails.scheduled) <= thumbnails.scheduled
      ensures old(Resolved(repository)).Failure? ==> o == Fail(ServiceNotFound(old(Resolved(repository)).error))
      ensures o.Pass? ==> called == Accepted(old(Resolved(repository)).value, filter)
      ensures old(Resolved(repository)).Success? && Thumbnails !in Accepted(old(Resolved(repository)).value, filter) ==>
        thumbnails.progress == old(thumbnails.progress) && thumbnails.scheduled == old(thumbnails.scheduled)
      ensures !filter(Thumbnails) ==> storedFiles == old(storedFiles) && LinksKept(old(storedFiles))
      ensures o.Pass? && filter(Thumbnails) && old(ReachesQueue(sf, file)) && old(Chain(this, sf, repository)) ==>
        (thumbnails.progress == DrainFor(old(thumbnails.progress), sf, file).1 &&
         |thumbnails.scheduled| == |old(thumbnails.scheduled)| + DrainFor(old(thumbnails.progress), sf, file).0)
    {
      called := [];
      var found := GetInterceptors(repository.config, registry);
      if found.Failure? {
        o := Fail(ServiceNotFound(found.error));
        return;
      }
      var list := found.value;
      DefaultsThenConfigured(repository.config, registry);
      var k := IndexOf(list, Thumbnails);
      ThumbnailsSplit(list, k, filter);
      if k == |list| {
        o, called := RunStateless(repository, sf, list, filter);
      } else {
        o, called := RunSplit(repository, sf, file, filter, list[..k], list[k + 1..]);
      }
    }

    /** An `onPut` dispatch split at the thumbnails interceptor: the calls of `pre`, then the
        thumbnails interceptor when the filter accepts it, then the calls of `post`. */
    method RunSplit(repository: Repository, sf: StoredFile, file: SourceFile, filter: Filter,
                    pre: seq<Interceptor>, post: seq<Interceptor>)
      returns (o: Outcome<Error>, ghost called: seq<Interceptor>)
      requires Valid()
      requires Thumbnails !in pre && Thumbnails !in post
      modifies this`storedFiles, this`nextId, this`ticks, thumbnails`progress, thumbnails`scheduled
      modifies filesystems.Values, repositories`files
      modifies storedFiles`createdAt, storedFiles`alternatives, storedFiles`alternativeOf
      modifies storedFiles`meta, storedFiles`author, storedFiles`id
      modifies OriginalRecords(file)`alternatives, sf`meta, sf`alternatives, sf`alternativeOf, sf`author
      decreases Pending(thumbnails.progress, LookupKey(file), SizesFor(sf)), 2
      ensures Valid()
      ensures forall x :: x in storedFiles ==> x in old(storedFiles) || fresh(x)
      ensures old(thumbnails.scheduled) <= thumbnails.scheduled
      ensures o.Pass? && filter(Thumbnails) ==> called == Accepted(pre, filter) + [Thumbnails] + Accepted(post, filter)
      ensures o.Pass? && !filter(Thumbnails) ==> called == Accepted(pre, filter) + Accepted(post, filter)
      ensures !filter(Thumbnails) ==>
        thumbnails.progress == old(thumbnails.progress) && thumbnails.scheduled == old(thumbnails.scheduled)
      ensures !filter(Thumbnails) ==> storedFiles == old(storedFiles) && LinksKept(old(storedFiles))
      ensures o.Pass? && filter(Thumbnails) && old(ReachesQueue(sf, file)) && old(Chain(this, sf, repository)) ==>
        (thumbnails.progress == DrainFor(old(thumbnails.progress), sf, file).1 &&
         |thumbnails.scheduled| == |old(thumbnails.scheduled)| + DrainFor(old(thumbnails.progress), sf, file).0)
    {
      o, called := RunStateless(repository, sf, pre, filter);
      if o.Fail? {
        return;
      }
      o, called := RunFrom(repository, sf, file, filter, called, post);
    }

    /** The rest of an `onPut` dispatch from the thumbnails interceptor on: the thumbnails
        interceptor when the filter accepts it, then the calls of `post`, appended to the calls
        `before` already made. */
    method RunFrom(repository: Repository, sf: StoredFile, file: SourceFile, filter: Filter,
                   ghost before: seq<Interceptor>, post: seq<Interceptor>)
      returns (o: Outcome<Error>, ghost called: seq<Interceptor>)
      requires Valid()
      requires Thumbnails !in post
      modifies this`storedFiles, this`nextId, this`ticks, thumbnails`progress, thumbnails`scheduled
      modifies filesystems.Values, repositories`files
      modifies storedFiles`createdAt, storedFiles`alternatives, storedFiles`alternativeOf
      modifies storedFiles`meta, storedFiles`author, storedFiles`id
      modifies OriginalRecords(file)`alternatives, sf`meta, sf`alternatives, sf`alternativeOf, sf`author
      decreases Pending(thumbnails.progress, LookupKey(file), SizesFor(sf)), 1
      ensures Valid()
      ensures forall x :: x in storedFiles ==> x in old(storedFiles) || fresh(x)
      ensures old(thumbnails.scheduled) <= thumbnails.scheduled
      ensures o.Pass? && filter(Thumbnails) ==> called == before + [Thumbnails] + Accepted(post, filter)
      ensures o.Pass? && !filter(Thumbnails) ==> called == before + Accepted(post, filter)
      ensures !filter(Thumbnails) ==>
        thumbnails.progress == old(thumbnails.progress) && thumbnails.scheduled == old(thumbnails.scheduled)
      ensures !filter(Thumbnails) ==> storedFiles == old(storedFiles) && LinksKept(old(storedFiles))
      ensures o.Pass? && filter(Thumbnails) && old(ReachesQueue(sf, file)) && old(Chain(this, sf, repository)) ==>
        (thumbnails.progress == DrainFor(old(thumbnails.progress), sf, file).1 &&
         |thumbnails.scheduled| == |old(thumbnails.scheduled)| + DrainFor(old(thumbnails.progress), sf, file).0)
    {
      called := before;
      if filter(Thumbnails) {
        called := called + [Thumbnails];
        var result := thumbnails.OnPut(this, sf, file, repository);
        if result.Failure? {
          o := Fail(result.error);
          return;
        }
      }
      ghost var rest;
      o, rest := RunStateless(repository, sf, post, filter);
      called := called + rest;
    }

    /** The `onPut` calls of a run of interceptors that does not contain the thumbnails one. */
    method RunStateless(repository: Repository, sf: StoredFile, list: seq<Interceptor>, filter: Filter)
      returns (o: Outcome<Error>, ghost called: seq<Interceptor>)
      requires Thumbnails !in list
      modifies filesystems.Values, sf`author
      ensures o.Pass? ==> called == Accepted(list, filter)
      ensures forall fs :: fs in filesystems.Values ==> fs.blobs == old(fs.blobs)
      ensures LinksKept(old(storedFiles))
    {
      called := [];
      var i := 0;
      while i < |list|
        invariant 0 <= i <= |list|
        invariant called == Accepted(list[..i], filter)
        invariant forall fs :: fs in filesystems.Values ==> fs.blobs == old(fs.blobs)
      {
        AcceptedStep(list, i, filter);
        if filter(list[i]) {
          called := called + [list[i]];
          o := StatelessOnPut(list[i], repository, sf);
          if o.Fail? {
            return;
          }
        }
        i := i + 1;
      }
      assert list[..i] == list;
      o := Pass;
    }

    /** `put`: finds the repository by name and puts the file into it. */
    method Put(name: string, file: SourceFile, ctx: Context) returns (r: Result<StoredFile, Error>)
      requires Valid()
      modifies this`storedFiles, this`nextId, this`ticks, thumbnails`progress, thumbnails`scheduled
      modifies filesystems.Values, repositories`files
      modifies storedFiles`createdAt, storedFiles`alternatives, storedFiles`alternativeOf
      modifies storedFiles`meta, storedFiles`author, storedFiles`id
      modifies OriginalRecords(file)`alternatives
      decreases Pending(thumbnails.progress, LookupKey(file), SizesOf(name)), 7
      ensures Valid()
      ensures forall x :: x in storedFiles ==> x in old(storedFiles) || fresh(x)
      ensures old(thumbnails.scheduled) <= thumbnails.scheduled
      ensures LookupRepository(name).None? ==>
        (r == Failure(RepositoryNotFound(name)) && storedFiles == old(storedFiles) && ticks == old(ticks) &&
         thumbnails.progress == old(thumbnails.progress) &&
         thumbnails.scheduled == old(thumbnails.scheduled) && forall fs :: fs in filesystems.Values ==> fs.blobs == old(fs.blobs))
      ensures r.Success? ==>
        (LookupRepository(name).Some? && r.value.repository == LookupRepository(name).value &&
         file.contents.Some? && HoldsFile(r.value, file.contents.value))
      ensures r.Success? && LookupRepository(name).value.config.overwriteFiles != Some(true) ==> fresh(r.value)
      ensures SkipsThumbnails(ctx) ==> old(storedFiles) <= storedFiles && LinksKept(old(storedFiles))
      ensures r.Success? && old(PutDrains(name, file, ctx)) ==>
        (thumbnails.progress == Drain(old(thumbnails.progress), LookupKey(file).value, SizesOf(name)).1 &&
         |thumbnails.scheduled| == |old(thumbnails.scheduled)| + Drain(old(thumbnails.progress), LookupKey(file).value, SizesOf(name)).0)
    {
      var found := LookupRepository(name);
      if found.None? {
        return Failure(RepositoryNotFound(name));
      }
      r := PutInto(found.value, file, ctx);
    }

    /** The body of `put` once the repository is found: the before stage and record selection,
        the read of the bytes (a file that cannot be read is refused after the record was made),
        then the storing stages. */
    method PutInto(repository: Repository, file: SourceFile, ctx: Context) returns (r: Result<StoredFile, Error>)
      requires Valid() && repository in repositories
      modifies this`storedFiles, this`nextId, this`ticks, thumbnails`progress, thumbnails`scheduled
      modifies filesystems.Values, repositories`files
      modifies storedFiles`createdAt, storedFiles`alternatives, storedFiles`alternativeOf
      modifies storedFiles`meta, storedFiles`author, storedFiles`id
      modifies OriginalRecords(file)`alternatives
      decreases Pending(thumbnails.progress, LookupKey(file), Sizes(repository.config)), 6
      ensures Valid()
      ensures forall x :: x in storedFiles ==> x in old(storedFiles) || fresh(x)
      ensures old(thumbnails.scheduled) <= thumbnails.scheduled
      ensures old(BeforeStage(repository, file, ctx)).Fail? ==>
        (r == Failure(old(BeforeStage(repository, file, ctx)).error) && ticks == old(ticks) && NothingStored())
      ensures old(BeforeStage(repository, file, ctx)).Pass? && !old(Selects(repository, file, ctx)) ==>
        (r == Failure(old(SelectionError(repository, file, ctx))) && NothingStored())
      ensures old(BeforeStage(repository, file, ctx)).Pass? && old(Selects(repository, file, ctx)) && file.contents.None? ==>
        (r == Failure(Unreadable(Dirname(file.pathname))) && NothingStored())
      ensures r.Success? ==> r.value.repository == repository && file.contents.Some? && HoldsFile(r.value, file.contents.value)
      ensures SkipsThumbnails(ctx) ==> old(storedFiles) <= storedFiles && LinksKept(old(storedFiles))
      ensures r.Success? && old(ReusedRecord(repository, file)) != null ==> r.value == old(ReusedRecord(repository, file))
      ensures r.Success? && old(ReusedRecord(repository, file)) == null ==>
        (fresh(r.value) && r.value.storageKey.Some? &&
         Success(r.value.storageKey.value) == repository.StorageKeyFor(file, ctx, keyGenerators, UniqueToken(old(ticks) + 2)))
      ensures r.Success? && old(PutIntoDrains(repository, file, ctx)) ==>
        (thumbnails.progress == Drain(old(thumbnails.progress), LookupKey(file).value, Sizes(repository.config)).1 &&
         |thumbnails.scheduled| == |old(thumbnails.scheduled)| + Drain(old(thumbnails.progress), LookupKey(file).value, Sizes(repository.config)).0)
    {
      var prepared := Prepare(repository, file, ctx);
      if prepared.Failure? {
        return Failure(prepared.error);
      }
      r := Deliver(repository, prepared.value.0, file, prepared.value.1, ctx);
    }

    /** `put` once the record is chosen: the read of the file's bytes (a file
        that cannot be read is refused), then the storing stages. */
    method Deliver(repository: Repository, sf: StoredFile, file: SourceFile, overwrite: bool, ctx: Context)
      returns (r: Result<StoredFile, Error>)
      requires Valid() && repository in repositories && sf.repository == repository && sf.storageKey.Some?
      modifies this`storedFiles, this`nextId, this`ticks, thumbnails`progress, thumbnails`scheduled
      modifies filesystems.Values, repositories`files
      modifies storedFiles`createdAt, storedFiles`alternatives, storedFiles`alternativeOf
      modifies storedFiles`meta, storedFiles`author, storedFiles`id
      modifies OriginalRecords(file)`alternatives
      modifies sf`meta, sf`alternatives, sf`alternativeOf, sf`author, sf`id
      decreases Pending(thumbnails.progress, LookupKey(file), SizesFor(sf)), 5
      ensures Valid()
      ensures forall x :: x in storedFiles ==> x in old(storedFiles) || x == sf || fresh(x)
      ensures old(thumbnails.scheduled) <= thumbnails.scheduled
      ensures file.contents.None? ==>
        (r == Failure(Unreadable(Dirname(file.pathname))) && NothingStored())
      ensures r.Success? ==> r.value == sf && file.contents.Some? && HoldsFile(sf, file.contents.value)
      ensures SkipsThumbnails(ctx) ==> old(storedFiles) <= storedFiles && LinksKept(old(storedFiles))
      ensures r.Success? && old(PutIntoDrains(repository, file, ctx)) ==>
        (thumbnails.progress == Drain(old(thumbnails.progress), LookupKey(file).value, Sizes(repository.config)).1 &&
         |thumbnails.scheduled| == |old(thumbnails.scheduled)| + Drain(old(thumbnails.progress), LookupKey(file).value, Sizes(repository.config)).0)
    {
      if file.contents.None? {
        return Failure(Unreadable(Dirname(file.pathname)));
      }
      r := Store(repository, sf, file, file.contents.value, overwrite, ctx);
    }

    /** The opening of `put`: the before stage, unless the context disables it. */
    method RunBefore(repository: Repository, file: SourceFile, ctx: Context) returns (o: Outcome<Error>)
      ensures o == BeforeStage(repository, file, ctx)
    {
      var disabledBefore := IsInterceptorDisabled(ctx, Before);
      if disabledBefore.Failure? {
        return Fail(BadContext(disabledBefore.error));
      }
      o := Pass;
      if !disabledBefore.value {
        ghost var beforeCalls;
        o, beforeCalls := DispatchBefore(repository, file, CreateInterceptorsFilter(ctx, Before));
      }
    }

    /** The first half of `put`: the before stage, then the record selection. The before stage
        changes no state, so its outcome is taken as the value `RunBefore` is proved to compute. */
    method Prepare(repository: Repository, file: SourceFile, ctx: Context) returns (r: Result<(StoredFile, bool), Error>)
      requires Valid()
      modifies this`ticks, repository`files, storedFiles`createdAt
      ensures Valid() && NothingStored() && thumbnails.scheduled == old(thumbnails.scheduled)
      ensures LinksKept(old(storedFiles))
      ensures PutIntoDrains(repository, file, ctx) == old(PutIntoDrains(repository, file, ctx))
      ensures old(BeforeStage(repository, file, ctx)).Fail? ==> r == Failure(old(BeforeStage(repository, file, ctx)).error) && ticks == old(ticks)
      ensures old(BeforeStage(repository, file, ctx)).Pass? ==> (r.Failure? <==> !old(Selects(repository, file, ctx)))
      ensures old(BeforeStage(repository, file, ctx)).Pass? && r.Failure? ==> r.error == old(SelectionError(repository, file, ctx))
      ensures r.Success? ==> (r.value.0.repository == repository && r.value.0.storageKey.Some? &&
        (r.value.0 in storedFiles || fresh(r.value.0)))
      ensures r.Success? && old(ReusedRecord(repository, file)) != null ==> r.value == (old(ReusedRecord(repository, file)), true)
      ensures r.Success? && old(ReusedRecord(repository, file)) == null ==>
        (fresh(r.value.0) && !r.value.1 &&
         Success(r.value.0.storageKey.value) == repository.StorageKeyFor(file, ctx, keyGenerators, UniqueToken(old(ticks) + 2)))
    {
      var before := BeforeStage(repository, file, ctx);
      if before.Fail? {
        return Failure(before.error);
      }
      var selected, overwrite := SelectRecord(repository, file, ctx);
      if selected.Failure? {
        return Failure(selected.error);
      }
      r := Success((selected.value, overwrite));
    }

    /** The second half of `put`: the put stage, the write of the bytes under the record's key, the
        persist (deleting the fresh blob again when it fails) and the after stage. */
    method Store(repository: Repository, sf: StoredFile, file: SourceFile, contents: Bytes, overwrite: bool, ctx: Context)
      returns (r: Result<StoredFile, Error>)
      requires Valid() && repository in repositories && sf.repository == repository && sf.storageKey.Some?
      modifies this`storedFiles, this`nextId, this`ticks, thumbnails`progress, thumbnails`scheduled
      modifies filesystems.Values, repositories`files
      modifies storedFiles`createdAt, storedFiles`alternatives, storedFiles`alternativeOf
      modifies storedFiles`meta, storedFiles`author, storedFiles`id
      modifies OriginalRecords(file)`alternatives
      modifies sf`meta, sf`alternatives, sf`alternativeOf, sf`author, sf`id
      decreases Pending(thumbnails.progress, LookupKey(file), SizesFor(sf)), 4
      ensures Valid()
      ensures forall x :: x in storedFiles ==> x in old(storedFiles) || x == sf || fresh(x)
      ensures old(thumbnails.scheduled) <= thumbnails.scheduled
      ensures r.Success? ==> r.value == sf && HoldsFile(sf, contents)
      ensures SkipsThumbnails(ctx) ==> old(storedFiles) <= storedFiles && LinksKept(old(storedFiles))
      ensures r.Success? && old(PutIntoDrains(repository, file, ctx)) ==>
        (thumbnails.progress == DrainFor(old(thumbnails.progress), sf, file).1 &&
         |thumbnails.scheduled| == |old(thumbnails.scheduled)| + DrainFor(old(thumbnails.progress), sf, file).0)
    {
      var disabledPut := IsInterceptorDisabled(ctx, OnPut);
      if disabledPut.Failure? {
        return Failure(BadContext(disabledPut.error));
      }
      if !disabledPut.value {
        var intercepted, putCalls := DispatchOnPut(repository, sf, file, CreateInterceptorsFilter(ctx, OnPut));
        if intercepted.Fail? {
          return Failure(intercepted.error);
        }
      }
      r := Finish(repository, sf, contents, overwrite, ctx);
    }

    /** The storing part of `put`: the write and persist into the repository's backend, then the after
        stage. */
    method Finish(repository: Repository, sf: StoredFile, contents: Bytes, overwrite: bool, ctx: Context)
      returns (r: Result<StoredFile, Error>)
      requires Valid() && sf.repository == repository && sf.storageKey.Some?
      modifies filesystems.Values, this`storedFiles, this`nextId, sf`id
      ensures Valid()
      ensures storedFiles == old(storedFiles) || storedFiles == old(storedFiles) + [sf]
      ensures repository.GetFilesystem(filesystems).Failure? ==>
        r == Failure(repository.GetFilesystem(filesystems).error) && storedFiles == old(storedFiles)
      ensures r.Success? ==> r.value == sf && HoldsFile(sf, contents)
      ensures LinksKept(old(storedFiles))
    {
      var fs := repository.GetFilesystem(filesystems);
      if fs.Failure? {
        return Failure(fs.error);
      }
      var stored := WriteAndPersist(fs.value, sf, contents, overwrite);
      if stored.Fail? {
        return Failure(stored.error);
      }
      var disabledAfter := IsInterceptorDisabled(ctx, After);
      if disabledAfter.Failure? {
        return Failure(BadContext(disabledAfter.error));
      }
      if !disabledAfter.value {
        var finished, afterCalls := DispatchAfter(repository, CreateInterceptorsFilter(ctx, After));
        if finished.Fail? {
          return Failure(finished.error);
        }
      }
      r := Success(sf);
    }
  }

  /** An `onPut` dispatch over a list that holds the thumbnails interceptor at most once, split at
      its first position `k`: no thumbnails interceptor on either side, and the accepted calls are
      those before it, it when accepted, and those after it. */
  lemma ThumbnailsSplit(list: seq<Interceptor>, k: nat, filter: Filter)
    requires Count(list, Thumbnails) <= 1 && k == IndexOf(list, Thumbnails)
    ensures Thumbnails in Accepted(list, filter) <==> k < |list| && filter(Thumbnails)
    ensures k == |list| ==> Thumbnails !in list && Count(list, Thumbnails) == 0
    ensures k < |list| ==> Thumbnails !in list[..k] && Thumbnails !in list[k + 1..]
    ensures k < |list| && filter(Thumbnails) ==>
      Accepted(list, filter) == Accepted(list[..k], filter) + [Thumbnails] + Accepted(list[k + 1..], filter)
    ensures k < |list| && !filter(Thumbnails) ==>
      Accepted(list, filter) == Accepted(list[..k], filter) + Accepted(list[k + 1..], filter)
  {
    AcceptedMembership(list, filter, Thumbnails);
    if k == |list| {
      CountZero(list, Thumbnails);
    } else {
      AcceptedSplit(list, k, filter);
      AtMostOnce(list, Thumbnails, k);
    }
  }

  /** Appending a repository with the name keeps an earlier match and otherwise finds the new one. */
  lemma {:induction false} FirstNamedExtend(repositories: seq<Repository>, repository: Repository, name: string)
    requires repository.name == Some(name)
    ensures FirstNamed(repositories + [repository], name) ==
      if FirstNamed(repositories, name).Some? then FirstNamed(repositories, name) else Some(repository)
    decreases |repositories|
  {
    if |repositories| == 0 {
      assert repositories + [repository] == [repository];
    } else {
      assert (repositories + [repository])[1..] == repositories[1..] + [repository];
      FirstNamedExtend(repositories[1..], repository, name);
    }
  }
}
