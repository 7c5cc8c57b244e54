# ModeraFileRepositoryBundle: a verified model of the file repository core

The bundle stores uploaded files in named *repositories*. A repository has a validated config. It maps
to a storage backend, and it runs a chain of *interceptors* around every `put`. Each stored file
becomes a `StoredFile` record with a generated storage key. A record may have *alternatives*
(thumbnails) that point back at their original.

This project models that core in Dafny, and proves what the code promises about it.

- **Put pipeline** (`pipeline.dfy`, class `FileRepository`). `put` does these steps in order:
  1. looks the repository up by name;
  2. runs the before stage;
  3. picks the record: an overwritten one, or a fresh one from `createFile`;
  4. reads the bytes;
  5. runs the put stage;
  6. writes the blob;
  7. persists the record, deleting the blob again when that fails for a record without an id;
  8. runs the after stage.

  Each stage can be disabled by the put context, or filtered by a callable in it.
- **Thumbnails interceptor** (`pipeline.dfy`, class `ThumbnailsInterceptor`). It keeps a per-pathname
  queue of pending thumbnail sizes, generates one thumbnail per call, and puts it back into the
  same repository. That second put calls the interceptor again with an *alternative* file.
  - The recursion `put` → put stage → interceptor → `put` is modelled as mutually recursive
    methods.
  - Termination comes from the queue shrinking.
  - With n sizes, one original upload leads to exactly n thumbnail puts, and then its queue entry
    is gone.
- **Entities** (`entities.dfy`):
  - `Repository`: config validation and defaulting, `createFile`, the file collection.
  - `StoredFile`: key generation at construction, alternatives, meta merging, lazy creation time,
    blob accessors and `onRemove`.
  - `Filesystem`: a backend `map<string, Bytes>` (bytes are the newtype `byte`, 0 to 255) with
    write, read, size, checksum, delete and metadata.
  - `SourceFile`: the file handed to `put` (plain, Symfony `File`, upload, base64). The
    alternative-file trait is its `Derived` origin.
- **Interceptor list and hooks** (`intercepting.dfy`, `hooks.dfy`, `put_context.dfy`):
  - the provider's order: three defaults, then the configured ids;
  - filtered dispatch, called once per accepted listing, in order;
  - the mime-saver and authoring rules;
  - the context switches `disable_interceptors` and `<stage>_interceptor_filter`.
- **Thumbnail generation** (`thumbnails.dfy`): the argument, image and `Box` side checks of `generate`, the default mode,
  the meta update, and the queue step and its drain.
- **Commands**:
  - `generate_thumbnails_command.dfy`: the report of existing and missing thumbnails, the dry
    run, the back-fill, and the config update, which is idempotent. The update runs when
    the value of `--update-config` is strictly `true`: when the option is omitted (its default),
    or when a caller that builds the input as an array passes the boolean `true`. A value given
    on the command line is a string or null, so giving it there always skips the update.
  - `create_repository_command.dfy`: how the options become a config.
- **Small rules**:
  - key generators (`key_generators.dfy`);
  - the `storageKey/repository/filename` URL key (`url_generator.dfy`);
  - the controller that splits that key again and serves the record (`controller.dfy`);
  - data-URI helpers and mime wildcard matching (`base64.dfy`);
  - the exception value builders (`exceptions.dfy`).

Time, `uniqid()` and `tempnam()` are modelled as a tick counter: each call takes the next tick.
A tick's unique token is its decimal digits. These parts are parameters or oracle functions: image
resizing, mime and extension guessing, the file-properties validator, the checksum digest, the
security token, and Symfony's conditional-request check.

Two invariants of the `FileRepository` hold across every operation (`Valid()`):
- every repository went through `setConfig`, has an id, and lists the thumbnails interceptor at
  most once;
- every stored record has an id and a key, and stored keys are unique (the unique column).

## Model

| member | source | states |
|---|---|---|
| Pipeline.FileRepository.Put | Repository/FileRepository.php:85-157 | An unknown name fails with `RepositoryNotFound` and changes no record, tick, queue or blob. A success returns a record of the named repository whose blob holds the file's bytes. When the put reaches the thumbnails queue, the queue is drained: one scheduled thumbnail per pending size, and the entry removed. The store invariant is kept. |
| Pipeline.FileRepository.PutInto | Repository/FileRepository.php:92-156 | A before-stage veto is returned and nothing is stored. A failing record selection returns the selection's error. An unreadable file fails after the record was made. A success stores the bytes as stated for `Put`. |
| Pipeline.FileRepository.Prepare | Repository/FileRepository.php:92-119 | The before stage's veto is returned before any tick is taken. Otherwise the result fails exactly when record selection fails, with that error. The chosen record belongs to the repository and has a key. No record, queue or blob changes. |
| Pipeline.FileRepository.RunBefore | Repository/FileRepository.php:94-96 | The outcome is the before stage of the context: skipped when the context disables it, else the dispatch verdict with the context's filter. |
| Pipeline.FileRepository.SelectRecord | Repository/FileRepository.php:98-120 | With `overwrite_files` on and a stored record of that repository and file name (the client name for uploads), that record is reused with `createdAt` refreshed, and overwrite stays on. Otherwise overwrite is off, two ticks are taken, and the new record comes from `createFile`. |
| Pipeline.FileRepository.ReusedRecord | Repository/FileRepository.php:99-116 | A reused record exists only with `overwrite_files` on; then it is the stored record of that repository with the file's record name. |
| Pipeline.FileRepository.FindStoredFile | Repository/FileRepository.php:107-110 | The result is a stored record of the repository with that file name, and null exactly when no stored record matches. |
| Pipeline.FileRepository.Deliver | Repository/FileRepository.php:121-156 | An unreadable file fails and nothing is written. A success returns the chosen record holding the bytes read, and the thumbnails queue drains as for `Put`. |
| Pipeline.FileRepository.Store | Repository/FileRepository.php:128-156 | The put stage runs before the write. A success returns the record holding exactly the bytes read, and the thumbnails queue drains. |
| Pipeline.FileRepository.Finish | Repository/FileRepository.php:133-156 | An unknown backend fails with nothing stored. The store grows by the record at most. A success leaves the record's blob holding the bytes. |
| Pipeline.FileRepository.WriteAndPersist | Repository/FileRepository.php:139-150 | The blob is written under the record's key with the overwrite flag. A persist failure deletes the blob only for a record without an id, and is passed on. Success means the record is stored with an id and its blob holds the bytes. |
| Pipeline.FileRepository.Persist | Repository/FileRepository.php:141-143 | A key another stored record holds is refused and nothing changes. Otherwise the record keeps or gets an id and is in the store. |
| Pipeline.FileRepository.LookupRepository | Repository/FileRepository.php:37-42 | A found repository is a stored one with that name. |
| Pipeline.FileRepository.CreateRepository | Repository/FileRepository.php:64-74 | A config without `filesystem` is refused with `InvalidRepositoryConfig` and nothing is stored. Otherwise the store grows by exactly the new repository: named, labelled, with the validated config and the next id. |
| Pipeline.FileRepository.Register | Repository/FileRepository.php:70-71 | The repository is appended to the store, and the invariant is kept. |
| Pipeline.FileRepository.constructor | Repository/FileRepository.php:26-30 | The store starts empty with tick 0 and the given backends, generators and services. |
| Pipeline.FileRepository.Tick | Entity/StoredFile.php:328 | Each call returns a fresh tick, one more than the last. |
| Pipeline.FileRepository.DispatchBefore | Entity/Repository.php:123-134 | The outcome is the before verdict: an unknown interceptor id, the validator's veto of an accepted validation interceptor, or success. On success the interceptors called are exactly the accepted ones, in provider order. |
| Pipeline.FileRepository.DispatchOnPut | Entity/Repository.php:141-152 | An unknown interceptor id fails with `ServiceNotFound`. On success the calls are exactly the accepted interceptors, in provider order. Without an accepted thumbnails interceptor no queue changes and no thumbnail is put. |
| Pipeline.FileRepository.DispatchAfter | Entity/Repository.php:159-170 | The calls are exactly the accepted interceptors, in provider order; each `afterPut` changes nothing. |
| Pipeline.FileRepository.RunSplit | Entity/Repository.php:147-151 | A dispatch split at the thumbnails interceptor calls the accepted ones before it, then it when accepted, then the accepted ones after it. |
| Pipeline.FileRepository.RunFrom | Entity/Repository.php:147-151 | The rest of a dispatch from the thumbnails interceptor on appends it when accepted, and then the accepted ones after it. |
| Pipeline.FileRepository.RunStateless | Entity/Repository.php:147-151 | A run without the thumbnails interceptor calls exactly the accepted interceptors and writes no blob. |
| Pipeline.FileRepository.StatelessOnPut | Intercepting/BaseOperationInterceptor.php:17-33 | The mime saver records `{contentType: mime}` under the storage key on a metadata backend when the mime type is truthy, and fails exactly when that backend is unknown. The authoring interceptor sets the stamped author when its guards pass. Every other interceptor changes nothing, and no interceptor writes blobs. |
| Pipeline.FirstNamed | Repository/FileRepository.php:37-42 | A found repository is in the list and has the name. |
| Pipeline.FirstNamedFirst | Repository/FileRepository.php:37-42 | Nothing is found exactly when no repository has the name; otherwise the first one with it is found. |
| Pipeline.FirstNamedExtend | Repository/FileRepository.php:64-74 | After a repository is appended, an earlier match stays the answer; otherwise the new repository is found when it has the name. |
| Pipeline.FirstRecord | Repository/FileRepository.php:107-110 | A found record is in the list with that repository and file name; null means none matches. |
| Pipeline.UniqueToken | Repository/UniqidKeyGenerator.php:24 | The token of a tick is non-empty and contains no `.`. |
| Pipeline.UniqueTokensDistinct | Repository/UniqidKeyGenerator.php:24 | Distinct ticks give distinct tokens. |
| Pipeline.ThumbnailsInterceptor.constructor | ThumbnailsGenerator/Interceptor.php:58-63 | The queue map starts empty, and nothing is scheduled. |
| Pipeline.ThumbnailsInterceptor.OnPut | ThumbnailsGenerator/Interceptor.php:81-158 | A call that stops before the queue leaves the queue map and the log of scheduled puts as they were. A scheduling call puts one alternative carrying the original file, the original record and the popped config. A call whose thumbnail puts come back into it ends with the queue drained: one put per pending config, then the entry removed. |
| Pipeline.ThumbnailsInterceptor.Examine | ThumbnailsGenerator/Interceptor.php:83-133 | There are five stops, each with the queue map unchanged: a missing repository, no `thumbnail_sizes` (`NO_CONFIG_AVAILABLE`), an alternative without its payload, an original whose pathname is no regular file (the `FileNotFoundException` of `new File`, always the case for a base64 file), and a non-image (`NOT_IMAGE_GIVEN`). An alternative is linked to its original record before the image check. A reached queue goes one step forward; a popped size PHP cannot pass as `int` fails with a type error, and one whose width or height is below 1 fails with the `Box` error; the queue has stepped either way. |
| Pipeline.ThumbnailsInterceptor.Dequeue | ThumbnailsGenerator/Interceptor.php:113-133 | The queue map goes one `QueueStep` forward. An alternative's carried config is merged into its meta, and any other meta is untouched. An exhausted queue gives `NO_MORE_THUMBNAILS`. A popped config fails as `ArgsError` says when `generate` would refuse it, and is otherwise returned to be scheduled. |
| Pipeline.ThumbnailsInterceptor.Schedule | ThumbnailsGenerator/Interceptor.php:135-157 | A success is `RESULT_SCHEDULED`, and the first put now in the log is the thumbnail of the popped config. When the put comes back into this interceptor, the queue is drained. |
| Pipeline.ThumbnailsInterceptor.Continue | ThumbnailsGenerator/Interceptor.php:135-157 | After the pop, a success is `RESULT_SCHEDULED` with the thumbnail of the popped config first in the log; when the thumbnail puts come back into this interceptor, the queue the original started with is drained, one put per pending config. |
| Pipeline.ThumbnailsInterceptor.Enqueue | ThumbnailsGenerator/Interceptor.php:135-151 | For a config `generate` accepts (a refused one has already failed the put in `Dequeue`), one tick is taken, and the log grows by exactly the thumbnail file of that tick. |
| Pipeline.ThumbnailsInterceptor.Submit | ThumbnailsGenerator/Interceptor.php:154-157 | The recursive put without context returns `RESULT_SCHEDULED` on success, and drains the key's queue when it comes back here. |
| Pipeline.ThumbnailOf | ThumbnailsGenerator/Interceptor.php:137-151 | For a config `generate` accepts, with sides of at least 1, the thumbnail file is an alternative carrying the original file, the original record and the config. It lives at the temp name plus the guessed extension. Its bytes are the inset resize to the config's width and height. An upload keeps the original's client name and mime type. Its queue key is the original's pathname. |
| Pipeline.ThumbnailsSplit | ThumbnailsGenerator/Interceptor.php:154 | In a list holding the thumbnails interceptor at most once, split at its first position: neither side holds it, and the accepted calls are those before, it when accepted, then those after. |
| Entities.Repository.constructor | Entity/Repository.php:83-85 | Only the name is assigned; config empty, no files, no id, no label. |
| Entities.Repository.Create | Entity/Repository.php:83-88 | A config without `filesystem` throws `InvalidRepositoryConfig('filesystem', config)`. Otherwise the new repository has the name, the validated config and an empty file collection. |
| Entities.Repository.SetConfig | Entity/Repository.php:228-238 | A config without `filesystem` is refused and the old config is kept. Otherwise the validated config is stored, holding both required keys. |
| Entities.ValidatedConfig | Entity/Repository.php:228-238 | It fails exactly when `filesystem` is unset, with key `filesystem` and the untouched config. An unset `storage_key_generator` becomes the uniqid generator. A given one, and every other key, is kept. |
| Entities.ValidatedConfigIdempotent | Entity/Repository.php:228-238 | An accepted config is accepted again unchanged. |
| Entities.Repository.Name | Entity/Repository.php:273-276 | The name, or `""` when it is null. |
| Entities.Repository.GetFiles | Entity/Repository.php:289-296 | The collection is created empty on first use, and is returned as it then is. |
| Entities.Repository.GetFilesystem | Entity/Repository.php:185-197 | The backend named by `filesystem` (`""` when unset), or an unknown-filesystem error. |
| Entities.Repository.StorageKeyFor | Entity/Repository.php:202-211 | An unknown generator service fails; otherwise the key is what that generator makes of the file. |
| Entities.Repository.CreateFile | Entity/Repository.php:216-223 | It fails exactly when key generation fails, and then the collection is unchanged. Otherwise the collection grows by exactly the new record. |
| Entities.StoredFile.constructor | Entity/StoredFile.php:141-170 | The fields get the given values; creation time is now, alternatives `[]`, no id, meta empty, and missing files ignored on delete. |
| Entities.StoredFile.Create | Entity/StoredFile.php:141-170 | It fails exactly when the generated key is falsy or the generator is unknown. Otherwise the record carries that key, the file's name, extension and mime type (the client name and extension for uploads), the context's string `author`, and the set `owner`. |
| Entities.StoredFile.AddAlternative | Entity/StoredFile.php:198-202 | The alternative is appended, and it points back at this record. |
| Entities.StoredFile.SetAlternativeOf | Entity/StoredFile.php:209-212 | The link is replaced by the given record. |
| Entities.StoredFile.MergeMeta | Entity/StoredFile.php:310-313 | The meta becomes `array_merge(old, m)`. |
| Entities.ArrayMerge | Entity/StoredFile.php:312 | The keys are the union; `m`'s keys override, and every other old key is kept. |
| Entities.StoredFile.SetAuthor | Entity/StoredFile.php:405-408 | The author becomes the given id. |
| Entities.StoredFile.SetCreatedAt | Entity/StoredFile.php:320-323 | The creation time is replaced. |
| Entities.StoredFile.GetCreatedAt | Entity/StoredFile.php:325-332 | An unset time is set to now once; afterwards the stored time is returned and is stable. |
| Entities.StoredFile.Contents | Entity/StoredFile.php:280-287 | `""` without a repository or key; otherwise the backend's bytes or its error. |
| Entities.StoredFile.Size | Entity/StoredFile.php:289-296 | `0` without a repository or key; otherwise the backend's size or its error. |
| Entities.StoredFile.Checksum | Entity/StoredFile.php:298-305 | `""` without a repository or key; otherwise the backend's checksum or its error. |
| Entities.StoredFile.SizeIsContentLength | Entity/StoredFile.php:280-296 | The size is the length of the contents. |
| Entities.StoredFile.OnRemove | Entity/StoredFile.php:265-278 | Without a repository or key nothing happens. Otherwise the blob is deleted, and a missing blob is an error only when missing files are not ignored (ignored by default). No other backend changes. |
| Entities.ContextAuthor | Entity/StoredFile.php:164-166 | A record takes the context's `author` exactly when it is a string. |
| Entities.Filesystem.constructor | Entity/Repository.php:185-197 | An empty backend, with or without metadata support. |
| Entities.Filesystem.Write | Repository/FileRepository.php:139 | Without overwrite, an existing key throws `FileAlreadyExists` and changes nothing; otherwise the blob is stored under the key. |
| Entities.Filesystem.Read | Entity/StoredFile.php:286 | The stored bytes, or `FileNotFound`. |
| Entities.Filesystem.Size | Entity/StoredFile.php:295 | The stored blob's length, or `FileNotFound`. |
| Entities.Filesystem.Checksum | Entity/StoredFile.php:304 | The digest of the stored blob, or `FileNotFound`. |
| Entities.Filesystem.Delete | Repository/FileRepository.php:146 | The key is removed, or `FileNotFound`, and then nothing changes. |
| Entities.Filesystem.SetMetadata | Intercepting/MimeSaverInterceptor.php:22 | The key's metadata becomes the given map. |
| Entities.SetOriginalFile | ThumbnailsGenerator/AlternativeFileTrait.php:40-46 | The original file is set, and the other two payload fields are kept. |
| Entities.SetOriginalStoredFile | ThumbnailsGenerator/AlternativeFileTrait.php:56-62 | The original record is set, and the other two payload fields are kept. |
| Entities.SetThumbnailConfig | ThumbnailsGenerator/AlternativeFileTrait.php:72-78 | The config is set, and the other two payload fields are kept. |
| Entities.NewAlternative | ThumbnailsGenerator/AlternativeFileTrait.php:30 | A fresh alternative counts as one, has no payload, and its config is `[]`. |
| Entities.TraitGettersReturnLastSet | ThumbnailsGenerator/AlternativeFileTrait.php:35-78 | Each getter returns the value its setter last stored, whatever was set in between. |
| Entities.ThumbnailMetaMerge | ThumbnailsGenerator/ThumbnailsGenerator.php:49-52 | Merging stores the config under `thumbnail` and keeps every other key. A later merge replaces the earlier config. |
| Thumbnails.Generate | ThumbnailsGenerator/ThumbnailsGenerator.php:26-44 | It fails exactly when the width or height is no string PHP coerces to `int` (a `TypeError`), for a non-image (null mime read as ""), with `NotImageGivenException`, or, for an image, when the `int` width or height is below 1 (the `InvalidArgumentException` of Imagine's `Box`, built at line 35). The three are checked in that order. Otherwise the path is the temp name plus the extension, and the bytes are the resize in the resolved mode. |
| Thumbnails.ResolvedMode | ThumbnailsGenerator/ThumbnailsGenerator.php:36-38 | A null mode is inset; a given one is kept. |
| Thumbnails.DefaultModeIsInset | ThumbnailsGenerator/ThumbnailsGenerator.php:36-38 | Without a mode, an image is resized inset. |
| Thumbnails.BoxSideExamples | ThumbnailsGenerator/ThumbnailsGenerator.php:35 | `0`, `""`, `-5`, ` 0.9` and `abc` make a `Box` side below 1; `300`, `+07`, ` 1.5` and `12abc` make one of at least 1. |
| Thumbnails.IntCastBoxSide | Command/GenerateThumbnailsCommand.php:167 | The `(int)` cast keeps a side of at least 1 and turns every other string into a side below 1. |
| Thumbnails.ArgsError | ThumbnailsGenerator/Interceptor.php:135 | A refused config is a `TypeError` exactly when a key is unset or not coercible to `int`, and otherwise the `Box` error. |
| Thumbnails.IntCast | Command/GenerateThumbnailsCommand.php:167 | `(int)` never fails: a string PHP reads as a number is kept, and any other string becomes `0`; the result is always accepted as `int`. |
| Thumbnails.UpdateStoredFileAlternativeMeta | ThumbnailsGenerator/ThumbnailsGenerator.php:49-52 | The meta becomes the merge of `thumbnail => config`, so `meta.thumbnail` is the config. |
| Thumbnails.AsFile | ThumbnailsGenerator/Interceptor.php:103-106 | A `File` is kept. Any other file becomes a `File` of the same pathname, mime type and bytes, named by the basename, when its pathname is a regular file; otherwise, and always for a base64 file, it fails with `FileNotFoundException`. |
| Thumbnails.LookupKey | ThumbnailsGenerator/Interceptor.php:113 | The queue key exists exactly when the original does, and is its pathname. |
| Thumbnails.QueueStep | ThumbnailsGenerator/Interceptor.php:113-133 | The queue is initialised from the sizes only when the key has no entry. A non-empty head is popped and returned; otherwise the entry is removed and nothing is returned. |
| Thumbnails.DrainQueue | ThumbnailsGenerator/Interceptor.php:126-133 | Draining a queue of non-empty configs pops each exactly once, then removes the entry; other keys are kept. |
| Thumbnails.DrainFresh | ThumbnailsGenerator/Interceptor.php:113-133 | n non-empty sizes and no entry give exactly n pops, and the map is as before. |
| Thumbnails.EmptyConfigStops | ThumbnailsGenerator/Interceptor.php:127-133 | An empty config at the head stops the drain with no pop and drops the rest. |
| Intercepting.GetInterceptors | Intercepting/DefaultInterceptorsProvider.php:30-52 | The result is the resolution of the three default ids followed by the configured ids. |
| Intercepting.ResolveAll | Intercepting/DefaultInterceptorsProvider.php:45-51 | It succeeds exactly when every id resolves. Then there is one service per id, in order, duplicates kept. Otherwise the error is an id that does not resolve. |
| Intercepting.Resolve | Intercepting/DefaultInterceptorsProvider.php:47 | Built-in ids name their interceptor, and other ids resolve only when registered. |
| Intercepting.ResolveAllStep | Intercepting/DefaultInterceptorsProvider.php:45-49 | Resolving one more id extends the prefix's resolution. |
| Intercepting.ResolveAllSnoc | Intercepting/DefaultInterceptorsProvider.php:45-49 | A successful resolution extended by one id gains that id's service. |
| Intercepting.ResolveAllPrefixFailure | Intercepting/DefaultInterceptorsProvider.php:45-49 | With every earlier id resolving, resolution fails on the first id that does not. |
| Intercepting.ProviderOrder | Intercepting/DefaultInterceptorsProvider.php:34-43 | Validation, mime saver and authoring come first, then each configured id in order. The length is 3 plus the configured count, and exactly 3 when `interceptors` is unset or not an array. |
| Intercepting.DefaultsResolve | Intercepting/DefaultInterceptorsProvider.php:34-38 | The default ids always resolve, to validation, mime saver and authoring. |
| Intercepting.DefaultsThenConfigured | Intercepting/DefaultInterceptorsProvider.php:41-43 | The thumbnails interceptor is listed exactly as often as the config names it. |
| Intercepting.ThumbnailsCount | Intercepting/DefaultInterceptorsProvider.php:45-51 | Only its id resolves to the thumbnails interceptor, so the count of the one equals the count of the other. |
| Intercepting.AcceptedCalledOnce | Entity/Repository.php:147-151 | An accepted interceptor is called as often as it is listed, and a rejected one never. |
| Intercepting.AcceptedMembership | Entity/Repository.php:147-151 | An interceptor is called iff it is listed and accepted. |
| Intercepting.AcceptAllCallsEveryone | Entity/Repository.php:143-145 | The accept-all filter calls every listed interceptor, in order. |
| Intercepting.AcceptedSnoc | Entity/Repository.php:147-151 | A listed interceptor appended at the end is called iff accepted, after the others. |
| Intercepting.AcceptedStep | Entity/Repository.php:147-151 | One more listed interceptor adds itself to the calls exactly when accepted. |
| Intercepting.AcceptedAppend | Entity/Repository.php:147-151 | A concatenated list calls each part's accepted interceptors, in order. |
| Intercepting.AcceptedSplit | Entity/Repository.php:147-151 | The calls split around one position into before, it when accepted, and after. |
| Intercepting.CountAppend | Entity/Repository.php:147-151 | Counts add over concatenation. |
| Intercepting.CountZero | Entity/Repository.php:147-151 | A count of zero means the interceptor is not listed, and conversely. |
| Intercepting.IndexOf | Entity/Repository.php:147-151 | The first position of an interceptor, or the length when it is absent; it does not occur before that position. |
| Intercepting.AtMostOnce | Entity/Repository.php:147-151 | An interceptor listed at most once does not occur before or after its position. |
| Intercepting.MimeMetadata | Intercepting/MimeSaverInterceptor.php:17-25 | The metadata is `contentType => mime` exactly when the mime type is truthy and the adapter supports metadata; otherwise there is none. |
| Intercepting.AuthorToStamp | Authoring/AuthoringInterceptor.php:35-60 | An author is stamped exactly when the context has none, there is a token, its user is an object, and the user's class has a public `getId`. The author is that id. |
| InterceptorHooks.MimeSaverOnPut | Intercepting/MimeSaverInterceptor.php:17-25 | With a truthy mime type and a metadata backend, `contentType` is recorded under the storage key; an unknown backend is an error; no blob and no other metadata is touched. |
| InterceptorHooks.AuthoringOnPut | Authoring/AuthoringInterceptor.php:35-60 | The record's author becomes the stamped id when the guard chain passes; otherwise the record is unchanged. |
| PutContext.IsInterceptorDisabled | Repository/FileRepository.php:165-176 | A boolean `disable_interceptors` is the answer for every stage. A list disables exactly the stages it names. An absent key disables nothing. Any other value is a type error. |
| PutContext.CreateInterceptorsFilter | Repository/FileRepository.php:184-194 | The result is the callable under `<stage>_interceptor_filter`, and accept-all when that key holds no callable. |
| PutContext.DisableSemantics | Repository/FileRepository.php:165-176 | A boolean disables every stage or none, and a list exactly the stages it names. |
| KeyGenerators.KeyShapes | Repository/UniqidKeyGenerator.php:22-25 | uniqid gives the token; with preserved extensions, the token, `.` and the extension (a trailing `.` for none). As-is gives the file name. |
| KeyGenerators.ContextIgnored | Repository/UniqidKeyGenerator.php:22-25 | The context never changes a key. |
| KeyGenerators.UniqidKeysDistinct | Repository/UniqidKeyGenerator.php:24 | The token is the part of a key before its first `.`, so distinct tokens give distinct keys. |
| KeyGenerators.AsIsCollides | Repository/AsIsKeyGenerator.php:13-16 | As-is keys are equal exactly when the file names are. |
| UrlGeneration.CompositeKey | UrlGeneration/UrlGenerator.php:42-44 | The composite begins with the storage key and `/`, and has the length of the three parts plus two. |
| UrlGeneration.CompositeFirstSegment | UrlGeneration/UrlGenerator.php:42-44 | A storage key without `/` is the composite's first `/`-segment. |
| UrlGeneration.CompositeSplit | UrlGeneration/UrlGenerator.php:42-44 | With no `/` in any part, splitting at `/` gives back the three parts. |
| UrlGeneration.UrlRequest | UrlGeneration/UrlGenerator.php:42-48 | The router gets the configured route, the given reference type, and the single parameter `storageKey`, which is the composite `storageKey/repository/filename` of the record and so begins with its key and `/`. |
| StoredFileController.FindByStorageKey | Controller/StoredFileController.php:57-68 | A found record is in the list with that key; null means none has it. |
| StoredFileController.FindByUniqueKey | Controller/StoredFileController.php:57-68 | With unique keys, a record's own key finds that record. |
| StoredFileController.RequestedFile | Controller/StoredFileController.php:77-79 | The record is looked up by the first `/`-segment of the path only. |
| StoredFileController.DownloadName | Controller/StoredFileController.php:84-88 | One segment gives the record's file name; more than one gives the last segment. |
| StoredFileController.DownloadFallback | Controller/StoredFileController.php:90-97 | A truthy name of URL-safe characters is its own fallback, and `""` gives `""`. A name that sanitising changes, or `"0"`, falls back to the storage key plus `.ext` when the sanitised extension is truthy. |
| StoredFileController.WithContents | Controller/StoredFileController.php:118-120 | It fails exactly when the contents cannot be read. The body is the bytes, the type the record's mime type, and the length the byte count. |
| StoredFileController.CreateFileResponse | Controller/StoredFileController.php:73-123 | An unknown key is 404 "File not found.". A download names the file and its fallback. Otherwise the ETag is the key and last-modified the creation time, which is initialised there. A not-modified request is 304 without contents. Only that record's `createdAt` can change. |
| StoredFileController.GetAction | Controller/StoredFileController.php:42-52 | A disabled controller is denied before any lookup and changes nothing. An enabled one answers with exactly the response `CreateFileResponse` gives for the path (404 for an unknown key), its failure raised as an error. |
| StoredFileController.GeneratedKeyServesRecord | Controller/StoredFileController.php:77-88 | A record's URL key finds that record again, given unique keys without `/`. The download is named by the record's file name when no part has `/`. |
| Base64Files.IsMimeTypeAllowed | File/Base64File.php:72-87 | Allowed iff some entry equals the mime type, or is `type/*` with `type` the mime type's part before `/`. |
| Base64Files.WildcardEntry | File/Base64File.php:79-83 | `t/*` accepts exactly itself and the mime types whose part before `/` is `t`. |
| Base64Files.WildcardAcceptsSubtypes | File/Base64File.php:79-83 | `t/*` accepts every `t/subtype`. |
| Base64Files.NoSlashOnlyExact | File/Base64File.php:80 | A mime type without `/` is accepted only by an equal entry. |
| Base64Files.ExtractMimeType | File/Base64File.php:93-96 | There is no mime type without a `;`; a result never contains `:`. |
| Base64Files.MimeTypeOfDataUri | File/Base64File.php:93-96 | `data:M;...` yields M when M has neither `:` nor `;`. |
| Base64Files.ExtractExtension | File/Base64File.php:102-108 | The extension consists of URL-safe characters only. |
| Base64Files.NewBase64File | File/Base64File.php:32-41 | An invalid URI throws `UnexpectedValueException` before any field is set. A valid URI the `data:` stream cannot open (a `base64` payload that does not decode) throws the stream error. Otherwise the fields come from the URI, and the file name is the given truthy one, else the timestamp. |
| Base64Files.FromArray | Helper/ConvertSourceToBase64File.php:33-48 | Null unless both `mimeType` and `fileContent` are given. Otherwise it is the outcome of constructing the file of `data:<mimeType>;base64,<fileContent>`, named by `fileName` when given, else by a generated name; it fails exactly when that URI is invalid or cannot be opened. |
| Base64Files.FromArrayRoundTrip | Helper/ConvertSourceToBase64File.php:42-44 | A `type/subtype` mime type and content that decodes as strict base64 give a file whose mime type is the one given, named by the given truthy name. |
| Base64Files.FromArrayUndecodable | File/Base64File.php:34-40 | Content of regex data characters that is no base64, such as `!!!!`, passes validation and then makes `fromArray` throw the stream error. |
| Base64Files.DataUriOpens | File/Base64File.php:40 | The `data:` stream opens `data:<type/subtype>;base64,<content>` exactly when the content decodes as strict base64. |
| Base64Files.StrictBase64DataChars | File/Base64File.php:113-118 | Every text that decodes as strict base64 consists of data characters the URI regex accepts. |
| Base64Files.DataUriOfNames | Helper/ConvertSourceToBase64File.php:42 | That URI is valid and reports the mime type. |
| Base64Files.ValidDataUri | Helper/ConvertSourceToBase64File.php:42 | `data:<type/subtype>;base64,<content>` passes URI validation. |
| Base64Files.Base64HeaderValid | File/Base64File.php:115 | The header `type/subtype;base64` is valid. |
| Base64Files.MediaTypeOfNames | File/Base64File.php:115 | Two names joined by `/` form a media type free of `:`, `;` and `,`. |
| Base64Files.KeepTruthy | Helper/ConvertSourceToBase64File.php:85 | Only truthy parts are kept, and the list does not grow. |
| Base64Files.GeneratedFilenameShape | Helper/ConvertSourceToBase64File.php:80-89 | After the epoch, the name is the timestamp, followed by `.` and the extension when the extension is truthy. |
| Base64Files.FromData | Helper/ConvertSourceToBase64File.php:50-58 | Null exactly for an invalid URI (the `UnexpectedValueException` is swallowed). A valid URI the stream cannot open throws. Otherwise the file of that string with its mime type. |
| Base64Files.FromDataUndecodable | Helper/ConvertSourceToBase64File.php:50-58 | A valid URI whose base64 data does not decode makes `fromData` throw instead of returning null. |
| Base64Files.ExtractFilename | Helper/ConvertSourceToBase64File.php:91-97 | Null when there is no path or its basename is falsy; otherwise that basename, which has no `/`. |
| Base64Files.ExtractFilenameOfPath | Helper/ConvertSourceToBase64File.php:91-97 | The name of `dir/name` is `name` when truthy. |
| Base64Files.Lower | File/Base64File.php:115 | ASCII lower-casing keeps the length and changes no character other than `A`-`Z`. |
| Exceptions.CreateInvalidRepositoryConfig | Exceptions/InvalidRepositoryConfig.php:21-28 | The message is the fixed prefix plus the key; the getters return the key and the config as given. |
| Exceptions.InvalidConfigMessageNamesKey | Exceptions/InvalidRepositoryConfig.php:23 | The key can be read back from the message. |
| Exceptions.InvalidConfigMessageInjective | Exceptions/InvalidRepositoryConfig.php:23 | Different keys give different messages. |
| Exceptions.ParsedErrors | Exceptions/FileValidationException.php:29-36 | One string per error, in order: a violation's message, or a string as itself. |
| Exceptions.CreateFileValidationException | Exceptions/FileValidationException.php:27-44 | The errors are the parsed ones; the message is `File validation failed: ` and them joined by `, `. File and repository are kept as given. |
| Exceptions.CreateFileValidationExceptionDefault | Exceptions/FileValidationException.php:27 | Without a repository argument the repository is null. |
| Exceptions.SingleErrorMessage | Exceptions/FileValidationException.php:38 | With one error the message is the prefix followed by its text. |
| RepositoryConfig.Dimensions | Command/GenerateThumbnailsCommand.php:105-106 | `WxH` exactly when both `width` and `height` are set. |
| GenerateThumbnailsCommand.Execute | Command/GenerateThumbnailsCommand.php:69-263 | An unknown repository is an error, and nothing changes. A dry run stores nothing. An `--update-config` value other than `true` changes no config. |
| GenerateThumbnailsCommand.Plan | Command/GenerateThumbnailsCommand.php:82-148 | The report is that of the repository's originals, and every entry's original is a record. The command stops with "nothing to generate" for no originals, and with one row per entry for a dry run; otherwise it goes on to generate. |
| GenerateThumbnailsCommand.ExecuteFor | Command/GenerateThumbnailsCommand.php:82-250 | The returned report is the report of the repository's originals, one entry each. With no originals the result is "nothing to generate", and nothing changes. A dry run returns one row per report entry and stores nothing. Otherwise, when records are not overwritten, a success did every missing size of the report: skipped as a non-image, or a stored thumbnail with its size in the meta linked to its original. The config is updated only when the option's value is strictly `true`. |
| GenerateThumbnailsCommand.Apply | Command/GenerateThumbnailsCommand.php:151-250 | When records are not overwritten, a success did every missing size of the report: skipped as a non-image, or a stored thumbnail with its size in the meta linked to its original. Then the config is updated exactly when `--update-config` is strictly `true`: omitted, or given as the boolean. Only that repository's config can change. |
| GenerateThumbnailsCommand.ApplyConfig | Command/GenerateThumbnailsCommand.php:212-250 | The config becomes the updated one, and no other repository's config changes; records, their alternatives and what was generated before are untouched. The flags are true iff the interceptor was not listed yet, and iff some request was not configured. |
| GenerateThumbnailsCommand.UpdateRepositoryConfig | Command/GenerateThumbnailsCommand.php:212-250 | The update stores the validated updated config, with the two flags as above; a config without `filesystem` is refused and kept. |
| GenerateThumbnailsCommand.UpdatedInterceptors | Command/GenerateThumbnailsCommand.php:217-224 | The list only grows and ends with the thumbnails interceptor listed. It is unchanged iff the interceptor was already listed. |
| GenerateThumbnailsCommand.AddedSizes | Command/GenerateThumbnailsCommand.php:237-248 | One size is added per missing request. None are added iff every request is configured. |
| GenerateThumbnailsCommand.AddedSizesAreMissing | Command/GenerateThumbnailsCommand.php:237-248 | With well-formed requests, the entries of the added sizes are exactly the missing requests. |
| GenerateThumbnailsCommand.UpdatedEntries | Command/GenerateThumbnailsCommand.php:230-248 | After the update, the configured entries are the old ones followed by the missing requests. |
| GenerateThumbnailsCommand.UpdatedConfigKeeps | Command/GenerateThumbnailsCommand.php:212-250 | Both lists only grow, the interceptor ends up listed (once, when it was at most once before), and every other key is unchanged. |
| GenerateThumbnailsCommand.UpdateIdempotent | Command/GenerateThumbnailsCommand.php:212-250 | With well-formed requests, a second update changes nothing. |
| GenerateThumbnailsCommand.DimensionWithoutHeightReadded | Command/GenerateThumbnailsCommand.php:238-244 | A request without `x` stores no height, so it never counts as configured and is appended again on every run. |
| GenerateThumbnailsCommand.RepeatedRequestAppendedTwice | Command/GenerateThumbnailsCommand.php:230-248 | A size requested twice in one run is appended twice. |
| GenerateThumbnailsCommand.ConfiguredEntriesHaveX | Command/GenerateThumbnailsCommand.php:230-235 | Every configured entry contains `x`. |
| GenerateThumbnailsCommand.EntriesOf | Command/GenerateThumbnailsCommand.php:230-235 | The loop yields the `WxH` of every size setting both keys. |
| GenerateThumbnailsCommand.AppendRequested | Command/GenerateThumbnailsCommand.php:237-248 | The loop appends the added sizes, and reports whether any were added. |
| GenerateThumbnailsCommand.EntriesAppend | Command/GenerateThumbnailsCommand.php:230-235 | The entries of two size lists concatenate. |
| GenerateThumbnailsCommand.OccurrencesSnoc | Command/GenerateThumbnailsCommand.php:220-222 | Appending an unlisted id lists it once. |
| GenerateThumbnailsCommand.OccurrencesAbsent | Command/GenerateThumbnailsCommand.php:220 | An unlisted id occurs zero times. |
| GenerateThumbnailsCommand.OccurrencesPositive | Command/GenerateThumbnailsCommand.php:220 | A listed id occurs at least once. |
| GenerateThumbnailsCommand.Originals | Command/GenerateThumbnailsCommand.php:85-89 | Only the repository's records with no `alternativeOf` are taken, in record order. |
| GenerateThumbnailsCommand.OriginalsMembers | Command/GenerateThumbnailsCommand.php:85-89 | A record is reported iff it is such an original. |
| GenerateThumbnailsCommand.AlternativesOf | Command/GenerateThumbnailsCommand.php:97-98 | Exactly the records pointing at the original, in order. |
| GenerateThumbnailsCommand.ThumbnailEntry | Command/GenerateThumbnailsCommand.php:101-107 | `WxH` exactly when `meta.thumbnail` is an array setting both keys. |
| GenerateThumbnailsCommand.ExistingMembers | Command/GenerateThumbnailsCommand.php:100-109 | A size exists iff some alternative's meta records it. |
| GenerateThumbnailsCommand.Missing | Command/GenerateThumbnailsCommand.php:111-115 | The requests not existing, in requested order. |
| GenerateThumbnailsCommand.MissingMembers | Command/GenerateThumbnailsCommand.php:111-115 | A size is missing iff requested and not existing. |
| GenerateThumbnailsCommand.NothingExisting | Command/GenerateThumbnailsCommand.php:111-115 | With nothing existing, every request is missing, repetitions kept. |
| GenerateThumbnailsCommand.AllExisting | Command/GenerateThumbnailsCommand.php:111-115 | When every request exists, nothing is missing. |
| GenerateThumbnailsCommand.ReportEntries | Command/GenerateThumbnailsCommand.php:89-121 | One entry per original, each that original's entry. |
| GenerateThumbnailsCommand.BuildReport | Command/GenerateThumbnailsCommand.php:82-121 | The report has one entry per original of the repository: its existing and its missing sizes. |
| GenerateThumbnailsCommand.ReportOf | Command/GenerateThumbnailsCommand.php:89-121 | The loop builds the report of the given originals. |
| GenerateThumbnailsCommand.EntryOf | Command/GenerateThumbnailsCommand.php:92-120 | One original's entry: its existing sizes and the missing requests. |
| GenerateThumbnailsCommand.ExistingOf | Command/GenerateThumbnailsCommand.php:100-109 | The loop yields the existing sizes of the alternatives. |
| GenerateThumbnailsCommand.MissingOf | Command/GenerateThumbnailsCommand.php:111-115 | The loop yields the missing requests. |
| GenerateThumbnailsCommand.DryRunRows | Command/GenerateThumbnailsCommand.php:133-141 | One row per report entry, in report order. |
| GenerateThumbnailsCommand.SizeOf | Command/GenerateThumbnailsCommand.php:158 | Width before the first `x`, height after it when present. |
| GenerateThumbnailsCommand.SizeRoundTrip | Command/GenerateThumbnailsCommand.php:158-197 | A stored size gives back its dimensions string iff that string is `WxH` with one `x`. |
| GenerateThumbnailsCommand.TempImage | Command/GenerateThumbnailsCommand.php:161-164 | The temp image holds the original's bytes at that tick's temp path, with the guessed mime type. |
| GenerateThumbnailsCommand.TempImageNames | Command/GenerateThumbnailsCommand.php:164 | The temp image's name and extension are those `File` derives from its path. |
| GenerateThumbnailsCommand.ThumbnailUpload | Command/GenerateThumbnailsCommand.php:160-180 | There is no upload exactly for a non-image, which is skipped. An image with a cast width or height below 1 fails with the `Box` error, which the command does not catch. Otherwise it is an upload under the original's file name and mime type, whose bytes are the resize to the `(int)`-cast width and height. |
| GenerateThumbnailsCommand.ThumbnailPutSkipsThumbnails | Command/GenerateThumbnailsCommand.php:185-192 | That context disables no stage, and its put filter accepts every interceptor but the thumbnails one. |
| GenerateThumbnailsCommand.GenerateOne | Command/GenerateThumbnailsCommand.php:157-208 | A read failure of the original is passed on, and so is the `Box` error of a size below 1, both with nothing stored. A non-image is skipped with nothing stored. A success leaves the thumbnail stored with its bytes in the repository, its size in the meta, and linked as the original's last alternative. |
| GenerateThumbnailsCommand.MissingHeightFails | Command/GenerateThumbnailsCommand.php:158-167 | `--thumbnail=300` has no height, which casts to 0, so an image fails with the `Box` error instead of getting a thumbnail. |
| GenerateThumbnailsCommand.PutThumbnail | Command/GenerateThumbnailsCommand.php:176-200 | A success leaves the thumbnail linked as for `GenerateOne`. |
| GenerateThumbnailsCommand.StoreThumbnail | Command/GenerateThumbnailsCommand.php:176 | The thumbnail is put with the thumbnails interceptor filtered out; a success is a record of the named repository holding the uploaded bytes, and without overwriting it is a new record and the other records keep their meta and links. |
| GenerateThumbnailsCommand.LinkThumbnail | Command/GenerateThumbnailsCommand.php:195-200 | `meta.thumbnail` becomes the size and other meta keys are kept. The thumbnail points at the original and is appended to its alternatives. The store is untouched. |
| GenerateThumbnailsCommand.BackfillEntry | Command/GenerateThumbnailsCommand.php:157-209 | An entry with nothing missing changes nothing. When records are not overwritten, a pass did each missing size of the entry (skipped as a non-image, or linked with its size), and the entries before it stay done. |
| GenerateThumbnailsCommand.GenerateStep | Command/GenerateThumbnailsCommand.php:157-208 | A read failure of the original is passed on with nothing stored. Without overwriting, a pass is one done step: a non-image skipped, or a thumbnail linked with its size; existing records keep their meta and links. |
| GenerateThumbnailsCommand.AdvanceEntry | Command/GenerateThumbnailsCommand.php:157-209 | One more missing size of an original is done on a pass, and every size done before, for this original and earlier entries, stays done. |
| GenerateThumbnailsCommand.Backfill | Command/GenerateThumbnailsCommand.php:151-210 | A report with nothing missing changes nothing. When records are not overwritten, a pass did every missing size of every entry, each skipped as a non-image or linked with its size. |
| CreateRepositoryCommand.CommandConfig | Command/CreateRepositoryCommand.php:70-114 | It is refused iff a truthy key generator meets `--preserve-extensions`. Otherwise the config has `filesystem` and `overwrite_files`, no interceptors or sizes, `images_only` only when flagged, and a truthy `max_size` verbatim. |
| CreateRepositoryCommand.EffectiveKeyGenerator | Command/CreateRepositoryCommand.php:102-107 | A given generator wins. `--preserve-extensions` alone gives the preserving generator. Neither gives the default uniqid generator. |
| CreateRepositoryCommand.ZeroKeyGeneratorOverridesPreserving | Command/CreateRepositoryCommand.php:78-107 | The generator `"0"` passes the exclusivity check, and still replaces the preserving one. |
| CreateRepositoryCommand.Execute | Command/CreateRepositoryCommand.php:68-123 | A refused combination returns 1 and creates nothing. Otherwise the repository with the built config is created, and 0 is returned. |

## Left out

- Doctrine is not modelled. Units of work, cascade persists and lifecycle callbacks (other than `onRemove`) are absent. A persist fails only on a storage key another stored record holds; no other flush failure is modelled.
- Doctrine queries (`findOneBy`, the command's DQL) are modelled as filters over the stored records in persist order.
- Gaufrette adapters and the filesystem map are replaced by `Filesystem` objects in a name map.
- The service container is not modelled. Interceptor ids resolve over a set of registered ids. Key generators are looked up in a map. `StoredFile::getUrl`'s generator choice and container injection are not part of this model.
- The clock, `uniqid()` and `tempnam()` are a tick counter, and one tick stands for the one `time()` of a call. Their real uniqueness across processes is not modelled.
- These are oracles: Imagine resizing (the check of the `Box` sides before it is modelled), mime and extension guessing, the checksum digest, the file-properties validator (its constraints are not part of this model), Symfony's `isNotModified`, and `MimeTypes::getExtensions`.
- `FILTER_SANITIZE_URL` is modelled as dropping all but URL characters, and `parse_url` as an already-extracted path.
- `fromFile`, `fromURL`, `fileAsBase64` and `fetchAsBase64` are left out: they read the disk or the network.
- The temp file writes and `unlink` of the commands are left out, and so are all console output, table rendering, and the other console commands.
- Response header details are left out: ETag quoting and `makeDisposition`'s own validation.
- `repositoryExists` is left out: it is a count query that no modelled operation uses.
- Thumbnails.IntCast: a string PHP reads as a number keeps its text rather than becoming that number; the resize oracle reads it as the number. The same coercion for `generate`'s `int` parameters is modelled as accept or `TypeError`, and then as whether the integer is at least 1.
- Thumbnails.BoxSide: the integer is read from the sign and the digits before any `.` or exponent, so `5e-1` counts as at least 1 where PHP makes it 0. A digit string too long for a PHP integer is not modelled.
- PHP loose comparison is modelled only where the code relies on it: truthiness and `null != ""`.
- Concurrency is not modelled, including a queue map shared by concurrent requests.
- Pipeline.FileRepository.CreateRepository, Pipeline.FileRepository.Register: these require the config to list the thumbnails interceptor at most once. With two copies the source never terminates: the second copy re-initialises the queue the first one has just removed.
- Pipeline.FileRepository.DispatchOnPut, Pipeline.FileRepository.RunSplit, Pipeline.FileRepository.RunFrom, Pipeline.FileRepository.RunStateless: these have the same at-most-once requirement, or require that the thumbnails interceptor is absent from the part they run.
- Pipeline.FileRepository.Prepare: it evaluates the before stage as the function RunBefore is proved to compute, rather than calling RunBefore.
- The hooks are called with an empty context, as `put` passes none to them; a context given to `put` reaches only the stage switches and the record's author and owner.
- UrlGeneration.UrlRequest, UrlGeneration.RecordKey: these require the record to have a repository; the source would fail on null.
- Pipeline.ThumbnailsInterceptor.OnPut: the queue is proved drained only when the thumbnail put comes back into the same interceptor with the same queue (the name finds the repository again, and it lists the interceptor once). Other cases only keep the invariant.
- GenerateThumbnailsCommand.GenerateOne: the temp names use the next ticks without advancing the counter. The original's contents are read before the temp file is named.
- GenerateThumbnailsCommand.GenerateOne, GenerateThumbnailsCommand.BackfillEntry, GenerateThumbnailsCommand.Backfill: these do not state how many ticks were taken or thumbnails stored beyond the linked result.
- GenerateThumbnailsCommand.BackfillEntry, GenerateThumbnailsCommand.Backfill, GenerateThumbnailsCommand.Apply, GenerateThumbnailsCommand.ExecuteFor, GenerateThumbnailsCommand.GenerateStep, GenerateThumbnailsCommand.AdvanceEntry: what was generated is stated only for a repository that does not overwrite records. With `overwrite_files` on, a thumbnail put reuses the record of the same name, so a later size can take over an earlier size's record.
- GenerateThumbnailsCommand.Execute: it states the unknown-repository, dry-run and config cases. What is generated is stated on ExecuteFor and Apply, for a repository that does not overwrite records.
- GenerateThumbnailsCommand.ExecuteFor: the report is keyed by record id in the source. The model keeps one entry per original in record order, which matches the source when the ids are unique.
- GenerateThumbnailsCommand.ThumbnailUpload: a null file name of the original is read as `""`.
- The validation interceptor's `beforePut` is modelled only as the veto of an oracle that lists errors.
- Pipeline.FileRepository.StatelessOnPut, Pipeline.FileRepository.DispatchBefore, Pipeline.FileRepository.DispatchAfter: an interceptor id configured by a repository (other than the thumbnails interceptor) names an arbitrary container service, which may veto, throw or write. The model resolves it but calls its `beforePut`, `onPut` and `afterPut` as the inherited no-ops.
