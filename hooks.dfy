/**
 * The `onPut` hooks of the two stateless default interceptors: mime-type persistence into the
 * backend's metadata and authorship stamping from the authenticated user.
 */
module InterceptorHooks {
  import opened Wrappers
  import opened Strings
  import opened Intercepting
  import opened PutContext
  import opened Entities

  /** `MimeSaverInterceptor::onPut`: a record with a truthy mime type has `contentType` recorded under
      its storage key, when the repository's backend supports metadata; nothing else is touched. */
  method MimeSaverOnPut(sf: StoredFile, repository: Repository, filesystems: map<string, Filesystem>)
    returns (o: Outcome<Error>)
    modifies filesystems.Values
    ensures !TruthyOpt(sf.mimeType) ==> o == Pass
    ensures TruthyOpt(sf.mimeType) && repository.GetFilesystem(filesystems).Failure? ==>
      o == Fail(repository.GetFilesystem(filesystems).error)
    ensures TruthyOpt(sf.mimeType) && repository.GetFilesystem(filesystems).Success? ==> o == Pass
    ensures forall fs :: fs in filesystems.Values ==> fs.blobs == old(fs.blobs)
    ensures forall fs :: fs in filesystems.Values ==>
      (if TruthyOpt(sf.mimeType) && repository.GetFilesystem(filesystems) == Success(fs) && fs.supportsMetadata
       then fs.metadata == old(fs.metadata)[sf.storageKey.GetOr("") := map["contentType" := sf.mimeType.value]]
       else fs.metadata == old(fs.metadata))
  {
    if !TruthyOpt(sf.mimeType) {
      return Pass;
    }
    var found := repository.GetFilesystem(filesystems);
    if found.Failure? {
      return Fail(found.error);
    }
    var fs := found.value;
    var m := MimeMetadata(sf.mimeType, fs.supportsMetadata);
    if m.Some? {
      fs.SetMetadata(sf.storageKey.GetOr(""), m.value);
    }
    o := Pass;
  }

  /** `AuthoringInterceptor::onPut`: unless the hook context names an author, a logged-in user
      object with a public `getId` becomes the record's author; in every other case the record is
      left alone. */
  method AuthoringOnPut(sf: StoredFile, context: Context, token: Option<User>)
    modifies sf`author
    ensures AuthorToStamp("author" in context, token).Some? ==> sf.author == AuthorToStamp("author" in context, token)
    ensures AuthorToStamp("author" in context, token).None? ==> sf.author == old(sf.author)
  {
    if "author" in context {
      return;
    }
    if token.None? {
      return;
    }
    var user := token.value;
    if !user.UserObject? {
      return;
    }
    if user.publicId.Some? {
      sf.SetAuthor(user.publicId.value);
    }
  }
}
