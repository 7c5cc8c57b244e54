/**
 * A repository's configuration: the keys of the PHP config array that the core reads,
 * and the service ids it refers to.
 */
module RepositoryConfig {
  import opened Wrappers
  import opened Strings

  /** Service id of the default storage key generator (uniqid, no extension). */
  const UNIQID_KEY_GENERATOR := "modera_file_repository.repository.uniqid_key_generator"
  /** Service id of the uniqid generator that keeps the file extension. */
  const UNIQID_PRESERVED_KEY_GENERATOR := "modera_file_repository.repository.uniqid_key_generator_preserved_extension"

  const VALIDATION_INTERCEPTOR := "modera_file_repository.validation.file_properties_validation_interceptor"
  const MIME_SAVER_INTERCEPTOR := "modera_file_repository.intercepting.mime_saver_interceptor"
  const AUTHORING_INTERCEPTOR := "modera_file_repository.authoring.authoring_interceptor"
  /** `Interceptor::ID` of the thumbnails generator. */
  const THUMBNAILS_INTERCEPTOR := "modera_file_repository.interceptors.thumbnails_generator.interceptor"

  /** One entry of `thumbnail_sizes`: an array such as `['width' => '250', 'height' => '100']`,
      values kept in their string form. */
  type ThumbConfig = map<string, string>

  /** The value stored under `interceptors`: a list of service ids, or something that is not an array. */
  datatype IdsValue = IdArray(ids: seq<string>) | NotArray

  /** The configuration keys the core reads; `None` is an unset key. Other keys are not modelled. */
  datatype Config = Config(
    filesystem: Option<string>,
    storageKeyGenerator: Option<string>,
    overwriteFiles: Option<bool>,
    interceptors: Option<IdsValue>,
    thumbnailSizes: Option<seq<ThumbConfig>>,
    imagesOnly: Option<bool>,
    maxSize: Option<string>)

  /** The empty configuration `[]`. */
  const EmptyConfig := Config(None, None, None, None, None, None, None)

  /** The service ids listed under `interceptors`, or none when the key is unset or not an array. */
  function ConfiguredIds(c: Config): seq<string>
  {
    match c.interceptors
    case Some(IdArray(ids)) => ids
    case _ => []
  }

  /** `"WxH"` for a thumbnail config that sets both `width` and `height`. */
  function Dimensions(t: ThumbConfig): (r: Option<string>)
    ensures r.Some? <==> "width" in t && "height" in t
    ensures r.Some? ==> r.value == t["width"] + "x" + t["height"]
  {
    if "width" in t && "height" in t then Some(t["width"] + "x" + t["height"]) else None
  }

  /** How many times `id` is listed. */
  function Occurrences(ids: seq<string>, id: string): nat
    decreases |ids|
  {
    if |ids| == 0 then 0
    else (if ids[0] == id then 1 else 0) + Occurrences(ids[1..], id)
  }
}
