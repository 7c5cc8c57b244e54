/**
 * The URL generator of stored files: the single route parameter that names a record is the
 * composite `storageKey/repositoryName/filename`, of which the controller looks up the first segment.
 */
module UrlGeneration {
  import opened Wrappers
  import opened Strings
  import opened Entities

  /** The reference types of Symfony's router. */
  datatype ReferenceType = AbsoluteUrl | AbsolutePath | RelativePath | NetworkPath

  /** One call of the router: route name, route parameters, reference type. */
  datatype RouteRequest = RouteRequest(routeName: string, parameters: map<string, string>, referenceType: ReferenceType)

  /** The router, which turns a route request into a URL. */
  type Router = RouteRequest -> string

  /** The composite key: storage key, repository name and file name, separated by `/`. */
  function CompositeKey(storageKey: string, repositoryName: string, filename: string): (r: string)
    ensures storageKey + "/" <= r
    ensures |r| == |storageKey| + |repositoryName| + |filename| + 2
  {
    var r := storageKey + "/" + repositoryName + "/" + filename;
    assert r[..|storageKey| + 1] == storageKey + "/";
    r
  }

  /** A storage key without `/` is the first segment of its composite, whatever the other parts are. */
  lemma CompositeFirstSegment(storageKey: string, repositoryName: string, filename: string)
    requires '/' !in storageKey
    ensures Split(CompositeKey(storageKey, repositoryName, filename), '/')[0] == storageKey
  {
    assert CompositeKey(storageKey, repositoryName, filename) == storageKey + ['/'] + (repositoryName + "/" + filename);
    SplitFirst(storageKey, '/', repositoryName + "/" + filename);
  }

  /** When no part contains `/`, splitting the composite at `/` gives back the three parts. */
  lemma CompositeSplit(storageKey: string, repositoryName: string, filename: string)
    requires '/' !in storageKey && '/' !in repositoryName && '/' !in filename
    ensures Split(CompositeKey(storageKey, repositoryName, filename), '/') == [storageKey, repositoryName, filename]
  {
    assert CompositeKey(storageKey, repositoryName, filename) == storageKey + ['/'] + (repositoryName + ['/'] + filename);
    SplitFirst(storageKey, '/', repositoryName + ['/'] + filename);
    SplitFirst(repositoryName, '/', filename);
    SplitNoDelimiter(filename, '/');
  }

  /** The composite of a record: its key and file name (null read as ""), and its repository's name. */
  function RecordKey(sf: StoredFile): string
    requires sf.repository != null
    reads sf
  {
    CompositeKey(sf.storageKey.GetOr(""), sf.repository.Name(), sf.filename.GetOr(""))
  }

  /** What `generateUrl` asks the router for: the configured route, the composite as the one
      parameter `storageKey`, and the requested reference type (network path by default). */
  function UrlRequest(routeName: string, sf: StoredFile, referenceType: ReferenceType): (r: RouteRequest)
    requires sf.repository != null
    reads sf
    ensures r.routeName == routeName && r.referenceType == referenceType
    ensures r.parameters.Keys == {"storageKey"}
    ensures sf.storageKey.GetOr("") + "/" <= r.parameters["storageKey"]
    ensures r.parameters["storageKey"] == CompositeKey(sf.storageKey.GetOr(""), sf.repository.Name(), sf.filename.GetOr(""))
  {
    RouteRequest(routeName, map["storageKey" := RecordKey(sf)], referenceType)
  }

  /** `generateUrl`: the router's URL for that request. */
  function GenerateUrl(router: Router, routeName: string, sf: StoredFile, referenceType: ReferenceType): string
    requires sf.repository != null
    reads sf
  {
    router(UrlRequest(routeName, sf, referenceType))
  }
}
