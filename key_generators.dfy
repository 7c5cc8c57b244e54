/**
 * Storage key generators: `UniqidKeyGenerator` (a unique token, optionally followed by the file
 * extension) and `AsIsKeyGenerator` (the file name itself).
 */
module KeyGenerators {
  import opened Strings
  import opened PutContext

  datatype KeyGenerator = Uniqid(preserveExtension: bool) | AsIs

  /** `new UniqidKeyGenerator()`: the extension is not preserved unless asked for. */
  const DefaultUniqid := Uniqid(false)

  /** `generateStorageKey($file, $context)`; `uniqueToken` is the value `uniqid()` returned for
      this call, `filename` and `extension` are what the file reports. The context is not consulted. */
  function GenerateStorageKey(g: KeyGenerator, uniqueToken: string, filename: string, extension: string,
                              context: Context): (key: string)
  {
    match g
    case AsIs => filename
    case Uniqid(preserve) => uniqueToken + (if preserve then "." + extension else "")
  }

  /** What each generator produces: the token alone, the token and `.` and the extension (a
      trailing `.` when the extension is empty), or the file name. */
  lemma KeyShapes(token: string, filename: string, extension: string, ctx: Context)
    ensures GenerateStorageKey(DefaultUniqid, token, filename, extension, ctx) == token
    ensures GenerateStorageKey(Uniqid(true), token, filename, extension, ctx) == token + "." + extension
    ensures GenerateStorageKey(Uniqid(true), token, filename, "", ctx) == token + "."
    ensures GenerateStorageKey(AsIs, token, filename, extension, ctx) == filename
  {
  }

  /** The context never changes the key. */
  lemma ContextIgnored(g: KeyGenerator, token: string, filename: string, extension: string, c1: Context, c2: Context)
    ensures GenerateStorageKey(g, token, filename, extension, c1) == GenerateStorageKey(g, token, filename, extension, c2)
  {
  }

  /** Uniqid keys begin with their token, and the token is recoverable: the text before the first
      `.` of a key, when tokens contain no `.`. Distinct tokens therefore never collide. */
  lemma {:induction false} UniqidKeysDistinct(preserve: bool, t1: string, t2: string, e1: string, e2: string,
                                              f1: string, f2: string, c: Context)
    requires '.' !in t1 && '.' !in t2 && t1 != t2
    ensures GenerateStorageKey(Uniqid(preserve), t1, f1, e1, c) != GenerateStorageKey(Uniqid(preserve), t2, f2, e2, c)
  {
    if preserve {
      var k1 := GenerateStorageKey(Uniqid(true), t1, f1, e1, c);
      var k2 := GenerateStorageKey(Uniqid(true), t2, f2, e2, c);
      assert k1 == t1 + ['.'] + e1;
      assert k2 == t2 + ['.'] + e2;
      SplitFirst(t1, '.', e1);
      SplitFirst(t2, '.', e2);
      assert Split(k1, '.')[0] == t1;
      assert Split(k2, '.')[0] == t2;
    } else {
      assert t1 + "" == t1 && t2 + "" == t2;
    }
  }

  /** As-is keys collide exactly when the file names are equal. */
  lemma AsIsCollides(f1: string, f2: string, t1: string, t2: string, e1: string, e2: string, c1: Context, c2: Context)
    ensures GenerateStorageKey(AsIs, t1, f1, e1, c1) == GenerateStorageKey(AsIs, t2, f2, e2, c2) <==> f1 == f2
  {
  }
}
