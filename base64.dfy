/**
 * Files given as `data:` URIs: the `Base64File` value (the URI with the file name, extension and
 * mime type its constructor derives), the mime-type allow-list check, and the helpers that build
 * such a file from an array of parts or from a `data:` string.
 */
module Base64Files {
  import opened Wrappers
  import opened Strings

  /** The message of the `UnexpectedValueException` raised for a URI that is not a valid `data:` URI. */
  const INVALID_URI_MESSAGE := "The provided \"data:\" URI is not valid."

  /** `MimeTypeExtensionGuesser::guess`: the usual extension of a mime type, null when unknown
      (null is looked up as ""). */
  type ExtensionGuesser = string -> Option<string>

  // The regular expression of `validateURI`, matched case-insensitively:
  //   data:[type/subtype[;attribute=value]][;base64],data

  predicate IsAsciiLetter(c: char)
  {
    'a' <= c <= 'z' || 'A' <= c <= 'Z'
  }

  predicate IsAsciiDigit(c: char)
  {
    '0' <= c <= '9'
  }

  /** ASCII lower-casing, as the `i` modifier compares letters. */
  function Lower(s: string): (r: string)
    ensures |r| == |s|
    ensures forall i :: 0 <= i < |s| && !('A' <= s[i] <= 'Z') ==> r[i] == s[i]
  {
    seq(|s|, i requires 0 <= i < |s| => if 'A' <= s[i] <= 'Z' then (s[i] as int + 32) as char else s[i])
  }

  /** A character of a type or subtype name. */
  predicate MediaChar(c: char)
  {
    IsAsciiLetter(c) || IsAsciiDigit(c) || c in "!#$&-^_+."
  }

  /** A type or subtype name: a letter or digit followed by at most 126 name characters. */
  predicate MediaToken(t: string)
  {
    1 <= |t| <= 127 && (IsAsciiLetter(t[0]) || IsAsciiDigit(t[0])) && forall i :: 0 <= i < |t| ==> MediaChar(t[i])
  }

  /** `type/subtype`. */
  predicate MediaType(m: string)
  {
    var names := Split(m, '/');
    |names| == 2 && MediaToken(names[0]) && MediaToken(names[1])
  }

  predicate ParameterChar(c: char)
  {
    IsAsciiLetter(c) || IsAsciiDigit(c) || c == '-'
  }

  predicate ParameterToken(t: string)
  {
    |t| >= 1 && forall i :: 0 <= i < |t| ==> ParameterChar(t[i])
  }

  /** `attribute=value`. */
  predicate Parameter(p: string)
  {
    var halves := Split(p, '=');
    |halves| == 2 && ParameterToken(halves[0]) && ParameterToken(halves[1])
  }

  /** The `base64` marker, in any letter case. */
  predicate Base64Marker(p: string)
  {
    Lower(p) == "base64"
  }

  /** The text between `data:` and the first comma, split at `;`: an optional media type with at
      most one parameter, then an optional `base64` marker. */
  predicate ValidHeader(h: string)
  {
    var parts := Split(h, ';');
    if parts[0] == "" then
      |parts| == 1 || (|parts| == 2 && Base64Marker(parts[1]))
    else
      MediaType(parts[0]) &&
      (|parts| == 1 ||
       (|parts| == 2 && (Parameter(parts[1]) || Base64Marker(parts[1]))) ||
       (|parts| == 3 && Parameter(parts[1]) && Base64Marker(parts[2])))
  }

  /** Whitespace as `\s` matches it. */
  predicate IsSpace(c: char)
  {
    c == ' ' || c == '\t' || c == '\n' || c == '\r' || c == '\U{000B}' || c == '\U{000C}'
  }

  /** A character of the data part. */
  predicate DataChar(c: char)
  {
    IsAsciiLetter(c) || IsAsciiDigit(c) || c in "!$&'(),*+;=-._~:@/?%" || IsSpace(c)
  }

  /** `validateURI` accepts the string: `data:` in any case, a valid header up to the first comma
      (no header character is a comma), and data characters after it. */
  predicate ValidUri(s: string)
  {
    |s| >= 5 && Lower(s[..5]) == "data:" &&
    (match Find(s[5..], ",")
     case None => false
     case Some(i) => ValidHeader(s[5..5 + i]) && forall j :: 5 + i + 1 <= j < |s| ==> DataChar(s[j]))
  }

  /** `extractMimeType`: the second `:`-separated part of the text before the first `;` (that text
      is "" when there is no `;`), or null when the text has no `:`. */
  function ExtractMimeType(base64: string): (r: Option<string>)
    ensures Find(base64, ";").None? ==> r.None?
    ensures r.Some? ==> ':' !in r.value
  {
    var prefix := match Find(base64, ";") case None => "" case Some(k) => base64[..k];
    var parts := Split(prefix, ':');
    SplitPartsFree(prefix, ':');
    if |parts| >= 2 then Some(parts[1]) else None
  }

  /** `extractExtension`: the guessed extension of the extracted mime type, URL-sanitised (null
      sanitises to ""). */
  function ExtractExtension(base64: string, guess: ExtensionGuesser): (r: string)
    ensures forall i :: 0 <= i < |r| ==> IsUrlChar(r[i])
  {
    SanitizeUrl(guess(ExtractMimeType(base64).GetOr("")).GetOr(""))
  }

  // Opening the URI: `SplFileObject`'s constructor opens it through PHP's RFC 2397 `data:` stream
  // wrapper, which is stricter than `validateURI`.

  /** The characters PHP's base64 decoder skips: tab, LF, CR and space. */
  predicate Base64Skipped(c: char)
  {
    c == '\t' || c == '\n' || c == '\r' || c == ' '
  }

  /** A character of the base64 alphabet. */
  predicate Base64Letter(c: char)
  {
    IsAsciiLetter(c) || IsAsciiDigit(c) || c == '+' || c == '/'
  }

  /** The text with the skipped characters removed. */
  function WithoutSkipped(s: string): (r: string)
    ensures forall i :: 0 <= i < |r| ==> !Base64Skipped(r[i])
    decreases |s|
  {
    if |s| == 0 then []
    else (if Base64Skipped(s[0]) then [] else [s[0]]) + WithoutSkipped(s[1..])
  }

  /** The length of the longest prefix made of alphabet characters. */
  function LetterRun(t: string): (k: nat)
    ensures k <= |t|
    ensures forall i :: 0 <= i < k ==> Base64Letter(t[i])
    ensures k < |t| ==> !Base64Letter(t[k])
    decreases |t|
  {
    if |t| > 0 && Base64Letter(t[0]) then 1 + LetterRun(t[1..]) else 0
  }

  /** Strict base64 decoding accepts the text: once the skipped characters are removed, alphabet
      characters followed only by `=`; the characters never end in a group holding a single one,
      and padding is at most two `=` that complete a group of four. */
  predicate StrictBase64(s: string)
  {
    var t := WithoutSkipped(s);
    var k := LetterRun(t);
    (forall i :: k <= i < |t| ==> t[i] == '=') && k % 4 != 1 &&
    (|t| > k ==> |t| - k <= 2 && |t| % 4 == 0)
  }

  /** The base64 marker of a header as written, when it has one (it is the last `;` part). */
  function MarkerOf(h: string): Option<string>
  {
    var parts := Split(h, ';');
    if |parts| >= 2 && Base64Marker(parts[|parts| - 1]) then Some(parts[|parts| - 1]) else None
  }

  /** The `data:` stream wrapper opens the URI: it needs the scheme `data:` in lower case, a
      lower-case `base64` marker (the wrapper compares it case-sensitively), and with that marker
      data that decodes as strict base64. Without the marker the data is only URL-decoded, which
      cannot fail. */
  predicate DataStreamOpens(s: string)
  {
    |s| >= 5 && s[..5] == "data:" &&
    (match Find(s[5..], ",")
     case None => false
     case Some(i) =>
       var marker := MarkerOf(s[5..5 + i]);
       marker.Some? ==> marker.value == "base64" && StrictBase64(s[5 + i + 1..]))
  }

  /** What constructing a `Base64File` can throw: the `UnexpectedValueException` of `validateURI`,
      or the `RuntimeException` of `SplFileObject` when the stream cannot be opened. */
  datatype Base64Error = UnexpectedValue(message: string) | CannotOpen(uri: string)

  /** The file a data URI stands for, with the fields its constructor sets. */
  datatype Base64File = Base64File(uri: string, filename: string, extension: string, mimeType: Option<string>)

  /** `new Base64File($base64, $filename)` at time `now`: an invalid URI is refused before any field
      is set; a falsy file name becomes the timestamp; then the stream is opened, which fails for
      a valid URI the `data:` wrapper refuses. */
  function NewBase64File(base64: string, filename: Option<string>, now: nat, guess: ExtensionGuesser)
    : (r: Result<Base64File, Base64Error>)
    ensures r.Failure? <==> !ValidUri(base64) || !DataStreamOpens(base64)
    ensures !ValidUri(base64) ==> r == Failure(UnexpectedValue(INVALID_URI_MESSAGE))
    ensures ValidUri(base64) && !DataStreamOpens(base64) ==> r == Failure(CannotOpen(base64))
    ensures r.Success? ==>
      r.value.uri == base64 && r.value.mimeType == ExtractMimeType(base64) && r.value.extension == ExtractExtension(base64, guess)
    ensures r.Success? ==> r.value.filename == if TruthyOpt(filename) then filename.value else Decimal(now)
  {
    if !ValidUri(base64) then Failure(UnexpectedValue(INVALID_URI_MESSAGE))
    else
      var name := if TruthyOpt(filename) then filename.value else Decimal(now);
      if !DataStreamOpens(base64) then Failure(CannotOpen(base64))
      else Success(Base64File(base64, name, ExtractExtension(base64, guess), ExtractMimeType(base64)))
  }

  // One entry of the allow-list accepts the mime type: it is the same string, or it is
  // `discrete/*` with a truthy `discrete` that is exactly the mime type's text before its `/`.
  predicate MimeMatches(entry: string, mime: string)
  {
    entry == mime ||
    (var discrete := Before(entry, "/*");
     discrete.Some? && Truthy(discrete.value) && Before(mime, "/") == discrete)
  }

  /** `isMimeTypeAllowed`: whether some entry of the list accepts the mime type. */
  method IsMimeTypeAllowed(mime: string, mimeTypes: seq<string>) returns (allowed: bool)
    ensures allowed <==> exists i :: 0 <= i < |mimeTypes| && MimeMatches(mimeTypes[i], mime)
  {
    for i := 0 to |mimeTypes|
      invariant forall j :: 0 <= j < i ==> !MimeMatches(mimeTypes[j], mime)
    {
      var entry := mimeTypes[i];
      if entry == mime {
        return true;
      }
      var discrete := Before(entry, "/*");
      if discrete.Some? && Truthy(discrete.value) && Before(mime, "/") == discrete {
        return true;
      }
    }
    return false;
  }

  // A wildcard entry `t/*` accepts exactly itself and the mime types whose text before the first
  // `/` is `t`.
  lemma WildcardEntry(t: string, mime: string)
    requires Truthy(t) && '/' !in t
    ensures MimeMatches(t + "/*", mime) <==> (mime == t + "/*" || Before(mime, "/") == Some(t))
  {
    BeforeAfter(t, "/*", "");
    assert t + "/*" + "" == t + "/*";
  }

  // In particular `t/*` accepts every `t/subtype`.
  lemma WildcardAcceptsSubtypes(t: string, subtype: string)
    requires Truthy(t) && '/' !in t
    ensures MimeMatches(t + "/*", t + "/" + subtype)
  {
    WildcardEntry(t, t + "/" + subtype);
    BeforeAfter(t, "/", subtype);
  }

  /** A mime type without `/` is accepted only by an entry equal to it. */
  lemma NoSlashOnlyExact(entry: string, mime: string)
    requires '/' !in mime
    ensures MimeMatches(entry, mime) <==> entry == mime
  {
    FindMissing(mime, '/');
  }

  /** `extractMimeType` of `data:M;...` is M when M has neither `:` nor `;`. */
  lemma MimeTypeOfDataUri(m: string, rest: string)
    requires ':' !in m && ';' !in m
    ensures ExtractMimeType("data:" + m + ";" + rest) == Some(m)
  {
    var s := "data:" + m + ";" + rest;
    assert s == ("data:" + m) + ";" + rest;
    FindAfter("data:" + m, ";", rest);
    assert s[..|"data:" + m|] == "data:" + m;
    assert "data:" + m == "data" + [':'] + m;
    SplitFirst("data", ':', m);
    SplitNoDelimiter(m, ':');
  }

  /** The characters of a `type/subtype` made of two names. */
  lemma MediaTypeOfNames(t: string, u: string)
    requires MediaToken(t) && MediaToken(u)
    ensures MediaType(t + "/" + u)
    ensures forall i :: 0 <= i < |t + "/" + u| ==> (t + "/" + u)[i] !in ":;,"
  {
    assert t + "/" + u == t + ['/'] + u;
    SplitFirst(t, '/', u);
    SplitNoDelimiter(u, '/');
  }

  /** The parts `fromArray` needs, as a data URI. */
  function DataUri(mimeType: string, content: string): string
  {
    "data:" + mimeType + ";base64," + content
  }

  /** `fromArray` at time `now`: null unless both `mimeType` and `fileContent` are given; otherwise
      the file of `data:<mimeType>;base64,<fileContent>`, named by `fileName` when given and by
      a generated name otherwise (the constructor's exceptions propagate). */
  function FromArray(source: map<string, string>, now: nat, guess: ExtensionGuesser)
    : (r: Result<Option<Base64File>, Base64Error>)
    ensures !("mimeType" in source && "fileContent" in source) ==> r == Success(None)
    ensures "mimeType" in source && "fileContent" in source ==>
      var uri := DataUri(source["mimeType"], source["fileContent"]);
      var name := if "fileName" in source then source["fileName"] else GenerateFilename(uri, now, guess);
      (r.Failure? <==> !ValidUri(uri) || !DataStreamOpens(uri)) &&
      (r.Failure? ==> r.error == NewBase64File(uri, Some(name), now, guess).error) &&
      (r.Success? ==> r.value == Some(NewBase64File(uri, Some(name), now, guess).value))
  {
    if "mimeType" in source && "fileContent" in source then
      var uri := DataUri(source["mimeType"], source["fileContent"]);
      var name := if "fileName" in source then source["fileName"] else GenerateFilename(uri, now, guess);
      match NewBase64File(uri, Some(name), now, guess)
      case Failure(e) => Failure(e)
      case Success(f) => Success(Some(f))
    else Success(None)
  }

  /** Given a `type/subtype` mime type and content that decodes as strict base64, `fromArray`
      yields the file of that URI whose mime type is the one given, named by the given `fileName`
      (when truthy). */
  lemma FromArrayRoundTrip(t: string, u: string, content: string, fileName: string, now: nat, guess: ExtensionGuesser)
    requires MediaToken(t) && MediaToken(u)
    requires StrictBase64(content)
    requires Truthy(fileName)
    ensures var source := map["mimeType" := t + "/" + u, "fileContent" := content, "fileName" := fileName];
      FromArray(source, now, guess) ==
        Success(Some(Base64File(DataUri(t + "/" + u, content), fileName,
                                ExtractExtension(DataUri(t + "/" + u, content), guess), Some(t + "/" + u))))
  {
    StrictBase64DataChars(content);
    DataUriOfNames(t, u, content);
    DataUriOpens(t + "/" + u, content);
  }

  /** Content that passes the regular expression but not the decoder: `fromArray` throws the
      stream's `RuntimeException` for it. */
  lemma FromArrayUndecodable(t: string, u: string, fileName: string, now: nat, guess: ExtensionGuesser)
    requires MediaToken(t) && MediaToken(u)
    ensures var source := map["mimeType" := t + "/" + u, "fileContent" := "!!!!", "fileName" := fileName];
      FromArray(source, now, guess) == Failure(CannotOpen(DataUri(t + "/" + u, "!!!!")))
  {
    var m := t + "/" + u;
    BangsUndecodable();
    DataUriOfNames(t, u, "!!!!");
    DataUriOpens(m, "!!!!");
  }

  /** `!!!!` is made of data characters of the regular expression, and is no base64. */
  lemma BangsUndecodable()
    ensures forall i :: 0 <= i < |"!!!!"| ==> DataChar("!!!!"[i])
    ensures !StrictBase64("!!!!")
  {
    assert WithoutSkipped("!!!!") == "!!!!";
  }

  /** Text accepted by strict base64 decoding consists of data characters of the regular expression. */
  lemma StrictBase64DataChars(s: string)
    requires StrictBase64(s)
    ensures forall i :: 0 <= i < |s| ==> DataChar(s[i])
  {
    var t := WithoutSkipped(s);
    forall i | 0 <= i < |t| ensures Base64Letter(t[i]) || t[i] == '=' {
    }
    KeptOrSkipped(s);
  }

  /** Every character of the text is skipped or kept by the filter. */
  lemma {:induction false} KeptOrSkipped(s: string)
    ensures forall i :: 0 <= i < |s| ==> Base64Skipped(s[i]) || s[i] in WithoutSkipped(s)
    decreases |s|
  {
    if |s| > 0 {
      KeptOrSkipped(s[1..]);
      forall i | 1 <= i < |s| ensures Base64Skipped(s[i]) || s[i] in WithoutSkipped(s) {
        assert s[i] == s[1..][i - 1];
      }
    }
  }

  /** The wrapper opens `data:<type/subtype>;base64,<content>` exactly when the content decodes. */
  lemma DataUriOpens(m: string, content: string)
    requires MediaType(m) && ';' !in m && ',' !in m
    ensures DataStreamOpens(DataUri(m, content)) <==> StrictBase64(content)
  {
    var s := DataUri(m, content);
    var header := m + ";base64";
    assert s == "data:" + header + "," + content;
    assert s[..5] == "data:";
    assert s[5..] == header + "," + content;
    assert ',' !in header;
    FindAfter(header, ",", content);
    assert s[5..5 + |header|] == header;
    assert s[5 + |header| + 1..] == content;
    Base64HeaderMarker(m);
  }

  /** The header `<type/subtype>;base64` carries the marker `base64`. */
  lemma Base64HeaderMarker(m: string)
    requires ';' !in m
    ensures MarkerOf(m + ";base64") == Some("base64")
  {
    Base64HeaderSplit(m);
  }

  /** The URI of a `type/subtype` mime type and base64 content is valid and reports that mime type. */
  lemma DataUriOfNames(t: string, u: string, content: string)
    requires MediaToken(t) && MediaToken(u)
    requires forall i :: 0 <= i < |content| ==> DataChar(content[i])
    ensures ValidUri(DataUri(t + "/" + u, content))
    ensures ExtractMimeType(DataUri(t + "/" + u, content)) == Some(t + "/" + u)
    ensures MediaType(t + "/" + u) && ';' !in t + "/" + u && ',' !in t + "/" + u
  {
    var m := t + "/" + u;
    var s := DataUri(m, content);
    MediaTypeOfNames(t, u);
    assert ';' !in m && ',' !in m && ':' !in m by {
      forall i | 0 <= i < |m| ensures m[i] != ';' && m[i] != ',' && m[i] != ':' {
        assert m[i] !in ":;,";
      }
    }
    ValidDataUri(m, content);
    assert s == "data:" + m + ";" + ("base64," + content);
    MimeTypeOfDataUri(m, "base64," + content);
  }

  /** A header without `;` followed by `;base64` splits into the two, and the second is the marker. */
  lemma Base64HeaderSplit(m: string)
    requires ';' !in m
    ensures Split(m + ";base64", ';') == [m, "base64"]
    ensures Base64Marker("base64")
  {
    assert m + ";base64" == m + [';'] + "base64";
    SplitFirst(m, ';', "base64");
    SplitNoDelimiter("base64", ';');
    assert Lower("base64") == "base64";
  }

  /** The header `type/subtype;base64` is valid. */
  lemma Base64HeaderValid(m: string)
    requires MediaType(m) && ';' !in m
    ensures ValidHeader(m + ";base64")
  {
    Base64HeaderSplit(m);
  }

  /** `data:<type/subtype>;base64,<content>` passes `validateURI`. */
  lemma ValidDataUri(m: string, content: string)
    requires MediaType(m) && ';' !in m && ',' !in m
    requires forall i :: 0 <= i < |content| ==> DataChar(content[i])
    ensures ValidUri(DataUri(m, content))
  {
    var s := DataUri(m, content);
    var header := m + ";base64";
    assert s == "data:" + header + "," + content;
    assert s[..5] == "data:";
    assert Lower("data:") == "data:";
    assert s[5..] == header + "," + content;
    assert ',' !in header;
    FindAfter(header, ",", content);
    assert s[5..5 + |header|] == header;
    Base64HeaderValid(m);
    forall j | 5 + |header| + 1 <= j < |s|
      ensures DataChar(s[j])
    {
      assert s[j] == content[j - (5 + |header| + 1)];
    }
  }

  /** PHP's `array_filter` on a list of strings: the truthy ones, in order. */
  function KeepTruthy(parts: seq<string>): (r: seq<string>)
    ensures forall i :: 0 <= i < |r| ==> Truthy(r[i])
    ensures |r| <= |parts|
    decreases |parts|
  {
    if |parts| == 0 then []
    else (if Truthy(parts[0]) then [parts[0]] else []) + KeepTruthy(parts[1..])
  }

  /** `generateFilename` at time `now`: the trimmed timestamp and extracted extension, the truthy
      ones joined with `.`. */
  function GenerateFilename(base64: string, now: nat, guess: ExtensionGuesser): string
  {
    Implode(".", KeepTruthy([Trim(Decimal(now)), Trim(ExtractExtension(base64, guess))]))
  }

  /** After the epoch, the generated name is the timestamp, followed by `.` and the extension when
      the extension is truthy. */
  lemma GeneratedFilenameShape(base64: string, now: nat, guess: ExtensionGuesser)
    requires now > 0
    ensures var ext := ExtractExtension(base64, guess);
      GenerateFilename(base64, now, guess) == if Truthy(ext) then Decimal(now) + "." + ext else Decimal(now)
  {
    var ext := ExtractExtension(base64, guess);
    DecimalDigits(now);
    TrimNoBlanks(Decimal(now));
    UrlCharsNotBlank(ext);
    TrimNoBlanks(ext);
    DecimalTruthy(now);
    var given := [Decimal(now), ext];
    assert [Trim(Decimal(now)), Trim(ext)] == given;
    assert given[1..] == [ext];
    assert [ext][1..] == [];
    assert KeepTruthy([ext]) == if Truthy(ext) then [ext] else [];
    assert KeepTruthy(given) == [Decimal(now)] + KeepTruthy([ext]);
    if Truthy(ext) {
      assert KeepTruthy(given) == given;
      assert Implode(".", given) == Decimal(now) + "." + Implode(".", [ext]);
    } else {
      assert KeepTruthy(given) == [Decimal(now)];
    }
  }

  /** `fromData` at time `now`: the file of the string, named by a generated name; null when the
      string is not a valid data URI (only `UnexpectedValueException` is caught), and the
      stream's exception passed on for a valid URI the wrapper cannot open. */
  function FromData(source: string, now: nat, guess: ExtensionGuesser): (r: Result<Option<Base64File>, Base64Error>)
    ensures r == Success(None) <==> !ValidUri(source)
    ensures r.Failure? <==> ValidUri(source) && !DataStreamOpens(source)
    ensures r.Failure? ==> r.error == CannotOpen(source)
    ensures r.Success? && r.value.Some? ==> r.value.value.uri == source && r.value.value.mimeType == ExtractMimeType(source)
  {
    match NewBase64File(source, Some(GenerateFilename(source, now, guess)), now, guess)
    case Failure(UnexpectedValue(_)) => Success(None)
    case Failure(e) => Failure(e)
    case Success(f) => Success(Some(f))
  }

  /** A regex-valid URI whose data is not base64: `fromData` throws instead of returning null. */
  lemma FromDataUndecodable(t: string, u: string, now: nat, guess: ExtensionGuesser)
    requires MediaToken(t) && MediaToken(u)
    ensures ValidUri(DataUri(t + "/" + u, "!!!!"))
    ensures FromData(DataUri(t + "/" + u, "!!!!"), now, guess) == Failure(CannotOpen(DataUri(t + "/" + u, "!!!!")))
  {
    BangsUndecodable();
    DataUriOfNames(t, u, "!!!!");
    DataUriOpens(t + "/" + u, "!!!!");
  }

  /** `extractFilename`, given the path component `parse_url` finds (None when it has none): its
      basename, or null when that is falsy. */
  function ExtractFilename(path: Option<string>): (r: Option<string>)
    ensures r.Some? <==> path.Some? && Truthy(Basename(path.value))
    ensures r.Some? ==> r.value == Basename(path.value) && '/' !in r.value
  {
    if path.Some? && Truthy(Basename(path.value)) then
      BasenameHasNoSlash(path.value);
      Some(Basename(path.value))
    else None
  }

  /** The file name of a path is its last component, when that is truthy. */
  lemma ExtractFilenameOfPath(dir: string, name: string)
    requires '/' !in name && Truthy(name)
    ensures ExtractFilename(Some(dir + "/" + name)) == Some(name)
  {
    var path := dir + "/" + name;
    assert path == dir + ['/'] + name;
    assert path[|path| - 1] == name[|name| - 1];
    assert StripTrailingSlashes(path) == path;
    SplitLast(dir, '/', name);
  }
}
