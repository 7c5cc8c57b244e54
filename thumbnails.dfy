/**
 * The thumbnails generator: the image check and mode default of `generate`, the meta update of an
 * alternative, and the per-original queue of pending thumbnail sizes that the thumbnails
 * interceptor consumes one entry per recursive put.
 */
module Thumbnails {
  import opened Wrappers
  import opened Strings
  import opened RepositoryConfig
  import opened Entities

  /** How a thumbnail is fitted into its box. */
  datatype ResizeMode = Inset | Outbound

  /** The image library: resizes an image to a width and height with a mode. */
  type Resizer = (SourceFile, string, string, ResizeMode) -> Bytes

  /** The results `onPut` reports. */
  datatype ThumbResult = NoConfigAvailable | NotAnImage | NoMoreThumbnails | Scheduled

  /** Pending thumbnail configs, indexed by the original's pathname. */
  type Progress = map<string, seq<ThumbConfig>>

  /** The mime type (null read as "") starts with `image/`. */
  predicate IsImage(mime: Option<string>)
  {
    "image/" <= mime.GetOr("")
  }

  /** A null mode means inset. */
  function ResolvedMode(mode: Option<ResizeMode>): (r: ResizeMode)
    ensures mode.None? ==> r == Inset
    ensures mode.Some? ==> r == mode.value
  {
    mode.GetOr(Inset)
  }

  /** The whitespace PHP allows before a numeric string: space, tab, LF, CR, vertical tab, form feed. */
  predicate IsNumericSpace(c: char)
  {
    c == ' ' || c == '\t' || c == '\n' || c == '\r' || c == '\U{000B}' || c == '\U{000C}'
  }

  /** The string without its leading numeric whitespace. */
  function SkipNumericSpace(s: string): (r: string)
    ensures |r| <= |s| && (|r| == 0 || !IsNumericSpace(r[0]))
    decreases |s|
  {
    if |s| > 0 && IsNumericSpace(s[0]) then SkipNumericSpace(s[1..]) else s
  }

  /** A digit, or a dot followed by a digit, opens the string. */
  predicate DigitStart(s: string)
  {
    (|s| > 0 && '0' <= s[0] <= '9') || (|s| > 1 && s[0] == '.' && '0' <= s[1] <= '9')
  }

  /** A string PHP accepts for an `int` parameter outside strict mode: a numeric or leading-numeric
      string (whitespace, an optional sign, then a digit or a dot and a digit). Any other string,
      and a missing value (null), is a `TypeError`. */
  predicate IntArgument(s: string)
  {
    var t := SkipNumericSpace(s);
    DigitStart(t) || (|t| > 0 && (t[0] == '+' || t[0] == '-') && DigitStart(t[1..]))
  }

  /** `(int) $s` as the value handed on: a string PHP reads as a number stands for that number,
      and any other string is `0`. The cast never fails. */
  function IntCast(s: string): (r: string)
    ensures IntArgument(r)
    ensures IntArgument(s) ==> r == s
    ensures !IntArgument(s) ==> r == "0"
  {
    if IntArgument(s) then s else "0"
  }

  /** A run of decimal digits opens the string and not all of it is `0`: the integer part of a
      number written this way is at least 1. */
  predicate PositiveIntegerPart(s: string)
    decreases |s|
  {
    |s| > 0 && '0' <= s[0] <= '9' && (s[0] != '0' || PositiveIntegerPart(s[1..]))
  }

  /** The `int` PHP makes of a string it accepts is at least 1: no minus sign, and a non-zero
      digit in the integer part (whitespace and a plus sign are skipped, and the fraction is
      dropped). */
  predicate BoxSide(s: string)
  {
    var t := SkipNumericSpace(s);
    if |t| > 0 && t[0] == '-' then false
    else PositiveIntegerPart(if |t| > 0 && t[0] == '+' then t[1..] else t)
  }

  /** Widths and heights that make the `int` 0 or less. */
  lemma BoxSideExamples()
    ensures !BoxSide("0") && !BoxSide("") && !BoxSide("-5") && !BoxSide(" 0.9") && !BoxSide("abc")
    ensures BoxSide("300") && BoxSide("+07") && BoxSide(" 1.5") && BoxSide("12abc")
  {
    assert SkipNumericSpace(" 0.9") == "0.9" by { assert " 0.9"[1..] == "0.9"; }
    assert SkipNumericSpace(" 1.5") == "1.5" by { assert " 1.5"[1..] == "1.5"; }
    assert "0.9"[1..] == ".9";
    assert "+07"[1..] == "07" && "07"[1..] == "7";
  }

  /** The cast keeps a side of at least 1 and makes every other string a side of 0. */
  lemma IntCastBoxSide(s: string)
    ensures BoxSide(IntCast(s)) <==> BoxSide(s)
  {
    if !IntArgument(s) {
      assert !BoxSide(s) by {
        var t := SkipNumericSpace(s);
        if !(|t| > 0 && t[0] == '-') {
          var u := if |t| > 0 && t[0] == '+' then t[1..] else t;
          assert !PositiveIntegerPart(u) by { assert !DigitStart(u); }
        }
      }
      assert "0"[1..] == "";
    }
  }

  /** A thumbnail config `generate` accepts for its `int $width, int $height`: both keys set,
      both values strings PHP coerces to an integer, and both integers at least 1, as the
      image library's `Box` requires of its sides. */
  predicate ThumbnailArgs(config: ThumbConfig)
  {
    IntArgs(config) && BoxSide(config["width"]) && BoxSide(config["height"])
  }

  /** Both keys are set and hold strings PHP coerces to an integer. */
  predicate IntArgs(config: ThumbConfig)
  {
    "width" in config && "height" in config && IntArgument(config["width"]) && IntArgument(config["height"])
  }

  /** Why `generate` refuses a config for an image: the `TypeError` of its `int` parameters, or
      else the `InvalidArgumentException` of a `Box` side below 1. */
  function ArgsError(config: ThumbConfig): (r: Error)
    requires !ThumbnailArgs(config)
    ensures r == BadThumbnailConfig <==> !IntArgs(config)
    ensures r == InvalidBoxSize <==> IntArgs(config)
  {
    if !IntArgs(config) then BadThumbnailConfig else InvalidBoxSize
  }

  /** `ThumbnailsGenerator::generate`: its `int` parameters refuse a width or height PHP cannot
      coerce (a `TypeError` at the call); then it refuses anything that is not an image before
      making a temp file; then the `Box` of the width and height refuses a side below 1;
      otherwise the thumbnail lives at `tempName` plus the guessed extension. */
  function Generate(image: SourceFile, width: string, height: string, mode: Option<ResizeMode>,
                    tempName: string, extension: string, resize: Resizer): (r: Result<(string, Bytes), Error>)
    ensures r.Failure? <==>
      !IntArgument(width) || !IntArgument(height) || !IsImage(image.mimeType) || !BoxSide(width) || !BoxSide(height)
    ensures !IntArgument(width) || !IntArgument(height) ==> r == Failure(BadThumbnailConfig)
    ensures IntArgument(width) && IntArgument(height) && !IsImage(image.mimeType) ==>
      r == Failure(NotImageGiven(image.pathname))
    ensures IntArgument(width) && IntArgument(height) && IsImage(image.mimeType) && (!BoxSide(width) || !BoxSide(height)) ==>
      r == Failure(InvalidBoxSize)
    ensures r.Success? ==> r.value.0 == tempName + "." + extension
    ensures r.Success? ==> r.value.1 == resize(image, width, height, ResolvedMode(mode))
  {
    if !IntArgument(width) || !IntArgument(height) then Failure(BadThumbnailConfig)
    else if !IsImage(image.mimeType) then Failure(NotImageGiven(image.pathname))
    else if !BoxSide(width) || !BoxSide(height) then Failure(InvalidBoxSize)
    else Success((tempName + "." + extension, resize(image, width, height, ResolvedMode(mode))))
  }

  /** Without a mode, thumbnails are fitted inset. */
  lemma DefaultModeIsInset(image: SourceFile, width: string, height: string, tempName: string,
                           extension: string, resize: Resizer)
    requires IntArgument(width) && IntArgument(height) && BoxSide(width) && BoxSide(height) && IsImage(image.mimeType)
    ensures Generate(image, width, height, None, tempName, extension, resize).Success?
    ensures Generate(image, width, height, None, tempName, extension, resize).value.1 == resize(image, width, height, Inset)
  {
  }

  /** `updateStoredFileAlternativeMeta`: merges `['thumbnail' => config]` into the record's meta. */
  method UpdateStoredFileAlternativeMeta(alternative: StoredFile, config: ThumbConfig)
    modifies alternative`meta
    ensures alternative.meta == ArrayMerge(old(alternative.meta), ThumbnailMeta(config))
    ensures alternative.meta["thumbnail"] == MetaMap(config)
  {
    alternative.MergeMeta(ThumbnailMeta(config));
    ThumbnailMetaMerge(old(alternative.meta), config, config);
  }

  /** `new File($file->getPathname())` for a file that is not a Symfony `File` yet: Symfony's
      `File` constructor throws `FileNotFoundException` when the pathname is not a regular file,
      which is always the case for a `Base64File` (its pathname is the `data:` URI). */
  function AsFile(f: SourceFile): (r: Result<SourceFile, Error>)
    ensures f.IsFile() ==> r == Success(f)
    ensures !f.IsFile() ==> (r.Success? <==> f.IsRegularFile())
    ensures f.kind.Base64Encoded? ==> r.Failure?
    ensures r.Failure? ==> r.error == PathNotFound(f.pathname)
    ensures r.Success? ==>
      r.value.IsFile() && r.value.pathname == f.pathname && r.value.mimeType == f.mimeType && r.value.contents == f.contents
    ensures r.Success? && !f.IsFile() ==> !r.value.IsAlternative() && r.value.filename == Basename(f.pathname)
  {
    if f.IsFile() then Success(f)
    else if !f.IsRegularFile() then Failure(PathNotFound(f.pathname))
    else Success(SourceFile(f.pathname, Basename(f.pathname), PathExtension(Basename(f.pathname)), SymfonyFile,
                            f.mimeType, f.contents, Fresh))
  }

  /** The file a thumbnail is made from: the carried original for an alternative, else the file. */
  function OriginalOf(file: SourceFile): Option<SourceFile>
  {
    if file.IsAlternative() then file.origin.originalFile else Some(file)
  }

  /** The queue key of a put: the pathname of the file thumbnails are made from. */
  function LookupKey(file: SourceFile): (r: Option<string>)
    ensures r.Some? <==> OriginalOf(file).Some?
    ensures r.Some? ==> r.value == OriginalOf(file).value.pathname
  {
    match OriginalOf(file)
    case None => None
    case Some(o) => Some(o.pathname)
  }

  /** The configured sizes, `[]` when unset. */
  function Sizes(config: Config): seq<ThumbConfig>
  {
    config.thumbnailSizes.GetOr([])
  }

  /** An alternative carries both its original file and its original record. */
  predicate PayloadPresent(file: SourceFile)
  {
    OriginalOf(file).Some? && (file.IsAlternative() ==> file.origin.originalStoredFile != null)
  }

  /** `onPut` gets past the config, payload, `File` and image checks and reaches the queue. */
  predicate QueueReached(config: Config, file: SourceFile)
  {
    |Sizes(config)| > 0 && PayloadPresent(file) && AsFile(OriginalOf(file).value).Success? &&
    IsImage(OriginalOf(file).value.mimeType)
  }

  /** How many thumbnail puts are still owed for `key`: its queue, or all sizes when it has no entry. */
  function Pending(progress: Progress, key: Option<string>, sizes: seq<ThumbConfig>): nat
  {
    if key.Some? && key.value in progress then |progress[key.value]| else |sizes|
  }

  /** One call's effect on the queue (initialise when absent, then `array_shift`): the popped config
      when it is a non-empty array, otherwise None and the entry is removed. */
  function QueueStep(progress: Progress, key: string, sizes: seq<ThumbConfig>): (r: (Progress, Option<ThumbConfig>))
    ensures var queue := if key in progress then progress[key] else sizes;
      (|queue| > 0 && queue[0] != map[] ==> r == (progress[key := queue[1..]], Some(queue[0]))) &&
      (!(|queue| > 0 && queue[0] != map[]) ==> r == (progress - {key}, None))
    ensures r.1.Some? ==> r.1.value != map[]
  {
    var queue := if key in progress then progress[key] else sizes;
    if |queue| > 0 && queue[0] != map[] then (progress[key := queue[1..]], Some(queue[0]))
    else (progress - {key}, None)
  }

  /** Repeating the step until it stops scheduling: how many configs were popped, and the final map. */
  function Drain(progress: Progress, key: string, sizes: seq<ThumbConfig>): (nat, Progress)
    decreases Pending(progress, Some(key), sizes)
  {
    var step := QueueStep(progress, key, sizes);
    if step.1.None? then (0, step.0)
    else
      var rest := Drain(step.0, key, sizes);
      (rest.0 + 1, rest.1)
  }

  /** Draining a queue whose entries are all non-empty pops every entry exactly once, then removes
      the entry and leaves every other key as it was. */
  lemma {:induction false} DrainQueue(progress: Progress, key: string, sizes: seq<ThumbConfig>)
    requires key in progress
    requires forall i :: 0 <= i < |progress[key]| ==> progress[key][i] != map[]
    ensures Drain(progress, key, sizes) == (|progress[key]|, progress - {key})
    decreases |progress[key]|
  {
    var queue := progress[key];
    if |queue| > 0 {
      var next := progress[key := queue[1..]];
      DrainQueue(next, key, sizes);
      assert next - {key} == progress - {key};
    }
  }

  /** With n configured sizes, all non-empty, an original with no queue entry yet is followed by
      exactly n thumbnail puts, after which its entry is gone and the map is as before. */
  lemma DrainFresh(progress: Progress, key: string, sizes: seq<ThumbConfig>)
    requires key !in progress
    requires forall i :: 0 <= i < |sizes| ==> sizes[i] != map[]
    ensures Drain(progress, key, sizes) == (|sizes|, progress)
  {
    if |sizes| == 0 {
      assert progress - {key} == progress;
    } else {
      var next := progress[key := sizes[1..]];
      DrainQueue(next, key, sizes);
      assert next - {key} == progress;
    }
  }

  /** A config that is an empty array stops the queue early and drops the configs after it. */
  lemma EmptyConfigStops(progress: Progress, key: string, sizes: seq<ThumbConfig>)
    requires key !in progress
    requires |sizes| > 0 && sizes[0] == map[]
    ensures Drain(progress, key, sizes) == (0, progress)
  {
    assert progress - {key} == progress;
  }
}
