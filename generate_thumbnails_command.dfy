/**
 * The `modera:file-repository:generate-thumbnails` console command: reports, for every original
 * record of a repository, which of the requested `WxH` thumbnails it already has and which are
 * missing; then either prints that report (dry run) or generates the missing thumbnails and links
 * them to their originals, and finally integrates the thumbnails interceptor and the requested
 * sizes into the repository's config without duplicating what is configured already.
 */
module GenerateThumbnailsCommand {
  import opened Wrappers
  import opened Strings
  import opened RepositoryConfig
  import opened Intercepting
  import opened PutContext
  import opened Entities
  import opened Thumbnails
  import opened Pipeline

  // ---------------------------------------------------------------------------------------------
  // The report

  /** One line of the report: an original record, the thumbnails it has and the requested ones it lacks. */
  datatype ReportEntry = ReportEntry(original: StoredFile, existing: seq<string>, missing: seq<string>)

  /** The originals query: a record that is no alternative and belongs to the repository. */
  predicate IsOriginalIn(x: StoredFile, repository: Repository)
    reads x
  {
    x.alternativeOf == null && x.repository == repository
  }

  /** The originals of a repository, in record order. */
  function Originals(records: seq<StoredFile>, repository: Repository): (r: seq<StoredFile>)
    reads records
    ensures |r| <= |records|
    decreases |records|
  {
    if |records| == 0 then []
    else
      var last := records[|records| - 1];
      Originals(records[..|records| - 1], repository) + (if IsOriginalIn(last, repository) then [last] else [])
  }

  /** Exactly the repository's non-alternative records are reported. */
  lemma {:induction false} OriginalsMembers(records: seq<StoredFile>, repository: Repository, x: StoredFile)
    ensures x in Originals(records, repository) <==> x in records && IsOriginalIn(x, repository)
    decreases |records|
  {
    if |records| > 0 {
      var init := records[..|records| - 1];
      OriginalsMembers(init, repository, x);
      assert records == init + [records[|records| - 1]];
    }
  }

  /** The alternatives query: the records whose `alternativeOf` is the original, in record order. */
  function AlternativesOf(records: seq<StoredFile>, original: StoredFile): (r: seq<StoredFile>)
    reads records
    ensures forall a :: a in r ==> a in records && a.alternativeOf == original
    decreases |records|
  {
    if |records| == 0 then []
    else
      var last := records[|records| - 1];
      AlternativesOf(records[..|records| - 1], original) + (if last.alternativeOf == original then [last] else [])
  }

  /** The `WxH` an alternative's meta records: `meta.thumbnail` must be an array setting both
      `width` and `height`; anything else (a missing key, a plain string) yields nothing. */
  function ThumbnailEntry(meta: Meta): (r: Option<string>)
    ensures r.Some? <==> "thumbnail" in meta && meta["thumbnail"].MetaMap? && Dimensions(meta["thumbnail"].entries).Some?
    ensures r.Some? ==> r.value == meta["thumbnail"].entries["width"] + "x" + meta["thumbnail"].entries["height"]
  {
    if "thumbnail" in meta && meta["thumbnail"].MetaMap? then Dimensions(meta["thumbnail"].entries) else None
  }

  /** The existing thumbnails of a list of alternatives, in order. */
  function Existing(alternatives: seq<StoredFile>): seq<string>
    reads set a | a in alternatives
    decreases |alternatives|
  {
    if |alternatives| == 0 then []
    else
      var entry := ThumbnailEntry(alternatives[|alternatives| - 1].meta);
      Existing(alternatives[..|alternatives| - 1]) + (if entry.Some? then [entry.value] else [])
  }

  /** A size is reported as existing iff some alternative records it. */
  lemma {:induction false} ExistingMembers(alternatives: seq<StoredFile>, s: string)
    ensures s in Existing(alternatives) <==>
      exists k :: 0 <= k < |alternatives| && ThumbnailEntry(alternatives[k].meta) == Some(s)
    decreases |alternatives|
  {
    if |alternatives| > 0 {
      var init := alternatives[..|alternatives| - 1];
      ExistingMembers(init, s);
      if s in Existing(alternatives) && s !in Existing(init) {
        assert ThumbnailEntry(alternatives[|alternatives| - 1].meta) == Some(s);
      }
      if exists k :: 0 <= k < |alternatives| && ThumbnailEntry(alternatives[k].meta) == Some(s) {
        var k :| 0 <= k < |alternatives| && ThumbnailEntry(alternatives[k].meta) == Some(s);
        if k < |init| {
          assert init[k] == alternatives[k];
        }
      }
    }
  }

  /** The requested sizes that are not among the existing ones, in requested order. */
  function Missing(expected: seq<string>, existing: seq<string>): (r: seq<string>)
    ensures |r| <= |expected|
    decreases |expected|
  {
    if |expected| == 0 then []
    else
      var d := expected[|expected| - 1];
      Missing(expected[..|expected| - 1], existing) + (if d !in existing then [d] else [])
  }

  /** A size is missing iff it is requested and not existing. */
  lemma {:induction false} MissingMembers(expected: seq<string>, existing: seq<string>, d: string)
    ensures d in Missing(expected, existing) <==> d in expected && d !in existing
    decreases |expected|
  {
    if |expected| > 0 {
      var init := expected[..|expected| - 1];
      MissingMembers(init, existing, d);
      assert expected == init + [expected[|expected| - 1]];
    }
  }

  /** Nothing exists yet: every requested size is missing, in order and with repetitions. */
  lemma {:induction false} NothingExisting(expected: seq<string>)
    ensures Missing(expected, []) == expected
    decreases |expected|
  {
    if |expected| > 0 {
      NothingExisting(expected[..|expected| - 1]);
      assert expected[..|expected| - 1] + [expected[|expected| - 1]] == expected;
    }
  }

  /** Every requested size exists: nothing is missing. */
  lemma {:induction false} AllExisting(expected: seq<string>, existing: seq<string>)
    requires forall i :: 0 <= i < |expected| ==> expected[i] in existing
    ensures Missing(expected, existing) == []
    decreases |expected|
  {
    if |expected| > 0 {
      AllExisting(expected[..|expected| - 1], existing);
    }
  }

  /** The report entry of one original. */
  function EntryFor(records: seq<StoredFile>, original: StoredFile, expected: seq<string>): ReportEntry
    reads records
  {
    var alternatives := AlternativesOf(records, original);
    assert forall a :: a in alternatives ==> a in records;
    var existing := Existing(alternatives);
    ReportEntry(original, existing, Missing(expected, existing))
  }

  /** The report entries of the given originals, in their order. */
  function Report(records: seq<StoredFile>, originals: seq<StoredFile>, expected: seq<string>): seq<ReportEntry>
    reads records
    decreases |originals|
  {
    if |originals| == 0 then []
    else Report(records, originals[..|originals| - 1], expected) + [EntryFor(records, originals[|originals| - 1], expected)]
  }

  /** The report has one entry per original, the entry of that original. */
  lemma {:induction false} ReportEntries(records: seq<StoredFile>, originals: seq<StoredFile>, expected: seq<string>)
    ensures |Report(records, originals, expected)| == |originals|
    ensures forall i :: 0 <= i < |originals| ==> Report(records, originals, expected)[i] == EntryFor(records, originals[i], expected)
    decreases |originals|
  {
    if |originals| > 0 {
      var init := originals[..|originals| - 1];
      ReportEntries(records, init, expected);
      forall i | 0 <= i < |init|
        ensures Report(records, originals, expected)[i] == EntryFor(records, originals[i], expected)
      {
        assert originals[i] == init[i];
      }
    }
  }

  /** The report part of `execute`: the report, one entry per original, built by scanning each
      original's alternatives and then the requested sizes. */
  method BuildReport(records: seq<StoredFile>, repository: Repository, expected: seq<string>)
    returns (report: seq<ReportEntry>)
    ensures report == Report(records, Originals(records, repository), expected)
    ensures |report| == |Originals(records, repository)|
    ensures forall i :: 0 <= i < |report| ==> report[i] == EntryFor(records, Originals(records, repository)[i], expected)
    ensures forall i :: 0 <= i < |report| ==> report[i].original in records
  {
    report := ReportOf(records, Originals(records, repository), expected);
    ReportEntries(records, Originals(records, repository), expected);
    forall i | 0 <= i < |report|
      ensures report[i].original in records
    {
      OriginalsMembers(records, repository, Originals(records, repository)[i]);
    }
  }

  /** The report loop of `execute` over the given originals. */
  method ReportOf(records: seq<StoredFile>, originals: seq<StoredFile>, expected: seq<string>)
    returns (report: seq<ReportEntry>)
    ensures report == Report(records, originals, expected)
  {
    report := [];
    for i := 0 to |originals|
      invariant report == Report(records, originals[..i], expected)
    {
      var entry := EntryOf(records, originals[i], expected);
      assert originals[..i + 1][..i] == originals[..i];
      report := report + [entry];
    }
    assert originals[..|originals|] == originals;
  }

  /** One pass of the report loop of `execute`, for one original: its existing and its missing sizes. */
  method EntryOf(records: seq<StoredFile>, original: StoredFile, expected: seq<string>) returns (entry: ReportEntry)
    ensures entry == EntryFor(records, original, expected)
  {
    var existing := ExistingOf(AlternativesOf(records, original));
    var missing := MissingOf(expected, existing);
    entry := ReportEntry(original, existing, missing);
  }

  /** The scan of an original's alternatives in `execute`: the sizes the alternatives' meta records. */
  method ExistingOf(alternatives: seq<StoredFile>) returns (existing: seq<string>)
    ensures existing == Existing(alternatives)
  {
    existing := [];
    for j := 0 to |alternatives|
      invariant existing == Existing(alternatives[..j])
    {
      assert alternatives[..j + 1][..j] == alternatives[..j];
      var entry := ThumbnailEntry(alternatives[j].meta);
      if entry.Some? {
        existing := existing + [entry.value];
      }
    }
    assert alternatives[..|alternatives|] == alternatives;
  }

  /** The comparison with the requested sizes in `execute`: the requested sizes not among the existing ones. */
  method MissingOf(expected: seq<string>, existing: seq<string>) returns (missing: seq<string>)
    ensures missing == Missing(expected, existing)
  {
    missing := [];
    for j := 0 to |expected|
      invariant missing == Missing(expected[..j], existing)
    {
      assert expected[..j + 1][..j] == expected[..j];
      if expected[j] !in existing {
        missing := missing + [expected[j]];
      }
    }
    assert expected[..|expected|] == expected;
  }

  /** One row of the dry-run table: id, file name, and the missing and existing sizes joined by
      `, ` (`-` for none). */
  datatype ReportRow = ReportRow(id: Option<int>, filename: Option<string>, missing: string, existing: string)

  /** A list of sizes as the table shows it. */
  function Listing(sizes: seq<string>): string
  {
    if |sizes| > 0 then Implode(", ", sizes) else "-"
  }

  /** The table row of a report entry. */
  function RowOf(entry: ReportEntry): ReportRow
    reads entry.original
  {
    ReportRow(entry.original.id, entry.original.filename, Listing(entry.missing), Listing(entry.existing))
  }

  /** The dry-run table of `execute`: one table row per report entry, in report order. */
  method DryRunRows(report: seq<ReportEntry>) returns (rows: seq<ReportRow>)
    ensures |rows| == |report|
    ensures forall i :: 0 <= i < |rows| ==> rows[i] == RowOf(report[i])
  {
    rows := [];
    for i := 0 to |report|
      invariant |rows| == i
      invariant forall k :: 0 <= k < i ==> rows[k] == RowOf(report[k])
    {
      rows := rows + [RowOf(report[i])];
    }
  }

  // ---------------------------------------------------------------------------------------------
  // Generating one missing thumbnail

  /** `list($width, $height) = explode('x', $dimensions)`: the width, and the height when there is
      a second part (PHP leaves it null otherwise). */
  function WidthOf(dimensions: string): string
  {
    Split(dimensions, 'x')[0]
  }

  function HeightOf(dimensions: string): Option<string>
  {
    var parts := Split(dimensions, 'x');
    if |parts| >= 2 then Some(parts[1]) else None
  }

  /** `['width' => $width, 'height' => $height]`, a null height being an unset key. */
  function SizeOf(dimensions: string): (r: ThumbConfig)
    ensures r.Keys == {"width"} + (if HeightOf(dimensions).Some? then {"height"} else {})
    ensures r["width"] == WidthOf(dimensions)
    ensures HeightOf(dimensions).Some? ==> r["height"] == HeightOf(dimensions).value
  {
    map["width" := WidthOf(dimensions)] +
      (if HeightOf(dimensions).Some? then map["height" := HeightOf(dimensions).value] else map[])
  }

  /** A dimensions string of the documented form `WxH` (exactly one `x`). */
  predicate WellFormed(dimensions: string)
  {
    |Split(dimensions, 'x')| == 2
  }

  /** A well-formed `WxH` gives back the same string once stored as a size; any other string does not. */
  lemma SizeRoundTrip(dimensions: string)
    ensures Dimensions(SizeOf(dimensions)) == Some(dimensions) <==> WellFormed(dimensions)
  {
    var parts := Split(dimensions, 'x');
    JoinSplit(dimensions, 'x');
    if |parts| == 2 {
      assert parts[1..] == [parts[1]];
      assert Join(parts, 'x') == parts[0] + ['x'] + parts[1];
    } else if |parts| > 2 {
      SplitPartsFree(dimensions, 'x');
      assert Join(parts, 'x') == parts[0] + ['x'] + Join(parts[1..], 'x');
      assert parts[1..][1..] == parts[2..];
      assert Join(parts[1..], 'x') == parts[1] + ['x'] + Join(parts[2..], 'x');
      var glued := parts[0] + "x" + parts[1];
      assert |dimensions| == |glued| + 1 + |Join(parts[2..], 'x')|;
    }
  }

  /** The temp file `tempnam(sys_get_temp_dir(), 'file_')` creates at tick `t`. */
  function FileTempName(dir: string, t: nat): string
  {
    dir + "/file_" + Decimal(t)
  }

  /** `new File($originalPathname)` after the original's bytes were written there at tick `t`. */
  function TempImage(oracles: Oracles, t: nat, bytes: Bytes): (r: SourceFile)
    ensures r.pathname == FileTempName(oracles.tempDir, t) && r.contents == Some(bytes)
    ensures r.mimeType == oracles.guessMime(bytes) && r.kind == SymfonyFile && !r.IsAlternative()
  {
    SourceFile(FileTempName(oracles.tempDir, t), "file_" + Decimal(t), "", SymfonyFile,
               oracles.guessMime(bytes), Some(bytes), Fresh)
  }

  /** The temp image's file name and extension are those `File` derives from its pathname:
      the digits of the tick leave no `/` and no `.` in the last component. */
  lemma TempImageNames(oracles: Oracles, t: nat, bytes: Bytes)
    ensures TempImage(oracles, t, bytes).filename == Basename(FileTempName(oracles.tempDir, t))
    ensures TempImage(oracles, t, bytes).extension == PathExtension(TempImage(oracles, t, bytes).filename)
  {
    var name := "file_" + Decimal(t);
    FileTempNameFree(t);
    assert FileTempName(oracles.tempDir, t) == oracles.tempDir + ['/'] + name;
    BasenameOfJoin(oracles.tempDir, name);
    PathExtensionParts(name);
  }

  /** The last component of the temp file name has no `/` and no `.`, and does not end in `/`. */
  lemma FileTempNameFree(t: nat)
    ensures '/' !in "file_" + Decimal(t) && '.' !in "file_" + Decimal(t)
  {
    var name := "file_" + Decimal(t);
    DecimalDigits(t);
    forall i | 0 <= i < |name| ensures name[i] != '/' && name[i] != '.' {
      if i >= 5 { assert name[i] == Decimal(t)[i - 5]; }
    }
  }

  /** The basename of `dir/name`, for a non-empty name without `/`, is that name. */
  lemma BasenameOfJoin(dir: string, name: string)
    requires |name| > 0 && '/' !in name
    ensures Basename(dir + ['/'] + name) == name
  {
    var pathname := dir + ['/'] + name;
    assert pathname[|pathname| - 1] == name[|name| - 1];
    assert StripTrailingSlashes(pathname) == pathname;
    SplitLast(dir, '/', name);
  }

  /** The `EmulatedUploadedFile` put for one size: the thumbnail generated (at tick `t + 1`) from
      the temp image of tick `t`, uploaded under the original's file name and mime type; None
      when the bytes are not an image, and the `Box` failure when the cast width or height is
      below 1 (a missing height casts to 0). */
  function ThumbnailUpload(oracles: Oracles, t: nat, bytes: Bytes, clientName: string, clientMime: Option<string>,
                           dimensions: string): (r: Result<Option<SourceFile>, Error>)
    ensures r == Success(None) <==> !IsImage(oracles.guessMime(bytes))
    ensures r.Failure? <==>
      IsImage(oracles.guessMime(bytes)) && !(BoxSide(WidthOf(dimensions)) && BoxSide(HeightOf(dimensions).GetOr("")))
    ensures r.Failure? ==> r.error == InvalidBoxSize
    ensures r.Success? && r.value.Some? ==> (r.value.value.kind == Uploaded(clientName, clientMime) &&
      r.value.value.RecordFilename() == clientName && !r.value.value.IsAlternative() &&
      r.value.value.contents == Some(oracles.resize(TempImage(oracles, t, bytes), IntCast(WidthOf(dimensions)),
                                                    IntCast(HeightOf(dimensions).GetOr("")), Inset)) &&
      r.value.value.mimeType == oracles.guessMime(r.value.value.contents.value))
  {
    var image := TempImage(oracles, t, bytes);
    IntCastBoxSide(WidthOf(dimensions));
    IntCastBoxSide(HeightOf(dimensions).GetOr(""));
    match Generate(image, IntCast(WidthOf(dimensions)), IntCast(HeightOf(dimensions).GetOr("")), None,
                   TempName(oracles.tempDir, t + 1), oracles.guessExtension(image), oracles.resize)
    case Failure(e) => if e == InvalidBoxSize then Failure(e) else Success(None)
    case Success(generated) =>
      var pathname := generated.0;
      Success(Some(SourceFile(pathname, Basename(pathname), PathExtension(Basename(pathname)), Uploaded(clientName, clientMime),
                              oracles.guessMime(generated.1), Some(generated.1), Fresh)))
  }

  /** `--thumbnail=300` (no height) fails for an image: the missing height casts to 0. */
  lemma MissingHeightFails(oracles: Oracles, t: nat, bytes: Bytes, clientName: string, clientMime: Option<string>)
    requires IsImage(oracles.guessMime(bytes))
    ensures ThumbnailUpload(oracles, t, bytes, clientName, clientMime, "300") == Failure(InvalidBoxSize)
  {
    assert !BoxSide("");
  }

  /** The filter the command puts its thumbnails with: every interceptor but the thumbnails one. */
  const ThumbnailPutFilter: Filter := (i: Interceptor) => !i.Thumbnails?

  /** The context of the command's thumbnail puts. */
  const ThumbnailPutContext: Context := map[FilterKey(OnPut) := Callable(ThumbnailPutFilter)]

  /** That context disables no stage, and its put stage calls every listed interceptor except the
      thumbnails interceptor, so a stored thumbnail never schedules thumbnails of its own. */
  lemma ThumbnailPutSkipsThumbnails(list: seq<Interceptor>)
    ensures forall s :: IsInterceptorDisabled(ThumbnailPutContext, s) == Success(false)
    ensures forall i :: CreateInterceptorsFilter(ThumbnailPutContext, OnPut)(i) <==> !i.Thumbnails?
    ensures forall i :: i in Accepted(list, CreateInterceptorsFilter(ThumbnailPutContext, OnPut)) <==> i in list && !i.Thumbnails?
  {
    forall i ensures i in Accepted(list, CreateInterceptorsFilter(ThumbnailPutContext, OnPut)) <==> i in list && !i.Thumbnails? {
      AcceptedMembership(list, CreateInterceptorsFilter(ThumbnailPutContext, OnPut), i);
    }
  }

  /** The named repository keeps existing records when a file of the same name is put
      (`overwrite_files` is not true), so each put of the command makes a new record. */
  predicate NoOverwrite(fr: FileRepository, repository: Repository)
    reads fr`repositories, fr.repositories`config
  {
    fr.LookupRepository(repository.Name()).None? ||
    fr.LookupRepository(repository.Name()).value.config.overwriteFiles != Some(true)
  }

  /** The list `a` of records, when there is one, begins `b`. */
  predicate Grows(a: Option<seq<StoredFile>>, b: Option<seq<StoredFile>>)
  {
    a.Some? ==> b.Some? && a.value <= b.value
  }

  /** The meta and the original of the given records are as they were, and each keeps the
      alternatives it had. */
  twostate predicate LinksGrown(records: seq<StoredFile>)
    reads records
  {
    forall x :: x in records ==>
      x.meta == old(x.meta) && x.alternativeOf == old(x.alternativeOf) && Grows(old(x.alternatives), x.alternatives)
  }

  /** What the command did for one missing size: nothing, because the bytes it read from the
      original are no image, or it linked a thumbnail record to the original. */
  datatype BackfillStep = Skipped(read: Bytes) | Linked(thumbnail: StoredFile)

  /** The thumbnails of `steps`. */
  function LinkedOf(steps: seq<BackfillStep>): (r: set<StoredFile>)
    ensures forall k :: 0 <= k < |steps| ==> StepRecords(steps[k]) <= r
  {
    set k | 0 <= k < |steps| && steps[k].Linked? :: steps[k].thumbnail
  }

  /** The thumbnail of a step, if it has one. */
  function StepRecords(step: BackfillStep): set<StoredFile>
  {
    if step.Linked? then {step.thumbnail} else {}
  }

  /** A step as the store shows it: a skipped size read a non-image, and a linked thumbnail is a
      record with the size in its meta and an alternative of `original`. */
  predicate StepDone(fr: FileRepository, original: StoredFile, dimensions: string, step: BackfillStep)
    reads fr`storedFiles, original`alternatives, StepRecords(step)`meta, StepRecords(step)`alternativeOf
  {
    match step
    case Skipped(read) => !IsImage(fr.oracles.guessMime(read))
    case Linked(t) =>
      t in fr.storedFiles && "thumbnail" in t.meta && t.meta["thumbnail"] == MetaMap(SizeOf(dimensions)) &&
      t.alternativeOf == original && original.alternatives.Some? && t in original.alternatives.value
  }

  /** One step per missing size of `original`, each done. */
  predicate StepsDone(fr: FileRepository, original: StoredFile, missing: seq<string>, steps: seq<BackfillStep>)
    reads fr`storedFiles, original`alternatives, LinkedOf(steps)`meta, LinkedOf(steps)`alternativeOf
  {
    |steps| == |missing| &&
    forall k :: 0 <= k < |steps| ==>
      StepDone(fr, original, missing[k], steps[k])
  }

  /** The inner loop body of `execute` for one missing size of `original`: the original's bytes are
      written to a temp file and the thumbnail is generated from it (a backend failure reading the
      bytes is passed on, a non-image is skipped); the thumbnail is put into the repository under
      the original's name with the thumbnails interceptor filtered out, carries its size in its
      meta, and becomes the original's last alternative. The temp file names are drawn from the
      next ticks. */
  method GenerateOne(fr: FileRepository, repository: Repository, original: StoredFile, dimensions: string)
    returns (r: Result<Option<StoredFile>, Error>)
    requires fr.Valid()
    modifies fr`storedFiles, fr`nextId, fr`ticks, fr.thumbnails`progress, fr.thumbnails`scheduled
    modifies fr.filesystems.Values, fr.repositories`files
    modifies fr.storedFiles`createdAt, fr.storedFiles`alternatives, fr.storedFiles`alternativeOf
    modifies fr.storedFiles`meta, fr.storedFiles`author, fr.storedFiles`id
    modifies original`alternatives
    ensures fr.Valid()
    ensures forall x :: x in fr.storedFiles ==> x in old(fr.storedFiles) || fresh(x)
    ensures old(original.Contents(fr.filesystems)).Failure? ==>
      r == Failure(old(original.Contents(fr.filesystems)).error) && fr.storedFiles == old(fr.storedFiles)
    ensures old(original.Contents(fr.filesystems)).Success? ==>
      var upload := old(ThumbnailUpload(fr.oracles, fr.ticks + 1, original.Contents(fr.filesystems).value,
                                        original.filename.GetOr(""), original.mimeType, dimensions));
      (upload.Failure? ==> r == Failure(upload.error) && fr.storedFiles == old(fr.storedFiles)) &&
      (upload == Success(None) ==> r == Success(None) && fr.storedFiles == old(fr.storedFiles)) &&
      (r.Success? && r.value.Some? ==>
        upload.Success? && upload.value.Some? && upload.value.value.contents.Some? &&
        ThumbnailLinked(fr, r.value.value, original, repository, SizeOf(dimensions), upload.value.value.contents.value))
    ensures r == Success(None) ==>
      old(original.Contents(fr.filesystems)).Success? &&
      !IsImage(fr.oracles.guessMime(old(original.Contents(fr.filesystems)).value))
    ensures NoOverwrite(fr, repository) ==>
      old(fr.storedFiles) <= fr.storedFiles && LinksGrown(old(fr.storedFiles)) &&
      Grows(old(original.alternatives), original.alternatives)
  {
    var contents := original.Contents(fr.filesystems);
    if contents.Failure? {
      return Failure(contents.error);
    }
    var upload := ThumbnailUpload(fr.oracles, fr.ticks + 1, contents.value, original.filename.GetOr(""), original.mimeType, dimensions);
    if upload.Failure? {
      return Failure(upload.error);
    }
    if upload.value.None? {
      return Success(None);
    }
    var put := PutThumbnail(fr, repository, original, upload.value.value, SizeOf(dimensions));
    if put.Failure? {
      return Failure(put.error);
    }
    r := Success(Some(put.value));
  }

  /** A generated thumbnail as the command leaves it: stored with `contents` in the named
      repository, its size in its meta, linked to `original` and last among its alternatives. */
  ghost predicate ThumbnailLinked(fr: FileRepository, thumbnail: StoredFile, original: StoredFile, repository: Repository,
                                  size: ThumbConfig, contents: Bytes)
    reads fr, thumbnail, original, RepositoryFrame(thumbnail), fr.filesystems.Values
  {
    fr.HoldsFile(thumbnail, contents) &&
    fr.LookupRepository(repository.Name()).Some? && thumbnail.repository == fr.LookupRepository(repository.Name()).value &&
    "thumbnail" in thumbnail.meta && thumbnail.meta["thumbnail"] == MetaMap(size) &&
    thumbnail.alternativeOf == original &&
    original.alternatives.Some? && |original.alternatives.value| > 0 &&
    original.alternatives.value[|original.alternatives.value| - 1] == thumbnail
  }

  /** The put and link of a generated thumbnail in `execute`: puts the uploaded thumbnail with the thumbnails interceptor
      filtered out, records its size in the new record's meta, and appends the record to the
      original's alternatives. */
  method PutThumbnail(fr: FileRepository, repository: Repository, original: StoredFile, upload: SourceFile, size: ThumbConfig)
    returns (r: Result<StoredFile, Error>)
    requires fr.Valid() && !upload.IsAlternative()
    modifies fr`storedFiles, fr`nextId, fr`ticks, fr.thumbnails`progress, fr.thumbnails`scheduled
    modifies fr.filesystems.Values, fr.repositories`files
    modifies fr.storedFiles`createdAt, fr.storedFiles`alternatives, fr.storedFiles`alternativeOf
    modifies fr.storedFiles`meta, fr.storedFiles`author, fr.storedFiles`id
    modifies original`alternatives
    ensures fr.Valid()
    ensures forall x :: x in fr.storedFiles ==> x in old(fr.storedFiles) || fresh(x)
    ensures r.Success? ==> upload.contents.Some? && ThumbnailLinked(fr, r.value, original, repository, size, upload.contents.value)
    ensures NoOverwrite(fr, repository) ==>
      old(fr.storedFiles) <= fr.storedFiles && LinksGrown(old(fr.storedFiles)) &&
      Grows(old(original.alternatives), original.alternatives)
  {
    var put := StoreThumbnail(fr, repository, upload);
    if put.Failure? {
      return Failure(put.error);
    }
    var thumbnail := put.value;
    label Stored:
    LinkThumbnail(fr, thumbnail, original, size, upload.contents.value);
    if NoOverwrite(fr, repository) {
      assert thumbnail !in old(fr.storedFiles);
      forall x | x in old(fr.storedFiles)
        ensures x.meta == old(x.meta) && x.alternativeOf == old(x.alternativeOf) && Grows(old(x.alternatives), x.alternatives)
      {
        assert x.alternatives == old@Stored(x.alternatives) || x == original;
      }
    }
    r := Success(thumbnail);
  }

  /** The thumbnail put of `execute`: the put of the uploaded thumbnail with the thumbnails interceptor
      filtered out. When the repository keeps existing records, it makes a new record and leaves
      the meta and the links of the records there were as they were. */
  method StoreThumbnail(fr: FileRepository, repository: Repository, upload: SourceFile) returns (r: Result<StoredFile, Error>)
    requires fr.Valid() && !upload.IsAlternative()
    modifies fr`storedFiles, fr`nextId, fr`ticks, fr.thumbnails`progress, fr.thumbnails`scheduled
    modifies fr.filesystems.Values, fr.repositories`files
    modifies fr.storedFiles`createdAt, fr.storedFiles`alternatives, fr.storedFiles`alternativeOf
    modifies fr.storedFiles`meta, fr.storedFiles`author, fr.storedFiles`id
    ensures fr.Valid()
    ensures forall x :: x in fr.storedFiles ==> x in old(fr.storedFiles) || fresh(x)
    ensures r.Success? ==>
      (fr.LookupRepository(repository.Name()).Some? && r.value.repository == fr.LookupRepository(repository.Name()).value &&
       upload.contents.Some? && fr.HoldsFile(r.value, upload.contents.value))
    ensures NoOverwrite(fr, repository) ==>
      old(fr.storedFiles) <= fr.storedFiles && LinksKept(old(fr.storedFiles)) && (r.Success? ==> fresh(r.value))
  {
    ThumbnailPutSkipsThumbnails([]);
    r := fr.Put(repository.Name(), upload, ThumbnailPutContext);
  }

  /** The link of a stored thumbnail in `execute`: records the size in the thumbnail's meta and appends the
      thumbnail to the original's alternatives; the store and the stored blob are untouched. */
  method LinkThumbnail(fr: FileRepository, thumbnail: StoredFile, original: StoredFile, size: ThumbConfig, ghost contents: Bytes)
    modifies thumbnail`meta, thumbnail`alternativeOf, original`alternatives
    ensures fr.Valid() <==> old(fr.Valid())
    ensures fr.HoldsFile(thumbnail, contents) <==> old(fr.HoldsFile(thumbnail, contents))
    ensures "thumbnail" in thumbnail.meta && thumbnail.meta["thumbnail"] == MetaMap(size)
    ensures forall k :: k in old(thumbnail.meta) && k != "thumbnail" ==> k in thumbnail.meta && thumbnail.meta[k] == old(thumbnail.meta[k])
    ensures thumbnail.alternativeOf == original
    ensures original.alternatives == Some(old(original.alternatives).GetOr([]) + [thumbnail])
  {
    UpdateStoredFileAlternativeMeta(thumbnail, size);
    ThumbnailMetaMerge(old(thumbnail.meta), size, size);
    original.AddAlternative(thumbnail);
  }

  /** One missing size as a step: a failure of the generation, or the step it did. */
  method GenerateStep(fr: FileRepository, repository: Repository, original: StoredFile, dimensions: string)
    returns (r: Outcome<Error>, ghost step: BackfillStep)
    requires fr.Valid()
    modifies fr`storedFiles, fr`nextId, fr`ticks, fr.thumbnails`progress, fr.thumbnails`scheduled
    modifies fr.filesystems.Values, fr.repositories`files
    modifies fr.storedFiles`createdAt, fr.storedFiles`alternatives, fr.storedFiles`alternativeOf
    modifies fr.storedFiles`meta, fr.storedFiles`author, fr.storedFiles`id
    modifies original`alternatives
    ensures fr.Valid()
    ensures forall x :: x in fr.storedFiles ==> x in old(fr.storedFiles) || fresh(x)
    ensures old(original.Contents(fr.filesystems)).Failure? ==>
      r == Fail(old(original.Contents(fr.filesystems)).error) && fr.storedFiles == old(fr.storedFiles)
    ensures NoOverwrite(fr, repository) ==>
      old(fr.storedFiles) <= fr.storedFiles && LinksGrown(old(fr.storedFiles)) &&
      Grows(old(original.alternatives), original.alternatives)
    ensures NoOverwrite(fr, repository) && r.Pass? ==> StepDone(fr, original, dimensions, step)
  {
    ghost var read := original.Contents(fr.filesystems);
    var one := GenerateOne(fr, repository, original, dimensions);
    if one.Failure? {
      return Fail(one.error), Skipped([]);
    }
    step := if one.value.None? then Skipped(read.value) else Linked(one.value.value);
    r := Pass;
  }

  /** Every entry of `report` had each of its missing sizes done, as `steps` records. */
  predicate ReportDone(fr: FileRepository, report: seq<ReportEntry>, steps: seq<seq<BackfillStep>>)
    reads fr`storedFiles, set e | e in report :: e.original`alternatives
    reads set i, t | 0 <= i < |steps| && t in LinkedOf(steps[i]) :: t`meta
    reads set i, t | 0 <= i < |steps| && t in LinkedOf(steps[i]) :: t`alternativeOf
  {
    |steps| == |report| &&
    forall i :: 0 <= i < |report| ==> StepsDone(fr, report[i].original, report[i].missing, steps[i])
  }

  /** The originals of `report` are records. */
  predicate OriginalsStored(fr: FileRepository, report: seq<ReportEntry>)
    reads fr`storedFiles
  {
    forall e :: e in report ==> e.original in fr.storedFiles
  }

  /** The next missing size `dimensions` of `original`, after the sizes `done` were done as
      `steps`: a failure, or one more step done. The entries `prior` done before stay done, and
      the originals of `report` stay records. */
  method AdvanceEntry(fr: FileRepository, repository: Repository, original: StoredFile, dimensions: string,
                      ghost done: seq<string>, ghost steps: seq<BackfillStep>, ghost report: seq<ReportEntry>,
                      ghost prior: seq<ReportEntry>, ghost priorSteps: seq<seq<BackfillStep>>)
    returns (r: Outcome<Error>, ghost after: seq<BackfillStep>)
    requires fr.Valid() && prior <= report
    requires NoOverwrite(fr, repository) ==>
      StepsDone(fr, original, done, steps) && ReportDone(fr, prior, priorSteps) && OriginalsStored(fr, report)
    modifies fr`storedFiles, fr`nextId, fr`ticks, fr.thumbnails`progress, fr.thumbnails`scheduled
    modifies fr.filesystems.Values, fr.repositories`files
    modifies fr.storedFiles`createdAt, fr.storedFiles`alternatives, fr.storedFiles`alternativeOf
    modifies fr.storedFiles`meta, fr.storedFiles`author, fr.storedFiles`id
    modifies original`alternatives
    ensures fr.Valid()
    ensures forall x :: x in fr.storedFiles ==> x in old(fr.storedFiles) || fresh(x)
    ensures NoOverwrite(fr, repository) ==> ReportDone(fr, prior, priorSteps) && OriginalsStored(fr, report)
    ensures NoOverwrite(fr, repository) && r.Pass? ==> StepsDone(fr, original, done + [dimensions], after)
  {
    label Before:
    ghost var step;
    r, step := GenerateStep(fr, repository, original, dimensions);
    after := steps + [step];
    if NoOverwrite(fr, repository) {
      forall i, k | 0 <= i < |prior| && 0 <= k < |priorSteps[i]|
        ensures StepDone(fr, prior[i].original, prior[i].missing[k], priorSteps[i][k])
      {
        assert old@Before(StepDone(fr, prior[i].original, prior[i].missing[k], priorSteps[i][k]));
        assert prior[i] == report[i] && report[i] in report;
        if priorSteps[i][k].Linked? {
          GrowsKeeps(old@Before(prior[i].original.alternatives), prior[i].original.alternatives, priorSteps[i][k].thumbnail);
        }
      }
    }
    if r.Pass? && NoOverwrite(fr, repository) {
      forall k | 0 <= k < |steps|
        ensures StepDone(fr, original, done[k], steps[k])
      {
        assert old@Before(StepDone(fr, original, done[k], steps[k]));
        if steps[k].Linked? {
          GrowsKeeps(old@Before(original.alternatives), original.alternatives, steps[k].thumbnail);
        }
      }
      StepsDoneSnoc(fr, original, done + [dimensions], steps, step);
    }
  }

  /** A record of a list is in every list the list begins. */
  lemma GrowsKeeps(a: Option<seq<StoredFile>>, b: Option<seq<StoredFile>>, t: StoredFile)
    requires Grows(a, b) && a.Some? && t in a.value
    ensures b.Some? && t in b.value
  {
    var i :| 0 <= i < |a.value| && a.value[i] == t;
    assert b.value[i] == t;
  }

  /** The loop over the missing sizes in `execute`, for the report entry `i`: one generation per missing size,
      stopping at the first failure. When the repository keeps existing records, a pass did each
      missing size, as the last of `steps` records; the entries before `i` stay done as they were,
      and the originals of the report stay records. */
  method BackfillEntry(fr: FileRepository, repository: Repository, report: seq<ReportEntry>, i: nat,
                       ghost prior: seq<seq<BackfillStep>>)
    returns (r: Outcome<Error>, ghost steps: seq<seq<BackfillStep>>)
    requires fr.Valid() && i < |report|
    requires NoOverwrite(fr, repository) ==> ReportDone(fr, report[..i], prior) && OriginalsStored(fr, report)
    modifies fr`storedFiles, fr`nextId, fr`ticks, fr.thumbnails`progress, fr.thumbnails`scheduled
    modifies fr.filesystems.Values, fr.repositories`files
    modifies fr.storedFiles`createdAt, fr.storedFiles`alternatives, fr.storedFiles`alternativeOf
    modifies fr.storedFiles`meta, fr.storedFiles`author, fr.storedFiles`id
    modifies report[i].original`alternatives
    ensures fr.Valid()
    ensures forall x :: x in fr.storedFiles ==> x in old(fr.storedFiles) || fresh(x)
    ensures |report[i].missing| == 0 ==> r == Pass && fr.storedFiles == old(fr.storedFiles) && fr.ticks == old(fr.ticks)
    ensures NoOverwrite(fr, repository) ==> OriginalsStored(fr, report)
    ensures NoOverwrite(fr, repository) && r.Pass? ==> ReportDone(fr, report[..i + 1], steps)
  {
    var entry := report[i];
    ghost var done := [];
    for j := 0 to |entry.missing|
      invariant fr.Valid()
      invariant forall x :: x in fr.storedFiles ==> x in old(fr.storedFiles) || fresh(x)
      invariant forall i :: 0 <= i < |fr.storedFiles| ==> fr.storedFiles[i] in old(fr.storedFiles) || fresh(fr.storedFiles[i])
      invariant j == 0 ==> fr.storedFiles == old(fr.storedFiles) && fr.ticks == old(fr.ticks)
      invariant NoOverwrite(fr, repository) ==>
        ReportDone(fr, report[..i], prior) && OriginalsStored(fr, report) &&
        StepsDone(fr, entry.original, entry.missing[..j], done)
    {
      var one;
      one, done := AdvanceEntry(fr, repository, entry.original, entry.missing[j], entry.missing[..j], done,
                                report, report[..i], prior);
      if one.Fail? {
        return one, prior + [done];
      }
      assert entry.missing[..j] + [entry.missing[j]] == entry.missing[..j + 1];
    }
    assert entry.missing[..|entry.missing|] == entry.missing;
    steps := prior + [done];
    if NoOverwrite(fr, repository) {
      ReportDoneSnoc(fr, report[..i + 1], prior, done);
    }
    r := Pass;
  }

  /** The generation loop of `execute`: every report entry in turn, stopping at the first failure. When the
      repository keeps existing records, a pass did every missing size of every entry. */
  method Backfill(fr: FileRepository, repository: Repository, report: seq<ReportEntry>)
    returns (r: Outcome<Error>, ghost steps: seq<seq<BackfillStep>>)
    requires fr.Valid()
    requires forall i :: 0 <= i < |report| ==> report[i].original in fr.storedFiles
    modifies fr`storedFiles, fr`nextId, fr`ticks, fr.thumbnails`progress, fr.thumbnails`scheduled
    modifies fr.filesystems.Values, fr.repositories`files
    modifies fr.storedFiles`createdAt, fr.storedFiles`alternatives, fr.storedFiles`alternativeOf
    modifies fr.storedFiles`meta, fr.storedFiles`author, fr.storedFiles`id
    ensures fr.Valid()
    ensures forall x :: x in fr.storedFiles ==> x in old(fr.storedFiles) || fresh(x)
    ensures (forall i :: 0 <= i < |report| ==> |report[i].missing| == 0) ==>
      r == Pass && fr.storedFiles == old(fr.storedFiles) && fr.ticks == old(fr.ticks)
    ensures NoOverwrite(fr, repository) && r.Pass? ==> ReportDone(fr, report, steps)
  {
    steps := [];
    for i := 0 to |report|
      invariant fr.Valid()
      invariant forall x :: x in fr.storedFiles ==> x in old(fr.storedFiles) || fresh(x)
      invariant forall i :: 0 <= i < |fr.storedFiles| ==> fr.storedFiles[i] in old(fr.storedFiles) || fresh(fr.storedFiles[i])
      invariant (forall k :: 0 <= k < |report| ==> |report[k].missing| == 0) ==>
        fr.storedFiles == old(fr.storedFiles) && fr.ticks == old(fr.ticks)
      invariant NoOverwrite(fr, repository) ==> ReportDone(fr, report[..i], steps) && OriginalsStored(fr, report)
    {
      var done;
      done, steps := BackfillEntry(fr, repository, report, i, steps);
      if done.Fail? {
        return done, steps;
      }
    }
    assert report[..|report|] == report;
    r := Pass;
  }

  /** A done entry after the done entries extends them. */
  lemma ReportDoneSnoc(fr: FileRepository, report: seq<ReportEntry>, steps: seq<seq<BackfillStep>>, entrySteps: seq<BackfillStep>)
    requires |report| == |steps| + 1
    requires ReportDone(fr, report[..|steps|], steps)
    requires StepsDone(fr, report[|steps|].original, report[|steps|].missing, entrySteps)
    ensures ReportDone(fr, report, steps + [entrySteps])
  {
    forall i | 0 <= i < |report|
      ensures StepsDone(fr, report[i].original, report[i].missing, (steps + [entrySteps])[i])
    {
      if i < |steps| {
        assert report[..|steps|][i] == report[i];
        assert (steps + [entrySteps])[i] == steps[i];
      }
    }
  }

  /** A done step for the next missing size extends the done steps. */
  lemma StepsDoneSnoc(fr: FileRepository, original: StoredFile, missing: seq<string>, steps: seq<BackfillStep>, step: BackfillStep)
    requires |missing| == |steps| + 1
    requires forall k :: 0 <= k < |steps| ==> StepDone(fr, original, missing[k], steps[k])
    requires StepDone(fr, original, missing[|steps|], step)
    ensures StepsDone(fr, original, missing, steps + [step])
  {
    forall k | 0 <= k < |steps| + 1
      ensures StepDone(fr, original, missing[k], (steps + [step])[k])
    {
      if k < |steps| {
        assert (steps + [step])[k] == steps[k];
      }
    }
    assert LinkedOf(steps + [step]) == LinkedOf(steps) + StepRecords(step);
  }

  // ---------------------------------------------------------------------------------------------
  // The config update

  /** The `interceptors` list after the update: the configured one (`[]` when unset or not an
      array) with the thumbnails interceptor appended when it is not listed yet. */
  function UpdatedInterceptors(c: Config): (r: seq<string>)
    ensures ConfiguredIds(c) <= r && THUMBNAILS_INTERCEPTOR in r
    ensures THUMBNAILS_INTERCEPTOR in ConfiguredIds(c) <==> r == ConfiguredIds(c)
  {
    var ids := ConfiguredIds(c);
    if THUMBNAILS_INTERCEPTOR in ids then ids else ids + [THUMBNAILS_INTERCEPTOR]
  }

  /** The `WxH` of every configured size that sets both keys, in order. */
  function ConfiguredEntries(sizes: seq<ThumbConfig>): seq<string>
    decreases |sizes|
  {
    if |sizes| == 0 then []
    else
      var d := Dimensions(sizes[|sizes| - 1]);
      ConfiguredEntries(sizes[..|sizes| - 1]) + (if d.Some? then [d.value] else [])
  }

  /** The sizes appended for the requested dimensions: one per requested entry not among the
      entries configured before the update (so a size requested twice is appended twice). */
  function AddedSizes(expected: seq<string>, entries: seq<string>): (r: seq<ThumbConfig>)
    ensures |r| == |Missing(expected, entries)|
    ensures |r| == 0 <==> forall i :: 0 <= i < |expected| ==> expected[i] in entries
    decreases |expected|
  {
    if |expected| == 0 then []
    else
      var d := expected[|expected| - 1];
      AddedSizes(expected[..|expected| - 1], entries) + (if d !in entries then [SizeOf(d)] else [])
  }

  /** The config after the update: the interceptors list and the sizes list as above, every
      other key unchanged. */
  function UpdatedConfig(c: Config, expected: seq<string>): Config
  {
    c.(interceptors := Some(IdArray(UpdatedInterceptors(c))),
       thumbnailSizes := Some(Sizes(c) + AddedSizes(expected, ConfiguredEntries(Sizes(c)))))
  }

  /** The config update of `execute`: builds the updated config, stores it with `setConfig`, and tells
      whether the interceptor and the sizes list were changed. */
  method UpdateRepositoryConfig(repository: Repository, expected: seq<string>)
    returns (r: Result<(bool, bool), Error>)
    modifies repository`config
    ensures r.Failure? <==> old(repository.config).filesystem.None?
    ensures r.Failure? ==> repository.config == old(repository.config)
    ensures r.Success? ==> repository.config == ValidatedConfig(UpdatedConfig(old(repository.config), expected)).value
    ensures r.Success? ==> (r.value.0 <==> THUMBNAILS_INTERCEPTOR !in ConfiguredIds(old(repository.config)))
    ensures r.Success? ==> (r.value.1 <==>
      exists i :: 0 <= i < |expected| && expected[i] !in ConfiguredEntries(Sizes(old(repository.config))))
  {
    var config := repository.config;
    var interceptorAdded := false;
    var ids := ConfiguredIds(config);
    if THUMBNAILS_INTERCEPTOR !in ids {
      ids := ids + [THUMBNAILS_INTERCEPTOR];
      interceptorAdded := true;
    }
    var entries := EntriesOf(Sizes(config));
    var sizes, sizesUpdated := AppendRequested(Sizes(config), expected, entries);
    var o := repository.SetConfig(config.(interceptors := Some(IdArray(ids)), thumbnailSizes := Some(sizes)));
    if o.Fail? {
      return Failure(o.error);
    }
    r := Success((interceptorAdded, sizesUpdated));
  }

  /** The scan of the configured sizes in the config update: the `WxH` of every configured size that sets both keys. */
  method EntriesOf(sizes: seq<ThumbConfig>) returns (entries: seq<string>)
    ensures entries == ConfiguredEntries(sizes)
  {
    entries := [];
    for i := 0 to |sizes|
      invariant entries == ConfiguredEntries(sizes[..i])
    {
      assert sizes[..i + 1][..i] == sizes[..i];
      var d := Dimensions(sizes[i]);
      if d.Some? {
        entries := entries + [d.value];
      }
    }
    assert sizes[..|sizes|] == sizes;
  }

  /** The append of the config update: appends a size for every request not among the configured
      entries, and tells whether any was appended. */
  method AppendRequested(current: seq<ThumbConfig>, expected: seq<string>, entries: seq<string>)
    returns (sizes: seq<ThumbConfig>, updated: bool)
    ensures sizes == current + AddedSizes(expected, entries)
    ensures updated <==> exists k :: 0 <= k < |expected| && expected[k] !in entries
  {
    sizes := current;
    updated := false;
    for j := 0 to |expected|
      invariant sizes == current + AddedSizes(expected[..j], entries)
      invariant updated <==> exists k :: 0 <= k < j && expected[k] !in entries
    {
      assert expected[..j + 1][..j] == expected[..j];
      if expected[j] !in entries {
        sizes := sizes + [SizeOf(expected[j])];
        updated := true;
      }
    }
    assert expected[..|expected|] == expected;
  }

  /** Listing `id` once more than it was, when it was not listed. */
  lemma {:induction false} OccurrencesSnoc(ids: seq<string>, id: string, x: string)
    ensures Occurrences(ids + [x], id) == Occurrences(ids, id) + (if x == id then 1 else 0)
    decreases |ids|
  {
    if |ids| == 0 {
      assert [x][1..] == [];
    } else {
      assert (ids + [x])[1..] == ids[1..] + [x];
      OccurrencesSnoc(ids[1..], id, x);
    }
  }

  /** An id that is not listed occurs zero times. */
  lemma {:induction false} OccurrencesAbsent(ids: seq<string>, id: string)
    requires id !in ids
    ensures Occurrences(ids, id) == 0
    decreases |ids|
  {
    if |ids| > 0 {
      assert id !in ids[1..];
      OccurrencesAbsent(ids[1..], id);
    }
  }

  /** The update keeps what is configured: the interceptors and sizes lists only grow, the
      thumbnails interceptor ends up listed, and listed exactly once when it was at most once
      before; every other key is as it was, so a repository stays well configured. */
  lemma UpdatedConfigKeeps(c: Config, expected: seq<string>)
    requires Occurrences(ConfiguredIds(c), THUMBNAILS_INTERCEPTOR) <= 1
    ensures var u := UpdatedConfig(c, expected);
      ConfiguredIds(c) <= ConfiguredIds(u) && Sizes(c) <= Sizes(u) &&
      Occurrences(ConfiguredIds(u), THUMBNAILS_INTERCEPTOR) == 1 &&
      u.filesystem == c.filesystem && u.storageKeyGenerator == c.storageKeyGenerator &&
      u.overwriteFiles == c.overwriteFiles && u.imagesOnly == c.imagesOnly && u.maxSize == c.maxSize
    ensures WellConfigured(c) ==>
      (WellConfigured(UpdatedConfig(c, expected)) &&
       ValidatedConfig(UpdatedConfig(c, expected)) == Success(UpdatedConfig(c, expected)))
  {
    var ids := ConfiguredIds(c);
    if THUMBNAILS_INTERCEPTOR in ids {
      if Occurrences(ids, THUMBNAILS_INTERCEPTOR) == 0 {
        OccurrencesPositive(ids, THUMBNAILS_INTERCEPTOR);
      }
    } else {
      OccurrencesAbsent(ids, THUMBNAILS_INTERCEPTOR);
      OccurrencesSnoc(ids, THUMBNAILS_INTERCEPTOR, THUMBNAILS_INTERCEPTOR);
    }
  }

  /** A listed id occurs at least once. */
  lemma {:induction false} OccurrencesPositive(ids: seq<string>, id: string)
    requires id in ids
    ensures Occurrences(ids, id) >= 1
    decreases |ids|
  {
    if ids[0] != id {
      assert id in ids[1..];
      OccurrencesPositive(ids[1..], id);
    }
  }

  /** The entries of two size lists one after the other. */
  lemma {:induction false} EntriesAppend(a: seq<ThumbConfig>, b: seq<ThumbConfig>)
    ensures ConfiguredEntries(a + b) == ConfiguredEntries(a) + ConfiguredEntries(b)
    decreases |b|
  {
    if |b| == 0 {
      assert a + b == a;
    } else {
      var init := b[..|b| - 1];
      assert (a + b)[..|a + b| - 1] == a + init;
      assert (a + b)[|a + b| - 1] == b[|b| - 1];
      EntriesAppend(a, init);
    }
  }

  /** With well-formed requests, the entries of the appended sizes are exactly the missing ones
      (the report's notion, against the configured entries). */
  lemma {:induction false} AddedSizesAreMissing(expected: seq<string>, entries: seq<string>)
    requires forall i :: 0 <= i < |expected| ==> WellFormed(expected[i])
    ensures ConfiguredEntries(AddedSizes(expected, entries)) == Missing(expected, entries)
    decreases |expected|
  {
    if |expected| > 0 {
      var init := expected[..|expected| - 1];
      var d := expected[|expected| - 1];
      AddedSizesAreMissing(init, entries);
      var tail := if d !in entries then [SizeOf(d)] else [];
      EntriesAppend(AddedSizes(init, entries), tail);
      if d !in entries {
        SizeRoundTrip(d);
        assert ConfiguredEntries(tail) == ConfiguredEntries([]) + [d] by {
          assert tail[..0] == [];
        }
      }
    }
  }

  /** After the update, the configured entries are the old ones followed by the missing requests. */
  lemma UpdatedEntries(c: Config, expected: seq<string>)
    requires forall i :: 0 <= i < |expected| ==> WellFormed(expected[i])
    ensures ConfiguredEntries(Sizes(UpdatedConfig(c, expected))) ==
      ConfiguredEntries(Sizes(c)) + Missing(expected, ConfiguredEntries(Sizes(c)))
  {
    var entries := ConfiguredEntries(Sizes(c));
    EntriesAppend(Sizes(c), AddedSizes(expected, entries));
    AddedSizesAreMissing(expected, entries);
  }

  /** Running the update again with the same well-formed requests changes nothing: the
      interceptor is listed and every requested size is configured. */
  lemma UpdateIdempotent(c: Config, expected: seq<string>)
    requires forall i :: 0 <= i < |expected| ==> WellFormed(expected[i])
    ensures UpdatedConfig(UpdatedConfig(c, expected), expected) == UpdatedConfig(c, expected)
  {
    var u := UpdatedConfig(c, expected);
    var entries := ConfiguredEntries(Sizes(c));
    UpdatedEntries(c, expected);
    forall i | 0 <= i < |expected|
      ensures expected[i] in ConfiguredEntries(Sizes(u))
    {
      MissingMembers(expected, entries, expected[i]);
    }
    assert AddedSizes(expected, ConfiguredEntries(Sizes(u))) == [];
    assert Sizes(u) + [] == Sizes(u);
  }

  /** A requested size without `x` never shows up among the configured entries, since the
      stored size has no height; so every update run appends it once more. */
  lemma DimensionWithoutHeightReadded(c: Config, d: string)
    requires 'x' !in d
    ensures Sizes(UpdatedConfig(c, [d])) == Sizes(c) + [SizeOf(d)]
  {
    if d in ConfiguredEntries(Sizes(c)) {
      ConfiguredEntriesHaveX(Sizes(c), d);
    }
    assert [d][..0] == [];
  }

  /** Every configured entry contains the `x` that joins width and height. */
  lemma {:induction false} ConfiguredEntriesHaveX(sizes: seq<ThumbConfig>, e: string)
    requires e in ConfiguredEntries(sizes)
    ensures 'x' in e
    decreases |sizes|
  {
    var init := sizes[..|sizes| - 1];
    var d := Dimensions(sizes[|sizes| - 1]);
    if e in ConfiguredEntries(init) {
      ConfiguredEntriesHaveX(init, e);
    } else {
      assert e == d.value;
      var t := sizes[|sizes| - 1];
      assert e[|t["width"]|] == 'x';
    }
  }

  /** A size requested twice in one run is appended twice, since the configured entries are read
      once before any size is appended. */
  lemma RepeatedRequestAppendedTwice(c: Config, d: string)
    requires d !in ConfiguredEntries(Sizes(c))
    ensures Sizes(UpdatedConfig(c, [d, d])) == Sizes(c) + [SizeOf(d), SizeOf(d)]
  {
    var entries := ConfiguredEntries(Sizes(c));
    assert [d, d][..1] == [d];
    assert [d][..0] == [];
    assert AddedSizes([d], entries) == [SizeOf(d)];
    assert AddedSizes([d, d], entries) == AddedSizes([d], entries) + [SizeOf(d)];
  }

  // ---------------------------------------------------------------------------------------------
  // The command

  /** The `--update-config` option: not given (its default `true`), given on the command line
      with a value (None for a bare `--update-config`), or given as a boolean by a caller that
      builds the input as an array. */
  datatype UpdateConfigOption = Omitted | GivenAs(value: Option<string>) | GivenBool(flag: bool)

  /** The option's value is `=== true`: it was omitted, or given as the boolean `true`. A value
      given on the command line is a string or null and never passes. */
  predicate UpdatesConfig(option: UpdateConfigOption)
  {
    option.Omitted? || option == GivenBool(true)
  }

  /** What a successful run reports. */
  datatype CommandResult =
    | NothingToGenerate
    | DryRun(rows: seq<ReportRow>)
    | Generated(configUpdate: Option<(bool, bool)>)

  /** The config update of a repository of a valid file repository: its config is well formed,
      so the update always succeeds, and it leaves the file repository valid. The flags tell
      whether the interceptor and the sizes list were changed. */
  method ApplyConfig(fr: FileRepository, repository: Repository, expected: seq<string>,
                     ghost report: seq<ReportEntry>, ghost steps: seq<seq<BackfillStep>>)
    returns (flags: (bool, bool))
    requires fr.Valid() && repository in fr.repositories
    modifies fr.repositories`config
    ensures fr.Valid()
    ensures old(ReportDone(fr, report, steps)) ==> ReportDone(fr, report, steps)
    ensures repository.config == UpdatedConfig(old(repository.config), expected)
    ensures forall x :: x in fr.repositories && x != repository ==> x.config == old(x.config)
    ensures flags.0 <==> THUMBNAILS_INTERCEPTOR !in ConfiguredIds(old(repository.config))
    ensures flags.1 <==> exists i :: 0 <= i < |expected| && expected[i] !in ConfiguredEntries(Sizes(old(repository.config)))
  {
    UpdatedConfigKeeps(repository.config, expected);
    var updated := UpdateRepositoryConfig(repository, expected);
    flags := updated.value;
  }

  /** The generation and config update of `execute`: the missing thumbnails of the report are
      generated and stored, then, when `--update-config` is `true` (omitted, or the boolean), the
      repository's config is updated; nothing but that repository's config changes among the
      configs. When the repository keeps existing
      records, a success did every missing size of every entry, as `steps` records. */
  method Apply(fr: FileRepository, repository: Repository, report: seq<ReportEntry>, expected: seq<string>,
               updateConfig: UpdateConfigOption)
    returns (r: Result<CommandResult, Error>, ghost steps: seq<seq<BackfillStep>>)
    requires fr.Valid() && repository in fr.repositories
    requires forall i :: 0 <= i < |report| ==> report[i].original in fr.storedFiles
    modifies fr`storedFiles, fr`nextId, fr`ticks, fr.thumbnails`progress, fr.thumbnails`scheduled
    modifies fr.filesystems.Values, fr.repositories`files, fr.repositories`config
    modifies fr.storedFiles`createdAt, fr.storedFiles`alternatives, fr.storedFiles`alternativeOf
    modifies fr.storedFiles`meta, fr.storedFiles`author, fr.storedFiles`id
    ensures fr.Valid()
    ensures forall x :: x in fr.storedFiles ==> x in old(fr.storedFiles) || fresh(x)
    ensures r.Success? ==> r.value.Generated? && (r.value.configUpdate.Some? <==> UpdatesConfig(updateConfig))
    ensures !(UpdatesConfig(updateConfig) && r.Success?) ==> forall x :: x in fr.repositories ==> x.config == old(x.config)
    ensures UpdatesConfig(updateConfig) && r.Success? ==>
      (repository.config == UpdatedConfig(old(repository.config), expected) &&
       forall x :: x in fr.repositories && x != repository ==> x.config == old(x.config))
    ensures old(NoOverwrite(fr, repository)) && r.Success? ==> ReportDone(fr, report, steps)
  {
    var done;
    done, steps := Backfill(fr, repository, report);
    if done.Fail? {
      return Failure(done.error), steps;
    }
    if !UpdatesConfig(updateConfig) {
      return Success(Generated(None)), steps;
    }
    var flags := ApplyConfig(fr, repository, expected, report, steps);
    r := Success(Generated(Some(flags)));
  }

  /** The part of `execute` that only reads: the report of the repository's originals, and the
      result when the command stops there (no originals, or a dry run, which lists one row per
      original). No result means the missing thumbnails are to be generated. */
  method Plan(records: seq<StoredFile>, repository: Repository, expected: seq<string>, dryRun: bool,
              ghost originals: seq<StoredFile>, ghost planned: seq<ReportEntry>)
    returns (report: seq<ReportEntry>, early: Option<CommandResult>)
    requires originals == Originals(records, repository) && planned == Report(records, originals, expected)
    ensures report == planned
    ensures |report| == |originals|
    ensures forall i :: 0 <= i < |report| ==> report[i].original in records
    ensures early.None? <==> |report| > 0 && !dryRun
    ensures |report| == 0 ==> early == Some(NothingToGenerate)
    ensures |report| > 0 && dryRun ==>
      early.Some? && early.value.DryRun? &&
      |early.value.rows| == |report| && forall i :: 0 <= i < |early.value.rows| ==> early.value.rows[i] == RowOf(report[i])
  {
    report := BuildReport(records, repository, expected);
    if |report| == 0 {
      return report, Some(NothingToGenerate);
    }
    if dryRun {
      var rows := DryRunRows(report);
      return report, Some(DryRun(rows));
    }
    early := None;
  }

  /** `execute` after the repository lookup, for the repository found: the report of existing
      and missing sizes per original is built first; with no originals, or in a dry run, nothing
      is stored; otherwise the missing thumbnails are generated, and the config is updated only
      when `--update-config` is strictly `true`. When the repository keeps existing records, a success
      did every missing size of every original, as `steps` records. */
  method ExecuteFor(fr: FileRepository, repository: Repository, expected: seq<string>, dryRun: bool,
                    updateConfig: UpdateConfigOption)
    returns (r: Result<CommandResult, Error>, report: seq<ReportEntry>, ghost steps: seq<seq<BackfillStep>>)
    requires fr.Valid() && repository in fr.repositories
    modifies fr`storedFiles, fr`nextId, fr`ticks, fr.thumbnails`progress, fr.thumbnails`scheduled
    modifies fr.filesystems.Values, fr.repositories`files, fr.repositories`config
    modifies fr.storedFiles`createdAt, fr.storedFiles`alternatives, fr.storedFiles`alternativeOf
    modifies fr.storedFiles`meta, fr.storedFiles`author, fr.storedFiles`id
    ensures fr.Valid()
    ensures forall x :: x in fr.storedFiles ==> x in old(fr.storedFiles) || fresh(x)
    ensures report == old(Report(fr.storedFiles, Originals(fr.storedFiles, repository), expected))
    ensures |report| == old(|Originals(fr.storedFiles, repository)|)
    ensures |report| == 0 ==>
      r == Success(NothingToGenerate) && fr.storedFiles == old(fr.storedFiles) && unchanged(fr.storedFiles) &&
      fr.ticks == old(fr.ticks)
    ensures |report| > 0 && dryRun ==>
      (fr.storedFiles == old(fr.storedFiles) && unchanged(fr.storedFiles) && fr.ticks == old(fr.ticks) &&
       r.Success? && r.value.DryRun? &&
       |r.value.rows| == |report| && forall i :: 0 <= i < |r.value.rows| ==> r.value.rows[i] == RowOf(report[i]))
    ensures |report| > 0 && !dryRun ==>
      (r.Success? ==> r.value.Generated? && (r.value.configUpdate.Some? <==> UpdatesConfig(updateConfig)))
    ensures !(|report| > 0 && !dryRun && UpdatesConfig(updateConfig) && r.Success?) ==>
      forall x :: x in fr.repositories ==> x.config == old(x.config)
    ensures |report| > 0 && !dryRun && UpdatesConfig(updateConfig) && r.Success? ==>
      (repository.config == UpdatedConfig(old(repository.config), expected) &&
       forall x :: x in fr.repositories && x != repository ==> x.config == old(x.config))
    ensures |report| > 0 && !dryRun && old(NoOverwrite(fr, repository)) && r.Success? ==> ReportDone(fr, report, steps)
  {
    steps := [];
    var early;
    ghost var originals := Originals(fr.storedFiles, repository);
    report, early := Plan(fr.storedFiles, repository, expected, dryRun, originals,
                          Report(fr.storedFiles, originals, expected));
    if early.Some? {
      return Success(early.value), report, steps;
    }
    r, steps := Apply(fr, repository, report, expected, updateConfig);
  }

  /** `execute`: an unknown repository is an error before anything else, and nothing changes;
      a known one is handed to the rest of the command. */
  method Execute(fr: FileRepository, name: string, expected: seq<string>, dryRun: bool, updateConfig: UpdateConfigOption)
    returns (r: Result<CommandResult, Error>)
    requires fr.Valid()
    modifies fr`storedFiles, fr`nextId, fr`ticks, fr.thumbnails`progress, fr.thumbnails`scheduled
    modifies fr.filesystems.Values, fr.repositories`files, fr.repositories`config
    modifies fr.storedFiles`createdAt, fr.storedFiles`alternatives, fr.storedFiles`alternativeOf
    modifies fr.storedFiles`meta, fr.storedFiles`author, fr.storedFiles`id
    ensures fr.Valid()
    ensures forall x :: x in fr.storedFiles ==> x in old(fr.storedFiles) || fresh(x)
    ensures old(fr.LookupRepository(name)).None? ==>
      r == Failure(RepositoryNotFound(name)) && fr.storedFiles == old(fr.storedFiles) && fr.ticks == old(fr.ticks)
    ensures dryRun ==>
      fr.storedFiles == old(fr.storedFiles) && unchanged(fr.storedFiles) && fr.ticks == old(fr.ticks) &&
      forall x :: x in fr.repositories ==> x.config == old(x.config)
    ensures !UpdatesConfig(updateConfig) ==> forall x :: x in fr.repositories ==> x.config == old(x.config)
  {
    var found := fr.LookupRepository(name);
    if found.None? {
      return Failure(RepositoryNotFound(name));
    }
    var report;
    ghost var steps;
    r, report, steps := ExecuteFor(fr, found.value, expected, dryRun, updateConfig);
  }
}
