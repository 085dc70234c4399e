/** The build pipeline of resnet_train/process_data.py: `_make_write_tfexample`
    (lines 27-52) decides, for one image file, whether a record is written,
    and `gen_tfrecord_vggface2` (lines 55-105) runs it over the train and the
    test file lists, each into its own append-only record file.

    Image decoding, face detection, region-of-interest cropping, JPEG encoding
    and UTF-8 encoding are library code; they are the fields of `Externals`,
    and the model assumes nothing about them. */
module Records {
  import opened Py
  import opened PosixPath
  import opened Features
  import opened MetadataLoader

  const IndexKey := "image/class/index"
  const IdentityKey := "image/class/identity"
  const EncodedKey := "image/encoded"

  const TrainOutput := "train.tfrecord"
  const TestOutput := "test.tfrecord"

  /** One labelled-image record: its features by name. */
  datatype Example = Example(features: map<string, Feature>)

  /** The library calls the builder makes. `detect` runs outside the `try`
      block, so what it raises leaves the builder; what `getRoi` and
      `imencode` raise is caught. */
  datatype Externals<!Image, !Region> = Externals(
    imread: string -> Image,
    detect: Image -> Result<seq<Region>>,
    getRoi: (Image, Region) -> Result<Image>,
    imencode: Image -> Result<Bytes>,
    utf8: string -> Bytes)

  /** What the `try` block of lines 38-52 ends with: a record written, or the
      exception that the `except` clause caught and reported. */
  datatype Attempt = Wrote(example: Example) | Skipped(reason: Exception)

  /** The record of lines 43-47, built from the metadata entry of class
      `classKey` and the encoded image. The dictionary display evaluates its
      entries in order: the index feature first, then the identity, then the
      image. */
  function BuildExample(classKey: string, metadata: Metadata, encoded: Bytes, utf8: string -> Bytes): (r: Result<Example>)
    ensures Str(classKey) !in metadata ==> r == Raise(KeyError(Str(classKey)))
    ensures r.Ok? ==> r.value.features.Keys == {IndexKey, IdentityKey, EncodedKey}
    ensures r.Ok? ==> r.value.features[EncodedKey] == ByteStrings([encoded])
  {
    if Str(classKey) !in metadata then Raise(KeyError(Str(classKey)))
    else
      var entry := metadata[Str(classKey)];
      match Get(entry, IndexColumn)
      case Raise(e) => Raise(e)
      case Ok(index) =>
        match Int64Feature(index)
        case Raise(e) => Raise(e)
        case Ok(indexFeature) =>
          match Get(entry, NameColumn)
          case Raise(e) => Raise(e)
          case Ok(name) =>
            match AsBytes(name, utf8)
            case Raise(e) => Raise(e)
            case Ok(identity) =>
              Ok(Example(map[IndexKey := indexFeature,
                             IdentityKey := BytesFeature(identity),
                             EncodedKey := BytesFeature(encoded)]))
  }

  /** The `try` block (lines 38-52): the first detected face is cropped and
      encoded and the record is built; any exception skips the image. */
  function TryRecord<Image, Region>(classKey: string, img: Image, faces: seq<Region>, metadata: Metadata,
                                    ext: Externals<Image, Region>): (r: Attempt)
    ensures |faces| == 0 ==> r == Skipped(IndexError)
    ensures r.Wrote? ==> |faces| > 0 && ext.getRoi(img, faces[0]).Ok?
  {
    if |faces| == 0 then Skipped(IndexError)
    else match ext.getRoi(img, faces[0])
      case Raise(e) => Skipped(e)
      case Ok(roi) =>
        match ext.imencode(roi)
        case Raise(e) => Skipped(e)
        case Ok(encoded) =>
          match BuildExample(classKey, metadata, encoded, ext.utf8)
          case Raise(e) => Skipped(e)
          case Ok(example) => Wrote(example)
  }

  /** `_make_write_tfexample(filepath, metadata, writer)`: the class key is the
      name of the file's parent directory (line 30); detection (line 35) may
      raise out of the call; otherwise the `try` block decides. */
  function MakeExample<Image, Region>(filepath: string, metadata: Metadata, ext: Externals<Image, Region>): (r: Result<Attempt>)
    ensures r.Raise? <==> ext.detect(ext.imread(filepath)).Raise?
    ensures r.Raise? ==> r.error == ext.detect(ext.imread(filepath)).error
  {
    var img := ext.imread(filepath);
    match ext.detect(img)
    case Raise(e) => Raise(e)
    case Ok(faces) => Ok(TryRecord(ParentName(filepath), img, faces, metadata, ext))
  }

  /** The records one call appends to the writer: one or none. */
  function Appended(outcome: Result<Attempt>): (r: seq<Example>)
    ensures |r| <= 1
    ensures |r| == 1 <==> outcome.Ok? && outcome.value.Wrote?
    ensures outcome.Ok? && outcome.value.Wrote? ==> r == [outcome.value.example]
  {
    if outcome.Ok? && outcome.value.Wrote? then [outcome.value.example] else []
  }

  /** The record file: its records can only be appended to. */
  class RecordWriter {
    var records: seq<Example>

    constructor ()
      ensures records == []
    {
      records := [];
    }

    method Write(example: Example)
      modifies this
      ensures records == old(records) + [example]
    {
      records := records + [example];
    }
  }

  /** `_make_write_tfexample` with its side effect on the writer. */
  method MakeWriteExample<Image, Region>(filepath: string, metadata: Metadata, writer: RecordWriter,
                                         ext: Externals<Image, Region>) returns (outcome: Result<Attempt>)
    modifies writer
    ensures outcome == MakeExample(filepath, metadata, ext)
    ensures writer.records == old(writer.records) + Appended(outcome)
  {
    var classKey := ParentName(filepath);
    var img := ext.imread(filepath);
    var faces := ext.detect(img);
    if faces.Raise? {
      return Raise(faces.error);
    }
    var attempt := TryRecord(classKey, img, faces.value, metadata, ext);
    if attempt.Wrote? {
      writer.Write(attempt.example);
    }
    outcome := Ok(attempt);
  }

  // ---------------------------------------------------------------------
  // Properties of one call.

  /** No face detected: `faces[0]` raises `IndexError`, which is caught, and
      nothing is written. */
  lemma NoFaceWritesNothing<Image, Region>(filepath: string, metadata: Metadata, ext: Externals<Image, Region>)
    requires ext.detect(ext.imread(filepath)) == Ok([])
    ensures MakeExample(filepath, metadata, ext) == Ok(Skipped(IndexError))
    ensures Appended(MakeExample(filepath, metadata, ext)) == []
  {
    assert MakeExample(filepath, metadata, ext) == Ok(Skipped(IndexError));
  }

  /** The metadata part of the record (lines 44-45): it is built exactly when
      the class is a key and its entry has an `index` the int64 feature
      accepts and a string `Name`; the record then has exactly the three named
      features, carrying that index, that name encoded, and the encoded image.
      An integer index gives a one-element index feature. */
  lemma BuildExampleSpec(classKey: string, metadata: Metadata, encoded: Bytes, utf8: string -> Bytes)
    ensures var key := Str(classKey);
            BuildExample(classKey, metadata, encoded, utf8).Ok? <==>
              (&& key in metadata
               && IndexColumn in metadata[key] && Int64Feature(metadata[key][IndexColumn]).Ok?
               && NameColumn in metadata[key] && metadata[key][NameColumn].Str?)
    ensures var key := Str(classKey);
            BuildExample(classKey, metadata, encoded, utf8).Ok? ==>
              var features := BuildExample(classKey, metadata, encoded, utf8).value.features;
              && features.Keys == {IndexKey, IdentityKey, EncodedKey}
              && features[IndexKey] == Int64Feature(metadata[key][IndexColumn]).value
              && (metadata[key][IndexColumn].Int? ==> features[IndexKey] == Int64s([metadata[key][IndexColumn].i]))
              && features[IdentityKey] == ByteStrings([utf8(metadata[key][NameColumn].s)])
              && features[EncodedKey] == ByteStrings([encoded])
  {
    var key := Str(classKey);
    if key in metadata && IndexColumn in metadata[key] {
      var index := metadata[key][IndexColumn];
    }
  }

  /** The `try` block writes a record exactly when there is a face, the crop
      and the encoding of the first face succeed and the record can be built;
      the record is the one built from the first face's crop. */
  lemma TryRecordSpec<Image, Region>(classKey: string, img: Image, faces: seq<Region>, metadata: Metadata,
                                     ext: Externals<Image, Region>)
    ensures TryRecord(classKey, img, faces, metadata, ext).Wrote? <==>
              (&& |faces| > 0
               && ext.getRoi(img, faces[0]).Ok?
               && ext.imencode(ext.getRoi(img, faces[0]).value).Ok?
               && BuildExample(classKey, metadata, ext.imencode(ext.getRoi(img, faces[0]).value).value, ext.utf8).Ok?)
    ensures TryRecord(classKey, img, faces, metadata, ext).Wrote? ==>
              TryRecord(classKey, img, faces, metadata, ext).example ==
              BuildExample(classKey, metadata, ext.imencode(ext.getRoi(img, faces[0]).value).value, ext.utf8).value
  {
  }

  /** When a call writes a record, its features are exactly the three named
      ones: the index is the metadata entry's `index` for the image's parent
      directory, the identity is that entry's `Name` encoded, and the image is
      the encoded crop of the FIRST detected face. Conversely, a record is
      written whenever detection finds a face, cropping and encoding succeed
      and the entry has an int64 `index` and a string `Name`. */
  lemma WrittenRecordMatchesMetadata<Image, Region>(filepath: string, metadata: Metadata, ext: Externals<Image, Region>)
    ensures var outcome := MakeExample(filepath, metadata, ext);
            var key := Str(ParentName(filepath));
            var img := ext.imread(filepath);
            var faces := ext.detect(img);
            (outcome.Ok? && outcome.value.Wrote?) <==>
              (&& faces.Ok? && |faces.value| > 0
               && ext.getRoi(img, faces.value[0]).Ok?
               && ext.imencode(ext.getRoi(img, faces.value[0]).value).Ok?
               && key in metadata
               && IndexColumn in metadata[key] && Int64Feature(metadata[key][IndexColumn]).Ok?
               && NameColumn in metadata[key] && metadata[key][NameColumn].Str?)
    ensures var outcome := MakeExample(filepath, metadata, ext);
            var key := Str(ParentName(filepath));
            var img := ext.imread(filepath);
            outcome.Ok? && outcome.value.Wrote? ==>
              var faces := ext.detect(img).value;
              var features := outcome.value.example.features;
              && features.Keys == {IndexKey, IdentityKey, EncodedKey}
              && features[IndexKey] == Int64Feature(metadata[key][IndexColumn]).value
              && (metadata[key][IndexColumn].Int? ==> features[IndexKey] == Int64s([metadata[key][IndexColumn].i]))
              && features[IdentityKey] == ByteStrings([ext.utf8(metadata[key][NameColumn].s)])
              && features[EncodedKey] == ByteStrings([ext.imencode(ext.getRoi(img, faces[0]).value).value])
  {
    var classKey := ParentName(filepath);
    var img := ext.imread(filepath);
    var faces := ext.detect(img);
    if faces.Ok? {
      assert MakeExample(filepath, metadata, ext) == Ok(TryRecord(classKey, img, faces.value, metadata, ext));
      TryRecordSpec(classKey, img, faces.value, metadata, ext);
      if |faces.value| > 0 && ext.getRoi(img, faces.value[0]).Ok? && ext.imencode(ext.getRoi(img, faces.value[0]).value).Ok? {
        BuildExampleSpec(classKey, metadata, ext.imencode(ext.getRoi(img, faces.value[0]).value).value, ext.utf8);
      }
    }
  }

  /** The parent-directory name is not a metadata key: the lookup raises
      `KeyError`, which is caught, and nothing is written. */
  lemma MissingClassWritesNothing<Image, Region>(filepath: string, metadata: Metadata, ext: Externals<Image, Region>)
    requires Str(ParentName(filepath)) !in metadata
    ensures Appended(MakeExample(filepath, metadata, ext)) == []
    ensures MakeExample(filepath, metadata, ext).Ok? ==>
              MakeExample(filepath, metadata, ext).value.Skipped?
  {
    WrittenRecordMatchesMetadata(filepath, metadata, ext);
  }

  /** End to end with the metadata loop over CSV rows: a written record's
      class index is the position of the last CSV row whose `Class_ID` is the
      image's parent-directory name. */
  lemma CsvRecordIndexIsRowPosition<Image, Region>(rows: seq<Row>, filepath: string, ext: Externals<Image, Region>)
    requires forall j :: 0 <= j < |rows| ==> IsCsvRow(rows[j])
    requires AssignIndices(rows).Ok?
    requires var outcome := MakeExample(filepath, AssignIndices(rows).value.metadata, ext);
             outcome.Ok? && outcome.value.Wrote?
    ensures var outcome := MakeExample(filepath, AssignIndices(rows).value.metadata, ext);
            var j := LastRowFor(rows, Str(ParentName(filepath)));
            0 <= j < |rows| && outcome.value.example.features[IndexKey] == Int64s([j])
  {
    var md := AssignIndices(rows).value.metadata;
    WrittenRecordMatchesMetadata(filepath, md, ext);
    CsvIndexing(rows);
    StoredEntries(rows);
  }

  // ---------------------------------------------------------------------
  // The loop over one split's files (lines 92-94 and 103-105).

  /** What running the builder over a file list produces: the records
      written, and whether an exception left the loop. */
  datatype Run = Run(written: seq<Example>, status: Result<()>)

  /** The loop of lines 92-94 (and 103-104) for any per-file builder `build`:
      files are handled in order; an exception out of `build` ends the loop. */
  function SplitRun(files: seq<string>, build: string -> Result<Attempt>): Run
  {
    if files == [] then Run([], Ok(()))
    else
      var prev := SplitRun(files[..|files| - 1], build);
      if prev.status.Raise? then prev
      else
        var outcome := build(files[|files| - 1]);
        if outcome.Raise? then Run(prev.written, Raise(outcome.error))
        else Run(prev.written + Appended(outcome), Ok(()))
  }

  /** The builder the source uses: `_make_write_tfexample` with the metadata. */
  function Builder<Image, Region>(metadata: Metadata, ext: Externals<Image, Region>): string -> Result<Attempt>
  {
    filepath => MakeExample(filepath, metadata, ext)
  }

  /** `for filepath in filelist: _make_write_tfexample(filepath, metadata, writer)`. */
  method WriteSplit<Image, Region>(files: seq<string>, metadata: Metadata, writer: RecordWriter,
                                   ext: Externals<Image, Region>) returns (status: Result<()>)
    modifies writer
    ensures status == SplitRun(files, Builder(metadata, ext)).status
    ensures writer.records == old(writer.records) + SplitRun(files, Builder(metadata, ext)).written
  {
    var build := Builder(metadata, ext);
    for i := 0 to |files|
      invariant SplitRun(files[..i], build).status == Ok(())
      invariant writer.records == old(writer.records) + SplitRun(files[..i], build).written
    {
      var outcome := MakeWriteExample(files[i], metadata, writer, ext);
      assert outcome == build(files[i]);
      SplitRunStep(files, i, build);
      if outcome.Raise? {
        SplitRunKeepsError(files, i + 1, build);
        assert files[..|files|] == files;
        return Raise(outcome.error);
      }
    }
    assert files[..|files|] == files;
    status := Ok(());
  }

  /** One more file: when the run so far is clean, the next file's outcome
      either ends it with its exception or adds what it wrote. */
  lemma SplitRunStep(files: seq<string>, i: nat, build: string -> Result<Attempt>)
    requires i < |files|
    requires SplitRun(files[..i], build).status.Ok?
    ensures build(files[i]).Raise? ==>
              SplitRun(files[..i + 1], build) == Run(SplitRun(files[..i], build).written, Raise(build(files[i]).error))
    ensures build(files[i]).Ok? ==>
              SplitRun(files[..i + 1], build) == Run(SplitRun(files[..i], build).written + Appended(build(files[i])), Ok(()))
  {
    assert files[..i + 1][..i] == files[..i];
  }

  /** At most one record per file. */
  lemma {:induction false} SplitRunBound(files: seq<string>, build: string -> Result<Attempt>)
    ensures |SplitRun(files, build).written| <= |files|
  {
    if files != [] {
      SplitRunBound(files[..|files| - 1], build);
    }
  }

  /** An exception that left the loop ends it: later files are not looked at. */
  lemma {:induction false} SplitRunKeepsError(files: seq<string>, i: nat, build: string -> Result<Attempt>)
    requires i <= |files|
    requires SplitRun(files[..i], build).status.Raise?
    ensures SplitRun(files, build) == SplitRun(files[..i], build)
    decreases |files|
  {
    if i < |files| {
      var init := files[..|files| - 1];
      assert init[..i] == files[..i];
      SplitRunKeepsError(init, i, build);
    } else {
      assert files[..i] == files;
    }
  }

  /** A skipped image (no face, failed crop, unknown class, ...) leaves the
      run exactly as if the file were not in the list: the images after it are
      processed as before. */
  lemma {:induction false} SkippedImageIsTransparent(before: seq<string>, f: string, after: seq<string>,
                                                     build: string -> Result<Attempt>)
    requires build(f).Ok? && build(f).value.Skipped?
    ensures SplitRun(before + [f] + after, build) == SplitRun(before + after, build)
    decreases |after|
  {
    if after == [] {
      assert (before + [f] + after)[..|before|] == before;
      assert before + after == before;
    } else {
      var a' := after[..|after| - 1];
      assert (before + [f] + after)[..|before + [f] + after| - 1] == before + [f] + a';
      assert (before + after)[..|before + after| - 1] == before + a';
      SkippedImageIsTransparent(before, f, a', build);
    }
  }

  /** Every record of a run was written by the builder for one of the files
      of the list. */
  lemma {:induction false} RunRecordsComeFromFiles(files: seq<string>, build: string -> Result<Attempt>)
    ensures forall r :: r in SplitRun(files, build).written ==>
              exists f :: f in files && build(f) == Ok(Wrote(r))
  {
    if files != [] {
      var init := files[..|files| - 1];
      RunRecordsComeFromFiles(init, build);
      forall r | r in SplitRun(files, build).written
        ensures exists f :: f in files && build(f) == Ok(Wrote(r))
      {
        if r in SplitRun(init, build).written {
          var f :| f in init && build(f) == Ok(Wrote(r));
          assert f in files;
        } else {
          assert files[|files| - 1] in files;
        }
      }
    }
  }

  // ---------------------------------------------------------------------
  // The driver.

  /** `gen_tfrecord_vggface2` over the CSV rows and the globbed train and test
      file lists: the metadata is read (an exception there ends the run before
      any output file is opened), then the train file is written, then the
      test file; an exception leaving either loop ends the run with the files
      opened so far. The result maps each output file that was opened to its
      records. */
  method GenTfrecord<Image, Region>(rows: seq<Row>, trainFiles: seq<string>, testFiles: seq<string>,
                                    ext: Externals<Image, Region>)
    returns (status: Result<()>, outputs: map<string, seq<Example>>)
    ensures AssignIndices(rows).Raise? ==> status == Raise(AssignIndices(rows).error) && outputs == map[]
    ensures AssignIndices(rows).Ok? ==>
              var md := AssignIndices(rows).value.metadata;
              var train := SplitRun(trainFiles, Builder(md, ext));
              var test := SplitRun(testFiles, Builder(md, ext));
              if train.status.Raise? then status == train.status && outputs == map[TrainOutput := train.written]
              else status == test.status && outputs == map[TrainOutput := train.written, TestOutput := test.written]
  {
    var indexing := ReadMetadata(rows);
    if indexing.Raise? {
      return Raise(indexing.error), map[];
    }
    var metadata := indexing.value.metadata;

    var writer := new RecordWriter();
    status := WriteSplit(trainFiles, metadata, writer, ext);
    assert writer.records == SplitRun(trainFiles, Builder(metadata, ext)).written;
    outputs := map[TrainOutput := writer.records];
    if status.Raise? {
      return;
    }

    writer := new RecordWriter();
    status := WriteSplit(testFiles, metadata, writer, ext);
    assert writer.records == SplitRun(testFiles, Builder(metadata, ext)).written;
    outputs := outputs[TestOutput := writer.records];
  }
}
