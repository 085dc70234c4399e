# VGGFace2 record builder: the bookkeeping core

This project models the bookkeeping core of `resnet_train/process_data.py`. The
script turns a directory tree of face images into a record file per split. It
also reads raw JPEG trees back with positional labels. Four pieces are modelled,
with the image, detector and TensorFlow libraries abstracted away.

- **The metadata loop of `gen_tfrecord_vggface2`** (`MetadataLoader`). Each CSV
  row is stamped with its split's counter, that counter is advanced, and the row
  is stored under its `Class_ID`. The split test is `row['Flag'] == 1` as
  written. Python values are modelled as `Py.Value` (string, integer or list),
  so the test compares a string field with the integer 1. It is never true for
  a row read from the CSV, so every row takes the test branch. The model keeps
  the comparison as written and proves that consequence.
- **The per-image decision of `_make_write_tfexample`** (`Records`).
  - The class key is the name of the image's parent directory.
  - Image reading, face detection, cropping, JPEG encoding and UTF-8 encoding
    are uninterpreted function fields of `Externals`.
  - Detection runs outside the `try` block, so its exception leaves the call.
  - Every exception inside the block is caught, and the image is skipped.
  - The record file is `RecordWriter`, a class whose record sequence can only
    grow.
  - `GenTfrecord` runs the metadata loop, then the train file list into one
    writer, then the test file list into another.
- **The label loop of `read_jpg_vggface2`** (`JpgLabels`). Each file's label is
  the first position, in the globbed list of class directories, of
  `join(join(path, data), basename(dirname(file)))`. A missing directory raises
  `ValueError`.
- **The helpers.** `_int64_feature`, `_bytes_feature` and
  `tf.compat.as_bytes` are modelled in `Features`. `_normalize`, `_augment` and
  `dataset.map` are modelled in `Preprocess`. POSIX `dirname`, `basename` and
  `join` are modelled in `PosixPath`.

The `except` clause's message (line 50, "There was an error detecting face.")
suggests that detection errors were meant to be caught. But
`detector.detect(img)` (line 35) sits before the `try` (line 38). The model
follows the code: a raising detector ends the call, and with it the whole run
(`Records.MakeExample`, `Records.GenTfrecord`).

`PosixPath.Dirname` tests "the head is non-empty and not all separators" as
"stripping the trailing separators leaves something". `PosixPath.DirnameTestsHead`
proves that the two tests agree.

## Model

| member | source | states |
|---|---|---|
| MetadataLoader.Step | resnet_train/process_data.py:77-83 | one row succeeds exactly when it has `Flag` and `Class_ID`; a missing `Flag` raises `KeyError('Flag')`, a missing `Class_ID` raises `KeyError('Class_ID')`; on success the train counter advances by one exactly when the row takes the train branch (`IsTrain`, line 77) and the test counter by one exactly when it does not, the other counter staying put |
| MetadataLoader.AssignIndices | resnet_train/process_data.py:70-83 | the loop over all rows raises only `KeyError('Flag')` or `KeyError('Class_ID')`, and on success `idx_train + idx_test` is the number of rows |
| MetadataLoader.ReadMetadata | resnet_train/process_data.py:70-83 | the in-place loop over the rows gives the same dictionary and counters as the row-by-row fold `AssignIndices`, including the `KeyError` of a row without `Flag` or `Class_ID`; on success `idx_train + idx_test` is the number of rows |
| MetadataLoader.AssignIndicesKeepsError | resnet_train/process_data.py:76-83 | once a row raises, the loop ends with that exception whatever rows follow |
| MetadataLoader.AssignIndicesOk | resnet_train/process_data.py:76-83 | the loop completes exactly when every row has a `Flag` and a `Class_ID` field |
| MetadataLoader.LastRowFor | resnet_train/process_data.py:83 | the position found carries the key, and no later row carries it (-1 when no row does) |
| MetadataLoader.CountersCountSplits | resnet_train/process_data.py:74-82 | `idx_train` is the number of rows taking the train branch and `idx_test` the number of the others |
| MetadataLoader.GroupCountsPartition | resnet_train/process_data.py:77-82 | every row is counted in exactly one of the two splits |
| MetadataLoader.StoredEntries | resnet_train/process_data.py:78-83 | the dictionary keys are exactly the `Class_ID`s that occur; each entry is the last row with that key, stamped with that row's index (the number of earlier rows of its split) |
| MetadataLoader.StoredEntry | resnet_train/process_data.py:78-83 | `StoredEntries` for one key, by induction on the rows |
| MetadataLoader.StoredEntryOfLastRow | resnet_train/process_data.py:83 | the last row's `Class_ID` maps to that row stamped with its index, replacing any earlier entry |
| MetadataLoader.StoredEntryOfEarlierRow | resnet_train/process_data.py:83 | a key other than the last row's `Class_ID` keeps the entry it had before that row |
| MetadataLoader.RowIndexIncreases | resnet_train/process_data.py:74-82 | within a split, a later row gets a strictly larger index, and every index is below the split's final count |
| MetadataLoader.OtherSplitDoesNotShiftIndex | resnet_train/process_data.py:74-82 | inserting a row of the other split leaves every later row's index unchanged: the two counters do not affect each other |
| MetadataLoader.StampKeepsSplit | resnet_train/process_data.py:78-81 | stamping sets `index` and leaves the `Flag` field, and so the split, alone |
| MetadataLoader.IndicesDistinctWithinSplit | resnet_train/process_data.py:74-83 | two different stored classes of the same split carry different indices |
| MetadataLoader.ReplacedRowLeavesGap | resnet_train/process_data.py:78-83 | a row replaced by a later row with the same `Class_ID` leaves its index unused by every stored entry of its split |
| MetadataLoader.CsvRowsAreNeverTrain | resnet_train/process_data.py:77-82 | for rows of string fields the comparison with the integer 1 never holds: the train count is 0, the test count is the number of rows, and each row's index is its 0-based position |
| MetadataLoader.CsvIndexing | resnet_train/process_data.py:73-83 | for CSV rows, `idx_train` stays 0, `idx_test` ends at the number of rows, and each stored entry's index is the position of the last row with its `Class_ID` |
| Features.AsValueList | resnet_train/process_data.py:17-18 | a value that is not a list becomes `[value]`; a list is used as it is |
| Features.Int64List | resnet_train/process_data.py:19 | the int64 list accepts a list exactly when every element is an integer in the signed 64-bit range, keeps the elements in order, and otherwise raises `TypeError` or `ValueError` |
| Features.Int64Feature | resnet_train/process_data.py:15-19 | a list is accepted exactly when the int64 list accepts its items, and the feature is those items; any other value is accepted exactly when it is an integer in the 64-bit range, giving the one-element feature `[i]`; a non-integer scalar raises `TypeError`, an out-of-range integer `ValueError` |
| Features.BytesFeature | resnet_train/process_data.py:22-24 | the value is wrapped into a one-element byte-string list |
| Features.AsBytes | resnet_train/process_data.py:45 | text is encoded with the UTF-8 encoder; any other value raises `TypeError` |
| Records.RecordWriter.constructor | resnet_train/process_data.py:87 | a new record file holds no records |
| Records.RecordWriter.Write | resnet_train/process_data.py:48 | writing appends exactly the one record at the end and keeps the earlier ones |
| Records.Appended | resnet_train/process_data.py:48-52 | one call adds at most one record, exactly one when it wrote one, and that record is the one it built |
| Records.BuildExample | resnet_train/process_data.py:43-47 | a class key missing from the metadata raises `KeyError` with that key; a built record has exactly the three named features, the image one being the encoded bytes |
| Records.TryRecord | resnet_train/process_data.py:38-52 | no detected face gives a skip with `IndexError`; a written record needs a face whose crop succeeded |
| Records.MakeExample | resnet_train/process_data.py:27-52 | the call raises exactly when detection raises, and with detection's exception; every other failure is caught |
| Records.MakeWriteExample | resnet_train/process_data.py:27-52 | the call's outcome is the decision `MakeExample` and the writer's records become the old ones plus what that outcome appended |
| Records.NoFaceWritesNothing | resnet_train/process_data.py:38-52 | when detection finds no face, `faces[0]` raises `IndexError`, the image is skipped, and nothing is appended |
| Records.BuildExampleSpec | resnet_train/process_data.py:43-47 | the record is built exactly when the class key is in the metadata and its entry has an `index` the int64 feature accepts and a string `Name`; it then has exactly the three named features: that index (`[i]` for an integer), that name encoded, and the encoded image |
| Records.TryRecordSpec | resnet_train/process_data.py:38-52 | the `try` block writes exactly when there is a face, the first face's crop and encoding succeed and the record can be built, and then it writes that record |
| Records.WrittenRecordMatchesMetadata | resnet_train/process_data.py:30-48 | a record is written exactly when detection succeeds with a face, crop and encoding succeed, and the parent-directory name is a metadata key with a usable `index` and `Name`; the record's index and identity are that entry's, and its image is the encoded crop of the first face |
| Records.MissingClassWritesNothing | resnet_train/process_data.py:44-52 | when the parent-directory name is not a metadata key, nothing is appended and the outcome, if the call returns, is a skip |
| Records.CsvRecordIndexIsRowPosition | resnet_train/process_data.py:44 | with metadata read from CSV rows, a written record's class index is the position of the last row whose `Class_ID` is the image's parent-directory name |
| Records.WriteSplit | resnet_train/process_data.py:92-94 | looping `_make_write_tfexample` over a file list appends exactly the records of the run `SplitRun`, and ends with the exception that left a call, if any |
| Records.SplitRunStep | resnet_train/process_data.py:92-93 | one more file either ends a clean run with its exception or adds what that file appended |
| Records.SplitRunBound | resnet_train/process_data.py:92-93 | a run over n files writes at most n records |
| Records.SplitRunKeepsError | resnet_train/process_data.py:92-93 | an exception that leaves a call ends the run; later files are not looked at |
| Records.SkippedImageIsTransparent | resnet_train/process_data.py:49-52 | a skipped image leaves the run exactly as if the file were not in the list |
| Records.RunRecordsComeFromFiles | resnet_train/process_data.py:92-93 | every record of a run is the record some file of the list built |
| Records.GenTfrecord | resnet_train/process_data.py:55-105 | a metadata error ends the run with no output file; otherwise the train file holds the train run's records, and, unless that run raised, the test file holds the test run's records |
| JpgLabels.IndexOf | resnet_train/process_data.py:186 | `list.index` finds the first position of the value, and raises `ValueError` when it is absent |
| JpgLabels.ReadJpgLabels | resnet_train/process_data.py:183-186 | the loop raises `ValueError` exactly when some file's directory path is not in the directory list; otherwise the labels are parallel to the files, each the first position of the file's directory path, and two files get the same label exactly when their parent directories have the same name |
| JpgLabels.FirstPositionsSnoc | resnet_train/process_data.py:184-186 | appending the next file's first position keeps every label the first position of its file's directory path |
| JpgLabels.FirstPositionsFound | resnet_train/process_data.py:186 | every labelled file's directory path is in the directory list |
| JpgLabels.LabelsFollowDirectories | resnet_train/process_data.py:185-186 | labels that are first positions agree exactly where the files' parent directory names agree |
| JpgLabels.SameLabelIffSameDirectory | resnet_train/process_data.py:185-186 | two files' first positions coincide exactly when their parent directories have the same name |
| JpgLabels.LabelPathOfGlobMatch | resnet_train/process_data.py:176-185 | for a file that the glob finds under `root/cls/`, the path looked up is the class directory `root/cls` |
| PosixPath.LastSepSpec | resnet_train/process_data.py:30 | `rfind('/')` returns a separator position with no separator after it, or -1 when there is none |
| PosixPath.RStripSepSpec | resnet_train/process_data.py:30 | `rstrip('/')` keeps a prefix that does not end in a separator and drops only separators |
| PosixPath.DirnameTestsHead | resnet_train/process_data.py:30 | stripping trailing separators leaves something exactly when the head is non-empty and not all separators |
| PosixPath.BasenameSpec | resnet_train/process_data.py:30 | the base name is a suffix of the path without separators |
| PosixPath.DirnameOfChild | resnet_train/process_data.py:30 | the directory part of `d/name` is `d` |
| PosixPath.BasenameOfChild | resnet_train/process_data.py:30 | the base name of `pre/name` is `name` |
| PosixPath.ParentNameOfJoin | resnet_train/process_data.py:30 | for a path `base/cls/name` the parent directory name used as class key is `cls` |
| PosixPath.JoinInjective | resnet_train/process_data.py:185 | distinct directory names joined onto the same root give distinct paths |
| Preprocess.Normalize | resnet_train/process_data.py:131-133 | `_normalize` returns the image and the label unchanged |
| Preprocess.Augment | resnet_train/process_data.py:136-138 | `_augment` returns the image and the label unchanged |
| Preprocess.MapPairs | resnet_train/process_data.py:196-197 | mapping a dataset keeps its length, and each element of the result is the function applied to the element at the same position |
| Preprocess.PreprocessingIsIdentity | resnet_train/process_data.py:196-197 | mapping `_normalize` and then `_augment` leaves every dataset unchanged, element by element and in order |

## Left out

- Image reading and JPEG encoding (`cv2.imread`, `cv2.imencode`, lines 31 and 40) are foreign library calls. They are the uninterpreted fields `imread` and `imencode` of `Records.Externals`. Only `imencode`'s failure is modelled; its success flag and `.tostring()` are folded into that result.
- Face detection and cropping (`FaceDetectorDlib`, `get_roi`, lines 34-39) are the uninterpreted fields `detect` and `getRoi`. Constructing the detector is folded into `detect`.
- UTF-8 encoding in `tf.compat.as_bytes` is the uninterpreted parameter `utf8`. `as_bytes` of the encoded image (line 46), which is already bytes, is the identity.
- `tf.train.Example` and its serialization (lines 43-48) are not modelled. A record is kept as its map of three named features, and `RecordWriter` holds records rather than serialized bytes.
- Records.RecordWriter.Write: writing never fails. A failing `writer.write` would raise inside the `try` and skip the image.
- Opening and closing the record files (lines 86-87, 94, 97-98, 105) is not modelled. `GenTfrecord` returns each opened file's records in a map. An exception escaping a loop leaves the file unclosed in the source; the model has no notion of closing.
- `num_shards` (line 55) is unused by the source and is not modelled.
- Reading the CSV file (lines 71-73) is not modelled; the rows are an input. The model does not capture `skipinitialspace`, short rows (missing fields become `None`) or extra fields (`restkey`). Rows are maps from column names to values.
- The `glob` calls (lines 89-90, 100-101, 176-180) are not modelled; the file and directory lists are inputs. `LabelPathOfGlobMatch` states the link for paths of the glob's shape, but not glob's own ordering or normalisation.
- The `print` diagnostics in the `except` clause (lines 50-51) are output only. The skip reason is kept in `Records.Attempt.Skipped`.
- `_parse_example` and `_parse_image` (lines 108-128) are TensorFlow decoding, resizing and float conversion, and are not modelled.
- The `tf.data` pipeline is not modelled beyond `dataset.map`: `TFRecordDataset`, `from_tensor_slices`, `shuffle`, `repeat`, `batch` and the iterator (lines 152-167, 188-190, 199-206).
- `read_tfrecord_vggface2` (lines 141-167) is not modelled, except that its `_normalize` and `_augment` maps (lines 157-158) are the same `MapPairs` as lines 196-197.
- Exceptions carry no message text; a `KeyError` carries its key.
