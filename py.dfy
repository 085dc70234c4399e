/** The handful of Python values and exceptions that the dataset-building
    code of resnet_train/process_data.py manipulates. */
module Py {

  /** A Python value as far as the metadata loader and the record builder see
      it: every field the CSV reader yields is a string, the loader adds an
      integer `index`, and the int64 feature helper distinguishes lists from
      scalars. Python's `==` between values of different constructors is
      false, exactly as Dafny's datatype equality. */
  datatype Value = Str(s: string) | Int(i: int) | List(items: seq<Value>)

  /** The exceptions the modelled code can raise or catch. `Other` stands for
      an exception raised inside a library call (OpenCV, dlib). */
  datatype Exception =
    | KeyError(key: Value)
    | IndexError
    | TypeError
    | ValueError
    | Other(what: string)

  /** A computation that either returns a value or raises. */
  datatype Result<+T> = Ok(value: T) | Raise(error: Exception)

  /** A row of `csv.DictReader`: column name to field value. */
  type Row = map<string, Value>

  /** Raw bytes, as produced by `cv2.imencode` and `tf.compat.as_bytes`. */
  type Bytes = seq<bv8>

  /** `row[column]`: the field, or a `KeyError` naming the column. */
  function Get(row: Row, column: string): (r: Result<Value>)
    ensures r.Ok? <==> column in row
    ensures r.Ok? ==> r.value == row[column]
    ensures r.Raise? ==> r.error == KeyError(Str(column))
  {
    if column in row then Ok(row[column]) else Raise(KeyError(Str(column)))
  }

  /** A row straight from the CSV reader: every field is a string. */
  predicate IsCsvRow(row: Row)
  {
    forall column :: column in row ==> row[column].Str?
  }
}
