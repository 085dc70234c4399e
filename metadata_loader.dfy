/** The metadata loop of `gen_tfrecord_vggface2` (resnet_train/process_data.py,
    lines 70-83): every CSV row is stamped with the current value of its
    split's counter, that counter is advanced, and the row is stored under its
    `Class_ID`.

    The split test is `row['Flag'] == 1`. The CSV reader yields strings, and a
    Python string never equals the integer 1, so for rows read from the CSV the
    train branch is never taken; the model keeps the comparison exactly as
    written (`IsTrain`) and proves that consequence (`CsvRowsAreNeverTrain`). */
module MetadataLoader {
  import opened Py

  const FlagColumn := "Flag"
  const ClassIdColumn := "Class_ID"
  const IndexColumn := "index"
  const NameColumn := "Name"

  /** The `metadata` dictionary: `Class_ID` value to the stamped row. */
  type Metadata = map<Value, Row>

  /** The loop state: the dictionary and the two counters. */
  datatype Indexing = Indexing(metadata: Metadata, idxTrain: nat, idxTest: nat)

  /** The branch condition of line 77, as written: the `Flag` field compared
      with the integer 1. */
  predicate IsTrain(row: Row)
  {
    FlagColumn in row && row[FlagColumn] == Int(1)
  }

  /** `row['index'] = idx` (lines 78 and 81). */
  function Stamp(row: Row, index: nat): Row
  {
    row[IndexColumn := Int(index)]
  }

  /** A row the loop accepts: it has both the `Flag` and `Class_ID` fields. */
  predicate HasColumns(row: Row)
  {
    FlagColumn in row && ClassIdColumn in row
  }

  /** One iteration of the loop (lines 77-83). A row without a `Flag` field
      raises `KeyError` at line 77, one without `Class_ID` at line 83 (after
      the counter has advanced; the exception leaves the function, so that
      does not matter). */
  function Step(st: Indexing, row: Row): (r: Result<Indexing>)
    ensures r.Ok? <==> HasColumns(row)
    ensures FlagColumn !in row ==> r == Raise(KeyError(Str(FlagColumn)))
    ensures FlagColumn in row && ClassIdColumn !in row ==> r == Raise(KeyError(Str(ClassIdColumn)))
    ensures r.Ok? ==> r.value.idxTrain == st.idxTrain + (if IsTrain(row) then 1 else 0)
    ensures r.Ok? ==> r.value.idxTest == st.idxTest + (if IsTrain(row) then 0 else 1)
  {
    if FlagColumn !in row then Raise(KeyError(Str(FlagColumn)))
    else
      var train := IsTrain(row);
      var stamped := if train then Stamp(row, st.idxTrain) else Stamp(row, st.idxTest);
      var counted := if train then st.(idxTrain := st.idxTrain + 1) else st.(idxTest := st.idxTest + 1);
      if ClassIdColumn !in stamped then Raise(KeyError(Str(ClassIdColumn)))
      else Ok(counted.(metadata := counted.metadata[stamped[ClassIdColumn] := stamped]))
  }

  /** The whole loop over `rows`, in order, from an empty dictionary and two
      zero counters (lines 70-83). */
  function AssignIndices(rows: seq<Row>): (r: Result<Indexing>)
    ensures r.Raise? ==> r.error == KeyError(Str(FlagColumn)) || r.error == KeyError(Str(ClassIdColumn))
    ensures r.Ok? ==> r.value.idxTrain + r.value.idxTest == |rows|
  {
    if rows == [] then Ok(Indexing(map[], 0, 0))
    else match AssignIndices(rows[..|rows| - 1])
      case Raise(e) => Raise(e)
      case Ok(st) => Step(st, rows[|rows| - 1])
  }

  /** The loop as the source runs it: the row, the dictionary and the two
      counters are updated in place. */
  method ReadMetadata(rows: seq<Row>) returns (res: Result<Indexing>)
    ensures res == AssignIndices(rows)
    ensures res.Ok? ==> res.value.idxTrain + res.value.idxTest == |rows|
  {
    var metadata: Metadata := map[];
    var idxTrain: nat := 0;
    var idxTest: nat := 0;
    var i := 0;
    while i < |rows|
      invariant 0 <= i <= |rows|
      invariant AssignIndices(rows[..i]) == Ok(Indexing(metadata, idxTrain, idxTest))
    {
      AssignIndicesStep(rows, i);
      var row := rows[i];
      if FlagColumn !in row {
        AssignIndicesKeepsError(rows, i + 1);
        assert rows[..|rows|] == rows;
        return Raise(KeyError(Str(FlagColumn)));
      }
      if row[FlagColumn] == Int(1) {
        row := row[IndexColumn := Int(idxTrain)];
        idxTrain := idxTrain + 1;
      } else {
        row := row[IndexColumn := Int(idxTest)];
        idxTest := idxTest + 1;
      }
      if ClassIdColumn !in row {
        AssignIndicesKeepsError(rows, i + 1);
        assert rows[..|rows|] == rows;
        return Raise(KeyError(Str(ClassIdColumn)));
      }
      metadata := metadata[row[ClassIdColumn] := row];
      i := i + 1;
    }
    assert rows[..i] == rows;
    res := Ok(Indexing(metadata, idxTrain, idxTest));
  }

  /** One more row: the loop over `rows[..i + 1]` is the loop over `rows[..i]`
      followed by one step on row `i`. */
  lemma AssignIndicesStep(rows: seq<Row>, i: nat)
    requires i < |rows|
    ensures AssignIndices(rows[..i + 1]) ==
              match AssignIndices(rows[..i])
              case Raise(e) => Raise(e)
              case Ok(st) => Step(st, rows[i])
  {
    assert rows[..i + 1][..i] == rows[..i];
  }

  /** Once a prefix of the rows has raised, the whole loop raises the same
      exception. */
  lemma {:induction false} AssignIndicesKeepsError(rows: seq<Row>, i: nat)
    requires i <= |rows|
    requires AssignIndices(rows[..i]).Raise?
    ensures AssignIndices(rows) == AssignIndices(rows[..i])
    decreases |rows|
  {
    if i < |rows| {
      var init := rows[..|rows| - 1];
      assert init[..i] == rows[..i];
      AssignIndicesKeepsError(init, i);
    } else {
      assert rows[..i] == rows;
    }
  }

  // ---------------------------------------------------------------------
  // Reference definitions: split counts, row positions, last occurrences.

  predicate HasClass(row: Row, key: Value)
  {
    ClassIdColumn in row && row[ClassIdColumn] == key
  }

  /** The number of rows in `rows` that belong to the train split (`train`)
      or to the other one (`!train`). */
  function GroupCount(rows: seq<Row>, train: bool): (n: nat)
    ensures n <= |rows|
  {
    if rows == [] then 0
    else GroupCount(rows[..|rows| - 1], train) + (if IsTrain(rows[|rows| - 1]) == train then 1 else 0)
  }

  /** The index row `j` receives: the number of earlier rows of its split. */
  function RowIndex(rows: seq<Row>, j: nat): nat
    requires j < |rows|
  {
    GroupCount(rows[..j], IsTrain(rows[j]))
  }

  /** The position of the last row whose `Class_ID` is `key`, or -1. */
  function LastRowFor(rows: seq<Row>, key: Value): (j: int)
    ensures -1 <= j < |rows|
    ensures j >= 0 ==> HasClass(rows[j], key)
    ensures forall k :: j < k < |rows| ==> !HasClass(rows[k], key)
  {
    if rows == [] then -1
    else if HasClass(rows[|rows| - 1], key) then |rows| - 1
    else LastRowFor(rows[..|rows| - 1], key)
  }

  // ---------------------------------------------------------------------
  // Properties of the loop.

  /** The loop completes exactly when every row has `Flag` and `Class_ID`. */
  lemma {:induction false} AssignIndicesOk(rows: seq<Row>)
    ensures AssignIndices(rows).Ok? <==> forall j :: 0 <= j < |rows| ==> HasColumns(rows[j])
  {
    if rows != [] {
      var init := rows[..|rows| - 1];
      AssignIndicesOk(init);
      assert forall j :: 0 <= j < |init| ==> init[j] == rows[j];
      assert ClassIdColumn != IndexColumn;
    }
  }

  /** The counters count the rows of their own split: the train counter is the
      number of rows taking the train branch, the test counter the number of
      the others. */
  lemma {:induction false} CountersCountSplits(rows: seq<Row>)
    requires AssignIndices(rows).Ok?
    ensures AssignIndices(rows).value.idxTrain == GroupCount(rows, true)
    ensures AssignIndices(rows).value.idxTest == GroupCount(rows, false)
  {
    if rows != [] {
      CountersCountSplits(rows[..|rows| - 1]);
    }
  }

  /** Every row lands in exactly one of the two splits. */
  lemma {:induction false} GroupCountsPartition(rows: seq<Row>)
    ensures GroupCount(rows, true) + GroupCount(rows, false) == |rows|
  {
    if rows != [] {
      GroupCountsPartition(rows[..|rows| - 1]);
    }
  }

  /** What the dictionary holds: one entry per `Class_ID` that occurs, and that
      entry is the LAST row carrying it, stamped with that row's index; an
      earlier row with the same `Class_ID` has been replaced. */
  lemma StoredEntries(rows: seq<Row>)
    requires AssignIndices(rows).Ok?
    ensures forall key :: key in AssignIndices(rows).value.metadata <==> LastRowFor(rows, key) >= 0
    ensures forall key :: key in AssignIndices(rows).value.metadata ==>
              var j := LastRowFor(rows, key);
              AssignIndices(rows).value.metadata[key] == Stamp(rows[j], RowIndex(rows, j))
  {
    forall key
      ensures key in AssignIndices(rows).value.metadata <==> LastRowFor(rows, key) >= 0
      ensures key in AssignIndices(rows).value.metadata ==>
                var j := LastRowFor(rows, key);
                AssignIndices(rows).value.metadata[key] == Stamp(rows[j], RowIndex(rows, j))
    {
      StoredEntry(rows, key);
    }
  }

  /** `StoredEntries` for one key, by induction on the rows. */
  lemma {:induction false} StoredEntry(rows: seq<Row>, key: Value)
    requires AssignIndices(rows).Ok?
    ensures key in AssignIndices(rows).value.metadata <==> LastRowFor(rows, key) >= 0
    ensures key in AssignIndices(rows).value.metadata ==>
              var j := LastRowFor(rows, key);
              AssignIndices(rows).value.metadata[key] == Stamp(rows[j], RowIndex(rows, j))
  {
    if rows != [] {
      var init := rows[..|rows| - 1];
      if HasClass(rows[|rows| - 1], key) {
        StoredEntryOfLastRow(rows, key);
      } else {
        assert AssignIndices(init).Ok?;
        StoredEntry(init, key);
        StoredEntryOfEarlierRow(rows, key);
      }
    }
  }

  /** The last row's `Class_ID` maps to that row, stamped with its index. */
  lemma StoredEntryOfLastRow(rows: seq<Row>, key: Value)
    requires rows != [] && AssignIndices(rows).Ok?
    requires HasClass(rows[|rows| - 1], key)
    ensures LastRowFor(rows, key) == |rows| - 1
    ensures key in AssignIndices(rows).value.metadata
    ensures AssignIndices(rows).value.metadata[key] == Stamp(rows[|rows| - 1], RowIndex(rows, |rows| - 1))
  {
    var n := |rows|;
    var init := rows[..n - 1];
    assert AssignIndices(init).Ok?;
    CountersCountSplits(init);
    assert ClassIdColumn != IndexColumn;
  }

  /** A key other than the last row's `Class_ID` keeps the entry it had
      before the last row. */
  lemma StoredEntryOfEarlierRow(rows: seq<Row>, key: Value)
    requires rows != [] && AssignIndices(rows).Ok?
    requires !HasClass(rows[|rows| - 1], key)
    requires var init := rows[..|rows| - 1];
             AssignIndices(init).Ok? &&
             (key in AssignIndices(init).value.metadata <==> LastRowFor(init, key) >= 0) &&
             (key in AssignIndices(init).value.metadata ==>
                var j := LastRowFor(init, key);
                AssignIndices(init).value.metadata[key] == Stamp(init[j], RowIndex(init, j)))
    ensures key in AssignIndices(rows).value.metadata <==> LastRowFor(rows, key) >= 0
    ensures key in AssignIndices(rows).value.metadata ==>
              var j := LastRowFor(rows, key);
              AssignIndices(rows).value.metadata[key] == Stamp(rows[j], RowIndex(rows, j))
  {
    var init := rows[..|rows| - 1];
    assert ClassIdColumn != IndexColumn;
    var j := LastRowFor(init, key);
    assert LastRowFor(rows, key) == j;
    if j >= 0 {
      assert rows[..j] == init[..j];
      assert rows[j] == init[j];
    }
  }

  /** `GroupCount` adds up over concatenation. */
  lemma {:induction false} GroupCountAppend(a: seq<Row>, b: seq<Row>, train: bool)
    ensures GroupCount(a + b, train) == GroupCount(a, train) + GroupCount(b, train)
    decreases |b|
  {
    if b != [] {
      var b' := b[..|b| - 1];
      assert (a + b)[..|a + b| - 1] == a + b';
      GroupCountAppend(a, b', train);
    } else {
      assert a + b == a;
    }
  }

  /** Extending a prefix by one row adds that row to its split's count. */
  lemma GroupCountStep(rows: seq<Row>, j: nat, train: bool)
    requires j < |rows|
    ensures GroupCount(rows[..j + 1], train) == GroupCount(rows[..j], train) + (if IsTrain(rows[j]) == train then 1 else 0)
  {
    assert rows[..j + 1][..j] == rows[..j];
  }

  /** Split counts only grow along longer prefixes. */
  lemma {:induction false} GroupCountMonotone(rows: seq<Row>, a: nat, b: nat, train: bool)
    requires a <= b <= |rows|
    ensures GroupCount(rows[..a], train) <= GroupCount(rows[..b], train)
    decreases b
  {
    if a < b {
      GroupCountMonotone(rows, a, b - 1, train);
      GroupCountStep(rows, b - 1, train);
    }
  }

  /** A row's index is below its split's count over any longer prefix. */
  lemma RowIndexBelowPrefixCount(rows: seq<Row>, j: nat, b: nat)
    requires j < b <= |rows|
    ensures RowIndex(rows, j) < GroupCount(rows[..b], IsTrain(rows[j]))
  {
    var g := IsTrain(rows[j]);
    GroupCountStep(rows, j, g);
    GroupCountMonotone(rows, j + 1, b, g);
  }

  /** Within one split the indices run 0, 1, 2, ... in row order: a later
      row of the same split gets a strictly larger index, and every index is
      below the split's count. */
  lemma RowIndexIncreases(rows: seq<Row>, j1: nat, j2: nat)
    requires j1 < j2 < |rows|
    requires IsTrain(rows[j1]) == IsTrain(rows[j2])
    ensures RowIndex(rows, j1) < RowIndex(rows, j2)
    ensures RowIndex(rows, j2) < GroupCount(rows, IsTrain(rows[j2]))
  {
    RowIndexBelowPrefixCount(rows, j1, j2);
    RowIndexBelowPrefixCount(rows, j2, |rows|);
    assert rows[..|rows|] == rows;
  }

  /** The splits index independently: inserting a row of the other split
      before row j leaves row j's index unchanged. */
  lemma OtherSplitDoesNotShiftIndex(rows: seq<Row>, p: nat, x: Row, j: nat)
    requires p <= j < |rows|
    requires IsTrain(x) != IsTrain(rows[j])
    ensures var grown := rows[..p] + [x] + rows[p..];
            j + 1 < |grown| && grown[j + 1] == rows[j] && RowIndex(grown, j + 1) == RowIndex(rows, j)
  {
    var grown := rows[..p] + [x] + rows[p..];
    var g := IsTrain(rows[j]);
    assert grown[j + 1] == rows[j];
    assert grown[..j + 1] == rows[..p] + [x] + rows[p..j];
    GroupCountAppend(rows[..p] + [x], rows[p..j], g);
    GroupCountAppend(rows[..p], [x], g);
    assert GroupCount([x], g) == 0 by {
      assert [x][..0] == [];
    }
    assert rows[..j] == rows[..p] + rows[p..j];
    GroupCountAppend(rows[..p], rows[p..j], g);
  }

  /** The stamp leaves the `Flag` field, and hence the split, alone. */
  lemma StampKeepsSplit(row: Row, index: nat)
    ensures IsTrain(Stamp(row, index)) == IsTrain(row)
    ensures Stamp(row, index)[IndexColumn] == Int(index)
  {
    assert FlagColumn != IndexColumn;
  }

  /** Two different classes of the same split never share an index. */
  lemma IndicesDistinctWithinSplit(rows: seq<Row>, k1: Value, k2: Value)
    requires AssignIndices(rows).Ok?
    requires k1 in AssignIndices(rows).value.metadata && k2 in AssignIndices(rows).value.metadata
    requires k1 != k2
    requires IsTrain(AssignIndices(rows).value.metadata[k1]) == IsTrain(AssignIndices(rows).value.metadata[k2])
    ensures IndexColumn in AssignIndices(rows).value.metadata[k1]
    ensures IndexColumn in AssignIndices(rows).value.metadata[k2]
    ensures AssignIndices(rows).value.metadata[k1][IndexColumn] != AssignIndices(rows).value.metadata[k2][IndexColumn]
  {
    StoredEntries(rows);
    var j1, j2 := LastRowFor(rows, k1), LastRowFor(rows, k2);
    StampKeepsSplit(rows[j1], RowIndex(rows, j1));
    StampKeepsSplit(rows[j2], RowIndex(rows, j2));
    if j1 < j2 {
      RowIndexIncreases(rows, j1, j2);
    } else {
      assert j1 != j2;
      RowIndexIncreases(rows, j2, j1);
    }
  }

  /** A row that a later row with the same `Class_ID` replaces leaves a gap:
      the counter advanced for it, yet no stored entry of its split carries
      its index. */
  lemma ReplacedRowLeavesGap(rows: seq<Row>, j: nat, j': nat)
    requires AssignIndices(rows).Ok?
    requires j < j' < |rows|
    requires ClassIdColumn in rows[j] && HasClass(rows[j'], rows[j][ClassIdColumn])
    ensures forall key ::
              (key in AssignIndices(rows).value.metadata &&
               IsTrain(AssignIndices(rows).value.metadata[key]) == IsTrain(rows[j])) ==>
              IndexColumn in AssignIndices(rows).value.metadata[key] &&
              AssignIndices(rows).value.metadata[key][IndexColumn] != Int(RowIndex(rows, j))
  {
    StoredEntries(rows);
    var md := AssignIndices(rows).value.metadata;
    forall key | key in md && IsTrain(md[key]) == IsTrain(rows[j])
      ensures IndexColumn in md[key] && md[key][IndexColumn] != Int(RowIndex(rows, j))
    {
      var l := LastRowFor(rows, key);
      StampKeepsSplit(rows[l], RowIndex(rows, l));
      assert l != j;
      if l < j {
        RowIndexIncreases(rows, l, j);
      } else {
        RowIndexIncreases(rows, j, l);
      }
    }
  }

  /** For rows read from the CSV (every field a string) the comparison with
      the integer 1 is never true: no row is in the train split and every
      row's index is its 0-based position. */
  lemma {:induction false} CsvRowsAreNeverTrain(rows: seq<Row>)
    requires forall j :: 0 <= j < |rows| ==> IsCsvRow(rows[j])
    ensures GroupCount(rows, true) == 0 && GroupCount(rows, false) == |rows|
    ensures forall j :: 0 <= j < |rows| ==> !IsTrain(rows[j]) && RowIndex(rows, j) == j
  {
    if rows != [] {
      var init := rows[..|rows| - 1];
      CsvRowsAreNeverTrain(init);
      var last := rows[|rows| - 1];
      assert !IsTrain(last) by {
        if FlagColumn in last {
          assert last[FlagColumn].Str?;
        }
      }
      forall j | 0 <= j < |rows| ensures !IsTrain(rows[j]) && RowIndex(rows, j) == j {
        if j < |rows| - 1 {
          assert rows[j] == init[j] && rows[..j] == init[..j];
        } else {
          assert rows[..j] == init;
        }
      }
    }
  }

  /** The loop over CSV rows, as the source runs it: the train counter stays
      0, the test counter ends at the number of rows, and each stored entry's
      index is the position of the last row with that `Class_ID`. */
  lemma CsvIndexing(rows: seq<Row>)
    requires forall j :: 0 <= j < |rows| ==> IsCsvRow(rows[j])
    requires AssignIndices(rows).Ok?
    ensures AssignIndices(rows).value.idxTrain == 0
    ensures AssignIndices(rows).value.idxTest == |rows|
    ensures forall key :: key in AssignIndices(rows).value.metadata ==>
              IndexColumn in AssignIndices(rows).value.metadata[key] &&
              AssignIndices(rows).value.metadata[key][IndexColumn] == Int(LastRowFor(rows, key))
  {
    CsvRowsAreNeverTrain(rows);
    CountersCountSplits(rows);
    StoredEntries(rows);
  }
}
