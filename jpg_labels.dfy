/** The labels of the raw-JPEG read path, `read_jpg_vggface2`
    (resnet_train/process_data.py, lines 176-186): each file's label is the
    position, in the globbed list of class directories, of the file's own
    directory. */
module JpgLabels {
  import opened Py
  import opened PosixPath

  /** Line 185: the class-directory path a file's label is looked up by,
      `os.path.join(root, basename(dirname(file)))`, where `root` is
      `os.path.join(__path, __data)`. */
  function LabelPath(root: string, file: string): string
  {
    Join(root, ParentName(file))
  }

  /** `xs.index(x)`: the first position of `x`, or `ValueError`. */
  function IndexOf(xs: seq<string>, x: string): (r: Result<nat>)
    ensures r.Ok? <==> x in xs
    ensures r.Ok? ==> r.value < |xs| && xs[r.value] == x && x !in xs[..r.value]
    ensures r.Raise? ==> r.error == ValueError
  {
    if xs == [] then Raise(ValueError)
    else if xs[0] == x then Ok(0)
    else match IndexOf(xs[1..], x)
      case Raise(e) => Raise(e)
      case Ok(i) =>
        assert xs[..i + 1] == [xs[0]] + xs[1..][..i];
        Ok(i + 1)
  }

  /** Label `labels[k]` is the first position in `labelist` of file k's
      looked-up path, for every file. */
  predicate FirstPositions(root: string, filelist: seq<string>, labelist: seq<string>, labels: seq<nat>)
    requires |labels| <= |filelist|
  {
    forall k :: 0 <= k < |labels| ==>
      && labels[k] < |labelist|
      && labelist[labels[k]] == LabelPath(root, filelist[k])
      && LabelPath(root, filelist[k]) !in labelist[..labels[k]]
  }

  /** The label loop (lines 183-186) over the globbed file list `filelist`
      and directory list `labelist`. It fails with `ValueError` exactly when
      some file's directory is not in `labelist`; otherwise the labels are
      parallel to the files, each is the first position of the file's
      directory in `labelist`, and two files get the same label exactly when
      they sit in directories of the same name. */
  method ReadJpgLabels(path: string, data: string, filelist: seq<string>, labelist: seq<string>)
    returns (res: Result<seq<nat>>)
    ensures res.Ok? <==> forall i :: 0 <= i < |filelist| ==> LabelPath(Join(path, data), filelist[i]) in labelist
    ensures res.Raise? ==> res.error == ValueError
    ensures res.Ok? ==> |res.value| == |filelist| && FirstPositions(Join(path, data), filelist, labelist, res.value)
    ensures res.Ok? ==> forall i, j :: 0 <= i < |filelist| && 0 <= j < |filelist| ==>
              (res.value[i] == res.value[j] <==> ParentName(filelist[i]) == ParentName(filelist[j]))
  {
    var root := Join(path, data);
    var labels: seq<nat> := [];
    for i := 0 to |filelist|
      invariant |labels| == i
      invariant FirstPositions(root, filelist, labelist, labels)
    {
      var labelTxt := Join(Join(path, data), ParentName(filelist[i]));
      var index := IndexOf(labelist, labelTxt);
      if index.Raise? {
        assert LabelPath(root, filelist[i]) !in labelist;
        return Raise(index.error);
      }
      FirstPositionsSnoc(root, filelist, labelist, labels, index.value);
      labels := labels + [index.value];
    }
    FirstPositionsFound(root, filelist, labelist, labels);
    LabelsFollowDirectories(root, filelist, labelist, labels);
    res := Ok(labels);
  }

  /** One more file whose label is the first position of its path. */
  lemma FirstPositionsSnoc(root: string, filelist: seq<string>, labelist: seq<string>, labels: seq<nat>, l: nat)
    requires |labels| < |filelist|
    requires FirstPositions(root, filelist, labelist, labels)
    requires l < |labelist| && labelist[l] == LabelPath(root, filelist[|labels|])
    requires LabelPath(root, filelist[|labels|]) !in labelist[..l]
    ensures FirstPositions(root, filelist, labelist, labels + [l])
  {
  }

  /** Every file that has a label has its path in `labelist`. */
  lemma FirstPositionsFound(root: string, filelist: seq<string>, labelist: seq<string>, labels: seq<nat>)
    requires |labels| <= |filelist|
    requires FirstPositions(root, filelist, labelist, labels)
    ensures forall k :: 0 <= k < |labels| ==> LabelPath(root, filelist[k]) in labelist
  {
    forall k | 0 <= k < |labels| ensures LabelPath(root, filelist[k]) in labelist {
      assert labelist[labels[k]] == LabelPath(root, filelist[k]);
    }
  }

  /** Labels that are first positions of the files' looked-up paths agree
      exactly where the files' directory names agree. */
  lemma LabelsFollowDirectories(root: string, filelist: seq<string>, labelist: seq<string>, labels: seq<nat>)
    requires |labels| == |filelist|
    requires FirstPositions(root, filelist, labelist, labels)
    ensures forall i, j :: 0 <= i < |filelist| && 0 <= j < |filelist| ==>
              (labels[i] == labels[j] <==> ParentName(filelist[i]) == ParentName(filelist[j]))
  {
    forall i, j | 0 <= i < |filelist| && 0 <= j < |filelist|
      ensures labels[i] == labels[j] <==> ParentName(filelist[i]) == ParentName(filelist[j])
    {
      SameLabelIffSameDirectory(root, filelist[i], filelist[j], labelist, labels[i], labels[j]);
    }
  }

  /** First positions of two files' directories coincide exactly when the
      directories have the same name. */
  lemma SameLabelIffSameDirectory(root: string, f1: string, f2: string, labelist: seq<string>, l1: nat, l2: nat)
    requires l1 < |labelist| && labelist[l1] == LabelPath(root, f1) && LabelPath(root, f1) !in labelist[..l1]
    requires l2 < |labelist| && labelist[l2] == LabelPath(root, f2) && LabelPath(root, f2) !in labelist[..l2]
    ensures l1 == l2 <==> ParentName(f1) == ParentName(f2)
  {
    assert l1 < l2 ==> labelist[..l2][l1] == labelist[l1];
    assert l2 < l1 ==> labelist[..l1][l2] == labelist[l2];
    if l1 == l2 {
      BasenameSpec(Dirname(f1));
      BasenameSpec(Dirname(f2));
      JoinInjective(root, ParentName(f1), ParentName(f2));
    }
  }

  /** For a file that `glob` found under `root/cls/` the looked-up path is
      the class directory `root/cls` that the directory glob lists. */
  lemma LabelPathOfGlobMatch(root: string, cls: string, name: string)
    requires cls != [] && NoSep(cls) && NoSep(name)
    ensures LabelPath(root, Join(Join(root, cls), name)) == Join(root, cls)
  {
    ParentNameOfJoin(root, cls, name);
  }
}
