/** The preprocessing hooks of the two read paths of
    resnet_train/process_data.py: `_normalize` and `_augment` (lines 131-138),
    mapped over every (image, label) pair of the dataset (lines 157-158 and
    196-197). Both hooks are identities. */
module Preprocess {

  /** `_normalize(image, label)`: the pair, unchanged. */
  function Normalize<Image, Label>(image: Image, classLabel: Label): (r: (Image, Label))
    ensures r.0 == image && r.1 == classLabel
  {
    (image, classLabel)
  }

  /** `_augment(image, label)`: the pair, unchanged. */
  function Augment<Image, Label>(image: Image, classLabel: Label): (r: (Image, Label))
    ensures r.0 == image && r.1 == classLabel
  {
    (image, classLabel)
  }

  /** `dataset.map(f)` on a finite dataset of pairs: `f` applied to every
      element, in order. */
  function MapPairs<Image, Label>(ds: seq<(Image, Label)>, f: (Image, Label) -> (Image, Label)): (r: seq<(Image, Label)>)
    ensures |r| == |ds|
    ensures forall k :: 0 <= k < |ds| ==> r[k] == f(ds[k].0, ds[k].1)
  {
    if ds == [] then [] else [f(ds[0].0, ds[0].1)] + MapPairs(ds[1..], f)
  }

  /** The two preprocessing stages together leave every dataset unchanged:
      same elements, same order. */
  lemma {:induction false} PreprocessingIsIdentity<Image, Label>(ds: seq<(Image, Label)>)
    ensures MapPairs(MapPairs(ds, Normalize), Augment) == ds
  {
    if ds != [] {
      PreprocessingIsIdentity(ds[1..]);
      var once := MapPairs(ds, Normalize);
      assert once == [ds[0]] + MapPairs(ds[1..], Normalize);
      assert once[1..] == MapPairs(ds[1..], Normalize);
      assert ds == [ds[0]] + ds[1..];
    }
  }
}
