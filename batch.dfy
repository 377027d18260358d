/** The script's main loop (lines 26-56): for every accepted image in listing
    order, run OCR, convert its results and write them to the file named after
    the image. The OCR collaborator is a parameter, and the output directory is
    a map from file name to the records last written under that name. */
module Batch {
  import opened Numbers
  import opened Detections
  import opened ImageNames
  import opened OcrLoop

  /** The output directory after processing images in order: each image writes
      (and so replaces) the file named after it. The last image's file holds its
      records. */
  function Outputs(images: seq<string>, ocr: string -> seq<Raw>, threshold: real): (files: map<string, seq<Record>>)
    ensures |images| > 0 ==>
      (OutputName(images[|images| - 1]) in files &&
       files[OutputName(images[|images| - 1])] == Convert(ocr(images[|images| - 1]), threshold))
    decreases |images|
  {
    if |images| == 0 then map[]
    else
      var n := |images| - 1;
      Outputs(images[..n], ocr, threshold)[OutputName(images[n]) := Convert(ocr(images[n]), threshold)]
  }

  /** Exactly one file per distinct output name is written. */
  lemma {:induction false} OutputsNames(images: seq<string>, ocr: string -> seq<Raw>, threshold: real)
    ensures Outputs(images, ocr, threshold).Keys == set image | image in images :: OutputName(image)
    decreases |images|
  {
    if |images| > 0 {
      var n := |images| - 1;
      var prefix := images[..n];
      OutputsNames(prefix, ocr, threshold);
      assert images == prefix + [images[n]];
    }
  }

  /** Outputs over a prefix one image longer. */
  lemma OutputsPrefix(images: seq<string>, ocr: string -> seq<Raw>, threshold: real, k: nat)
    requires k < |images|
    ensures Outputs(images[..k + 1], ocr, threshold) ==
      Outputs(images[..k], ocr, threshold)[OutputName(images[k]) := Convert(ocr(images[k]), threshold)]
  {
    assert images[..k + 1][..k] == images[..k];
  }

  /** A file holds the records of the last image written under its name. */
  lemma {:induction false} LastWriteWins(images: seq<string>, ocr: string -> seq<Raw>, threshold: real, j: nat)
    requires j < |images|
    requires forall l :: j < l < |images| ==> OutputName(images[l]) != OutputName(images[j])
    ensures OutputName(images[j]) in Outputs(images, ocr, threshold)
    ensures Outputs(images, ocr, threshold)[OutputName(images[j])] == Convert(ocr(images[j]), threshold)
    decreases |images|
  {
    var n := |images| - 1;
    var prefix := images[..n];
    var name := OutputName(images[j]);
    assert Outputs(images, ocr, threshold) ==
      Outputs(prefix, ocr, threshold)[OutputName(images[n]) := Convert(ocr(images[n]), threshold)];
    if j < n {
      assert prefix[j] == images[j];
      assert forall l :: j < l < |prefix| ==> prefix[l] == images[l];
      LastWriteWins(prefix, ocr, threshold, j);
      assert OutputName(images[n]) != name;
    }
  }

  /** Two images processed in order: the second write to a name replaces the first. */
  lemma OutputsOfTwo(first: string, second: string, ocr: string -> seq<Raw>, threshold: real)
    ensures Outputs([first, second], ocr, threshold) ==
      map[OutputName(first) := Convert(ocr(first), threshold)][OutputName(second) := Convert(ocr(second), threshold)]
  {
    var images := [first, second];
    assert images[..1] == [first] && images[..1][..0] == [];
    assert Outputs([first], ocr, threshold) == map[OutputName(first) := Convert(ocr(first), threshold)];
    assert Outputs(images, ocr, threshold) ==
      Outputs([first], ocr, threshold)[OutputName(second) := Convert(ocr(second), threshold)];
  }

  /** a.jpeg is processed after a.jpg and replaces its records in a.txt. */
  lemma CollisionOverwrites(ocr: string -> seq<Raw>, threshold: real)
    ensures Outputs(SelectImages(["a.jpg", "a.jpeg"]), ocr, threshold) ==
      map["a.txt" := Convert(ocr("a.jpeg"), threshold)]
  {
    SelectBothSpellings();
    OutputsOfTwo("a.jpg", "a.jpeg", ocr, threshold);
    CollidingImages();
  }

  /** A fresh list holding the given values. */
  method NewList(values: seq<Num>) returns (list: array<Num>)
    ensures fresh(list) && list[..] == values
  {
    list := new Num[|values|](k requires 0 <= k < |values| => values[k]);
  }

  /** A fresh quadrilateral whose corners are fresh lists, one per corner. */
  method NewBox(quad: seq<seq<Num>>) returns (box: array<array<Num>>)
    ensures fresh(box) && QuadOf(box) == quad
    ensures forall c :: 0 <= c < box.Length ==> fresh(box[c])
    ensures forall c1, c2 :: 0 <= c1 < c2 < box.Length ==> box[c1] != box[c2]
  {
    var placeholder := new Num[0];
    box := new array<Num>[|quad|](_ => placeholder);
    for c := 0 to |quad|
      invariant forall c' :: 0 <= c' < c ==> fresh(box[c']) && box[c'][..] == quad[c']
      invariant forall c1, c2 :: 0 <= c1 < c2 < c ==> box[c1] != box[c2]
    {
      var list := NewList(quad[c]);
      box[c] := list;
    }
  }

  /** Distinct corner positions hold distinct lists. */
  ghost predicate AllDistinct(dets: seq<Detection>)
    reads Boxes(dets)
  {
    forall j1, c1, j2, c2 ::
      (0 <= j1 < |dets| && 0 <= c1 < dets[j1].box.Length && 0 <= j2 < |dets| && 0 <= c2 < dets[j2].box.Length &&
       (j1 != j2 || c1 != c2)) ==> dets[j1].box[c1] != dets[j2].box[c2]
  }

  /** Appending a tuple whose lists are distinct and none of which is among
      the lists seen so far keeps all lists distinct. */
  lemma AppendDistinct(dets: seq<Detection>, d: Detection, seen: set<array<Num>>)
    requires AllDistinct(dets)
    requires forall j, c :: 0 <= j < |dets| && 0 <= c < dets[j].box.Length ==> dets[j].box[c] in seen
    requires forall c :: 0 <= c < d.box.Length ==> d.box[c] !in seen
    requires forall c1, c2 :: 0 <= c1 < c2 < d.box.Length ==> d.box[c1] != d.box[c2]
    ensures AllDistinct(dets + [d])
  {
  }

  /** With all lists distinct, no overwritten list is shared, whatever the threshold. */
  lemma DistinctIsUnshared(dets: seq<Detection>, threshold: real)
    requires AllDistinct(dets)
    ensures Unshared(dets, threshold)
  {
  }

  /** reader.readtext: the results as tuples whose lists are all freshly built. */
  method ReadText(raws: seq<Raw>) returns (dets: seq<Detection>)
    ensures Views(dets) == raws
    ensures AllDistinct(dets)
    ensures forall j, c :: 0 <= j < |dets| && 0 <= c < dets[j].box.Length ==> fresh(dets[j].box[c])
  {
    dets := [];
    ghost var seen: set<array<Num>> := {};
    for j := 0 to |raws|
      invariant |dets| == j
      invariant forall i :: 0 <= i < j ==>
        QuadOf(dets[i].box) == raws[i].quad && dets[i].text == raws[i].text && dets[i].confidence == raws[i].confidence
      invariant forall i, c :: 0 <= i < j && 0 <= c < dets[i].box.Length ==> dets[i].box[c] in seen
      invariant forall i, c :: 0 <= i < j && 0 <= c < dets[i].box.Length ==> fresh(dets[i].box[c])
      invariant AllDistinct(dets)
    {
      var box := NewBox(raws[j].quad);
      var d := Detection(box, raws[j].text, raws[j].confidence);
      AppendDistinct(dets, d, seen);
      seen := seen + set c | 0 <= c < box.Length :: box[c];
      dets := dets + [d];
    }
  }

  /** Lines 26-56: the output directory holds, for every output name, the
      converted results of the last accepted image with that name. */
  method ScrapeDirectory(listing: seq<string>, ocr: string -> seq<Raw>, threshold: real)
    returns (written: map<string, seq<Record>>)
    requires forall image :: image in listing && IsImageName(image) ==> Convertible(ocr(image), threshold)
    ensures written == Outputs(SelectImages(listing), ocr, threshold)
  {
    var images := SelectImages(listing);
    written := map[];
    for k := 0 to |images|
      invariant written == Outputs(images[..k], ocr, threshold)
    {
      var image := images[k];
      var dets := ReadText(ocr(image));
      DistinctIsUnshared(dets, threshold);
      var output := ConvertDetections(dets, threshold);
      written := written[OutputName(image) := output];
      OutputsPrefix(images, ocr, threshold, k);
    }
    assert images[..|images|] == images;
  }
}
