/** The conversion loop as the script runs it: the OCR results are tuples
    whose quadrilateral is a list of corner lists, and for every kept tuple
    the loop overwrites the x and y of corners 0..3 with int(...) in place
    before appending a record that refers to those lists. */
module OcrLoop {
  import opened Numbers
  import opened Detections

  /** One OCR tuple: the tuple itself is immutable, its corner lists are not. */
  datatype Detection = Detection(box: array<array<Num>>, text: string, confidence: real)

  /** The current contents of a quadrilateral, corner list by corner list. */
  function QuadOf(box: array<array<Num>>): (q: seq<seq<Num>>)
    reads box, set c | 0 <= c < box.Length :: box[c]
    ensures |q| == box.Length
    ensures forall c :: 0 <= c < box.Length ==> q[c] == box[c][..]
  {
    seq(box.Length, c requires 0 <= c < box.Length reads box, set c' | 0 <= c' < box.Length :: box[c'] =>
                      box[c][..])
  }

  /** The quadrilateral lists of all tuples. */
  ghost function Boxes(dets: seq<Detection>): set<array<array<Num>>> {
    set j | 0 <= j < |dets| :: dets[j].box
  }

  /** The corner lists of all tuples. */
  ghost function CornerLists(dets: seq<Detection>): set<array<Num>>
    reads Boxes(dets)
  {
    set j, c | 0 <= j < |dets| && 0 <= c < dets[j].box.Length :: dets[j].box[c]
  }

  /** The tuples as values, in the current state of their lists. */
  ghost function Views(dets: seq<Detection>): (raws: seq<Raw>)
    reads Boxes(dets), CornerLists(dets)
    ensures |raws| == |dets|
    ensures forall j :: 0 <= j < |dets| ==>
      raws[j] == Raw(QuadOf(dets[j].box), dets[j].text, dets[j].confidence)
  {
    seq(|dets|, j requires 0 <= j < |dets|
                  reads Boxes(dets), CornerLists(dets) =>
                  Raw(QuadOf(dets[j].box), dets[j].text, dets[j].confidence))
  }

  /** The loop writes into corner c of tuple j: tuple j is kept and c is one of corners 0..3. */
  predicate Overwrites(dets: seq<Detection>, threshold: real, j: int, c: int) {
    0 <= j < |dets| && Passes(dets[j].confidence, threshold) && 0 <= c < 4 && c < dets[j].box.Length
  }

  /** The corner lists the loop writes into: corners 0..3 of every kept tuple. */
  ghost function Overwritten(dets: seq<Detection>, threshold: real): set<array<Num>>
    reads Boxes(dets)
  {
    set j, c | Overwrites(dets, threshold, j, c) :: dets[j].box[c]
  }

  /** A list the loop writes into sits at no other corner position of any tuple
      (the OCR collaborator builds a fresh list for every corner). */
  ghost predicate Unshared(dets: seq<Detection>, threshold: real)
    reads Boxes(dets)
  {
    forall j1, c1, j2, c2 ::
      (Overwrites(dets, threshold, j1, c1) && 0 <= j2 < |dets| && 0 <= c2 < dets[j2].box.Length &&
       (j1 != j2 || c1 != c2)) ==> dets[j1].box[c1] != dets[j2].box[c2]
  }

  /** Lines 46-48: the x and y of corners 0..3 of one quadrilateral go through
      int(), in place; every other entry stays as it was. */
  method TruncateCorners(box: array<array<Num>>)
    requires Shaped(QuadOf(box))
    requires forall c1, c2 :: 0 <= c1 < 4 && 0 <= c2 < box.Length && c1 != c2 ==> box[c1] != box[c2]
    modifies set c | 0 <= c < 4 :: box[c]
    ensures QuadOf(box) == IntQuad(old(QuadOf(box)))
    ensures forall c :: 0 <= c < box.Length ==>
      box[c][..] == if c < 4 then IntCorner(old(box[c][..])) else old(box[c][..])
  {
    for c := 0 to 4
      invariant forall c', k :: 0 <= c' < box.Length && 0 <= k < box[c'].Length ==>
        box[c'][k] == if c' < c && k < 2 then ToInt(old(box[c'][k])) else old(box[c'][k])
    {
      box[c][0] := ToInt(box[c][0]);
      box[c][1] := ToInt(box[c][1]);
    }
    ghost var before := old(QuadOf(box));
    forall c | 0 <= c < box.Length
      ensures box[c][..] == IntQuad(before)[c]
    {
      assert before[c] == old(box[c][..]);
    }
  }

  /** The state of the corner lists once the loop has handled its first `done`
      tuples: each list holds its initial contents, passed through IntCorner
      when the loop has overwritten it. */
  ghost predicate HandledUpTo(dets: seq<Detection>, threshold: real, initial: seq<Raw>, done: int)
    reads Boxes(dets), CornerLists(dets)
  {
    |initial| == |dets| &&
    (forall j :: 0 <= j < |dets| ==> |initial[j].quad| == dets[j].box.Length) &&
    forall j, c :: 0 <= j < |dets| && 0 <= c < dets[j].box.Length ==>
      dets[j].box[c][..] ==
        if j < done && Overwrites(dets, threshold, j, c) then IntCorner(initial[j].quad[c])
        else initial[j].quad[c]
  }

  /** A skipped tuple leaves every list as it was. */
  lemma HandledSkipped(dets: seq<Detection>, threshold: real, initial: seq<Raw>, i: nat)
    requires i < |dets| && !Passes(dets[i].confidence, threshold)
    requires HandledUpTo(dets, threshold, initial, i)
    ensures HandledUpTo(dets, threshold, initial, i + 1)
  {
  }

  /** Once every tuple is handled, each quadrilateral is its initial one,
      truncated exactly when its tuple passed. */
  lemma HandledAll(dets: seq<Detection>, threshold: real, initial: seq<Raw>)
    requires HandledUpTo(dets, threshold, initial, |dets|)
    ensures forall j :: 0 <= j < |dets| ==>
      QuadOf(dets[j].box) ==
        if Passes(dets[j].confidence, threshold) then IntQuad(initial[j].quad) else initial[j].quad
  {
    forall j | 0 <= j < |dets|
      ensures QuadOf(dets[j].box) ==
        if Passes(dets[j].confidence, threshold) then IntQuad(initial[j].quad) else initial[j].quad
    {
    }
  }

  /** Lines 44-52 for one kept tuple: its corners are truncated in place and
      its record is built from the truncated lists. */
  method ConvertKept(dets: seq<Detection>, threshold: real, ghost initial: seq<Raw>, i: nat)
    returns (record: Record)
    requires i < |dets| && Passes(dets[i].confidence, threshold)
    requires HandledUpTo(dets, threshold, initial, i)
    requires Shaped(initial[i].quad)
    requires initial[i].text == dets[i].text && initial[i].confidence == dets[i].confidence
    requires Unshared(dets, threshold)
    modifies set c | 0 <= c < 4 :: dets[i].box[c]
    ensures HandledUpTo(dets, threshold, initial, i + 1)
    ensures record == ToRecord(initial[i])
  {
    var d := dets[i];
    assert QuadOf(d.box) == initial[i].quad;
    label BeforeTruncation:
    TruncateCorners(d.box);
    forall j, c | 0 <= j < |dets| && 0 <= c < dets[j].box.Length
      ensures dets[j].box[c][..] ==
        if j < i + 1 && Overwrites(dets, threshold, j, c) then IntCorner(initial[j].quad[c])
        else initial[j].quad[c]
    {
      if j != i {
        assert forall c' :: 0 <= c' < 4 ==> dets[i].box[c'] != dets[j].box[c];
        assert dets[j].box[c][..] == old@BeforeTruncation(dets[j].box[c][..]);
      }
    }
    record := Record(QuadOf(d.box), d.text, d.confidence);
  }

  /** Lines 40-52: the records of the kept tuples, in order, with the x and y of
      corners 0..3 of every kept tuple overwritten by int(...); the lists of a
      skipped tuple are left exactly as they were. */
  method ConvertDetections(dets: seq<Detection>, threshold: real) returns (output: seq<Record>)
    requires Convertible(Views(dets), threshold)
    requires Unshared(dets, threshold)
    modifies Overwritten(dets, threshold)
    ensures output == Convert(old(Views(dets)), threshold)
    ensures forall j :: 0 <= j < |dets| ==>
      QuadOf(dets[j].box) ==
        if Passes(dets[j].confidence, threshold) then IntQuad(old(QuadOf(dets[j].box)))
        else old(QuadOf(dets[j].box))
  {
    ghost var initial := Views(dets);
    output := [];
    for i := 0 to |dets|
      invariant output == Convert(initial[..i], threshold)
      invariant HandledUpTo(dets, threshold, initial, i)
    {
      var d := dets[i];
      ConvertPrefix(initial, threshold, i);
      if d.confidence < threshold {
        HandledSkipped(dets, threshold, initial, i);
        continue;
      }
      assert Shaped(initial[i].quad);
      assert forall c :: 0 <= c < 4 ==> Overwrites(dets, threshold, i, c);
      var record := ConvertKept(dets, threshold, initial, i);
      output := output + [record];
    }
    assert initial[..|dets|] == initial;
    HandledAll(dets, threshold, initial);
  }
}
