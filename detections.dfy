/** The per-image conversion of OCR results into output records, as values:
    keep the triples whose confidence reaches the threshold, in their order,
    with the first four corners' x and y passed through int(). */
module Detections {
  import opened Numbers
  import opened Sequences

  /** One (quad, text, confidence) triple returned by the OCR collaborator. */
  datatype Raw = Raw(quad: seq<seq<Num>>, text: string, confidence: real)

  /** One {coordinates, text, confidence} entry of the list written per image. */
  datatype Record = Record(coordinates: seq<seq<Num>>, text: string, confidence: real)

  /** The script skips a triple when its confidence is below the threshold. */
  predicate Passes(confidence: real, threshold: real): (kept: bool)
    ensures kept <==> confidence >= threshold
  {
    !(confidence < threshold)
  }

  /** The shape the conversion loop indexes: corners 0..3, each with an x and a y. */
  predicate Shaped(quad: seq<seq<Num>>) {
    |quad| >= 4 && forall c :: 0 <= c < 4 ==> |quad[c]| >= 2
  }

  /** Every triple that passes the threshold has that shape. */
  predicate Convertible(raws: seq<Raw>, threshold: real) {
    forall j :: 0 <= j < |raws| && Passes(raws[j].confidence, threshold) ==> Shaped(raws[j].quad)
  }

  /** A corner after its x (index 0) and y (index 1) went through int(). */
  function IntCorner(corner: seq<Num>): (r: seq<Num>)
    ensures |r| == |corner|
    ensures forall k :: 0 <= k < |r| && k < 2 ==> r[k].Int?
    ensures forall k :: 0 <= k < |r| && (k >= 2 || corner[k].Int?) ==> r[k] == corner[k]
    ensures forall k :: 0 <= k < |r| && k < 2 && corner[k].Float? ==> r[k] == Int(Trunc(corner[k].f))
  {
    seq(|corner|, k requires 0 <= k < |corner| => if k < 2 then ToInt(corner[k]) else corner[k])
  }

  /** A quadrilateral after corners 0..3 went through IntCorner. */
  function IntQuad(quad: seq<seq<Num>>): (r: seq<seq<Num>>)
    ensures |r| == |quad|
    ensures forall c :: 0 <= c < |r| ==> |r[c]| == |quad[c]|
    ensures forall c :: 4 <= c < |r| ==> r[c] == quad[c]
    ensures forall c, k :: 0 <= c < |r| && c < 4 && 0 <= k < |r[c]| && k < 2 ==> r[c][k].Int?
    ensures forall c, k :: 0 <= c < |r| && 0 <= k < |r[c]| && k >= 2 ==> r[c][k] == quad[c][k]
    ensures forall c :: 0 <= c < |r| && c < 4 ==> r[c] == IntCorner(quad[c])
    ensures ConvertedFrom(r, quad)
  {
    seq(|quad|, c requires 0 <= c < |quad| => if c < 4 then IntCorner(quad[c]) else quad[c])
  }

  /** Converting a corner that was already converted changes nothing, so a list
      written twice by the loop ends up as if written once. */
  lemma IntCornerIdempotent(corner: seq<Num>)
    ensures IntCorner(IntCorner(corner)) == IntCorner(corner)
  {
    forall k | 0 <= k < |corner| && k < 2
      ensures IntCorner(IntCorner(corner))[k] == IntCorner(corner)[k]
    {
      ToIntIdempotent(corner[k]);
    }
  }

  /** coordinates is quad with the x and y of corners 0..3 replaced by int()
      of the values they replace, and every other entry as it was. */
  predicate ConvertedFrom(coordinates: seq<seq<Num>>, quad: seq<seq<Num>>) {
    |coordinates| == |quad| &&
    (forall c :: 0 <= c < |quad| ==> |coordinates[c]| == |quad[c]|) &&
    forall c, i :: 0 <= c < |quad| && 0 <= i < |quad[c]| ==>
      coordinates[c][i] == if c < 4 && i < 2 then ToInt(quad[c][i]) else quad[c][i]
  }

  /** The record appended for a kept triple. */
  function ToRecord(d: Raw): (r: Record)
    ensures r.text == d.text && r.confidence == d.confidence
    ensures ConvertedFrom(r.coordinates, d.quad)
    ensures Shaped(d.quad) ==> IntegerCorners(r.coordinates)
  {
    Record(IntQuad(d.quad), d.text, d.confidence)
  }

  /** The list written for one image, built in the order of the OCR results. */
  function Convert(raws: seq<Raw>, threshold: real): (out: seq<Record>)
    ensures |out| <= |raws|
    decreases |raws|
  {
    if |raws| == 0 then []
    else
      var n := |raws| - 1;
      Convert(raws[..n], threshold) +
        (if Passes(raws[n].confidence, threshold) then [ToRecord(raws[n])] else [])
  }

  /** The positions of the triples that pass, in increasing order: exactly those. */
  function PassingIndices(raws: seq<Raw>, threshold: real): (ks: seq<nat>)
    ensures forall k :: 0 <= k < |ks| ==> ks[k] < |raws| && Passes(raws[ks[k]].confidence, threshold)
    ensures forall k, l :: 0 <= k < l < |ks| ==> ks[k] < ks[l]
    ensures forall j :: 0 <= j < |raws| && Passes(raws[j].confidence, threshold) ==> j in ks
    decreases |raws|
  {
    if |raws| == 0 then []
    else
      var n := |raws| - 1;
      PassingIndices(raws[..n], threshold) +
        (if Passes(raws[n].confidence, threshold) then [n] else [])
  }

  /** A triple is kept exactly when its confidence is at least the threshold;
      a confidence equal to the threshold is kept. */
  lemma KeptIffAtLeastThreshold(raws: seq<Raw>, threshold: real, j: nat)
    requires j < |raws|
    ensures j in PassingIndices(raws, threshold) <==> raws[j].confidence >= threshold
  {
    var ks := PassingIndices(raws, threshold);
    if j in ks {
      var k :| 0 <= k < |ks| && ks[k] == j;
    }
  }

  /** The output is the records of the passing triples, one each, in input order:
      nothing dropped, nothing duplicated, nothing reordered. */
  lemma {:induction false} ConvertByIndex(raws: seq<Raw>, threshold: real)
    ensures |Convert(raws, threshold)| == |PassingIndices(raws, threshold)|
    ensures forall k :: 0 <= k < |Convert(raws, threshold)| ==>
      Convert(raws, threshold)[k] == ToRecord(raws[PassingIndices(raws, threshold)[k]])
    decreases |raws|
  {
    if |raws| > 0 {
      var n := |raws| - 1;
      ConvertByIndex(raws[..n], threshold);
    }
  }

  /** Each output record carries the text and confidence of the triple it came from,
      its coordinates with x and y of corners 0..3 passed through int(), and so
      integer x and y in its first four corners. */
  lemma RecordFields(raws: seq<Raw>, threshold: real, k: nat)
    requires Convertible(raws, threshold)
    requires k < |Convert(raws, threshold)|
    ensures exists j :: (0 <= j < |raws| && Passes(raws[j].confidence, threshold) &&
                         Convert(raws, threshold)[k].text == raws[j].text &&
                         Convert(raws, threshold)[k].confidence == raws[j].confidence &&
                         ConvertedFrom(Convert(raws, threshold)[k].coordinates, raws[j].quad) &&
                         IntegerCorners(Convert(raws, threshold)[k].coordinates))
  {
    ConvertByIndex(raws, threshold);
    var j := PassingIndices(raws, threshold)[k];
    assert Shaped(raws[j].quad);
    assert IntegerCorners(IntQuad(raws[j].quad));
  }

  /** Corners 0..3 each hold an x and a y that are Python ints. */
  predicate IntegerCorners(coordinates: seq<seq<Num>>) {
    |coordinates| >= 4 &&
    forall c :: 0 <= c < 4 ==> |coordinates[c]| >= 2 && coordinates[c][0].Int? && coordinates[c][1].Int?
  }

  /** For a well-formed quadrilateral of exactly four (x, y) points, every
      output coordinate is an int. */
  lemma FourPointRecordsAreIntegral(d: Raw)
    requires |d.quad| == 4 && forall c :: 0 <= c < 4 ==> |d.quad[c]| == 2
    ensures forall c, k :: 0 <= c < 4 && 0 <= k < 2 ==> ToRecord(d).coordinates[c][k].Int?
  {
  }

  /** One step of Convert: the last triple contributes its record when it passes. */
  lemma ConvertLast(raws: seq<Raw>, threshold: real)
    requires |raws| > 0
    ensures Convert(raws, threshold) ==
      Convert(raws[..|raws| - 1], threshold) +
        (if Passes(raws[|raws| - 1].confidence, threshold) then [ToRecord(raws[|raws| - 1])] else [])
  {
  }

  /** Processing one more triple appends its record exactly when it passes. */
  lemma ConvertAppend(raws: seq<Raw>, d: Raw, threshold: real)
    ensures Convert(raws + [d], threshold) ==
      Convert(raws, threshold) + (if Passes(d.confidence, threshold) then [ToRecord(d)] else [])
  {
    assert (raws + [d])[..|raws|] == raws;
  }

  /** Convert over a prefix one element longer. */
  lemma ConvertPrefix(raws: seq<Raw>, threshold: real, i: nat)
    requires i < |raws|
    ensures Convert(raws[..i + 1], threshold) ==
      Convert(raws[..i], threshold) +
        (if Passes(raws[i].confidence, threshold) then [ToRecord(raws[i])] else [])
  {
    assert raws[..i + 1][..i] == raws[..i];
  }

  /** Raising the threshold keeps a subsequence of the records kept at the lower one. */
  lemma {:induction false} ThresholdMonotone(raws: seq<Raw>, low: real, high: real)
    requires low <= high
    ensures IsSubsequence(Convert(raws, high), Convert(raws, low))
    decreases |raws|
  {
    if |raws| == 0 {
      SubsequenceReflexive<Record>([]);
    } else {
      var n := |raws| - 1;
      ThresholdMonotone(raws[..n], low, high);
      ConvertLast(raws, low);
      ConvertLast(raws, high);
      var h, l := Convert(raws[..n], high), Convert(raws[..n], low);
      if Passes(raws[n].confidence, low) {
        SubsequenceAppend(h, l, ToRecord(raws[n]));
        assert Convert(raws, low) == l + [ToRecord(raws[n])];
        if !Passes(raws[n].confidence, high) {
          assert Convert(raws, high) == h;
        }
      } else {
        assert !Passes(raws[n].confidence, high);
        assert Convert(raws, high) == h && Convert(raws, low) == l;
      }
    }
  }

  /** A zero threshold keeps every triple whose confidence is non-negative:
      the output is every triple's record, in order. */
  lemma {:induction false} ZeroThresholdKeepsAll(raws: seq<Raw>)
    requires forall j :: 0 <= j < |raws| ==> raws[j].confidence >= 0.0
    ensures Convert(raws, 0.0) == seq(|raws|, k requires 0 <= k < |raws| => ToRecord(raws[k]))
    decreases |raws|
  {
    if |raws| > 0 {
      var n := |raws| - 1;
      ZeroThresholdKeepsAll(raws[..n]);
      assert Convert(raws, 0.0) == Convert(raws[..n], 0.0) + [ToRecord(raws[n])];
    }
  }
}
