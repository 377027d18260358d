/** Which directory entries are read as images (line 27), and the name of the
    file each image's records are written to (line 55). */
module ImageNames {
  import opened Sequences

  /** Python's str.endswith: an exact, case-sensitive match at the end. */
  predicate EndsWith(s: string, suffix: string): (b: bool)
    ensures b <==> |suffix| <= |s| && forall k :: 0 <= k < |suffix| ==> s[|s| - |suffix| + k] == suffix[k]
  {
    |suffix| <= |s| && s[|s| - |suffix|..] == suffix
  }

  /** The suffixes the script accepts, exactly as spelled there. */
  const ImageSuffixes: seq<string> := [".jpg", ".jpeg", ".JPG"]

  /** A name is read as an image when it ends with one of the three suffixes. */
  predicate IsImageName(name: string): (b: bool)
    ensures b <==> exists k :: 0 <= k < |ImageSuffixes| && EndsWith(name, ImageSuffixes[k])
  {
    assert ImageSuffixes[0] == ".jpg" && ImageSuffixes[1] == ".jpeg" && ImageSuffixes[2] == ".JPG";
    EndsWith(name, ".jpg") || EndsWith(name, ".jpeg") || EndsWith(name, ".JPG")
  }

  /** The list comprehension over the directory listing: the accepted names,
      in listing order. */
  function SelectImages(listing: seq<string>): (images: seq<string>)
    ensures forall n :: n in images <==> n in listing && IsImageName(n)
    decreases |listing|
  {
    if |listing| == 0 then []
    else
      var n := |listing| - 1;
      SelectImages(listing[..n]) + (if IsImageName(listing[n]) then [listing[n]] else [])
  }

  /** The selected names appear in the same order as in the listing. */
  lemma {:induction false} SelectImagesKeepsOrder(listing: seq<string>)
    ensures IsSubsequence(SelectImages(listing), listing)
    decreases |listing|
  {
    if |listing| == 0 {
      SubsequenceReflexive(listing);
    } else {
      var n := |listing| - 1;
      var prefix := listing[..n];
      assert listing == prefix + [listing[n]];
      SelectImagesKeepsOrder(prefix);
      SubsequenceAppend(SelectImages(prefix), prefix, listing[n]);
      if IsImageName(listing[n]) {
        assert SelectImages(listing) == SelectImages(prefix) + [listing[n]];
      } else {
        assert SelectImages(listing) == SelectImages(prefix);
      }
    }
  }

  /** Each accepted name occurs as often as in the listing, every other name never. */
  lemma {:induction false} SelectImagesCounts(listing: seq<string>, name: string)
    ensures multiset(SelectImages(listing))[name] ==
      if IsImageName(name) then multiset(listing)[name] else 0
    decreases |listing|
  {
    if |listing| > 0 {
      var n := |listing| - 1;
      assert listing == listing[..n] + [listing[n]];
      SelectImagesCounts(listing[..n], name);
    }
  }

  /** The three spellings of the script are accepted. */
  lemma AcceptedSuffixes()
    ensures IsImageName("scan.jpg") && IsImageName("scan.jpeg") && IsImageName("scan.JPG")
  {
    assert "scan.jpg"[4..] == ".jpg";
    assert "scan.jpeg"[4..] == ".jpeg";
    assert "scan.JPG"[4..] == ".JPG";
  }

  /** The match is case-sensitive and exact: .JPEG, .Jpg, .png and a bare jpg are rejected. */
  lemma RejectedSuffixes()
    ensures !IsImageName("scan.JPEG") && !IsImageName("scan.Jpg") && !IsImageName("scan.png")
    ensures !IsImageName("jpg")
  {
    assert "scan.JPEG"[5..][0] != ".jpg"[0] && "scan.JPEG"[4..][1] != ".jpeg"[1] && "scan.JPEG"[5..][0] != ".JPG"[0];
    assert "scan.Jpg"[4..][1] != ".jpg"[1] && "scan.Jpg"[3..][0] != ".jpeg"[0] && "scan.Jpg"[4..][2] != ".JPG"[2];
    assert "scan.png"[4..][1] != ".jpg"[1] && "scan.png"[3..][0] != ".jpeg"[0] && "scan.png"[4..][1] != ".JPG"[1];
  }

  /** Both spellings of a.jpg are selected, in listing order. */
  lemma SelectBothSpellings()
    ensures SelectImages(["a.jpg", "a.jpeg"]) == ["a.jpg", "a.jpeg"]
  {
    var listing := ["a.jpg", "a.jpeg"];
    assert listing[..1] == ["a.jpg"] && listing[..1][..0] == [];
    assert IsImageName("a.jpg") && IsImageName("a.jpeg");
  }

  /** Python's s.split('.'): the fields between the dots, in order. */
  function SplitOnDot(s: string): (fields: seq<string>)
    ensures |fields| >= 1
    ensures forall k :: 0 <= k < |fields| ==> '.' !in fields[k]
    decreases |s|
  {
    if |s| == 0 then [""]
    else
      var rest := SplitOnDot(s[1..]);
      if s[0] == '.' then [""] + rest
      else [[s[0]] + rest[0]] + rest[1..]
  }

  /** Python's '.'.join(fields). */
  function JoinWithDot(fields: seq<string>): string
    requires |fields| >= 1
    decreases |fields|
  {
    if |fields| == 1 then fields[0] else fields[0] + "." + JoinWithDot(fields[1..])
  }

  /** Splitting loses nothing: joining the fields gives the name back. */
  lemma {:induction false} SplitThenJoin(s: string)
    ensures JoinWithDot(SplitOnDot(s)) == s
    decreases |s|
  {
    if |s| > 0 {
      SplitThenJoin(s[1..]);
      var rest := SplitOnDot(s[1..]);
      if s[0] == '.' {
        assert ([""] + rest)[1..] == rest;
      } else {
        var fields := [[s[0]] + rest[0]] + rest[1..];
        if |rest| > 1 {
          assert fields[1..] == rest[1..];
          assert JoinWithDot(rest) == rest[0] + "." + JoinWithDot(rest[1..]);
        }
        assert s == [s[0]] + s[1..];
      }
    }
  }

  /** A dot-free head is glued to the first field of what follows it. */
  lemma {:induction false} SplitDotFreeHead(head: string, tail: string)
    requires '.' !in head
    ensures SplitOnDot(head + tail) ==
      [head + SplitOnDot(tail)[0]] + SplitOnDot(tail)[1..]
    decreases |head|
  {
    if |head| > 0 {
      assert (head + tail)[1..] == head[1..] + tail;
      assert (head + tail)[0] == head[0];
      SplitDotFreeHead(head[1..], tail);
      assert [head[0]] + (head[1..] + SplitOnDot(tail)[0]) == head + SplitOnDot(tail)[0];
    } else {
      assert head + tail == tail;
      var fields := SplitOnDot(tail);
      assert fields == [fields[0]] + fields[1..];
      assert head + fields[0] == fields[0];
    }
  }

  /** Joining dot-free fields and splitting again gives the fields back. */
  lemma {:induction false} JoinThenSplit(fields: seq<string>)
    requires |fields| >= 1
    requires forall k :: 0 <= k < |fields| ==> '.' !in fields[k]
    ensures SplitOnDot(JoinWithDot(fields)) == fields
    decreases |fields|
  {
    if |fields| == 1 {
      SplitDotFreeHead(fields[0], "");
      assert fields[0] + "" == fields[0];
    } else {
      var rest := JoinWithDot(fields[1..]);
      JoinThenSplit(fields[1..]);
      assert fields[0] + "." + rest == fields[0] + ("." + rest);
      SplitDotFreeHead(fields[0], "." + rest);
      assert ("." + rest)[1..] == rest;
      var after := SplitOnDot("." + rest);
      assert after == [""] + fields[1..];
      assert after[0] == "" && after[1..] == fields[1..];
      assert fields[0] + after[0] == fields[0];
      assert JoinWithDot(fields) == fields[0] + "." + rest;
      assert fields == [fields[0]] + fields[1..];
    }
  }

  /** Line 55: the name of the file written for an image. */
  function OutputName(image: string): (name: string)
    ensures 4 <= |name| <= |image| + 4
  {
    FirstFieldIsStem(image);
    SplitOnDot(image)[0] + ".txt"
  }

  /** The first field is the part of the name before its first dot (all of it
      when there is no dot). */
  lemma {:induction false} FirstFieldIsStem(image: string)
    ensures |SplitOnDot(image)[0]| <= |image|
    ensures SplitOnDot(image)[0] == image[..|SplitOnDot(image)[0]|]
    ensures '.' !in SplitOnDot(image)[0]
    ensures |SplitOnDot(image)[0]| == |image| || image[|SplitOnDot(image)[0]|] == '.'
    decreases |image|
  {
    if |image| > 0 && image[0] != '.' {
      FirstFieldIsStem(image[1..]);
    }
  }

  /** The output name is the stem before the first dot followed by ".txt". */
  lemma OutputNameIsStemTxt(image: string)
    ensures exists stem :: |stem| <= |image| && stem == image[..|stem|] && '.' !in stem &&
                           (|stem| == |image| || image[|stem|] == '.') &&
                           OutputName(image) == stem + ".txt"
  {
    FirstFieldIsStem(image);
    var stem := SplitOnDot(image)[0];
    assert stem == image[..|stem|];
  }

  /** Every name with the stem before its first dot is written to stem.txt,
      whatever follows the dot: names sharing that stem share one file. */
  lemma StemNamesOutput(stem: string, rest: string)
    requires '.' !in stem
    ensures OutputName(stem + "." + rest) == stem + ".txt"
  {
    assert stem + "." + rest == stem + ("." + rest);
    SplitDotFreeHead(stem, "." + rest);
    assert ("." + rest)[1..] == rest;
    assert stem + "" == stem;
  }

  /** a.jpg, a.jpeg and a.b.jpg are all written to a.txt. */
  lemma CollidingImages()
    ensures OutputName("a.jpg") == "a.txt"
    ensures OutputName("a.jpeg") == "a.txt"
    ensures OutputName("a.b.jpg") == "a.txt"
  {
    StemNamesOutput("a", "jpg");
    StemNamesOutput("a", "jpeg");
    StemNamesOutput("a", "b.jpg");
    assert "a" + "." + "jpg" == "a.jpg";
    assert "a" + "." + "jpeg" == "a.jpeg";
    assert "a" + "." + "b.jpg" == "a.b.jpg";
  }
}
