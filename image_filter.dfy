/** Which listed files the script treats as images: a case-insensitive match on the file name's ending. */
module ImageFilter {
  import opened Wrappers
  import opened Strings

  /** The allow-list of endings, in the order the script lists them. */
  const ImageExtensions: seq<string> :=
    [".png", ".jpg", ".jpeg", ".gif", ".bmp", ".tiff", ".tif", ".webp", ".heic"]

  /** The same allow-list written as bare extension names, without the dot. */
  const ExtensionNames: seq<string> :=
    ["png", "jpg", "jpeg", "gif", "bmp", "tiff", "tif", "webp", "heic"]

  /** Python's `s.endswith(suffixes)` for a tuple: one of the suffixes, tried in order, ends `s`. */
  predicate EndsWithAny(s: string, suffixes: seq<string>)
  {
    |suffixes| > 0 && (EndsWith(s, suffixes[0]) || EndsWithAny(s, suffixes[1..]))
  }

  lemma {:induction false} EndsWithAnyExists(s: string, suffixes: seq<string>)
    ensures EndsWithAny(s, suffixes) <==> exists i :: 0 <= i < |suffixes| && EndsWith(s, suffixes[i])
  {
    if suffixes != [] {
      EndsWithAnyExists(s, suffixes[1..]);
      if exists i :: 0 <= i < |suffixes| && EndsWith(s, suffixes[i]) {
        var i :| 0 <= i < |suffixes| && EndsWith(s, suffixes[i]);
        if i > 0 {
          assert suffixes[1..][i - 1] == suffixes[i];
        }
      }
      if EndsWithAny(s, suffixes[1..]) {
        var i :| 0 <= i < |suffixes[1..]| && EndsWith(s, suffixes[1..][i]);
        assert suffixes[i + 1] == suffixes[1..][i];
      }
    }
  }

  /** `path.lower().endswith(image_extensions)`. */
  predicate IsImage(path: string)
  {
    EndsWithAny(Lower(path), ImageExtensions)
  }

  /** A list comprehension `[x for x in s if keep(x)]`. */
  function Filter<T>(s: seq<T>, keep: T -> bool): (r: seq<T>)
    ensures |r| <= |s|
    ensures forall i :: 0 <= i < |r| ==> keep(r[i])
  {
    if s == [] then []
    else (if keep(s[0]) then [s[0]] else []) + Filter(s[1..], keep)
  }

  /** The positions of the kept elements of `s`, in increasing order. */
  function KeptPositions<T>(s: seq<T>, keep: T -> bool): (r: seq<nat>)
    ensures |r| <= |s|
  {
    if s == [] then []
    else (if keep(s[0]) then [0] else []) + Shift(KeptPositions(s[1..], keep))
  }

  /** Positions of a list's tail, renumbered as positions of the whole list. */
  function Shift(positions: seq<nat>): (r: seq<nat>)
    ensures |r| == |positions|
    ensures forall k :: 0 <= k < |r| ==> r[k] == positions[k] + 1
  {
    seq(|positions|, k requires 0 <= k < |positions| => positions[k] + 1)
  }

  lemma ShiftMembership(positions: seq<nat>, j: nat)
    ensures j in Shift(positions) <==> j > 0 && j - 1 in positions
  {
    if j > 0 && j - 1 in positions {
      var m :| 0 <= m < |positions| && positions[m] == j - 1;
      assert Shift(positions)[m] == j;
    }
  }

  lemma {:induction false} KeptPositionsRead<T>(s: seq<T>, keep: T -> bool)
    ensures |KeptPositions(s, keep)| == |Filter(s, keep)|
    ensures forall k :: 0 <= k < |KeptPositions(s, keep)| ==>
      KeptPositions(s, keep)[k] < |s| && Filter(s, keep)[k] == s[KeptPositions(s, keep)[k]]
  {
    if s != [] {
      var tail := s[1..];
      KeptPositionsRead(tail, keep);
      var idx, rest := KeptPositions(s, keep), KeptPositions(tail, keep);
      var r, rt := Filter(s, keep), Filter(tail, keep);
      var h := if keep(s[0]) then 1 else 0;
      assert |r| == h + |rt| && |idx| == h + |rest|;
      forall k | h <= k < |idx|
        ensures idx[k] < |s| && r[k] == s[idx[k]]
      {
        assert idx[k] == rest[k - h] + 1;
        assert r[k] == rt[k - h] == tail[rest[k - h]];
      }
    }
  }

  lemma {:induction false} KeptPositionsIncreasing<T>(s: seq<T>, keep: T -> bool)
    ensures forall k, l :: 0 <= k < l < |KeptPositions(s, keep)| ==>
      KeptPositions(s, keep)[k] < KeptPositions(s, keep)[l]
  {
    if s != [] {
      KeptPositionsIncreasing(s[1..], keep);
      var idx, rest := KeptPositions(s, keep), KeptPositions(s[1..], keep);
      var h := if keep(s[0]) then 1 else 0;
      forall k, l | 0 <= k < l < |idx|
        ensures idx[k] < idx[l]
      {
        assert idx[l] == rest[l - h] + 1;
        if k >= h {
          assert idx[k] == rest[k - h] + 1;
        }
      }
    }
  }

  lemma {:induction false} KeptPositionsExact<T>(s: seq<T>, keep: T -> bool, j: nat)
    requires j < |s|
    ensures keep(s[j]) <==> j in KeptPositions(s, keep)
  {
    var rest := KeptPositions(s[1..], keep);
    ShiftMembership(rest, j);
    if j > 0 {
      KeptPositionsExact(s[1..], keep, j - 1);
      assert s[j] == s[1..][j - 1];
    }
  }

  /** An element is kept exactly when it occurs in the input and passes the test. */
  lemma {:induction false} FilterMembership<T>(s: seq<T>, keep: T -> bool, x: T)
    ensures x in Filter(s, keep) <==> x in s && keep(x)
  {
    if s != [] {
      FilterMembership(s[1..], keep, x);
      assert s == [s[0]] + s[1..];
    }
  }

  /** Filtering a concatenation filters each part. */
  lemma {:induction false} FilterAppend<T>(a: seq<T>, b: seq<T>, keep: T -> bool)
    ensures Filter(a + b, keep) == Filter(a, keep) + Filter(b, keep)
  {
    if a == [] {
      assert a + b == b;
    } else {
      assert (a + b)[0] == a[0];
      assert (a + b)[1..] == a[1..] + b;
      FilterAppend(a[1..], b, keep);
    }
  }

  /** Filtering the filtered list changes nothing. */
  lemma {:induction false} FilterIdempotent<T>(s: seq<T>, keep: T -> bool)
    ensures Filter(Filter(s, keep), keep) == Filter(s, keep)
  {
    if s != [] {
      var head := if keep(s[0]) then [s[0]] else [];
      FilterAppend(head, Filter(s[1..], keep), keep);
      FilterIdempotent(s[1..], keep);
      if keep(s[0]) {
        assert Filter(head, keep) == [s[0]] + Filter(head[1..], keep);
      }
    }
  }

  /** `detect_images`: the paths of the listing that are image paths, in their listed order. */
  function DetectImages(paths: seq<string>): (r: seq<string>)
    ensures |r| <= |paths|
    ensures forall i :: 0 <= i < |r| ==> IsImage(r[i])
  {
    Filter(paths, IsImage)
  }

  /**
   * The result is the input read at a strictly increasing sequence of positions, and those
   * positions are exactly the ones holding an image path: nothing reordered, nothing dropped
   * that should be kept, nothing kept that should be dropped.
   */
  lemma DetectImagesSelectsPositions(paths: seq<string>) returns (idx: seq<nat>)
    ensures |idx| == |DetectImages(paths)|
    ensures forall k :: 0 <= k < |idx| ==> idx[k] < |paths| && DetectImages(paths)[k] == paths[idx[k]]
    ensures forall k, l :: 0 <= k < l < |idx| ==> idx[k] < idx[l]
    ensures forall j :: 0 <= j < |paths| ==> (IsImage(paths[j]) <==> j in idx)
  {
    idx := KeptPositions(paths, IsImage);
    KeptPositionsRead(paths, IsImage);
    KeptPositionsIncreasing(paths, IsImage);
    forall j | 0 <= j < |paths|
      ensures IsImage(paths[j]) <==> j in idx
    {
      KeptPositionsExact(paths, IsImage, j);
    }
  }

  /** A path is in the result exactly when it is in the input and is an image path. */
  lemma DetectImagesMembership(paths: seq<string>, p: string)
    ensures p in DetectImages(paths) <==> p in paths && IsImage(p)
  {
    FilterMembership(paths, IsImage, p);
  }

  /** Applying the filter to its own output returns it unchanged. */
  lemma DetectImagesIdempotent(paths: seq<string>)
    ensures DetectImages(DetectImages(paths)) == DetectImages(paths)
  {
    FilterIdempotent(paths, IsImage);
  }

  /** Listing two groups of files and filtering is filtering each group. */
  lemma DetectImagesAppend(a: seq<string>, b: seq<string>)
    ensures DetectImages(a + b) == DetectImages(a) + DetectImages(b)
  {
    FilterAppend(a, b, IsImage);
  }

  /** Whether a path is kept does not depend on the case of its letters. */
  lemma IsImageIgnoresCase(a: string, b: string)
    requires SameIgnoringCase(a, b)
    ensures IsImage(a) <==> IsImage(b)
  {
    SameIgnoringCaseLower(a, b);
  }

  /** Upper- or lower-casing a path never changes whether it is kept. */
  lemma IsImageUnderCaseChange(path: string)
    ensures IsImage(Upper(path)) <==> IsImage(path)
    ensures IsImage(Lower(path)) <==> IsImage(path)
  {
    LowerCaseVariants(path);
    IsImageIgnoresCase(path, Upper(path));
    IsImageIgnoresCase(path, Lower(path));
  }

  /** The text after the last `.` of `s`, or `None` when `s` has no `.`. */
  function AfterLastDot(s: string): (r: Option<string>)
  {
    if s == [] then None
    else if s[|s| - 1] == '.' then Some([])
    else match AfterLastDot(s[..|s| - 1])
      case None => None
      case Some(e) => Some(e + [s[|s| - 1]])
  }

  /** For a dot-free name `x`, the text after the last dot is `x` exactly when `s` ends with `.x`. */
  lemma {:induction false} AfterLastDotEndsWith(s: string, x: string)
    requires '.' !in x
    ensures AfterLastDot(s) == Some(x) <==> EndsWith(s, ['.'] + x)
  {
    if s != [] && s[|s| - 1] != '.' {
      var s' := s[..|s| - 1];
      if x == [] {
        assert !EndsWith(s, ['.'] + x);
      } else {
        var x' := x[..|x| - 1];
        assert '.' !in x' by {
          assert forall c :: c in x' ==> c in x;
        }
        AfterLastDotEndsWith(s', x');
        assert x == x' + [x[|x| - 1]];
        assert ['.'] + x == (['.'] + x') + [x[|x| - 1]];
        if EndsWith(s, ['.'] + x) {
          assert s'[|s'| - |['.'] + x'|..] == s[|s| - |['.'] + x|..|s| - 1];
        }
        if EndsWith(s', ['.'] + x') && s[|s| - 1] == x[|x| - 1] {
          assert s[|s| - |['.'] + x|..] == s'[|s'| - |['.'] + x'|..] + [s[|s| - 1]];
        }
      }
    } else if s != [] && x != [] {
      assert x[|x| - 1] in x;
      assert (['.'] + x)[|['.'] + x| - 1] == x[|x| - 1];
    }
  }

  /**
   * The ending test agrees with reading the extension after the last dot of the lowercased
   * path and looking it up in the allow-list.
   */
  lemma IsImageByExtension(path: string)
    ensures IsImage(path) <==> AfterLastDot(Lower(path)).Some? && AfterLastDot(Lower(path)).value in ExtensionNames
  {
    var l := Lower(path);
    EndsWithAnyExists(l, ImageExtensions);
    forall i | 0 <= i < |ImageExtensions|
      ensures EndsWith(l, ImageExtensions[i]) <==> AfterLastDot(l) == Some(ExtensionNames[i])
    {
      assert ImageExtensions[i] == ['.'] + ExtensionNames[i];
      AfterLastDotEndsWith(l, ExtensionNames[i]);
    }
    if AfterLastDot(l).Some? && AfterLastDot(l).value in ExtensionNames {
      var i :| 0 <= i < |ExtensionNames| && ExtensionNames[i] == AfterLastDot(l).value;
      assert EndsWith(l, ImageExtensions[i]);
    }
  }

  /** A JPEG whose extension is in capitals is an image. */
  lemma UpperCaseJpegIsImage()
    ensures IsImage("source/photo.JPG")
  {
    var jpg := "source/photo.JPG";
    assert Lower(jpg)[|jpg| - 4..] == ".jpg";
    assert EndsWith(Lower(jpg), ImageExtensions[1]);
    EndsWithAnyExists(Lower(jpg), ImageExtensions);
  }

  /** A text file is not. */
  lemma TextFileIsNotImage()
    ensures !IsImage("source/notes.txt")
  {
    var txt := "source/notes.txt";
    assert Lower(txt)[|txt| - 4..] == ".txt";
    AfterLastDotEndsWith(Lower(txt), "txt");
    IsImageByExtension(txt);
  }

  /** Of a capitalised JPEG and a text file, only the JPEG is kept. */
  lemma DetectImagesExample()
    ensures DetectImages(["source/photo.JPG", "source/notes.txt"]) == ["source/photo.JPG"]
  {
    UpperCaseJpegIsImage();
    TextFileIsNotImage();
    assert ["source/photo.JPG", "source/notes.txt"][1..] == ["source/notes.txt"];
  }
}
