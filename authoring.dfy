/**
 * Authoring a custom package (create.go): read the author and title from
 * standard input, renumber the image files of the package's directory to
 * descending sticker ids, make the two tab images from the first sticker,
 * write the metadata file and index the package.
 *
 * The renumbering is modelled twice. ScratchPass and FinalPass are the two
 * rename loops as the source writes them; the lemmas beside them show inputs
 * on which a rename overwrites an image that has not been moved yet.
 * Renumber is the renumbering those loops are meant to perform, staged so
 * that no image is overwritten, and Create uses it. Staged renumbering
 * converts every image before renaming any, so a PNG that does not decode
 * leaves the directory untouched; the source's second pass converts as it
 * goes and stops with part of the directory already renamed.
 */
module Authoring {
  import opened Wrappers
  import opened Text
  import opened Sorting
  import opened Metadata
  import opened Library
  import opened FileSystem
  import opened Catalog

  /** fmt.Sprint(n, ".jpg"): the file name of sticker n. */
  function ImageName(n: int): string
  {
    IntToString(n) + ".jpg"
  }

  /** A sticker's file name is a JPEG name that starts with a digit or a minus sign. */
  lemma ImageNameShape(n: int)
    ensures Ext(ImageName(n)) == ".jpg"
    ensures ImageName(n)[0] == '-' || IsAsciiDigit(ImageName(n)[0])
  {
    ExtOfSuffix(IntToString(n), ".jpg");
    IntToStringSign(n);
    if n >= 0 {
      assert IsAsciiDigit(NatToString(n)[0]);
    }
  }

  /** A sticker's file name names a file of the package directory itself. */
  lemma ImageNameFlat(n: int)
    ensures FlatName(ImageName(n))
  {
    var s := IntToString(n);
    forall i | 0 <= i < |s| ensures s[i] != '/' {
      if n < 0 && i > 0 {
        assert s[i] == NatToString(-n)[i - 1];
      }
    }
    forall i | 0 <= i < |s + ".jpg"| ensures (s + ".jpg")[i] != '/' {
      if i >= |s| {
        assert (s + ".jpg")[i] == ".jpg"[i - |s|];
      }
    }
  }

  /** Different stickers get different file names. */
  lemma ImageNameInjective(m: int, n: int)
    requires ImageName(m) == ImageName(n)
    ensures m == n
  {
    var x := ImageName(m);
    assert x[..|x| - 4] == IntToString(m);
    assert x[..|x| - 4] == IntToString(n);
    IntToStringInjective(m, n);
  }

  /** The files both loops renumber: the JPEG and PNG images. */
  predicate IsImage(name: string)
  {
    Ext(name) == ".jpg" || Ext(name) == ".png"
  }

  // ------------------------------------------------ the loops as written

  /** A pass over a listing: the directory afterwards, the images counted, and whether it ran to the end. */
  datatype Pass = Pass(files: Directory, count: int, ok: bool)

  /**
   * The first loop of create: the k-th .jpg of the listing is renamed to
   * k.jpg, one rename at a time on the live directory; a rename that finds
   * its source missing stops the loop.
   */
  function ScratchPass(d: Directory, names: seq<string>, count: int): Pass
    decreases |names|
  {
    if names == [] then Pass(d, count, true)
    else if Ext(names[0]) != ".jpg" then ScratchPass(d, names[1..], count)
    else if names[0] !in d then Pass(d, count, false)
    else ScratchPass(Renamed(d, names[0], ImageName(count)), names[1..], count + 1)
  }

  /**
   * The second loop of create: the k-th .jpg or .png of the listing becomes
   * (begin-k).jpg; a .jpg is renamed, a .png is converted, written under the
   * new name and removed. A missing source or a PNG that does not decode
   * stops the loop.
   */
  function FinalPass(d: Directory, names: seq<string>, begin: int, count: int, pngToJpeg: string -> Option<string>): Pass
    decreases |names|
  {
    if names == [] then Pass(d, count, true)
    else
      var name := names[0];
      if Ext(name) == ".jpg" then
        if name !in d then Pass(d, count, false)
        else FinalPass(Renamed(d, name, ImageName(begin - count)), names[1..], begin, count + 1, pngToJpeg)
      else if Ext(name) == ".png" then
        if name !in d || pngToJpeg(d[name]).None? then Pass(d, count, false)
        else FinalPass(d[ImageName(begin - count) := pngToJpeg(d[name]).value] - {name}, names[1..], begin, count + 1, pngToJpeg)
      else FinalPass(d, names[1..], begin, count, pngToJpeg)
  }

  /** One step of the first loop, whatever the file. */
  lemma ScratchUnfold(d: Directory, names: seq<string>, count: int)
    requires names != []
    ensures ScratchPass(d, names, count)
            == if Ext(names[0]) != ".jpg" then ScratchPass(d, names[1..], count)
               else if names[0] !in d then Pass(d, count, false)
               else ScratchPass(Renamed(d, names[0], ImageName(count)), names[1..], count + 1)
  {
  }

  /** The first rename loop on the disk. */
  method ScratchRenumber(disk: Disk, dir: string, names: seq<string>) returns (ok: bool)
    requires dir in disk.dirs
    modifies disk
    ensures ok == ScratchPass(old(disk.dirs[dir]), names, 0).ok
    ensures disk.dirs == old(disk.dirs)[dir := ScratchPass(old(disk.dirs[dir]), names, 0).files]
  {
    var count := 0;
    var i := 0;
    while i < |names|
      invariant 0 <= i <= |names|
      invariant dir in disk.dirs && disk.dirs == old(disk.dirs)[dir := disk.dirs[dir]]
      invariant ScratchPass(old(disk.dirs[dir]), names, 0) == ScratchPass(disk.dirs[dir], names[i..], count)
    {
      ghost var d := disk.dirs[dir];
      ScratchUnfold(d, names[i..], count);
      assert names[i..][0] == names[i] && names[i..][1..] == names[i + 1..];
      if Ext(names[i]) == ".jpg" {
        ok := disk.Rename(dir, names[i], ImageName(count));
        if !ok {
          return;
        }
        Overwritten(old(disk.dirs), dir, d, Renamed(d, names[i], ImageName(count)));
        count := count + 1;
      }
      i := i + 1;
    }
    ok := true;
  }

  /** One step of the second loop, whatever the file. */
  lemma FinalUnfold(d: Directory, names: seq<string>, begin: int, count: int, pngToJpeg: string -> Option<string>)
    requires names != []
    ensures FinalPass(d, names, begin, count, pngToJpeg)
            == var name := names[0];
               if Ext(name) == ".jpg" then
                 if name !in d then Pass(d, count, false)
                 else FinalPass(Renamed(d, name, ImageName(begin - count)), names[1..], begin, count + 1, pngToJpeg)
               else if Ext(name) == ".png" then
                 if name !in d || pngToJpeg(d[name]).None? then Pass(d, count, false)
                 else FinalPass(d[ImageName(begin - count) := pngToJpeg(d[name]).value] - {name}, names[1..], begin,
                                count + 1, pngToJpeg)
               else FinalPass(d, names[1..], begin, count, pngToJpeg)
  {
  }

  /** The second rename loop on the disk; `count` is the number of images it renumbered. */
  method FinalRenumber(disk: Disk, dir: string, names: seq<string>, begin: int, pngToJpeg: string -> Option<string>)
    returns (count: int, ok: bool)
    requires dir in disk.dirs
    modifies disk
    ensures dir in disk.dirs && disk.dirs == old(disk.dirs)[dir := disk.dirs[dir]]
    ensures Pass(disk.dirs[dir], count, ok) == FinalPass(old(disk.dirs[dir]), names, begin, 0, pngToJpeg)
  {
    count := 0;
    var i := 0;
    while i < |names|
      invariant 0 <= i <= |names|
      invariant dir in disk.dirs && disk.dirs == old(disk.dirs)[dir := disk.dirs[dir]]
      invariant FinalPass(old(disk.dirs[dir]), names, begin, 0, pngToJpeg) == FinalPass(disk.dirs[dir], names[i..], begin, count, pngToJpeg)
    {
      ghost var d := disk.dirs[dir];
      FinalUnfold(d, names[i..], begin, count, pngToJpeg);
      assert names[i..][0] == names[i] && names[i..][1..] == names[i + 1..];
      var name := names[i];
      var target := ImageName(begin - count);
      if Ext(name) == ".jpg" {
        ok := disk.Rename(dir, name, target);
        if !ok {
          return;
        }
        Overwritten(old(disk.dirs), dir, d, Renamed(d, name, target));
        count := count + 1;
      } else if Ext(name) == ".png" {
        var png := disk.ReadFile(dir, name);
        if png.None? {
          return count, false;
        }
        var jpeg := pngToJpeg(png.value);
        if jpeg.None? {
          return count, false;
        }
        ImageNameFlat(begin - count);
        var written := disk.WriteFile(dir, target, jpeg.value);
        var removed := disk.Remove(dir, name);
        Overwritten(old(disk.dirs), dir, d, d[target := jpeg.value]);
        Overwritten(old(disk.dirs), dir, d[target := jpeg.value], d[target := jpeg.value] - {name});
        count := count + 1;
      }
      i := i + 1;
    }
    ok := true;
  }

  /** One step of the first loop over a .jpg. */
  lemma ScratchStep(d: Directory, names: seq<string>, count: int)
    requires names != [] && Ext(names[0]) == ".jpg" && names[0] in d
    ensures ScratchPass(d, names, count) == ScratchPass(Renamed(d, names[0], ImageName(count)), names[1..], count + 1)
  {
  }

  /** One step of the second loop over a .jpg. */
  lemma FinalStep(d: Directory, names: seq<string>, begin: int, count: int, pngToJpeg: string -> Option<string>)
    requires names != [] && Ext(names[0]) == ".jpg" && names[0] in d
    ensures FinalPass(d, names, begin, count, pngToJpeg)
            == FinalPass(Renamed(d, names[0], ImageName(begin - count)), names[1..], begin, count + 1, pngToJpeg)
  {
  }

  lemma RenamedSelf(d: Directory, x: string)
    requires x in d
    ensures Renamed(d, x, x) == d
  {
  }

  lemma RenamedOntoLater(a: string, b: string, c: string, e: string, va: string, vb: string, vc: string, ve: string)
    requires a != b && a != c && a != e && b != c && b != e && c != e
    ensures Renamed(map[a := va, b := vb, c := vc, e := ve], c, e) == map[a := va, b := vb, e := vc]
  {
  }

  lemma RenamedToFresh(a: string, b: string, e: string, f: string, va: string, vb: string, ve: string)
    requires a != b && a != e && b != e && f != a && f != b && f != e
    ensures Renamed(map[a := va, b := vb, e := ve], e, f) == map[a := va, b := vb, f := ve]
  {
  }

  lemma RenamedOntoOther(a: string, b: string, va: string, vb: string)
    requires a != b
    ensures Renamed(map[a := va, b := vb], a, b) == map[b := va]
  {
  }

  lemma RenamedSingle(a: string, b: string, va: string)
    ensures Renamed(map[a := va], a, b) == map[b := va]
  {
  }

  /** The sticker file names the counterexamples use. */
  lemma SmallImageNames()
    ensures ImageName(0) == "0.jpg" && ImageName(1) == "1.jpg" && ImageName(2) == "2.jpg" && ImageName(3) == "3.jpg"
  {
    assert IntToString(0) == "0" && IntToString(1) == "1" && IntToString(2) == "2" && IntToString(3) == "3";
  }

  /** A name ending in ".jpg" is a JPEG name. */
  lemma JpegName(name: string)
    requires |name| >= 4 && name[|name| - 4..] == ".jpg"
    ensures Ext(name) == ".jpg"
  {
    var stem := name[..|name| - 4];
    assert name == stem + ".jpg";
    ExtOfSuffix(stem, ".jpg");
  }

  /** Every name of the counterexamples is a JPEG name. */
  lemma SmallImageExts()
    ensures Ext("0.jpg") == ".jpg" && Ext("1.jpg") == ".jpg" && Ext("10.jpg") == ".jpg" && Ext("2.jpg") == ".jpg"
  {
    JpegName("0.jpg");
    JpegName("1.jpg");
    JpegName("10.jpg");
    JpegName("2.jpg");
  }

  /** Four names in increasing order, each once, list a directory of four files. */
  lemma FourListed(a: string, b: string, c: string, e: string, va: string, vb: string, vc: string, ve: string)
    requires LexLess(a, b) && LexLess(b, c) && LexLess(c, e)
    ensures Listing(map[a := va, b := vb, c := vc, e := ve], [a, b, c, e])
  {
    LexLessIsStrictTotalOrder();
    var d := map[a := va, b := vb, c := vc, e := ve];
    assert a != b && a != c && a != e && b != c && b != e && c != e;
    assert d.Keys == {a, b, c, e};
    assert |d| == 4;
  }

  /** ReadDir lists 10.jpg between 1.jpg and 2.jpg. */
  lemma FourNamesListed(d: Directory, names: seq<string>)
    requires d == map["0.jpg" := "A", "1.jpg" := "B", "10.jpg" := "C", "2.jpg" := "D"]
    requires names == ["0.jpg", "1.jpg", "10.jpg", "2.jpg"]
    ensures Listing(d, names)
  {
    assert LexLess("0.jpg", "1.jpg") && LexLess("1.jpg", "10.jpg") && LexLess("10.jpg", "2.jpg");
    FourListed("0.jpg", "1.jpg", "10.jpg", "2.jpg", "A", "B", "C", "D");
  }

  /** The first loop on four JPEG names where the third is renamed onto the fourth. */
  lemma ScratchPassOntoLater(a: string, b: string, c: string, e: string, f: string,
                             va: string, vb: string, vc: string, ve: string,
                             k: int, k1: int, k2: int, k3: int)
    requires a != b && a != c && a != e && b != c && b != e && c != e && f != a && f != b && f != e
    requires Ext(a) == ".jpg" && Ext(b) == ".jpg" && Ext(c) == ".jpg" && Ext(e) == ".jpg"
    requires k1 == k + 1 && k2 == k + 2 && k3 == k + 3
    requires ImageName(k) == a && ImageName(k1) == b && ImageName(k2) == e && ImageName(k3) == f
    ensures ScratchPass(map[a := va, b := vb, c := vc, e := ve], [a, b, c, e], k)
            == Pass(map[a := va, b := vb, f := vc], k + 4, true)
  {
    var d := map[a := va, b := vb, c := vc, e := ve];
    ScratchStep(d, [a, b, c, e], k);
    assert [a, b, c, e][1..] == [b, c, e];
    RenamedSelf(d, a);
    ScratchPassLastThree(a, b, c, e, f, va, vb, vc, ve, k1);
  }

  /** The last three steps of ScratchPassOntoLater. */
  lemma ScratchPassLastThree(a: string, b: string, c: string, e: string, f: string,
                             va: string, vb: string, vc: string, ve: string, k: int)
    requires a != b && a != c && a != e && b != c && b != e && c != e && f != a && f != b && f != e
    requires Ext(b) == ".jpg" && Ext(c) == ".jpg" && Ext(e) == ".jpg"
    requires ImageName(k) == b && ImageName(k + 1) == e && ImageName(k + 2) == f
    ensures ScratchPass(map[a := va, b := vb, c := vc, e := ve], [b, c, e], k)
            == Pass(map[a := va, b := vb, f := vc], k + 3, true)
  {
    var d := map[a := va, b := vb, c := vc, e := ve];
    ScratchStep(d, [b, c, e], k);
    assert [b, c, e][1..] == [c, e];
    RenamedSelf(d, b);
    ScratchStep(d, [c, e], k + 1);
    assert [c, e][1..] == [e];
    RenamedOntoLater(a, b, c, e, va, vb, vc, ve);
    ScratchPassLastOne(a, b, e, f, va, vb, vc, k + 2);
  }

  /** The last step of ScratchPassOntoLater: the surviving image moves to a fresh name. */
  lemma ScratchPassLastOne(a: string, b: string, e: string, f: string, va: string, vb: string, vc: string, k: int)
    requires a != b && a != e && b != e && f != a && f != b && f != e
    requires Ext(e) == ".jpg" && ImageName(k) == f
    ensures ScratchPass(map[a := va, b := vb, e := vc], [e], k) == Pass(map[a := va, b := vb, f := vc], k + 1, true)
  {
    var d := map[a := va, b := vb, e := vc];
    ScratchStep(d, [e], k);
    assert [e][1..] == [];
    RenamedToFresh(a, b, e, f, va, vb, vc);
  }

  /** The names of the counterexamples are different from one another. */
  lemma SmallNamesDistinct()
    ensures "0.jpg" != "1.jpg" && "0.jpg" != "10.jpg" && "0.jpg" != "2.jpg" && "1.jpg" != "10.jpg"
    ensures "1.jpg" != "2.jpg" && "10.jpg" != "2.jpg"
    ensures "3.jpg" != "0.jpg" && "3.jpg" != "1.jpg" && "3.jpg" != "2.jpg"
  {
    assert "0.jpg"[0] == '0' && "1.jpg"[0] == '1' && "10.jpg"[0] == '1' && "2.jpg"[0] == '2' && "3.jpg"[0] == '3';
    assert "1.jpg"[1] == '.' && "10.jpg"[1] == '0';
  }

  /**
   * The first loop loses an image when a two-digit name sorts before a
   * one-digit one: 10.jpg is renamed onto 2.jpg before 2.jpg is moved, and
   * the image that was in 2.jpg is gone.
   */
  lemma ScratchPassOverwrites(d: Directory, names: seq<string>)
    requires d == map["0.jpg" := "A", "1.jpg" := "B", "10.jpg" := "C", "2.jpg" := "D"]
    requires names == ["0.jpg", "1.jpg", "10.jpg", "2.jpg"]
    ensures Listing(d, names)
    ensures ScratchPass(d, names, 0) == Pass(map["0.jpg" := "A", "1.jpg" := "B", "3.jpg" := "C"], 4, true)
  {
    FourNamesListed(d, names);
    SmallImageNames();
    SmallImageExts();
    SmallNamesDistinct();
    ScratchPassOntoLater("0.jpg", "1.jpg", "10.jpg", "2.jpg", "3.jpg", "A", "B", "C", "D", 0, 1, 2, 3);
  }

  /** The second loop with begin 1 on two JPEG names: the first is renamed onto the second. */
  lemma FinalPassOntoOther(a: string, b: string, va: string, vb: string, pngToJpeg: string -> Option<string>)
    requires a != b && Ext(a) == ".jpg" && Ext(b) == ".jpg"
    requires ImageName(1) == b && ImageName(0) == a
    ensures FinalPass(map[a := va, b := vb], [a, b], 1, 0, pngToJpeg) == Pass(map[a := va], 2, true)
  {
    var d := map[a := va, b := vb];
    var names := [a, b];
    var n1 := names[1..];
    assert n1 == [b] && n1[1..] == [];
    FinalStep(d, names, 1, 0, pngToJpeg);
    RenamedOntoOther(a, b, va, vb);
    var d1 := map[b := va];
    FinalStep(d1, n1, 1, 1, pngToJpeg);
    RenamedSingle(b, a, va);
    var d2 := map[a := va];
    assert FinalPass(d2, n1[1..], 1, 2, pngToJpeg) == Pass(d2, 2, true);
  }

  /**
   * The second loop loses an image when begin is not negative: with begin 1,
   * 0.jpg is renamed onto 1.jpg before 1.jpg is moved.
   */
  lemma FinalPassOverwrites(d: Directory, names: seq<string>, pngToJpeg: string -> Option<string>)
    requires d == map["0.jpg" := "A", "1.jpg" := "B"]
    requires names == ["0.jpg", "1.jpg"]
    ensures Listing(d, names)
    ensures FinalPass(d, names, 1, 0, pngToJpeg) == Pass(map["0.jpg" := "A"], 2, true)
  {
    TwoNamesListed(d, names);
    SmallImageNames();
    SmallImageExts();
    SmallNamesDistinct();
    FinalPassOntoOther("0.jpg", "1.jpg", "A", "B", pngToJpeg);
  }

  /** ReadDir lists 0.jpg before 1.jpg. */
  lemma TwoNamesListed(d: Directory, names: seq<string>)
    requires d == map["0.jpg" := "A", "1.jpg" := "B"]
    requires names == ["0.jpg", "1.jpg"]
    ensures Listing(d, names)
  {
    assert LexLess("0.jpg", "1.jpg");
    LexLessIsStrictTotalOrder();
  }

  // ------------------------------------------ the renumbering, staged

  /** The images of a listing, in listing order. */
  function Images(names: seq<string>): (images: seq<string>)
    ensures forall n :: n in images <==> n in names && IsImage(n)
    ensures |images| <= |names|
  {
    if names == [] then []
    else (if IsImage(names[0]) then [names[0]] else []) + Images(names[1..])
  }

  /** The images of a sorted listing are sorted, so no image is listed twice. */
  lemma {:induction false} ImagesSorted(names: seq<string>)
    requires SortedBy(names, LexLess)
    ensures SortedBy(Images(names), LexLess)
  {
    if names != [] {
      ImagesSorted(names[1..]);
      var rest := Images(names[1..]);
      forall n | n in rest ensures LexLess(names[0], n) {
        var j :| 0 <= j < |names[1..]| && names[1..][j] == n;
        assert names[j + 1] == n;
      }
    }
  }

  /** The images of a listing are files of the directory, each listed once. */
  lemma ListedImages(d: Directory, names: seq<string>)
    requires Listing(d, names)
    ensures forall k :: 0 <= k < |Images(names)| ==> Images(names)[k] in d
    ensures forall i, j :: 0 <= i < j < |Images(names)| ==> Images(names)[i] != Images(names)[j]
  {
    var images := Images(names);
    ImagesSorted(names);
    forall k | 0 <= k < |images| ensures images[k] in d {
      assert images[k] in names;
    }
    forall i, j | 0 <= i < j < |images| ensures images[i] != images[j] {
      LexLessIrreflexive(images[i]);
    }
  }

  /** What an image is stored as: a JPEG as it is, a PNG converted. */
  function ConvertOne(d: Directory, name: string, pngToJpeg: string -> Option<string>): Option<string>
    requires name in d
  {
    if Ext(name) == ".png" then pngToJpeg(d[name]) else Some(d[name])
  }

  /** Every image converted, in order; None when some PNG does not decode. */
  function ConvertAll(d: Directory, images: seq<string>, pngToJpeg: string -> Option<string>): (r: Option<seq<string>>)
    requires forall k :: 0 <= k < |images| ==> images[k] in d
    ensures r.Some? <==> forall k :: 0 <= k < |images| ==> ConvertOne(d, images[k], pngToJpeg).Some?
    ensures r.Some? ==> (|r.value| == |images| &&
              forall k :: 0 <= k < |images| ==> Some(r.value[k]) == ConvertOne(d, images[k], pngToJpeg))
  {
    if images == [] then Some([])
    else
      var n := |images| - 1;
      assert forall k :: 0 <= k < n ==> images[..n][k] == images[k];
      var init := ConvertAll(d, images[..n], pngToJpeg);
      var last := ConvertOne(d, images[n], pngToJpeg);
      if init.None? || last.None? then None else Some(init.value + [last.value])
  }

  /** The file name of the k-th sticker counted down from begin. */
  function Target(begin: int, k: int): string
  {
    ImageName(begin - k)
  }

  /** Different stickers of one package have different file names. */
  lemma TargetsDistinct(begin: int, j: int, k: int)
    requires j != k
    ensures Target(begin, j) != Target(begin, k)
  {
    if Target(begin, j) == Target(begin, k) {
      ImageNameInjective(begin - j, begin - k);
    }
  }

  /** `contents` written one after another under the names of stickers begin, begin-1, ... over `base`. */
  function Placed(base: Directory, begin: int, contents: seq<string>): Directory
  {
    if contents == [] then base
    else Placed(base, begin, contents[..|contents| - 1])[Target(begin, |contents| - 1) := contents[|contents| - 1]]
  }

  /** Each sticker file holds its own image: no later write lands on an earlier sticker's name. */
  lemma {:induction false} PlacedHolds(base: Directory, begin: int, contents: seq<string>, k: int)
    requires 0 <= k < |contents|
    ensures Target(begin, k) in Placed(base, begin, contents)
    ensures Placed(base, begin, contents)[Target(begin, k)] == contents[k]
  {
    var last := |contents| - 1;
    if k < last {
      PlacedHolds(base, begin, contents[..last], k);
      TargetsDistinct(begin, k, last);
    }
  }

  /** A name that is no sticker's is as it was in `base`. */
  lemma {:induction false} PlacedElsewhere(base: Directory, begin: int, contents: seq<string>, n: string)
    requires forall k :: 0 <= k < |contents| ==> n != Target(begin, k)
    ensures n in Placed(base, begin, contents) <==> n in base
    ensures n in base ==> Placed(base, begin, contents)[n] == base[n]
  {
    if contents != [] {
      var last := |contents| - 1;
      assert n != Target(begin, last);
      PlacedElsewhere(base, begin, contents[..last], n);
    }
  }

  /** Nothing but `base` and the sticker files is in the result. */
  lemma {:induction false} PlacedOnly(base: Directory, begin: int, contents: seq<string>, n: string)
    requires n in Placed(base, begin, contents) && n !in base
    ensures exists k :: 0 <= k < |contents| && n == Target(begin, k)
  {
    var last := |contents| - 1;
    if n != Target(begin, last) {
      PlacedOnly(base, begin, contents[..last], n);
    }
  }

  /** The names in a sequence, as a set. */
  function Members(names: seq<string>): (r: set<string>)
    ensures forall n :: n in r <==> n in names
  {
    set n | n in names
  }

  /** The renumbered directory: every image removed, then every converted image written under its sticker name. */
  function Staged(d: Directory, images: seq<string>, begin: int, contents: seq<string>): Directory
  {
    Placed(d - Members(images), begin, contents)
  }

  /**
   * Renumbering keeps everything: the k-th image of the listing is found
   * under the name of sticker begin-k, every file that is not an image is
   * untouched, and nothing else is in the directory.
   */
  lemma StagedKeepsEveryImage(d: Directory, names: seq<string>, begin: int, pngToJpeg: string -> Option<string>,
                               contents: seq<string>)
    requires Listing(d, names)
    requires ConvertAll(d, Images(names), pngToJpeg) == Some(contents)
    ensures forall k :: 0 <= k < |contents| ==>
              Target(begin, k) in Staged(d, Images(names), begin, contents) &&
              Staged(d, Images(names), begin, contents)[Target(begin, k)] == contents[k]
    ensures forall n :: n in d && !IsImage(n) ==>
              n in Staged(d, Images(names), begin, contents) && Staged(d, Images(names), begin, contents)[n] == d[n]
    ensures forall n :: n in Staged(d, Images(names), begin, contents) ==>
              (n in d && !IsImage(n)) || exists k :: 0 <= k < |contents| && n == Target(begin, k)
  {
    var images := Images(names);
    var base := d - Members(images);
    forall k | 0 <= k < |contents| ensures Target(begin, k) in Placed(base, begin, contents) &&
                                           Placed(base, begin, contents)[Target(begin, k)] == contents[k] {
      PlacedHolds(base, begin, contents, k);
    }
    forall n | n in d && !IsImage(n) ensures n in Placed(base, begin, contents) && Placed(base, begin, contents)[n] == d[n] {
      forall k | 0 <= k < |contents| ensures n != Target(begin, k) {
        ImageNameShape(begin - k);
      }
      PlacedElsewhere(base, begin, contents, n);
    }
    forall n | n in Placed(base, begin, contents) ensures (n in d && !IsImage(n)) || exists k :: 0 <= k < |contents| && n == Target(begin, k) {
      if n !in base {
        PlacedOnly(base, begin, contents, n);
      }
    }
  }

  /** The sticker file of the first sticker is there exactly when there was an image to renumber. */
  lemma BeginImageIffImages(d: Directory, names: seq<string>, begin: int, pngToJpeg: string -> Option<string>,
                            contents: seq<string>)
    requires Listing(d, names)
    requires ConvertAll(d, Images(names), pngToJpeg) == Some(contents)
    ensures Target(begin, 0) in Staged(d, Images(names), begin, contents) <==> |contents| > 0
    ensures |contents| > 0 ==> Staged(d, Images(names), begin, contents)[Target(begin, 0)] == contents[0]
  {
    var images := Images(names);
    var base := d - Members(images);
    ImageNameShape(begin);
    if |contents| > 0 {
      PlacedHolds(base, begin, contents, 0);
    } else {
      PlacedElsewhere(base, begin, contents, Target(begin, 0));
    }
  }

  /** Removing one more image from the directory. */
  lemma RemovedOneMore(d: Directory, images: seq<string>, i: nat)
    requires i < |images|
    ensures (d - Members(images[..i])) - {images[i]} == d - Members(images[..i + 1])
  {
    assert Members(images[..i + 1]) == Members(images[..i]) + {images[i]};
  }

  /** Converting one more image. */
  lemma ConvertAllSnoc(d: Directory, images: seq<string>, i: nat, pngToJpeg: string -> Option<string>)
    requires i < |images|
    requires forall k :: 0 <= k < |images| ==> images[k] in d
    ensures var init := ConvertAll(d, images[..i], pngToJpeg);
            var last := ConvertOne(d, images[i], pngToJpeg);
            ConvertAll(d, images[..i + 1], pngToJpeg)
            == if init.None? || last.None? then None else Some(init.value + [last.value])
  {
    assert images[..i + 1][..i] == images[..i];
  }

  /** The first stage: every image read and converted, none written; None when some PNG does not decode. */
  method ConvertImages(disk: Disk, dir: string, images: seq<string>, pngToJpeg: string -> Option<string>)
    returns (contents: Option<seq<string>>)
    requires dir in disk.dirs
    requires forall k :: 0 <= k < |images| ==> images[k] in disk.dirs[dir]
    ensures contents == ConvertAll(disk.dirs[dir], images, pngToJpeg)
  {
    var d := disk.dirs[dir];
    var converted: seq<string> := [];
    var i := 0;
    while i < |images|
      invariant 0 <= i <= |images|
      invariant ConvertAll(d, images[..i], pngToJpeg) == Some(converted)
    {
      ConvertAllSnoc(d, images, i, pngToJpeg);
      var image := disk.ReadFile(dir, images[i]);
      var jpeg := if Ext(images[i]) == ".png" then pngToJpeg(image.value) else image;
      if jpeg.None? {
        assert ConvertOne(d, images[i], pngToJpeg).None?;
        return None;
      }
      converted := converted + [jpeg.value];
      i := i + 1;
    }
    assert images[..i] == images;
    contents := Some(converted);
  }

  /** The second stage: every image removed. */
  method RemoveImages(disk: Disk, dir: string, images: seq<string>)
    requires dir in disk.dirs
    requires forall k :: 0 <= k < |images| ==> images[k] in disk.dirs[dir]
    requires forall i, j :: 0 <= i < j < |images| ==> images[i] != images[j]
    modifies disk
    ensures disk.dirs == old(disk.dirs)[dir := old(disk.dirs)[dir] - Members(images)]
  {
    ghost var dirs := disk.dirs;
    var d := disk.dirs[dir];
    var i := 0;
    assert d - Members(images[..0]) == d;
    assert dirs[dir := d] == dirs;
    while i < |images|
      invariant 0 <= i <= |images|
      invariant disk.dirs == dirs[dir := d - Members(images[..i])]
    {
      assert images[i] !in images[..i];
      var removed := disk.Remove(dir, images[i]);
      RemovedOneMore(d, images, i);
      Overwritten(dirs, dir, d - Members(images[..i]), d - Members(images[..i + 1]));
      i := i + 1;
    }
    assert images[..i] == images;
  }

  /** The third stage: the k-th converted image written under the name of sticker begin-k. */
  method PlaceImages(disk: Disk, dir: string, begin: int, contents: seq<string>)
    requires dir in disk.dirs
    modifies disk
    ensures disk.dirs == old(disk.dirs)[dir := Placed(old(disk.dirs)[dir], begin, contents)]
  {
    ghost var dirs := disk.dirs;
    var base := disk.dirs[dir];
    var i := 0;
    while i < |contents|
      invariant 0 <= i <= |contents|
      invariant disk.dirs == dirs[dir := Placed(base, begin, contents[..i])]
    {
      assert contents[..i + 1][..i] == contents[..i];
      ImageNameFlat(begin - i);
      var written := disk.WriteFile(dir, Target(begin, i), contents[i]);
      Overwritten(dirs, dir, Placed(base, begin, contents[..i]), Placed(base, begin, contents[..i + 1]));
      i := i + 1;
    }
    assert contents[..i] == contents;
  }

  /**
   * The renumbering create is meant to perform, staged so that no write can
   * land on an image that has not been moved: every image is read and
   * converted first (a PNG that does not decode stops everything before the
   * directory is touched), then every image is removed, then every sticker
   * file is written.
   */
  method Renumber(disk: Disk, dir: string, images: seq<string>, begin: int, pngToJpeg: string -> Option<string>)
    returns (ok: bool)
    requires dir in disk.dirs
    requires forall k :: 0 <= k < |images| ==> images[k] in disk.dirs[dir]
    requires forall i, j :: 0 <= i < j < |images| ==> images[i] != images[j]
    modifies disk
    ensures ok <==> ConvertAll(old(disk.dirs[dir]), images, pngToJpeg).Some?
    ensures ok ==> disk.dirs == old(disk.dirs)[dir := Staged(old(disk.dirs[dir]), images, begin,
                                                              ConvertAll(old(disk.dirs[dir]), images, pngToJpeg).value)]
    ensures !ok ==> disk.dirs == old(disk.dirs)
  {
    ghost var dirs := disk.dirs;
    var contents := ConvertImages(disk, dir, images, pngToJpeg);
    if contents.None? {
      return false;
    }
    RemoveImages(disk, dir, images);
    PlaceImages(disk, dir, begin, contents.value);
    Overwritten(dirs, dir, dirs[dir] - Members(images), Staged(dirs[dir], images, begin, contents.value));
    ok := true;
  }

  // ------------------------------------------------------- the metadata

  /** The loop that lists the sticker ids: begin, begin-1, ..., one per renumbered image. */
  method StickerIds(begin: int, count: int) returns (ids: seq<int>)
    ensures |ids| == if count > 0 then count else 0
    ensures forall k :: 0 <= k < |ids| ==> ids[k] == begin - k
  {
    ids := [];
    var i := begin;
    while i > begin - count
      invariant i == begin - |ids|
      invariant |ids| <= if count > 0 then count else 0
      invariant forall k :: 0 <= k < |ids| ==> ids[k] == begin - k
      decreases i - (begin - count)
    {
      ids := ids + [i];
      i := i - 1;
    }
  }

  /** The metadata create writes: the package id, English title and author, and `count` descending sticker ids from begin. */
  function AuthoredMeta(id: int, title: string, author: string, begin: int, count: nat): (m: Meta)
    ensures m.packageId == id && m.title == map["en" := title] && m.author == map["en" := author]
    ensures |m.stickers| == count
    ensures forall k :: 0 <= k < count ==> m.stickers[k] == begin - k
  {
    Meta(id, map["en" := title], map["en" := author], seq(count, k requires 0 <= k < count => begin - k))
  }

  const TabOnName := "tab_on.jpg"
  const TabOffName := "tab_off.jpg"

  /** The package directory once the tab images and the metadata file are written. */
  function Finished(staged: Directory, tabImages: (string, string), metaText: string): Directory
  {
    staged[TabOnName := tabImages.0][TabOffName := tabImages.1][MetaFileName := metaText]
  }

  /** The ids the sticker loop lists are those of the authored metadata. */
  lemma AuthoredMetaOfIds(id: int, title: string, author: string, begin: int, count: nat, ids: seq<int>)
    requires |ids| == count
    requires forall k :: 0 <= k < count ==> ids[k] == begin - k
    ensures Meta(id, map["en" := title], map["en" := author], ids) == AuthoredMeta(id, title, author, begin, count)
  {
  }

  /** Neither tab image nor the metadata file has a sticker's file name. */
  lemma FixedNamesAreNotStickers(n: int)
    ensures ImageName(n) != TabOnName && ImageName(n) != TabOffName && ImageName(n) != MetaFileName
  {
    ImageNameShape(n);
    assert TabOnName[0] == 't' && TabOffName[0] == 't' && MetaFileName[0] == 'p';
  }

  /** Writing the tab images and the metadata file changes no other name. */
  lemma FinishedKeepsOthers(staged: Directory, tabImages: (string, string), metaText: string, n: string)
    requires n != TabOnName && n != TabOffName && n != MetaFileName
    ensures n in Finished(staged, tabImages, metaText) <==> n in staged
    ensures n in staged ==> Finished(staged, tabImages, metaText)[n] == staged[n]
  {
  }

  /** The k-th sticker id of the metadata names the k-th renumbered image. */
  lemma AuthoredStickerNames(id: int, title: string, author: string, begin: int, count: nat)
    ensures forall k :: 0 <= k < count ==> ImageName(AuthoredMeta(id, title, author, begin, count).stickers[k]) == Target(begin, k)
  {
  }

  /**
   * A created package is complete: every sticker id of its metadata names a
   * file holding the image renumbered to it, one per image of the directory,
   * and the metadata file holds the metadata's text.
   */
  lemma CreatedPackageComplete(d: Directory, names: seq<string>, begin: int, pngToJpeg: string -> Option<string>,
                               contents: seq<string>, tabImages: (string, string), id: int, title: string,
                               author: string, encodeMeta: Meta -> string)
    requires Listing(d, names)
    requires ConvertAll(d, Images(names), pngToJpeg) == Some(contents)
    ensures var meta := AuthoredMeta(id, title, author, begin, |Images(names)|);
            var files := Finished(Staged(d, Images(names), begin, contents), tabImages, encodeMeta(meta));
            && |meta.stickers| == |Images(names)| == |contents|
            && (forall k :: 0 <= k < |meta.stickers| ==>
                  ImageName(meta.stickers[k]) in files && files[ImageName(meta.stickers[k])] == contents[k])
            && files[MetaFileName] == encodeMeta(meta)
  {
    var meta := AuthoredMeta(id, title, author, begin, |Images(names)|);
    var files := Finished(Staged(d, Images(names), begin, contents), tabImages, encodeMeta(meta));
    forall k | 0 <= k < |meta.stickers|
      ensures ImageName(meta.stickers[k]) in files && files[ImageName(meta.stickers[k])] == contents[k]
    {
      assert ImageName(meta.stickers[k]) == Target(begin, k);
      StickerFileWritten(d, Images(names), begin, contents, tabImages, encodeMeta(meta), k);
    }
  }

  /** The k-th converted image ends up under the name of sticker begin-k, untouched by the tab images and the metadata. */
  lemma StickerFileWritten(d: Directory, images: seq<string>, begin: int, contents: seq<string>,
                           tabImages: (string, string), metaText: string, k: int)
    requires 0 <= k < |contents|
    ensures var files := Finished(Staged(d, images, begin, contents), tabImages, metaText);
            Target(begin, k) in files && files[Target(begin, k)] == contents[k]
  {
    var staged := Staged(d, images, begin, contents);
    PlacedHolds(d - Members(images), begin, contents, k);
    FixedNamesAreNotStickers(begin - k);
    FinishedKeepsOthers(staged, tabImages, metaText, Target(begin, k));
  }

  /** Every file of the package directory that is not an image is still there, except the tab images and the metadata, which are rewritten. */
  lemma CreateKeepsOtherFiles(d: Directory, names: seq<string>, begin: int, pngToJpeg: string -> Option<string>,
                              contents: seq<string>, tabImages: (string, string), metaText: string, n: string)
    requires Listing(d, names)
    requires ConvertAll(d, Images(names), pngToJpeg) == Some(contents)
    requires n in d && !IsImage(n) && n != TabOnName && n != TabOffName && n != MetaFileName
    ensures var files := Finished(Staged(d, Images(names), begin, contents), tabImages, metaText);
            n in files && files[n] == d[n]
  {
    var staged := Staged(d, Images(names), begin, contents);
    StagedKeepsEveryImage(d, names, begin, pngToJpeg, contents);
    FinishedKeepsOthers(staged, tabImages, metaText, n);
  }

  // ------------------------------------------------------------ create

  datatype CreateOutcome =
    | NoAuthor               // standard input ended before the author line
    | NoTitle                // standard input ended before the title line
    | NoDirectory            // the package directory is missing
    | ConversionFailed       // a PNG did not decode
    | NoBeginImage           // there was no image, so no sticker begin
    | UndecodableBeginImage  // the first sticker's image did not decode for the tab images
    | Created(insert: InsertOutcome)

  /**
   * What create does, step by step: read two lines, renumber the package's
   * images, derive the tab images from sticker `begin`, write the metadata
   * and insert the package. `tabs` stands for decoding the image, resizing
   * it to 66x55 and encoding it in colour and in grey.
   */
  ghost function CreateEffect(dirs: map<string, Directory>, tables: map<Repo, Partition>, input: seq<string>,
                              id: int, begin: int, ext: Externals, tabs: string -> Option<(string, string)>,
                              now: int, faults: TxFaults): (CreateOutcome, map<string, Directory>, map<Repo, Partition>)
    requires ValidExternals(ext)
    requires Official in tables && Creator in tables && Custom in tables
  {
    if |input| < 1 then (NoAuthor, dirs, tables)
    else if |input| < 2 then (NoTitle, dirs, tables)
    else if IntToString(id) !in dirs then (NoDirectory, dirs, tables)
    else
      var dir := IntToString(id);
      var d := dirs[dir];
      var images := Images(SortedNames(d));
      var converted := ConvertAll(d, images, ext.pngToJpeg);
      if converted.None? then (ConversionFailed, dirs, tables)
      else PublishEffect(dirs[dir := Staged(d, images, begin, converted.value)], tables, dir, converted.value,
                         id, input[1], input[0], begin, ext, tabs, now, faults)
  }

  /**
   * The second half of create, on the renumbered directory `dir`: the tab
   * images from the first sticker's image, the metadata file, the insert.
   */
  ghost function PublishEffect(dirs: map<string, Directory>, tables: map<Repo, Partition>, dir: string,
                               converted: seq<string>, id: int, title: string, author: string, begin: int,
                               ext: Externals, tabs: string -> Option<(string, string)>, now: int,
                               faults: TxFaults): (CreateOutcome, map<string, Directory>, map<Repo, Partition>)
    requires ValidExternals(ext)
    requires Official in tables && Creator in tables && Custom in tables
    requires dir in dirs
  {
    if converted == [] then (NoBeginImage, dirs, tables)
    else if tabs(converted[0]).None? then (UndecodableBeginImage, dirs, tables)
    else
      var text := ext.encodeMeta(AuthoredMeta(id, title, author, begin, |converted|));
      var (inserted, after) := InsertEffect(tables, Some(text), ext, id, now, faults);
      (Created(inserted), dirs[dir := Finished(dirs[dir], tabs(converted[0]).value, text)], after)
  }

  /** The package directory and the catalog after a create that got as far as inserting. */
  lemma CreatedEffect(dirs: map<string, Directory>, tables: map<Repo, Partition>, input: seq<string>,
                      id: int, begin: int, ext: Externals, tabs: string -> Option<(string, string)>,
                      now: int, faults: TxFaults)
    requires ValidExternals(ext)
    requires Official in tables && Creator in tables && Custom in tables
    requires CreateEffect(dirs, tables, input, id, begin, ext, tabs, now, faults).0.Created?
    ensures |input| >= 2 && IntToString(id) in dirs
    ensures var d := dirs[IntToString(id)];
            var images := Images(SortedNames(d));
            var converted := ConvertAll(d, images, ext.pngToJpeg);
            var text := ext.encodeMeta(AuthoredMeta(id, input[1], input[0], begin, |images|));
            && converted.Some? && images != [] && tabs(converted.value[0]).Some?
            && CreateEffect(dirs, tables, input, id, begin, ext, tabs, now, faults)
               == (Created(InsertEffect(tables, Some(text), ext, id, now, faults).0),
                   dirs[IntToString(id) := Finished(Staged(d, images, begin, converted.value), tabs(converted.value[0]).value, text)],
                   InsertEffect(tables, Some(text), ext, id, now, faults).1)
  {
    var dir := IntToString(id);
    var d := dirs[dir];
    var images := Images(SortedNames(d));
    var converted := ConvertAll(d, images, ext.pngToJpeg).value;
    var staged := Staged(d, images, begin, converted);
    var text := ext.encodeMeta(AuthoredMeta(id, input[1], input[0], begin, |images|));
    assert dirs[dir := staged][dir] == staged;
    Overwritten(dirs, dir, staged, Finished(staged, tabs(converted[0]).value, text));
  }

  /** The second half of create ends in one of its own outcomes, and changes the catalog only by inserting. */
  lemma PublishOutcomes(dirs: map<string, Directory>, tables: map<Repo, Partition>, dir: string,
                        converted: seq<string>, id: int, title: string, author: string, begin: int,
                        ext: Externals, tabs: string -> Option<(string, string)>, now: int, faults: TxFaults)
    requires ValidExternals(ext)
    requires Official in tables && Creator in tables && Custom in tables
    requires dir in dirs
    ensures var (outcome, after, tablesAfter) := PublishEffect(dirs, tables, dir, converted, id, title, author, begin,
                                                               ext, tabs, now, faults);
            && (outcome.NoBeginImage? || outcome.UndecodableBeginImage? || outcome.Created?)
            && (outcome.NoBeginImage? <==> converted == [])
            && (!outcome.Created? || !outcome.insert.Inserted? ==> tablesAfter == tables)
  {
    if converted != [] && tabs(converted[0]).Some? {
      InsertAllOrNothing(tables, Some(ext.encodeMeta(AuthoredMeta(id, title, author, begin, |converted|))),
                         ext, id, now, faults);
    }
  }

  /**
   * The corrected create leaves the package directory as it was unless it
   * gets as far as renumbering, and a PNG that does not decode is found
   * before anything is changed; the catalog changes only when the package is
   * inserted.
   */
  lemma CreateFailsCleanly(dirs: map<string, Directory>, tables: map<Repo, Partition>, input: seq<string>,
                           id: int, begin: int, ext: Externals, tabs: string -> Option<(string, string)>,
                           now: int, faults: TxFaults)
    requires ValidExternals(ext)
    requires Official in tables && Creator in tables && Custom in tables
    ensures var (outcome, after, tablesAfter) := CreateEffect(dirs, tables, input, id, begin, ext, tabs, now, faults);
            && (outcome in {NoAuthor, NoTitle, NoDirectory, ConversionFailed} ==> after == dirs)
            && (!outcome.Created? || !outcome.insert.Inserted? ==> tablesAfter == tables)
            && (outcome == NoBeginImage <==>
                  |input| >= 2 && IntToString(id) in dirs
                  && ConvertAll(dirs[IntToString(id)], Images(SortedNames(dirs[IntToString(id)])), ext.pngToJpeg).Some?
                  && Images(SortedNames(dirs[IntToString(id)])) == [])
  {
    var r := CreateEffect(dirs, tables, input, id, begin, ext, tabs, now, faults);
    if |input| >= 2 && IntToString(id) in dirs {
      var dir := IntToString(id);
      var d := dirs[dir];
      var images := Images(SortedNames(d));
      var converted := ConvertAll(d, images, ext.pngToJpeg);
      if converted.Some? {
        var staged := Staged(d, images, begin, converted.value);
        assert r == PublishEffect(dirs[dir := staged], tables, dir, converted.value, id, input[1], input[0], begin,
                                  ext, tabs, now, faults);
        PublishOutcomes(dirs[dir := staged], tables, dir, converted.value, id, input[1], input[0], begin,
                        ext, tabs, now, faults);
      }
    }
  }

  /** create, with the staged renumbering: author and title from standard input, then the package directory, then the catalog. */
  method Create(id: int, begin: int, input: seq<string>, disk: Disk, store: StickerStore, ext: Externals,
                tabs: string -> Option<(string, string)>, now: int, faults: TxFaults) returns (outcome: CreateOutcome)
    requires store.Valid() && ValidExternals(ext)
    modifies disk, store
    ensures store.Valid() && store.summary == old(store.summary)
    ensures (outcome, disk.dirs, store.tables)
            == CreateEffect(old(disk.dirs), old(store.tables), input, id, begin, ext, tabs, now, faults)
  {
    if |input| < 1 {
      return NoAuthor;
    }
    if |input| < 2 {
      return NoTitle;
    }
    var dir := IntToString(id);
    var listing := disk.ReadDir(dir);
    if listing.None? {
      return NoDirectory;
    }
    outcome := Stage(id, begin, input, listing.value, disk, store, ext, tabs, now, faults);
  }

  /** create once the package directory has been listed: convert and renumber its images, then publish. */
  method Stage(id: int, begin: int, input: seq<string>, names: seq<string>, disk: Disk, store: StickerStore,
               ext: Externals, tabs: string -> Option<(string, string)>, now: int, faults: TxFaults)
    returns (outcome: CreateOutcome)
    requires store.Valid() && ValidExternals(ext)
    requires |input| >= 2 && IntToString(id) in disk.dirs
    requires names == SortedNames(disk.dirs[IntToString(id)])
    modifies disk, store
    ensures store.Valid() && store.summary == old(store.summary)
    ensures (outcome, disk.dirs, store.tables)
            == CreateEffect(old(disk.dirs), old(store.tables), input, id, begin, ext, tabs, now, faults)
  {
    var dir := IntToString(id);
    ghost var dirs := disk.dirs;
    ghost var tables := store.tables;
    var d := disk.dirs[dir];
    var images := Images(names);
    ListedImages(d, names);
    var ok := Renumber(disk, dir, images, begin, ext.pngToJpeg);
    if !ok {
      return ConversionFailed;
    }
    var converted := ConvertAll(d, images, ext.pngToJpeg).value;
    BeginImageIffImages(d, names, begin, ext.pngToJpeg, converted);
    outcome := Publish(id, dir, converted, input[1], input[0], begin, disk, store, ext, tabs, now, faults);
  }

  /** The second half of create: the tab images, the metadata file and the insert. */
  method Publish(id: int, dir: string, converted: seq<string>, title: string, author: string, begin: int,
                 disk: Disk, store: StickerStore, ext: Externals, tabs: string -> Option<(string, string)>,
                 now: int, faults: TxFaults) returns (outcome: CreateOutcome)
    requires store.Valid() && ValidExternals(ext)
    requires dir == IntToString(id) && dir in disk.dirs
    requires Target(begin, 0) in disk.dirs[dir] <==> |converted| > 0
    requires |converted| > 0 ==> disk.dirs[dir][Target(begin, 0)] == converted[0]
    modifies disk, store
    ensures store.Valid() && store.summary == old(store.summary)
    ensures (outcome, disk.dirs, store.tables)
            == PublishEffect(old(disk.dirs), old(store.tables), dir, converted, id, title, author, begin, ext, tabs, now, faults)
  {
    ghost var dirs := disk.dirs;
    ghost var tables := store.tables;
    var staged := disk.dirs[dir];
    var beginImage := disk.ReadFile(dir, ImageName(begin));
    if beginImage.None? {
      return NoBeginImage;
    }
    var tabImages := tabs(beginImage.value);
    if tabImages.None? {
      return UndecodableBeginImage;
    }
    var onWritten := disk.WriteFile(dir, TabOnName, tabImages.value.0);
    Overwritten(dirs, dir, staged, staged[TabOnName := tabImages.value.0]);
    var offWritten := disk.WriteFile(dir, TabOffName, tabImages.value.1);
    Overwritten(dirs, dir, staged[TabOnName := tabImages.value.0],
                staged[TabOnName := tabImages.value.0][TabOffName := tabImages.value.1]);
    var stickers := StickerIds(begin, |converted|);
    var meta := Meta(id, map["en" := title], map["en" := author], stickers);
    AuthoredMetaOfIds(id, title, author, begin, |converted|, stickers);
    var text := ext.encodeMeta(meta);
    var metaWritten := disk.WriteFile(dir, MetaFileName, text);
    Overwritten(dirs, dir, staged[TabOnName := tabImages.value.0][TabOffName := tabImages.value.1],
                Finished(staged, tabImages.value, text));
    var inserted := store.Insert(id, disk, ext, now, faults);
    outcome := Created(inserted);
  }
}
