/**
 The image catalog: `scan_images` keeps, in order, the paths of a sorted
 recursive listing whose lower-cased suffix is a supported image extension.
 The listing itself (the directory walk and its sort) is taken as input.
 */
module Catalog {

  /** A path as the text `str(path)` would give, with `/` as separator. */
  type Path = string

  /** SUPPORTED_EXTENSIONS. */
  const SupportedExtensions: set<string> := {".jpg", ".jpeg", ".png"}

  /** ASCII `str.lower` on one character. */
  function AsciiLower(c: char): char
  {
    if 'A' <= c <= 'Z' then (c as int + 32) as char else c
  }

  function Lower(s: string): (r: string)
    ensures |r| == |s|
  {
    if s == [] then [] else [AsciiLower(s[0])] + Lower(s[1..])
  }

  /** `str.rfind` of one character: the last position holding `c`, or -1. */
  function LastIndexOf(s: string, c: char): (r: int)
    ensures -1 <= r < |s|
    ensures r >= 0 ==> s[r] == c
  {
    if |s| == 0 then -1
    else if s[|s| - 1] == c then |s| - 1
    else LastIndexOf(s[..|s| - 1], c)
  }

  /** `PurePath.name`: the text after the last separator. */
  function Name(p: Path): string
  {
    p[LastIndexOf(p, '/') + 1..]
  }

  /** The text before the final component: up to and including the last separator. */
  function DirectoryPart(p: Path): string
  {
    p[..LastIndexOf(p, '/') + 1]
  }

  /**
   `PurePath.suffix`: from the last dot of the final component, provided that
   dot is neither the component's first nor its last character; otherwise empty.
   */
  function Suffix(p: Path): string
  {
    var name := Name(p);
    var i := LastIndexOf(name, '.');
    if 0 < i < |name| - 1 then name[i..] else ""
  }

  /** Membership in SUPPORTED_EXTENSIONS, written out. */
  predicate SupportedExtension(x: string)
  {
    x == ".jpg" || x == ".jpeg" || x == ".png"
  }

  /** The test of line 27: `path.suffix.lower() in SUPPORTED_EXTENSIONS`. */
  predicate IsImage(p: Path)
  {
    SupportedExtension(Lower(Suffix(p)))
  }

  lemma SupportedExtensionIsSetMembership(x: string)
    ensures SupportedExtension(x) <==> x in SupportedExtensions
  {
  }

  /** No occurrence of `c` follows the position `LastIndexOf` reports. */
  lemma {:induction false} LastIndexOfIsLast(s: string, c: char, j: int)
    requires LastIndexOf(s, c) < j < |s|
    ensures s[j] != c
  {
    if j < |s| - 1 {
      LastIndexOfIsLast(s[..|s| - 1], c, j);
    }
  }

  /** The final component holds no separator and is the tail of the path. */
  lemma NameShape(p: Path)
    ensures |Name(p)| <= |p| && Name(p) == p[|p| - |Name(p)|..]
    ensures forall k :: 0 <= k < |Name(p)| ==> Name(p)[k] != '/'
  {
    var k0 := LastIndexOf(p, '/');
    var name := p[k0 + 1..];
    assert name == Name(p);
    forall k | 0 <= k < |name| ensures name[k] != '/' {
      LastIndexOfIsLast(p, '/', k0 + 1 + k);
    }
  }

  /**
   A non-empty suffix is a dot followed by at least one character, holds no
   other dot and no separator, and ends the final component without being all of it.
   */
  lemma SuffixShape(p: Path)
    ensures var x := Suffix(p); x != [] ==>
      && |x| >= 2 && x[0] == '.'
      && (forall k :: 1 <= k < |x| ==> x[k] != '.' && x[k] != '/')
      && |x| < |Name(p)| && x == Name(p)[|Name(p)| - |x|..]
  {
    var name := Name(p);
    var i := LastIndexOf(name, '.');
    NameShape(p);
    if 0 < i < |name| - 1 {
      var x := name[i..];
      assert Suffix(p) == x;
      assert |x| == |name| - i;
      forall k | 1 <= k < |x| ensures x[k] != '.' && x[k] != '/' {
        assert x[k] == name[i + k];
        LastIndexOfIsLast(name, '.', i + k);
      }
    } else {
      assert Suffix(p) == "";
    }
  }

  /** `LastIndexOf` finds a position holding `c` that no later position holds. */
  lemma {:induction false} LastIndexOfAt(s: string, c: char, k: int)
    requires 0 <= k < |s| && s[k] == c
    requires forall j :: k < j < |s| ==> s[j] != c
    ensures LastIndexOf(s, c) == k
  {
    if k < |s| - 1 {
      LastIndexOfAt(s[..|s| - 1], c, k);
    }
  }

  /** `LastIndexOf` reports -1 when `c` does not occur. */
  lemma {:induction false} LastIndexOfAbsent(s: string, c: char)
    requires forall j :: 0 <= j < |s| ==> s[j] != c
    ensures LastIndexOf(s, c) == -1
  {
    if |s| > 0 {
      LastIndexOfAbsent(s[..|s| - 1], c);
    }
  }

  /** The final component of a path is what follows its directory part. */
  lemma NameAfterDirectory(dir: string, name: string)
    requires dir == [] || dir[|dir| - 1] == '/'
    requires forall j :: 0 <= j < |name| ==> name[j] != '/'
    ensures Name(dir + name) == name && DirectoryPart(dir + name) == dir
  {
    var p := dir + name;
    if dir == [] {
      assert p == name;
      LastIndexOfAbsent(p, '/');
    } else {
      LastIndexOfAt(p, '/', |dir| - 1);
      assert p[|dir|..] == name;
      assert p[..|dir|] == dir;
    }
  }

  /** A path is its directory part followed by its final component. */
  lemma PathSplits(p: Path)
    ensures DirectoryPart(p) + Name(p) == p
    ensures DirectoryPart(p) == [] || DirectoryPart(p)[|DirectoryPart(p)| - 1] == '/'
  {
    var k := LastIndexOf(p, '/');
    var dir, name := p[..k + 1], p[k + 1..];
    assert dir == DirectoryPart(p) && name == Name(p);
    assert dir + name == p;
    if k >= 0 {
      assert dir[k] == p[k];
    }
  }

  /** The last dot of `stem.ext` is the one before the extension. */
  lemma LastDotOfFileName(stem: string, ext: string)
    requires forall j :: 0 <= j < |ext| ==> ext[j] != '.'
    ensures LastIndexOf(stem + "." + ext, '.') == |stem|
  {
    var name := stem + "." + ext;
    NoDotAfter(stem, ext);
    LastIndexOfAt(name, '.', |stem|);
  }

  /** In `stem.ext`, the dot before the extension is the last one. */
  lemma NoDotAfter(stem: string, ext: string)
    requires forall j :: 0 <= j < |ext| ==> ext[j] != '.'
    ensures var name := stem + "." + ext;
      name[|stem|] == '.' && forall j :: |stem| < j < |name| ==> name[j] != '.'
  {
    var name := stem + "." + ext;
    forall j | |stem| < j < |name| ensures name[j] != '.' {
      assert name[j] == ext[j - |stem| - 1];
    }
  }

  /** The final component of `dir/stem.ext` is `stem.ext`. */
  lemma NameOfFile(dir: string, stem: string, ext: string)
    requires dir == [] || dir[|dir| - 1] == '/'
    requires forall j :: 0 <= j < |stem| ==> stem[j] != '/'
    requires forall j :: 0 <= j < |ext| ==> ext[j] != '/'
    ensures Name(dir + stem + "." + ext) == stem + "." + ext
  {
    var name := stem + "." + ext;
    assert dir + stem + "." + ext == dir + name;
    forall j | 0 <= j < |name| ensures name[j] != '/' {
      if j < |stem| { assert name[j] == stem[j]; }
      else if j > |stem| { assert name[j] == ext[j - |stem| - 1]; }
    }
    NameAfterDirectory(dir, name);
  }

  /**
   The suffix of a file named `stem.ext` is `.ext` when the stem is not empty
   and the extension holds no dot; a file named only `.ext` (a hidden file) has none.
   */
  lemma SuffixOfFile(p: Path, stem: string, ext: string)
    requires Name(p) == stem + "." + ext
    requires |ext| > 0 && forall j :: 0 <= j < |ext| ==> ext[j] != '.'
    ensures Suffix(p) == if stem == [] then "" else "." + ext
  {
    var name := stem + "." + ext;
    LastDotOfFileName(stem, ext);
    assert name[|stem|..] == "." + ext;
  }

  /** Whether a file is kept depends only on its extension, in any letter case. */
  lemma IsImageByExtension(p: Path, stem: string, ext: string)
    requires Name(p) == stem + "." + ext && |stem| > 0
    requires |ext| > 0 && forall j :: 0 <= j < |ext| ==> ext[j] != '.'
    ensures IsImage(p) <==> SupportedExtension(Lower("." + ext))
  {
    SuffixOfFile(p, stem, ext);
  }

  /** An upper-case extension is recognised. */
  lemma UpperCaseExtensionIsImage(p: Path)
    requires Name(p) == "IMG_0001.JPG"
    ensures IsImage(p)
  {
    assert "IMG_0001.JPG" == "IMG_0001" + "." + "JPG";
    SuffixOfFile(p, "IMG_0001", "JPG");
    assert Suffix(p) == ".JPG";
    LowerOfJpg();
    assert SupportedExtension(".jpg");
  }

  lemma LowerOfJpg()
    ensures Lower(".JPG") == ".jpg"
  {
    assert Lower("G") == "g" by { assert "G"[1..] == []; }
    assert Lower("PG") == "pg" by { assert "PG"[1..] == "G"; }
    assert Lower("JPG") == "jpg" by { assert "JPG"[1..] == "PG"; }
    assert ".JPG"[1..] == "JPG";
  }

  /** A hidden file named `.png` has no suffix and is not an image. */
  lemma HiddenFileIsNotImage(p: Path)
    requires Name(p) == ".png"
    ensures !IsImage(p)
  {
    assert ".png" == "" + "." + "png";
    SuffixOfFile(p, "", "png");
  }

  /** The paths of `paths` that satisfy `keep`, in their order. */
  function Select(paths: seq<Path>, keep: Path -> bool): (r: seq<Path>)
    ensures |r| <= |paths|
  {
    if paths == [] then []
    else
      var last := paths[|paths| - 1];
      Select(paths[..|paths| - 1], keep) + (if keep(last) then [last] else [])
  }

  /** The catalog of a sorted listing. */
  function FilterImages(paths: seq<Path>): seq<Path>
  {
    Select(paths, IsImage)
  }

  /** `scan_images` over a listing that is already sorted. */
  method ScanImages(sortedPaths: seq<Path>) returns (images: seq<Path>)
    ensures images == FilterImages(sortedPaths)
  {
    images := [];
    for i := 0 to |sortedPaths|
      invariant images == FilterImages(sortedPaths[..i])
    {
      var path := sortedPaths[i];
      SelectPrefix(sortedPaths, IsImage, i);
      if IsImage(path) {
        images := images + [path];
      }
    }
    assert sortedPaths[..|sortedPaths|] == sortedPaths;
  }

  /** Selecting from one more listed path adds that path when it passes. */
  lemma SelectPrefix(paths: seq<Path>, keep: Path -> bool, i: int)
    requires 0 <= i < |paths|
    ensures Select(paths[..i + 1], keep) ==
      Select(paths[..i], keep) + (if keep(paths[i]) then [paths[i]] else [])
  {
    assert paths[..i + 1][..i] == paths[..i];
  }

  /** Selection distributes over concatenation: it looks at each path alone. */
  lemma {:induction false} SelectAppend(a: seq<Path>, b: seq<Path>, keep: Path -> bool)
    ensures Select(a + b, keep) == Select(a, keep) + Select(b, keep)
  {
    if b == [] {
      assert a + b == a;
    } else {
      var b' := b[..|b| - 1];
      var x := b[|b| - 1];
      var tail := if keep(x) then [x] else [];
      assert (a + b)[..|a + b| - 1] == a + b';
      assert (a + b)[|a + b| - 1] == x;
      SelectAppend(a, b', keep);
      assert Select(a + b, keep) == (Select(a, keep) + Select(b', keep)) + tail;
      assert Select(b, keep) == Select(b', keep) + tail;
    }
  }

  /** A path is selected exactly when it occurs in the listing and satisfies `keep`. */
  lemma {:induction false} SelectMembership(paths: seq<Path>, keep: Path -> bool, p: Path)
    ensures p in Select(paths, keep) <==> p in paths && keep(p)
  {
    if paths != [] {
      var front := paths[..|paths| - 1];
      SelectMembership(front, keep, p);
      assert paths == front + [paths[|paths| - 1]];
    }
  }

  /** Pairwise order with respect to an arbitrary relation. */
  ghost predicate Ordered(s: seq<Path>, before: (Path, Path) -> bool)
  {
    forall i, j :: 0 <= i < j < |s| ==> before(s[i], s[j])
  }

  /** Selection keeps the listing's order, whatever that order is. */
  lemma {:induction false} SelectKeepsOrder(paths: seq<Path>, keep: Path -> bool, before: (Path, Path) -> bool)
    requires Ordered(paths, before)
    ensures Ordered(Select(paths, keep), before)
  {
    if paths != [] {
      var front := paths[..|paths| - 1];
      var x := paths[|paths| - 1];
      var init := Select(front, keep);
      assert Ordered(front, before) by {
        forall i, j | 0 <= i < j < |front| ensures before(front[i], front[j]) {
          assert front[i] == paths[i] && front[j] == paths[j];
        }
      }
      SelectKeepsOrder(front, keep, before);
      if keep(x) {
        var r := init + [x];
        assert Select(paths, keep) == r;
        forall i, j | 0 <= i < j < |r| ensures before(r[i], r[j]) {
          if j == |r| - 1 {
            assert r[i] == init[i] && r[j] == x;
            SelectMembership(front, keep, init[i]);
            var k :| 0 <= k < |front| && front[k] == init[i];
            assert paths[k] == r[i] && paths[|paths| - 1] == x;
          } else {
            assert r[i] == init[i] && r[j] == init[j];
          }
        }
      }
    }
  }

  /** Nothing is dropped exactly when every listed path satisfies `keep`. */
  lemma {:induction false} SelectKeepsLengthIffAll(paths: seq<Path>, keep: Path -> bool)
    ensures |Select(paths, keep)| == |paths| <==> forall i :: 0 <= i < |paths| ==> keep(paths[i])
  {
    if paths != [] {
      var front := paths[..|paths| - 1];
      SelectKeepsLengthIffAll(front, keep);
      assert forall i :: 0 <= i < |front| ==> front[i] == paths[i];
    }
  }

  /** Selecting again with the same test changes nothing. */
  lemma {:induction false} SelectIdempotent(paths: seq<Path>, keep: Path -> bool)
    ensures Select(Select(paths, keep), keep) == Select(paths, keep)
  {
    if paths != [] {
      var front := paths[..|paths| - 1];
      var x := paths[|paths| - 1];
      var tail := if keep(x) then [x] else [];
      SelectIdempotent(front, keep);
      SelectAppend(Select(front, keep), tail, keep);
      if keep(x) {
        assert [x][..0] == [];
        assert Select([x], keep) == [x];
      }
    }
  }
}
