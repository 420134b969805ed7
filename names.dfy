/**
 * File and page names of the gallery: `os.path.splitext` on a name, the
 * extension filters, and the names of generated pages and thumbnails
 * (gallerifrey.py:37-68).
 */
module Names {
  import opened Text
  import opened StringOrder

  /** `s.rfind(c)`: the last index of `c` in `s`, or -1. */
  function LastIndex(s: string, c: char): (r: int)
    ensures -1 <= r < |s|
    ensures r >= 0 ==> s[r] == c
    ensures forall k :: r < k < |s| ==> s[k] != c
  {
    if s == [] then -1
    else if s[|s| - 1] == c then |s| - 1
    else LastIndex(s[..|s| - 1], c)
  }

  /** An occurrence of `c` with no `c` after it is the last one. */
  lemma {:induction false} LastIndexAt(s: string, c: char, r: nat)
    requires r < |s| && s[r] == c
    requires forall k :: r < k < |s| ==> s[k] != c
    ensures LastIndex(s, c) == r
  {
    if r < |s| - 1 {
      LastIndexAt(s[..|s| - 1], c, r);
    }
  }

  /** Every character of `s` is a dot. */
  predicate AllDots(s: string)
  {
    forall k :: 0 <= k < |s| ==> s[k] == '.'
  }

  /**
   * `os.path.splitext(p)` (posixpath): the extension starts at the last
   * dot of the last path component, unless everything before that dot in
   * the component is dots (so `.bashrc` has no extension).
   */
  function SplitExt(p: string): (r: (string, string))
    ensures r.0 + r.1 == p
    ensures r.1 == [] || IsExtension(r.1)
  {
    var sep := LastIndex(p, '/');
    var dot := LastIndex(p, '.');
    if dot > sep && !AllDots(p[sep + 1..dot]) then
      ExtensionAfterLastDot(p, sep, dot);
      (p[..dot], p[dot..])
    else
      (p, [])
  }

  /** What follows the last dot, when no slash follows it, is an extension. */
  lemma ExtensionAfterLastDot(p: string, sep: int, dot: int)
    requires -1 <= sep < dot < |p| && p[dot] == '.'
    requires forall k :: dot < k < |p| ==> p[k] != '.'
    requires forall k :: sep < k < |p| ==> p[k] != '/'
    ensures IsExtension(p[dot..]) && p[..dot] + p[dot..] == p
  {
    var e := p[dot..];
    assert forall k :: 1 <= k < |e| ==> e[k] == p[dot + k];
  }

  /** A plain file name: one path component with something other than dots in it. */
  predicate IsPlainName(stem: string)
  {
    '/' !in stem && !AllDots(stem)
  }

  /** An extension as `splitext` returns it: a dot and no further dot or slash. */
  predicate IsExtension(ext: string)
  {
    |ext| >= 1 && ext[0] == '.' && forall k :: 1 <= k < |ext| ==> ext[k] != '.' && ext[k] != '/'
  }

  /** `splitext` cuts a plain name followed by an extension exactly between the two. */
  lemma SplitExtOf(stem: string, ext: string)
    requires IsPlainName(stem) && IsExtension(ext)
    ensures SplitExt(stem + ext) == (stem, ext)
  {
    var p := stem + ext;
    assert p[|stem|] == '.';
    LastIndexAt(p, '.', |stem|);
    assert forall k :: 0 <= k < |p| ==> p[k] != '/' by {
      assert forall k :: 0 <= k < |stem| ==> p[k] == stem[k] && stem[k] in stem;
    }
    assert p[0..|stem|] == stem;
  }

  /**
   * `fileHasExt(f, extension)`: only an empty or a proper extension can
   * match, and it is what ends the name.
   */
  function FileHasExt(f: string, extension: string): (b: bool)
    ensures b ==> extension == [] || IsExtension(extension)
    ensures b ==> |extension| <= |f| && f[|f| - |extension|..] == extension
  {
    var (stem, ext) := SplitExt(f);
    assert f[|f| - |ext|..] == ext by {
      assert f == stem + ext;
    }
    ext == extension
  }

  /** On a plain stem with an extension, `fileHasExt` matches that extension and no other. */
  lemma FileHasExtOf(stem: string, ext: string, extension: string)
    requires IsPlainName(stem) && IsExtension(ext)
    ensures FileHasExt(stem + ext, extension) <==> extension == ext
  {
    SplitExtOf(stem, ext);
  }

  /** The artifacts a publish leaves behind are recognised by the category reader's filter. */
  lemma ArtifactHasExt(name: string, suffix: string)
    requires IsPlainName(name) && (suffix == ".bak" || suffix == ".tmp")
    ensures FileHasExt(name + suffix, suffix)
  {
    SplitExtOf(name, suffix);
  }

  /**
   * A name made only of dots is not a plain name, and `splitext` leaves
   * the backup made from it without an extension.
   */
  lemma DotNameBackupHasNoExt()
    ensures !FileHasExt("..." + ".bak", ".bak")
  {
    var p := "..." + ".bak";
    LastIndexAt(p, '.', 3);
    assert p[0..3] == "...";
  }

  /** `getImagePageName(image)`: the image name with its extension replaced by `.html`. */
  function ImagePageName(image: string): (r: string)
    ensures |r| >= 5 && r[|r| - 5..] == ".html"
    ensures SplitExt(image).0 == r[..|r| - 5]
  {
    var r := SplitExt(image).0 + ".html";
    assert r[..|r| - 5] == SplitExt(image).0;
    r
  }

  /** Two images share a page name exactly when they have the same stem. */
  lemma ImagePageNameSame(a: string, b: string)
    ensures ImagePageName(a) == ImagePageName(b) <==> SplitExt(a).0 == SplitExt(b).0
  {
    var ra, rb := ImagePageName(a), ImagePageName(b);
    if ra == rb {
      assert ra[..|ra| - 5] == rb[..|rb| - 5];
    }
  }

  /**
   * Two images that differ only in their extension share one page name:
   * `a.png` and `a.jpg` both map to `a.html`.
   */
  lemma ImagePageNameCollision(stem: string, ext1: string, ext2: string)
    requires IsPlainName(stem) && IsExtension(ext1) && IsExtension(ext2)
    ensures ImagePageName(stem + ext1) == ImagePageName(stem + ext2) == stem + ".html"
  {
    SplitExtOf(stem, ext1);
    SplitExtOf(stem, ext2);
  }

  /** `getIndexPageName(category, n)`: `index-<category>-<n>.html`. */
  function IndexPageName(category: string, n: nat): (r: string)
    ensures |r| > 12 + |category| && r[..6] == "index-" && r[|r| - 5..] == ".html"
  {
    var r := "index-" + category + "-" + NatToString(n) + ".html";
    assert r[..6] == "index-";
    r
  }

  /** The category and page number can be read back from an index page name. */
  lemma IndexPageNameInjective(c1: string, n1: nat, c2: string, n2: nat)
    requires IndexPageName(c1, n1) == IndexPageName(c2, n2)
    ensures c1 == c2 && n1 == n2
  {
    var u1, u2 := PageKey(c1, n1), PageKey(c2, n2);
    IndexPageNameFromKey(c1, n1);
    IndexPageNameFromKey(c2, n2);
    assert u1 == u2;
    KeyParts(c1, n1);
    KeyParts(c2, n2);
    NatToStringInjective(n1, n2);
  }

  /** The part of an index page name between `index-` and `.html`. */
  function PageKey(category: string, n: nat): string
  {
    category + "-" + NatToString(n)
  }

  lemma IndexPageNameFromKey(category: string, n: nat)
    ensures var p := IndexPageName(category, n);
      |p| == |PageKey(category, n)| + 11 && p[6..|p| - 5] == PageKey(category, n)
  {
    var u := PageKey(category, n);
    assert IndexPageName(category, n) == "index-" + u + ".html";
  }

  /** The last dash of a page key separates the category from the page number. */
  lemma KeyParts(category: string, n: nat)
    ensures var u := PageKey(category, n);
      LastIndex(u, '-') == |category| && u[..|category|] == category && u[|category| + 1..] == NatToString(n)
  {
    var d := NatToString(n);
    var u := PageKey(category, n);
    assert forall k :: |category| < k < |u| ==> u[k] == d[k - |category| - 1] && d[k - |category| - 1] in d;
    LastIndexAt(u, '-', |category|);
  }

  /** `prettyPageName(name)`: the page name without its extension. */
  function PrettyPageName(name: string): (r: string)
    ensures |r| <= |name| && r == name[..|r|]
  {
    SplitExt(name).0
  }

  /** The label of an index page link is its name without `.html`. */
  lemma PrettyIndexPageName(category: string, n: nat)
    requires '/' !in category
    ensures PrettyPageName(IndexPageName(category, n)) == "index-" + category + "-" + NatToString(n)
  {
    var stem := "index-" + category + "-" + NatToString(n);
    assert stem[|stem| - |NatToString(n)| - 1] == '-';
    assert !AllDots(stem);
    assert '/' !in stem by {
      assert forall c :: c in NatToString(n) ==> c != '/';
    }
    SplitExtOf(stem, ".html");
    assert IndexPageName(category, n) == stem + ".html";
  }

  /** `getThumbnailName(image)`: `os.path.join("thumbs", image)`. */
  function ThumbnailName(image: string): (r: string)
    ensures |r| >= |image| && r[|r| - |image|..] == image
    ensures |r| > 0 && (r[0] == '/' <==> |image| > 0 && image[0] == '/')
  {
    if |image| > 0 && image[0] == '/' then image
    else
      var r := "thumbs/" + image;
      assert r[|r| - |image|..] == image;
      r
  }

  /** Unlike page names, thumbnail names never collide. */
  lemma ThumbnailNameInjective(a: string, b: string)
    requires ThumbnailName(a) == ThumbnailName(b)
    ensures a == b
  {
    var ta, tb := ThumbnailName(a), ThumbnailName(b);
    var absA, absB := |a| > 0 && a[0] == '/', |b| > 0 && b[0] == '/';
    assert ta[0] == (if absA then '/' else 't');
    assert tb[0] == (if absB then '/' else 't');
    if !absA {
      assert a == ta[7..] && b == tb[7..];
    }
  }

  /** Python 2 `str.lower()`: ASCII upper-case letters only. */
  function Lower(s: string): (r: string)
    ensures |r| == |s|
    ensures forall k :: 0 <= k < |s| ==> r[k] == if 'A' <= s[k] <= 'Z' then s[k] - 'A' + 'a' else s[k]
  {
    seq(|s|, k requires 0 <= k < |s| => if 'A' <= s[k] <= 'Z' then s[k] - 'A' + 'a' else s[k])
  }

  /** Lower-casing twice is lower-casing once. */
  lemma LowerIdempotent(s: string)
    ensures Lower(Lower(s)) == Lower(s)
  {
    var l := Lower(s);
    assert forall k :: 0 <= k < |l| ==> !('A' <= l[k] <= 'Z');
  }

  /** A string is its own lower case exactly when it has no ASCII upper-case letter. */
  lemma LowerUnchanged(s: string)
    ensures Lower(s) == s <==> forall k :: 0 <= k < |s| ==> !('A' <= s[k] <= 'Z')
  {
    if Lower(s) == s {
      forall k | 0 <= k < |s| ensures !('A' <= s[k] <= 'Z') {
        assert Lower(s)[k] == s[k];
      }
    }
  }

  /** `IMAGEFILES`: the extensions of image files. */
  const ImageExtensions: seq<string> := [".png", ".jpg", ".gif", ".tiff"]

  /** The test in `getImageFiles`: the lower-cased extension is one of `IMAGEFILES`. */
  predicate IsImageFile(f: string)
    ensures IsImageFile(f) ==> IsExtension(SplitExt(f).1) && 4 <= |SplitExt(f).1| <= 5
  {
    Lower(SplitExt(f).1) in ImageExtensions
  }

  /**
   * A plain stem with an extension is an image file exactly when the
   * extension, in any case, is one of `IMAGEFILES`: `a.PNG` is one,
   * `a.jpeg` is not.
   */
  lemma ImageFileAnyCase(stem: string, ext: string)
    requires IsPlainName(stem) && IsExtension(ext)
    ensures IsImageFile(stem + ext) <==> Lower(ext) in ImageExtensions
  {
    SplitExtOf(stem, ext);
  }

  /**
   * `getImageFiles` on a directory listing: keeps the image files, as
   * often as they are listed, and sorts them.
   */
  method ImageFiles(listing: seq<string>) returns (r: seq<string>)
    ensures Sorted(r)
    ensures forall x :: multiset(r)[x] == if IsImageFile(x) then multiset(listing)[x] else 0
  {
    var accm: seq<string> := [];
    for i := 0 to |listing|
      invariant forall x :: multiset(accm)[x] == if IsImageFile(x) then multiset(listing[..i])[x] else 0
    {
      var filename := listing[i];
      assert listing[..i + 1] == listing[..i] + [filename];
      if IsImageFile(filename) {
        accm := accm + [filename];
      }
    }
    assert listing[..|listing|] == listing;
    r := Sort(accm);
  }
}
