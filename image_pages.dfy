/**
 * The image pages (gallerifrey.py:416-439).  Every image gets a page with
 * one row per category it belongs to; a row links to the category's first
 * index page and to the next and previous image of that category, wrapping
 * around at either end.  `generateImagePage` sorts the rows before it
 * renders them.  The HTML itself is not modelled: a page is its image's
 * list of rows.
 */
module ImagePages {
  import opened StringOrder
  import opened CategoryGraph
  import opened CategoryReader
  import opened Pagination
  import opened Names

  /** One navigation row: `(cat, nextimg, previmg)`. */
  datatype Link = Link(cat: string, next: string, prev: string)

  /**
   * Why building a row fails: `imgByCat[cat]` raises `KeyError` when the
   * category has no list, `imagesInCat.index(image)` raises `ValueError`
   * when the image is not in it.
   */
  datatype NavError = MissingCategory(cat: string) | ImageNotListed(cat: string)

  datatype NavResult<T> = Ok(value: T) | Err(error: NavError)

  /** `l.index(x)`: the position of the first occurrence of `x`. */
  function IndexOf(l: seq<string>, x: string): (r: nat)
    requires x in l
    ensures r < |l| && l[r] == x
    ensures forall k :: 0 <= k < r ==> l[k] != x
  {
    if l[0] == x then 0 else 1 + IndexOf(l[1..], x)
  }

  /** In a list without duplicates the position of an element is the only one. */
  lemma IndexOfDistinct(l: seq<string>, k: nat)
    requires Distinct(l) && k < |l|
    ensures IndexOf(l, l[k]) == k
  {
  }

  /** Every category of `cats` has a list in `ibyc`, and that list holds `image`. */
  predicate Navigable(ibyc: ListTable, image: string, cats: seq<string>)
  {
    forall c :: c in cats ==> c in ibyc && image in ibyc[c]
  }

  /** The row of `image` for category `cat`: its circular neighbours there. */
  function LinkAt(ibyc: ListTable, image: string, cat: string): Link
    requires cat in ibyc && image in ibyc[cat]
  {
    var l := ibyc[cat];
    var i := IndexOf(l, image);
    Link(cat, l[NextIndex(i, |l|)], l[PrevIndex(i, |l|)])
  }

  /** The rows of `image`, one per category, in the order of `cats`. */
  function Links(ibyc: ListTable, image: string, cats: seq<string>): (r: seq<Link>)
    requires Navigable(ibyc, image, cats)
  {
    seq(|cats|, k requires 0 <= k < |cats| => LinkAt(ibyc, image, cats[k]))
  }

  /**
   * A row names its category, and its next and previous images are images
   * of that category.
   */
  lemma LinkNeighbours(ibyc: ListTable, image: string, cat: string)
    requires cat in ibyc && image in ibyc[cat]
    ensures var r := LinkAt(ibyc, image, cat);
      r.cat == cat && r.next in ibyc[cat] && r.prev in ibyc[cat]
  {
    var l := ibyc[cat];
    NextPrevCircular(IndexOf(l, image), |l|);
  }

  /** The only image of a category is its own next and previous image. */
  lemma LinkSingleton(ibyc: ListTable, image: string, cat: string)
    requires cat in ibyc && image in ibyc[cat] && |ibyc[cat]| == 1
    ensures LinkAt(ibyc, image, cat) == Link(cat, image, image)
  {
    NextPrevCircular(IndexOf(ibyc[cat], image), 1);
  }

  /**
   * Navigation wraps around: the last image of a category leads on to the
   * first, and the first leads back to the last.
   */
  lemma LinkWraps(ibyc: ListTable, cat: string)
    requires cat in ibyc && ibyc[cat] != [] && Distinct(ibyc[cat])
    ensures var l := ibyc[cat];
      LinkAt(ibyc, l[|l| - 1], cat).next == l[0] && LinkAt(ibyc, l[0], cat).prev == l[|l| - 1]
  {
    var l := ibyc[cat];
    IndexOfDistinct(l, |l| - 1);
    IndexOfDistinct(l, 0);
    NextPrevCircular(|l| - 1, |l|);
    NextPrevCircular(0, |l|);
  }

  /**
   * In a category without duplicates, stepping to the next image and then
   * back returns to the image, and so does stepping back and then on.
   */
  lemma LinkInverse(ibyc: ListTable, image: string, cat: string)
    requires cat in ibyc && image in ibyc[cat] && Distinct(ibyc[cat])
    ensures var r := LinkAt(ibyc, image, cat);
      && r.next in ibyc[cat] && LinkAt(ibyc, r.next, cat).prev == image
      && r.prev in ibyc[cat] && LinkAt(ibyc, r.prev, cat).next == image
  {
    var l := ibyc[cat];
    var i := IndexOf(l, image);
    NextPrevCircular(i, |l|);
    IndexOfDistinct(l, NextIndex(i, |l|));
    IndexOfDistinct(l, PrevIndex(i, |l|));
  }

  /**
   * In a category without duplicates an image is its own neighbour only
   * when it is the category's only image.
   */
  lemma LinkSelf(ibyc: ListTable, image: string, cat: string)
    requires cat in ibyc && image in ibyc[cat] && Distinct(ibyc[cat])
    ensures var r := LinkAt(ibyc, image, cat);
      (r.next == image <==> |ibyc[cat]| == 1) && (r.prev == image <==> |ibyc[cat]| == 1)
  {
    var l := ibyc[cat];
    var i := IndexOf(l, image);
    NextPrevCircular(i, |l|);
    if |l| > 1 {
      if i + 1 < |l| {
        DivUnique(i + 1, |l|, 0, i + 1);
      } else {
        DivUnique(i + 1, |l|, 1, 0);
      }
      if i > 0 {
        DivUnique(i - 1, |l|, 0, i - 1);
      } else {
        DivUnique(-1, |l|, -1, |l| - 1);
      }
    }
  }

  /**
   * The inner loop of `createImagePages`: a row for each category of the
   * image, in order, stopping at the first category that has no list or
   * whose list lacks the image.
   */
  method ImageLinks(ibyc: ListTable, image: string, cats: seq<string>) returns (r: NavResult<seq<Link>>)
    ensures r.Ok? <==> Navigable(ibyc, image, cats)
    ensures r.Ok? ==> r.value == Links(ibyc, image, cats)
    ensures r.Err? ==> exists k :: 0 <= k < |cats| && Navigable(ibyc, image, cats[..k]) && r.error == Failure(ibyc, image, cats[k])
  {
    var links: seq<Link> := [];
    var k := 0;
    while k < |cats|
      invariant k <= |cats|
      invariant Navigable(ibyc, image, cats[..k])
      invariant links == Links(ibyc, image, cats[..k])
    {
      var cat := cats[k];
      if cat !in ibyc {
        return Err(MissingCategory(cat));
      }
      var imagesInCat := ibyc[cat];
      if image !in imagesInCat {
        return Err(ImageNotListed(cat));
      }
      var imgidx := IndexOf(imagesInCat, image);
      var numImages := |imagesInCat|;
      NextPrevCircular(imgidx, numImages);
      var previmg := imagesInCat[PrevIndex(imgidx, numImages)];
      var nextimg := imagesInCat[NextIndex(imgidx, numImages)];
      assert cats[..k + 1] == cats[..k] + [cat];
      links := links + [Link(cat, nextimg, previmg)];
      k := k + 1;
    }
    assert cats[..k] == cats;
    return Ok(links);
  }

  /** The error the inner loop raises at a category it cannot use. */
  function Failure(ibyc: ListTable, image: string, cat: string): NavError
  {
    if cat !in ibyc then MissingCategory(cat) else ImageNotListed(cat)
  }

  /** Python's tuple order on rows: by category, then next image, then previous image. */
  predicate LinkLess(a: Link, b: Link)
  {
    || Less(a.cat, b.cat)
    || (a.cat == b.cat && Less(a.next, b.next))
    || (a.cat == b.cat && a.next == b.next && Less(a.prev, b.prev))
  }

  lemma LinkLessAsymmetric(a: Link, b: Link)
    ensures !(LinkLess(a, b) && LinkLess(b, a))
    ensures !LinkLess(a, a)
  {
    LessAsymmetric(a.cat, b.cat);
    LessAsymmetric(a.next, b.next);
    LessAsymmetric(a.prev, b.prev);
    LessIrreflexive(a.cat);
    LessIrreflexive(a.next);
    LessIrreflexive(a.prev);
    LessIrreflexive(b.cat);
    LessIrreflexive(b.next);
  }

  lemma LinkLessTransitive(a: Link, b: Link, c: Link)
    requires LinkLess(a, b) && LinkLess(b, c)
    ensures LinkLess(a, c)
  {
    if Less(a.cat, b.cat) && Less(b.cat, c.cat) {
      LessTransitive(a.cat, b.cat, c.cat);
    } else if a.cat == b.cat && b.cat == c.cat {
      if Less(a.next, b.next) && Less(b.next, c.next) {
        LessTransitive(a.next, b.next, c.next);
      } else if a.next == b.next && b.next == c.next {
        LessTransitive(a.prev, b.prev, c.prev);
      }
    }
  }

  lemma LinkLessTotal(a: Link, b: Link)
    ensures a == b || LinkLess(a, b) || LinkLess(b, a)
  {
    LessTotal(a.cat, b.cat);
    LessTotal(a.next, b.next);
    LessTotal(a.prev, b.prev);
  }

  /** Non-decreasing in the row order. */
  predicate LinksSorted(l: seq<Link>)
  {
    forall i, j :: 0 <= i < j < |l| ==> !LinkLess(l[j], l[i])
  }

  /** Strictly increasing in the row order. */
  predicate LinksStrictlySorted(l: seq<Link>)
  {
    forall i, j :: 0 <= i < j < |l| ==> LinkLess(l[i], l[j])
  }

  /** Inserts a row into sorted rows after every row not above it. */
  function InsertLink(x: Link, l: seq<Link>): (r: seq<Link>)
    requires LinksSorted(l)
    ensures LinksSorted(r)
    ensures multiset(r) == multiset(l) + multiset{x}
  {
    if l == [] then [x]
    else if LinkLess(l[0], x) || l[0] == x then
      var tail := InsertLink(x, l[1..]);
      LinkHeadBelow(l, x, tail);
      [l[0]] + tail
    else
      LinkConsBelow(x, l);
      [x] + l
  }

  /** Helper for InsertLink: the head stays below every row of the new tail. */
  lemma LinkHeadBelow(l: seq<Link>, x: Link, tail: seq<Link>)
    requires l != [] && LinksSorted(l) && LinksSorted(tail)
    requires LinkLess(l[0], x) || l[0] == x
    requires multiset(tail) == multiset(l[1..]) + multiset{x}
    ensures LinksSorted([l[0]] + tail)
    ensures multiset([l[0]] + tail) == multiset(l) + multiset{x}
  {
    assert l == [l[0]] + l[1..];
    var r := [l[0]] + tail;
    forall i, j | 0 <= i < j < |r| ensures !LinkLess(r[j], r[i]) {
      if i == 0 {
        var y := r[j];
        assert y == tail[j - 1] && y in multiset(tail);
        if y == x {
          LinkLessAsymmetric(l[0], x);
        } else {
          assert y in l[1..];
          var k :| 0 <= k < |l[1..]| && l[1..][k] == y;
          assert l[k + 1] == y;
          LinkLessAsymmetric(l[0], y);
        }
      }
    }
  }

  /** Helper for InsertLink: a row not above the head may be consed on. */
  lemma LinkConsBelow(x: Link, l: seq<Link>)
    requires l != [] && LinksSorted(l) && !(LinkLess(l[0], x) || l[0] == x)
    ensures LinksSorted([x] + l)
  {
    LinkLessTotal(x, l[0]);
    var r := [x] + l;
    forall i, j | 0 <= i < j < |r| ensures !LinkLess(r[j], r[i]) {
      if i == 0 {
        if j == 1 {
          LinkLessAsymmetric(x, l[0]);
        } else if LinkLess(r[j], x) {
          assert !LinkLess(l[j - 1], l[0]);
          LinkLessTransitive(r[j], x, l[0]);
        }
      }
    }
  }

  /** `links.sort()` (insertion sort on the row order). */
  function SortLinks(l: seq<Link>): (r: seq<Link>)
    ensures LinksSorted(r)
    ensures multiset(r) == multiset(l)
  {
    if l == [] then []
    else
      assert l == [l[0]] + l[1..];
      InsertLink(l[0], SortLinks(l[1..]))
  }

  /** Sorting rows that are already strictly increasing changes nothing. */
  lemma {:induction false} SortLinksOfStrict(l: seq<Link>)
    requires LinksStrictlySorted(l)
    ensures SortLinks(l) == l
  {
    if l != [] {
      var t := l[1..];
      assert LinksStrictlySorted(t) by {
        forall i, j | 0 <= i < j < |t| ensures LinkLess(t[i], t[j]) {
          assert t[i] == l[i + 1] && t[j] == l[j + 1];
        }
      }
      SortLinksOfStrict(t);
      assert SortLinks(l) == InsertLink(l[0], t);
      if t != [] {
        assert LinkLess(l[0], t[0]);
        LinkLessAsymmetric(l[0], t[0]);
      }
      assert InsertLink(l[0], t) == [l[0]] + t;
      assert l == [l[0]] + t;
    }
  }

  /** Rows built over strictly sorted categories are strictly sorted. */
  lemma LinksOfSortedCategories(ibyc: ListTable, image: string, cats: seq<string>)
    requires Navigable(ibyc, image, cats) && StrictlySorted(cats)
    ensures LinksStrictlySorted(Links(ibyc, image, cats))
    ensures SortLinks(Links(ibyc, image, cats)) == Links(ibyc, image, cats)
  {
    SortLinksOfStrict(Links(ibyc, image, cats));
  }

  /**
   * The page `p` holds the sorted rows of one of the images whose page
   * name is `p`.
   */
  predicate PageOf(ibyc: ListTable, cbyi: ListTable, p: string, links: seq<Link>)
  {
    exists i :: i in cbyi && ImagePageName(i) == p && Navigable(ibyc, i, cbyi[i]) &&
      links == SortLinks(Links(ibyc, i, cbyi[i]))
  }

  /**
   * `createImagePages`: every image's page in turn, written to the file
   * `getImagePageName(image)` and holding the image's rows as
   * `generateImagePage` sorts them.  Images that differ only in their
   * extension write the same file, and the one written last stays.  The
   * run stops at the first image with an unusable category.
   */
  method CreateImagePages(ibyc: ListTable, cbyi: ListTable) returns (r: NavResult<map<string, seq<Link>>>)
    ensures r.Ok? <==> forall i :: i in cbyi ==> Navigable(ibyc, i, cbyi[i])
    ensures r.Ok? ==> forall i :: i in cbyi ==> ImagePageName(i) in r.value
    ensures r.Ok? ==> forall p :: p in r.value ==> PageOf(ibyc, cbyi, p, r.value[p])
  {
    var pages: map<string, seq<Link>> := map[];
    var todo := cbyi.Keys;
    while todo != {}
      invariant todo <= cbyi.Keys
      invariant forall i :: i in cbyi && i !in todo ==> Navigable(ibyc, i, cbyi[i]) && ImagePageName(i) in pages
      invariant forall p :: p in pages ==> PageOf(ibyc, cbyi, p, pages[p])
      decreases todo
    {
      var image :| image in todo;
      var links := ImageLinks(ibyc, image, cbyi[image]);
      if links.Err? {
        return Err(links.error);
      }
      var pagename := ImagePageName(image);
      PageStep(ibyc, cbyi, pages, image, links.value);
      pages := pages[pagename := SortLinks(links.value)];
      todo := todo - {image};
    }
    return Ok(pages);
  }

  /** Writing one more image's page keeps every page the page of some image. */
  lemma PageStep(ibyc: ListTable, cbyi: ListTable, pages: map<string, seq<Link>>, image: string, links: seq<Link>)
    requires forall p :: p in pages ==> PageOf(ibyc, cbyi, p, pages[p])
    requires image in cbyi && Navigable(ibyc, image, cbyi[image]) && links == Links(ibyc, image, cbyi[image])
    ensures var q := pages[ImagePageName(image) := SortLinks(links)];
      forall p :: p in q ==> PageOf(ibyc, cbyi, p, q[p])
  {
    assert PageOf(ibyc, cbyi, ImagePageName(image), SortLinks(links));
  }

  /**
   * When no two images share a page name, every image's page holds that
   * image's own rows.
   */
  lemma DistinctPageNames(ibyc: ListTable, cbyi: ListTable, pages: map<string, seq<Link>>, image: string)
    requires forall i, j :: i in cbyi && j in cbyi && ImagePageName(i) == ImagePageName(j) ==> i == j
    requires forall p :: p in pages ==> PageOf(ibyc, cbyi, p, pages[p])
    requires image in cbyi && ImagePageName(image) in pages
    ensures Navigable(ibyc, image, cbyi[image])
    ensures pages[ImagePageName(image)] == SortLinks(Links(ibyc, image, cbyi[image]))
  {
    var i :| i in cbyi && ImagePageName(i) == ImagePageName(image) && Navigable(ibyc, i, cbyi[i]) &&
      pages[ImagePageName(image)] == SortLinks(Links(ibyc, i, cbyi[i]));
  }

  /**
   * On what `readCategories` returns, building the image pages never
   * fails, and each page lists the image's categories in order, each row
   * leading to neighbours in that category, which lead back.
   */
  lemma ReaderPagesNavigable(images: seq<string>, dir: Dir, ibyc: ListTable, cbyi: ListTable, image: string)
    requires Frozen(ibyc, CategoryTables(images, dir).ibc)
    requires Frozen(cbyi, CategoryTables(images, dir).cbi)
    requires image in cbyi
    ensures Navigable(ibyc, image, cbyi[image])
    ensures SortLinks(Links(ibyc, image, cbyi[image])) == Links(ibyc, image, cbyi[image])
    ensures forall k :: 0 <= k < |cbyi[image]| ==>
      var c, r := cbyi[image][k], Links(ibyc, image, cbyi[image])[k];
      && r.cat == c && r.next in ibyc[c] && r.prev in ibyc[c]
      && LinkAt(ibyc, r.next, c).prev == image && LinkAt(ibyc, r.prev, c).next == image
  {
    ReadCategoriesSymmetric(images, dir, ibyc, cbyi);
    var cats := cbyi[image];
    assert Navigable(ibyc, image, cats);
    LinksOfSortedCategories(ibyc, image, cats);
    forall k | 0 <= k < |cats|
      ensures var c, r := cats[k], Links(ibyc, image, cats)[k];
        && r.cat == c && r.next in ibyc[c] && r.prev in ibyc[c]
        && LinkAt(ibyc, r.next, c).prev == image && LinkAt(ibyc, r.prev, c).next == image
    {
      var c := cats[k];
      StrictIsSortedDistinct(ibyc[c]);
      LinkInverse(ibyc, image, c);
    }
  }
}
