/**
 * Splitting lists into fixed-size slices (`chunks`, gallerifrey.py:103-105),
 * the padding of HTML tables to full rows (`generateTable`,
 * gallerifrey.py:108-121) and the circularly linked index pages of a
 * category (`setupIndexPages`, gallerifrey.py:164-197).
 */
module Pagination {
  import opened Names

  function Min(a: int, b: int): int
  {
    if a <= b then a else b
  }

  lemma {:induction false} MulAtLeast(k: nat, n: nat)
    requires k >= 1
    ensures k * n >= n
    decreases k
  {
    if k > 1 {
      MulAtLeast(k - 1, n);
      assert k * n == (k - 1) * n + n;
    }
  }

  lemma MulFarFromZero(k: int, n: nat)
    ensures k >= 1 ==> k * n >= n
    ensures k <= -1 ==> k * n + n <= 0
  {
    if k >= 1 {
      MulAtLeast(k, n);
    } else if k <= -1 {
      MulAtLeast(-k, n);
      assert k * n == -((-k) * n);
    }
  }

  /** One more `n`. */
  lemma MulSucc(a: int, n: int)
    ensures (a + 1) * n == a * n + n
  {
  }

  /** Quotient and remainder are the unique such pair. */
  lemma DivUnique(x: int, n: int, q: int, r: int)
    requires n > 0 && 0 <= r < n && x == q * n + r
    ensures x / n == q && x % n == r
  {
    var q0, r0 := x / n, x % n;
    assert x == q0 * n + r0;
    assert (q - q0) * n == r0 - r;
    MulFarFromZero(q - q0, n);
  }

  /** Number of chunks of size `n` needed for `len` elements: ceil(len / n). */
  function NumChunks(len: nat, n: nat): nat
    requires n > 0
  {
    (len + n - 1) / n
  }

  /**
   * `chunks(l, n)`: the slices `l[i:i+n]` for i in `range(0, len(l), n)`,
   * built front to back (ChunkAt states the slice at each index).
   */
  function Chunks<T>(l: seq<T>, n: nat): (r: seq<seq<T>>)
    requires n > 0
    decreases |l|
  {
    if l == [] then []
    else
      var m := Min(n, |l|);
      [l[..m]] + Chunks(l[m..], n)
  }

  /** Concatenation of a list of lists. */
  function Flatten<T>(ls: seq<seq<T>>): seq<T>
  {
    if ls == [] then [] else ls[0] + Flatten(ls[1..])
  }

  /** One chunk more for every further `n` elements. */
  lemma NumChunksStep(len: nat, n: nat)
    requires n > 0
    ensures len == 0 ==> NumChunks(len, n) == 0
    ensures 0 < len <= n ==> NumChunks(len, n) == 1
    ensures len > n ==> NumChunks(len, n) == NumChunks(len - n, n) + 1
  {
    if len == 0 {
      DivUnique(n - 1, n, 0, n - 1);
    } else if len <= n {
      DivUnique(len + n - 1, n, 1, len - 1);
    } else {
      var q, r := (len - 1) / n, (len - 1) % n;
      assert len - 1 == q * n + r;
      assert len - n + n - 1 == (q - 1) * n + r + n;
      assert (q - 1) * n + n == q * n;
      DivUnique(len - n + n - 1, n, q, r);
      DivUnique(len + n - 1, n, q + 1, r);
    }
  }

  /** There are ceil(len / n) chunks: none for an empty list. */
  lemma {:induction false} ChunksCount<T>(l: seq<T>, n: nat)
    requires n > 0
    ensures |Chunks(l, n)| == NumChunks(|l|, n)
    ensures |Chunks(l, n)| * n >= |l|
    ensures |l| > 0 ==> (|Chunks(l, n)| - 1) * n < |l|
    decreases |l|
  {
    NumChunksStep(|l|, n);
    if |l| > n {
      ChunksCount(l[n..], n);
      var k' := |Chunks(l[n..], n)|;
      assert |Chunks(l, n)| == k' + 1;
      MulSucc(k', n);
      MulSucc(k' - 1, n);
    }
  }

  /** Chunk `i` is the slice `l[i*n : i*n + n]` of the comprehension. */
  lemma {:induction false} ChunkAt<T>(l: seq<T>, n: nat, i: nat)
    requires n > 0 && i < |Chunks(l, n)|
    ensures i * n < |l|
    ensures Chunks(l, n)[i] == l[i * n..Min(i * n + n, |l|)]
    decreases i
  {
    if i > 0 {
      var t := l[n..];
      assert Chunks(l, n)[i] == Chunks(t, n)[i - 1];
      ChunkAt(t, n, i - 1);
      var j := (i - 1) * n;
      MulSucc(i - 1, n);
      assert i * n == j + n;
      assert Min(j + n, |t|) + n == Min(i * n + n, |l|);
      assert t[j..Min(j + n, |t|)] == l[j + n..Min(j + n, |t|) + n];
    }
  }

  /** Concatenating the chunks gives back the list. */
  lemma {:induction false} ChunksFlatten<T>(l: seq<T>, n: nat)
    requires n > 0
    ensures Flatten(Chunks(l, n)) == l
    decreases |l|
  {
    if l != [] {
      var m := Min(n, |l|);
      ChunksFlatten(l[m..], n);
      assert Chunks(l, n)[1..] == Chunks(l[m..], n);
      assert l == l[..m] + l[m..];
    }
  }

  /**
   * Every chunk is non-empty and at most `n` long, and every chunk but
   * the last is exactly `n` long.
   */
  lemma {:induction false} ChunkSizes<T>(l: seq<T>, n: nat)
    requires n > 0
    ensures forall i :: 0 <= i < |Chunks(l, n)| ==> 0 < |Chunks(l, n)[i]| <= n
    ensures forall i :: 0 <= i < |Chunks(l, n)| - 1 ==> |Chunks(l, n)[i]| == n
    decreases |l|
  {
    if l != [] {
      var m := Min(n, |l|);
      ChunkSizes(l[m..], n);
      var r, t := Chunks(l, n), Chunks(l[m..], n);
      assert forall i :: 1 <= i < |r| ==> r[i] == t[i - 1];
      assert |r| > 1 ==> t != [] && |l| > n;
    }
  }

  /** A list of `k` times `n` elements makes `k` full chunks. */
  lemma {:induction false} ChunksOfMultiple<T>(l: seq<T>, n: nat, k: nat)
    requires n > 0 && |l| == k * n
    ensures |Chunks(l, n)| == k
    ensures forall i :: 0 <= i < k ==> |Chunks(l, n)[i]| == n
    decreases k
  {
    if k > 0 {
      assert |l| == (k - 1) * n + n;
      ChunksOfMultiple(l[n..], n, k - 1);
      var r, t := Chunks(l, n), Chunks(l[n..], n);
      assert forall i :: 1 <= i < |r| ==> r[i] == t[i - 1];
    }
  }

  /** The padding count of `generateTable`: cells added to fill up the last row. */
  function PadCount(numCells: nat, numColumns: nat): (p: nat)
    requires numColumns > 0
    ensures p < numColumns
    ensures p == 0 <==> numCells % numColumns == 0
  {
    if numCells % numColumns == 0 then 0 else numColumns - numCells % numColumns
  }

  /** `(numCells + p)` cells fill whole rows of `numColumns`. */
  predicate FillsRows(numCells: nat, numColumns: nat, p: nat)
    requires numColumns > 0
  {
    (numCells + p) % numColumns == 0
  }

  /** Padding fills the last row exactly, with the fewest cells that do so. */
  lemma PadCountFillsRow(numCells: nat, numColumns: nat)
    requires numColumns > 0
    ensures FillsRows(numCells, numColumns, PadCount(numCells, numColumns))
    ensures PadCount(numCells, numColumns) < numColumns
    ensures forall p: nat :: p < PadCount(numCells, numColumns) ==> !FillsRows(numCells, numColumns, p)
  {
    var q, m := numCells / numColumns, numCells % numColumns;
    assert numCells == q * numColumns + m;
    if m == 0 {
      DivUnique(numCells, numColumns, q, 0);
    } else {
      DivUnique(numCells + (numColumns - m), numColumns, q + 1, 0);
      forall p: nat | p < numColumns - m ensures !FillsRows(numCells, numColumns, p) {
        DivUnique(numCells + p, numColumns, q, m + p);
      }
    }
  }

  /** The padding cells appended by `generateTable`. */
  function Padding<T>(numCells: nat, padding: T, numColumns: nat): seq<T>
    requires numColumns > 0
  {
    seq(PadCount(numCells, numColumns), _ => padding)
  }

  /** The table rows `generateTable` lays out: the cells, padded, in rows of `numColumns`. */
  function TableRows<T>(cells: seq<T>, padding: T, numColumns: nat): (rows: seq<seq<T>>)
    requires numColumns > 0
  {
    Chunks(cells + Padding(|cells|, padding, numColumns), numColumns)
  }

  /**
   * Every row of a generated table is full, there are ceil(cells / columns)
   * rows, and the rows hold the cells in order followed by the padding.
   */
  lemma TableRowsFull<T>(cells: seq<T>, padding: T, numColumns: nat)
    requires numColumns > 0
    ensures forall i :: 0 <= i < |TableRows(cells, padding, numColumns)| ==> |TableRows(cells, padding, numColumns)[i]| == numColumns
    ensures |TableRows(cells, padding, numColumns)| == NumChunks(|cells|, numColumns)
    ensures Flatten(TableRows(cells, padding, numColumns)) == cells + Padding(|cells|, padding, numColumns)
  {
    var p := PadCount(|cells|, numColumns);
    var all := cells + Padding(|cells|, padding, numColumns);
    PadCountFillsRow(|cells|, numColumns);
    var k := |all| / numColumns;
    assert |all| == k * numColumns + |all| % numColumns;
    ChunksOfMultiple(all, numColumns, k);
    ChunksFlatten(all, numColumns);
    DivUnique(|cells| + numColumns - 1, numColumns, k, numColumns - 1 - p);
  }

  /** `imagesPerPage` of `setupIndexPages`. */
  const ImagesPerPage: nat := 60

  /** One index page: its name, the names it links to, and the images it shows. */
  datatype IndexPage = IndexPage(name: string, next: string, prev: string, items: seq<string>)

  /**
   * Next and previous page of page `i` among `n` pages. Python's `%`
   * takes the sign of the divisor, which for `n > 0` agrees with Dafny's
   * Euclidean `%`: `(0 - 1) % n == n - 1`.
   */
  function NextIndex(i: nat, n: nat): (r: nat)
    requires n > 0
    ensures r < n
    ensures i + 1 < n ==> r == i + 1
    ensures i + 1 == n ==> r == 0
  {
    if i + 1 < n then DivUnique(i + 1, n, 0, i + 1); (i + 1) % n
    else if i + 1 == n then DivUnique(i + 1, n, 1, 0); (i + 1) % n
    else (i + 1) % n
  }

  function PrevIndex(i: nat, n: nat): (r: nat)
    requires n > 0
    ensures r < n
    ensures 0 < i <= n ==> r == i - 1
    ensures i == 0 ==> r == n - 1
  {
    if i == 0 then DivUnique(-1, n, -1, n - 1); (i - 1) % n
    else if i <= n then DivUnique(i - 1, n, 0, i - 1); (i - 1) % n
    else (i - 1) % n
  }

  /** Navigation is circular: next and previous stay in range and undo each other. */
  lemma NextPrevCircular(i: nat, n: nat)
    requires i < n
    ensures NextIndex(i, n) < n && PrevIndex(i, n) < n
    ensures PrevIndex(NextIndex(i, n), n) == i && NextIndex(PrevIndex(i, n), n) == i
    ensures i == n - 1 ==> NextIndex(i, n) == 0
    ensures i == 0 ==> PrevIndex(i, n) == n - 1
    ensures n == 1 ==> NextIndex(i, n) == 0 && PrevIndex(i, n) == 0
  {
    if i + 1 < n {
      DivUnique(i + 1, n, 0, i + 1);
      DivUnique(i, n, 0, i);
    } else {
      DivUnique(i + 1, n, 1, 0);
      DivUnique(-1, n, -1, n - 1);
    }
    if i > 0 {
      DivUnique(i - 1, n, 0, i - 1);
      DivUnique(i, n, 0, i);
    } else {
      DivUnique(-1, n, -1, n - 1);
      DivUnique(n, n, 1, 0);
    }
  }

  /** The index pages of `category` that `setupIndexPages` creates. */
  function IndexPages(category: string, images: seq<string>): (pages: seq<IndexPage>)
  {
    var cs := Chunks(images, ImagesPerPage);
    seq(|cs|, i requires 0 <= i < |cs| =>
      IndexPage(IndexPageName(category, i),
                IndexPageName(category, NextIndex(i, |cs|)),
                IndexPageName(category, PrevIndex(i, |cs|)),
                cs[i]))
  }

  /**
   * The index pages of a category: no page for an empty category, and
   * the pages together show the images in order, at most 60 to a page,
   * every page but the last one full.
   */
  lemma IndexPagesCover(category: string, images: seq<string>)
    ensures var pages := IndexPages(category, images);
      && (pages == [] <==> images == [])
      && Flatten(seq(|pages|, i requires 0 <= i < |pages| => pages[i].items)) == images
      && (forall i :: 0 <= i < |pages| ==> 0 < |pages[i].items| <= ImagesPerPage)
      && (forall i :: 0 <= i < |pages| - 1 ==> |pages[i].items| == ImagesPerPage)
  {
    var pages := IndexPages(category, images);
    var cs := Chunks(images, ImagesPerPage);
    ChunksCount(images, ImagesPerPage);
    ChunkSizes(images, ImagesPerPage);
    ChunksFlatten(images, ImagesPerPage);
    assert seq(|pages|, i requires 0 <= i < |pages| => pages[i].items) == cs;
  }

  /** The index pages of a category have distinct names. */
  lemma IndexPageNamesDistinct(category: string, images: seq<string>)
    ensures var pages := IndexPages(category, images);
      forall i, j :: 0 <= i < j < |pages| ==> pages[i].name != pages[j].name
  {
    var pages := IndexPages(category, images);
    forall i, j | 0 <= i < j < |pages| ensures pages[i].name != pages[j].name {
      if pages[i].name == pages[j].name {
        IndexPageNameInjective(category, i, category, j);
      }
    }
  }

  /**
   * Each index page's next and previous links name the following and
   * preceding page, wrapping around at both ends; a lone page links to
   * itself both ways.
   */
  lemma IndexPageLinks(category: string, images: seq<string>)
    ensures var pages := IndexPages(category, images);
      && (forall i :: 0 <= i < |pages| ==>
            pages[i].next == pages[NextIndex(i, |pages|)].name &&
            pages[i].prev == pages[PrevIndex(i, |pages|)].name)
      && (|pages| == 1 ==> pages[0].next == pages[0].name == pages[0].prev)
  {
    var pages := IndexPages(category, images);
    forall i | 0 <= i < |pages|
      ensures NextIndex(i, |pages|) < |pages| && PrevIndex(i, |pages|) < |pages|
      ensures pages[i].next == pages[NextIndex(i, |pages|)].name
      ensures pages[i].prev == pages[PrevIndex(i, |pages|)].name
    {
      NextPrevCircular(i, |pages|);
    }
    if |pages| == 1 {
      NextPrevCircular(0, 1);
    }
  }

  /** Pages of different categories never share a name. */
  lemma IndexPagesOfCategoriesDistinct(c1: string, images1: seq<string>, c2: string, images2: seq<string>, i: nat, j: nat)
    requires c1 != c2
    requires i < |IndexPages(c1, images1)| && j < |IndexPages(c2, images2)|
    ensures IndexPages(c1, images1)[i].name != IndexPages(c2, images2)[j].name
  {
    if IndexPages(c1, images1)[i].name == IndexPages(c2, images2)[j].name {
      IndexPageNameInjective(c1, i, c2, j);
    }
  }

  /**
   * The category table and every image page link a category to its page
   * `index-<c>-0.html`.  That page exists for a non-empty category, and
   * for an empty one no index page of any category has that name.
   */
  lemma FirstPageLinks(categories: map<string, seq<string>>, c: string)
    requires c in categories
    ensures categories[c] != [] ==>
      |IndexPages(c, categories[c])| > 0 && IndexPages(c, categories[c])[0].name == IndexPageName(c, 0)
    ensures categories[c] == [] ==>
      forall d, j :: d in categories && 0 <= j < |IndexPages(d, categories[d])| ==>
        IndexPages(d, categories[d])[j].name != IndexPageName(c, 0)
  {
    if categories[c] == [] {
      forall d, j | d in categories && 0 <= j < |IndexPages(d, categories[d])|
        ensures IndexPages(d, categories[d])[j].name != IndexPageName(c, 0)
      {
        if IndexPages(d, categories[d])[j].name == IndexPageName(c, 0) {
          IndexPageNameInjective(d, j, c, 0);
        }
      }
    }
  }

  /** `setupIndexPages(category, categories)`: the loop over the enumerated chunks. */
  method SetupIndexPages(category: string, images: seq<string>) returns (pages: seq<IndexPage>)
    ensures pages == IndexPages(category, images)
  {
    var imageChunks := Chunks(images, ImagesPerPage);
    var numchunks := |imageChunks|;
    ghost var all := IndexPages(category, images);
    pages := [];
    for i := 0 to numchunks
      invariant pages == all[..i]
    {
      var name := IndexPageName(category, i);
      var nextPage := IndexPageName(category, NextIndex(i, numchunks));
      var prevPage := IndexPageName(category, PrevIndex(i, numchunks));
      assert all[..i + 1] == all[..i] + [IndexPage(name, nextPage, prevPage, imageChunks[i])];
      pages := pages + [IndexPage(name, nextPage, prevPage, imageChunks[i])];
    }
    assert all[..numchunks] == all;
  }

  /** `setupAllIndexPages(categories)`: the index pages of every category. */
  method SetupAllIndexPages(categories: map<string, seq<string>>) returns (pages: map<string, seq<IndexPage>>)
    ensures pages.Keys == categories.Keys
    ensures forall c :: c in pages ==> pages[c] == IndexPages(c, categories[c])
  {
    pages := map[];
    var todo := categories.Keys;
    while todo != {}
      invariant todo <= categories.Keys
      invariant pages.Keys == categories.Keys - todo
      invariant forall c :: c in pages ==> pages[c] == IndexPages(c, categories[c])
      decreases todo
    {
      var c :| c in todo;
      var ps := SetupIndexPages(c, categories[c]);
      pages := pages[c := ps];
      todo := todo - {c};
    }
  }
}
