/**
 * `writeCategoriesOld` (gallerifrey.py:394-413): the legacy category file
 * written from a table of categories by image, one line
 * `image,cat,cat,...` per image in sorted order, each image's
 * categories sorted, and published through the same temporary-file,
 * backup and rename steps as `writeCategories`.  Reading the file back
 * with `readCategoriesOld` reproduces the tables.
 */
module LegacyWriter {
  import opened Text
  import opened StringOrder
  import opened CategoryGraph
  import opened CategoryReader
  import opened CategoryStore
  import opened LegacyReader

  /** The row written for one image: the image, then its categories sorted. */
  function RowOf(image: string, cats: seq<string>): seq<string>
  {
    [image] + Sort(cats)
  }

  /** The rows written for the images of `order`, in that order. */
  function TableRows(t: ListTable, order: seq<string>): (rows: seq<seq<string>>)
    requires forall k :: 0 <= k < |order| ==> order[k] in t
    ensures |rows| == |order|
  {
    seq(|order|, k requires 0 <= k < |order| => RowOf(order[k], t[order[k]]))
  }

  /** What `writeCategoriesOld(t)` writes: a line per image of `t`, in sorted order. */
  ghost function LegacyText(t: ListTable): string
  {
    var order := Listing(t.Keys);
    assert forall k :: 0 <= k < |order| ==> order[k] in order;
    LinesText(Joined(TableRows(t, order)))
  }

  /**
   * `writeCategoriesOld(categoriesInImages)`: the lines go to the
   * temporary file, the live file (when there is one) is copied to the
   * backup, and the temporary file is renamed over the live one.
   */
  method WriteCategoriesOld(dir: Dir, categoriesInImages: ListTable) returns (r: Dir)
    ensures Published(dir, CategoryFile, LegacyText(categoriesInImages), r)
  {
    var keys := ListOf(categoriesInImages.Keys);
    SortOfDistinctIsListing(keys, categoriesInImages.Keys);
    var lst := Sort(keys);
    ListingUnique(lst, Listing(categoriesInImages.Keys), categoriesInImages.Keys);
    forall j | 0 <= j < |lst| ensures lst[j] in categoriesInImages {
      assert lst[j] in lst;
    }
    var text := WriteRows(categoriesInImages, lst);
    r := Publish(dir, CategoryFile, text);
  }

  /** The lines for the images of `lst`, in that order: `image,cat,cat,...` with the categories sorted. */
  method WriteRows(t: ListTable, lst: seq<string>) returns (text: string)
    requires forall j :: 0 <= j < |lst| ==> lst[j] in t
    ensures text == LinesText(Joined(TableRows(t, lst)))
  {
    text := "";
    for k := 0 to |lst|
      invariant text == LinesText(Joined(TableRows(t, lst[..k])))
    {
      var image := lst[k];
      var clist := Sort(t[image]);
      var l := [image] + clist;
      WrittenRowsSnoc(t, lst, k);
      text := text + Join(l, ',') + "\n";
    }
    assert lst[..|lst|] == lst;
  }

  /** One more line of the file. */
  lemma WrittenRowsSnoc(t: ListTable, lst: seq<string>, k: nat)
    requires k < |lst| && forall j :: 0 <= j < |lst| ==> lst[j] in t
    ensures LinesText(Joined(TableRows(t, lst[..k + 1])))
         == LinesText(Joined(TableRows(t, lst[..k]))) + Join(RowOf(lst[k], t[lst[k]]), ',') + "\n"
  {
    var before := Joined(TableRows(t, lst[..k]));
    assert Joined(TableRows(t, lst[..k + 1])) == before + [Join(RowOf(lst[k], t[lst[k]]), ',')];
    LinesTextSnoc(before, Join(RowOf(lst[k], t[lst[k]]), ','));
  }

  /** Every image and every category of the table is a clean name. */
  predicate CleanTable(t: ListTable)
  {
    forall i :: i in t ==> CleanName(i) && forall k :: 0 <= k < |t[i]| ==> CleanName(t[i][k])
  }

  /**
   * Reading back the file `writeCategoriesOld(t)` published: every image
   * of `t` gets its categories and `all`, every other image `all` alone.
   */
  lemma LegacyWriteRead(images: seq<string>, dir: Dir, t: ListTable, r: Dir)
    requires CleanTable(t) && Published(dir, CategoryFile, LegacyText(t), r)
    ensures LegacyImages(images, r) ==
      map i | i in Elements(images) + t.Keys :: if i in t then Elements(t[i]) + {All} else {All}
  {
    var order := Listing(t.Keys);
    WrittenRowsRead(t, order, r);
    StrictIsSortedDistinct(order);
    WrittenImages(images, t, order, r);
  }

  /** Helper for LegacyWriteRead: the rows of a table, in any order without repeats, read back. */
  lemma WrittenImages(images: seq<string>, t: ListTable, order: seq<string>, r: Dir)
    requires Distinct(order) && forall x :: x in order <==> x in t
    requires forall k :: 0 <= k < |order| ==> order[k] in t
    requires FileRows(r) == TableRows(t, order)
    ensures LegacyImages(images, r) ==
      map i | i in Elements(images) + t.Keys :: if i in t then Elements(t[i]) + {All} else {All}
  {
    var o := LegacyImages(images, r);
    var m := map i | i in Elements(images) + t.Keys :: if i in t then Elements(t[i]) + {All} else {All};
    forall i ensures (i in o <==> i in m) && (i in o ==> o[i] == m[i]) {
      WrittenNameAt(images, t, order, r, i);
    }
  }

  /** The file published holds the rows of the table, in the order of its listing. */
  lemma WrittenRowsRead(t: ListTable, order: seq<string>, r: Dir)
    requires CleanTable(t) && order == Listing(t.Keys)
    requires CategoryFile in r && r[CategoryFile] == LegacyText(t)
    ensures forall k :: 0 <= k < |order| ==> order[k] in t
    ensures FileRows(r) == TableRows(t, order)
  {
    assert forall k :: 0 <= k < |order| ==> order[k] in order;
    var rows := TableRows(t, order);
    forall k | 0 <= k < |rows| ensures CleanRow(rows[k]) {
      CleanRowOf(t, order[k]);
    }
    ReadWrittenRows(rows, r);
  }

  /** Helper for LegacyWriteRead: one name. */
  lemma WrittenNameAt(images: seq<string>, t: ListTable, order: seq<string>, r: Dir, i: string)
    requires Distinct(order) && forall x :: x in order <==> x in t
    requires forall k :: 0 <= k < |order| ==> order[k] in t
    requires FileRows(r) == TableRows(t, order)
    ensures var o := LegacyImages(images, r);
      && (i in o <==> i in images || i in t)
      && (i in o ==> o[i] == if i in t then Elements(t[i]) + {All} else {All})
  {
    var rows := TableRows(t, order);
    LegacyImagesAt(images, r, i);
    var k := LastRowOf(rows, i);
    if i in t {
      var j :| 0 <= j < |order| && order[j] == i;
      assert rows[j][0] == i;
      assert k >= j;
      assert rows[k][0] == order[k];
      assert k == j;
      assert rows[j][1..] == Sort(t[i]);
      ElementsSort(t[i]);
    } else {
      assert i !in RowNames(rows);
    }
  }

  /** The row of an image of a clean table is clean. */
  lemma CleanRowOf(t: ListTable, i: string)
    requires CleanTable(t) && i in t
    ensures CleanRow(RowOf(i, t[i]))
  {
    var row := RowOf(i, t[i]);
    forall k | 0 <= k < |row| ensures CleanName(row[k]) {
      if k > 0 {
        var x := row[k];
        assert x in Sort(t[i]);
        assert x in multiset(Sort(t[i]));
        assert x in t[i];
      }
    }
  }

  /**
   * The uncategorized pass on the inverted tables yields the inversion of
   * the adjusted `categoriesByImage`: what `uncategorized` gains and loses
   * is exactly what the adjusted categories say.
   */
  lemma DeriveInverted(seed: SetTable, cbi: SetTable)
    requires Uncategorized in seed && seed[Uncategorized] == {}
    ensures var g := Graph(Inverted(seed, cbi), cbi);
      Uncategorized in g.ibc && Derive(g) == Graph(Inverted(seed, AdjustAll(cbi)), AdjustAll(cbi))
  {
    var g := Graph(Inverted(seed, cbi), cbi);
    InvertedAt(seed, cbi, Uncategorized);
    var d, e := Derive(g).ibc, Inverted(seed, AdjustAll(cbi));
    assert d.Keys == e.Keys by {
      forall c ensures c in d <==> c in e {
        DeriveInvertedAt(seed, cbi, c);
      }
    }
    assert forall c :: c in d ==> d[c] == e[c] by {
      forall c | c in d ensures d[c] == e[c] {
        DeriveInvertedAt(seed, cbi, c);
      }
    }
    assert d == e;
  }

  /** Helper for DeriveInverted: one category. */
  lemma DeriveInvertedAt(seed: SetTable, cbi: SetTable, c: string)
    requires Uncategorized in seed && seed[Uncategorized] == {}
    ensures var g := Graph(Inverted(seed, cbi), cbi);
      Uncategorized in g.ibc &&
      var d, e := Derive(g).ibc, Inverted(seed, AdjustAll(cbi));
      (c in d <==> c in e) && (c in d ==> d[c] == e[c])
  {
    var a := AdjustAll(cbi);
    InvertedAt(seed, cbi, c);
    InvertedAt(seed, a, c);
    InvertedAt(seed, cbi, Uncategorized);
    if c == Uncategorized {
      AdjustedUncategorized(cbi);
    } else {
      AdjustedOther(cbi, c);
    }
  }

  /** After the pass `uncategorized` lists what it listed, plus what was added, less what was removed. */
  lemma AdjustedUncategorized(cbi: SetTable)
    ensures ListingCategories(AdjustAll(cbi), Uncategorized)
         == (ListingCategories(cbi, Uncategorized) + Added(cbi)) - Removed(cbi)
  {
    var a := AdjustAll(cbi);
    forall i ensures i in ListingCategories(a, Uncategorized)
                 <==> i in (ListingCategories(cbi, Uncategorized) + Added(cbi)) - Removed(cbi) {
      if i in cbi {
        AdjustEffect(cbi[i]);
      }
    }
  }

  /** The pass changes the images of no other category. */
  lemma AdjustedOther(cbi: SetTable, c: string)
    requires c != Uncategorized
    ensures ListingCategories(AdjustAll(cbi), c) == ListingCategories(cbi, c)
  {
    var a := AdjustAll(cbi);
    forall i ensures i in ListingCategories(a, c) <==> i in ListingCategories(cbi, c) {
      if i in cbi {
        AdjustEffect(cbi[i]);
        assert c in a[i] <==> c in a[i] - {Uncategorized};
        assert c in cbi[i] <==> c in cbi[i] - {Uncategorized};
      }
    }
  }

  /** The legacy tables are the inversion of the adjusted `categoriesByImage`. */
  lemma LegacyTablesInverted(images: seq<string>, dir: Dir)
    ensures var f := AdjustAll(LegacyImages(images, dir));
      LegacyTables(images, dir) == Graph(Inverted(SeedCategories(images), f), f)
  {
    DeriveInverted(SeedCategories(images), LegacyImages(images, dir));
  }

  /** Running the pass twice over a table is running it once. */
  lemma AdjustAllIdempotent(cbi: SetTable)
    ensures AdjustAll(AdjustAll(cbi)) == AdjustAll(cbi)
  {
    forall i | i in cbi ensures Adjust(Adjust(cbi[i])) == Adjust(cbi[i]) {
      AdjustIdempotent(cbi[i]);
    }
  }

  /**
   * Reading back the file written from the frozen `categoriesByImage`
   * yields the `categoriesByImage` the first read ended with.
   */
  lemma LegacyReadBack(images: seq<string>, dir0: Dir, cbyi: ListTable, dir: Dir, r: Dir)
    requires Frozen(cbyi, LegacyTables(images, dir0).cbi) && CleanTable(cbyi)
    requires Published(dir, CategoryFile, LegacyText(cbyi), r)
    ensures LegacyImages(images, r) == LegacyTables(images, dir0).cbi
  {
    var f := LegacyTables(images, dir0).cbi;
    LegacyWriteRead(images, dir, cbyi, r);
    LegacyAllCategory(images, dir0);
    ReadBackTable(images, cbyi, f, LegacyImages(images, r));
  }

  /** Helper for LegacyReadBack: the table read back is the frozen one, `all` included. */
  lemma ReadBackTable(images: seq<string>, cbyi: ListTable, f: SetTable, m: SetTable)
    requires Frozen(cbyi, f) && Elements(images) <= f.Keys
    requires forall i :: i in f ==> All in f[i]
    requires m == map i | i in Elements(images) + cbyi.Keys :: if i in cbyi then Elements(cbyi[i]) + {All} else {All}
    ensures m == f
  {
    assert m.Keys == f.Keys;
    forall i | i in f ensures m[i] == f[i] {
      assert Elements(cbyi[i]) == f[i];
    }
  }

  /**
   * The write/read round trip of the legacy format: writing the
   * `categoriesByImage` table `readCategoriesOld` returned and reading the
   * file back yields the same tables, when every name is clean.
   */
  lemma LegacyRoundTrip(images: seq<string>, dir0: Dir, cbyi: ListTable, dir: Dir, r: Dir)
    requires Frozen(cbyi, LegacyTables(images, dir0).cbi) && CleanTable(cbyi)
    requires Published(dir, CategoryFile, LegacyText(cbyi), r)
    ensures LegacyTables(images, r) == LegacyTables(images, dir0)
  {
    var o := LegacyImages(images, dir0);
    LegacyReadBack(images, dir0, cbyi, dir, r);
    LegacyTablesInverted(images, dir0);
    LegacyTablesInverted(images, r);
    AdjustAllIdempotent(o);
  }
}
