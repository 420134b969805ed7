/**
 * `convertCategories` (gallerifrey.py:525-543): the tables read from the
 * legacy category file are written out in the directory format, read
 * back with `readCategories`, and compared with `keyDiff` and
 * `valsMatch`.  The comparison succeeds exactly when the legacy file is
 * about images only: a row about a name that is not an image gives that
 * name `all` in the legacy tables, which the directory format cannot
 * express.
 */
module Conversion {
  import opened Text
  import opened StringOrder
  import opened Names
  import opened CategoryGraph
  import opened CategoryReader
  import opened CategoryStore
  import opened LegacyReader
  import opened Maintenance

  /** The category files that store `imagesByCategory`: every category but the two synthetic ones. */
  function Stored(ibc: SetTable): (files: SetTable)
    ensures NoReserved(files) && files.Keys == ibc.Keys - {All, Uncategorized}
  {
    ibc - {All, Uncategorized}
  }

  /** Names that a category file can list and `readCategories` reads back unchanged. */
  predicate CleanNames(s: set<string>)
  {
    forall i :: i in s ==> IsStripped(i) && '\n' !in i
  }

  /**
   * Tables that reading their stored files gives back: each table is the
   * inverse of the other, the names are exactly the images, every name
   * has `all`, and the uncategorized pass leaves every entry as it is.
   */
  predicate Settled(images: seq<string>, g: Graph)
  {
    && Symmetric(g)
    && All in g.ibc && Uncategorized in g.ibc
    && g.cbi.Keys == Elements(images)
    && (forall i :: i in g.cbi ==> All in g.cbi[i] && Adjust(g.cbi[i]) == g.cbi[i])
  }

  /** Names the category directory can hold: plain file names that are not backups or temporaries. */
  predicate Storable(g: Graph)
  {
    && (forall c :: c in g.ibc ==> IsPlainName(c) && !IsArtifact(c))
    && (forall c :: c in g.ibc ==> CleanNames(g.ibc[c]))
  }

  /** Settled tables are what `readCategories` makes of their stored files. */
  lemma ReadStored(images: seq<string>, g: Graph)
    requires Settled(images, g)
    ensures Tables(images, Stored(g.ibc)) == g
  {
    var files := Stored(g.ibc);
    var t := Tables(images, files);
    TablesCategories(images, files);
    StoredImages(images, g);
    GatheredSymmetric(images, files);
    DerivePreservesSymmetry(Gathered(images, files));
    SymmetricSameCategories(t, g);
  }

  /** Helper for ReadStored: `categoriesByImage` read back. */
  lemma StoredImages(images: seq<string>, g: Graph)
    requires Settled(images, g)
    ensures Tables(images, Stored(g.ibc)).cbi == g.cbi
  {
    var t := Tables(images, Stored(g.ibc)).cbi;
    forall i ensures (i in t <==> i in g.cbi) && (i in t ==> t[i] == g.cbi[i]) {
      assert i in g.cbi <==> i in Elements(images);
      StoredImageAt(images, g, i);
    }
    SameTables(t, g.cbi);
  }

  /** Two tables with the same names and the same sets under each are equal. */
  lemma SameTables(t: SetTable, u: SetTable)
    requires forall i :: (i in t <==> i in u) && (i in t ==> t[i] == u[i])
    ensures t == u
  {
  }

  /** Helper for ReadStored: one name's categories. */
  lemma StoredImageAt(images: seq<string>, g: Graph, i: string)
    requires Symmetric(g) && (i in g.cbi <==> i in images)
    requires i in g.cbi ==> All in g.cbi[i] && Adjust(g.cbi[i]) == g.cbi[i]
    ensures var t := Tables(images, Stored(g.ibc)).cbi;
      (i in t <==> i in g.cbi) && (i in t ==> t[i] == g.cbi[i])
  {
    var files := Stored(g.ibc);
    TablesImagesAt(images, files, i);
    StoredListing(g, i);
    if i in g.cbi {
      SettledAdjust(g.cbi[i], ListingCategories(files, i));
    }
  }

  /** The pass gives back a settled image's categories from the stored ones and `all`. */
  lemma SettledAdjust(s: set<string>, listed: set<string>)
    requires All in s && Adjust(s) == s && listed == s - {All, Uncategorized}
    ensures Adjust({All} + listed) == s
  {
    assert {All} + listed == s - {Uncategorized};
    AdjustWithoutUncategorized(s);
  }

  /** The stored files that list a name are its categories other than the synthetic ones. */
  lemma StoredListing(g: Graph, i: string)
    requires Symmetric(g)
    ensures ListingCategories(Stored(g.ibc), i) == if i in g.cbi then g.cbi[i] - {All, Uncategorized} else {}
  {
    var files := Stored(g.ibc);
    forall c ensures c in ListingCategories(files, i) <==> i in g.cbi && c in g.cbi[i] - {All, Uncategorized} {
      if c in files && i in files[c] {
        assert c in g.ibc && i in g.ibc[c];
      }
      if i in g.cbi && c in g.cbi[i] {
        assert c in g.ibc && i in g.ibc[c];
      }
    }
  }

  /** With `all` present, dropping `uncategorized` before the pass changes nothing after it. */
  lemma AdjustWithoutUncategorized(s: set<string>)
    requires All in s
    ensures Adjust(s - {Uncategorized}) == Adjust(s)
  {
    var t := s - {Uncategorized};
    AdjustWithAll(s);
    AdjustWithAll(t);
    assert t <= {All, Uncategorized} <==> s <= {All, Uncategorized};
  }

  /** Two pairs of inverse tables with the same `categoriesByImage` and the same categories are equal. */
  lemma SymmetricSameCategories(t: Graph, g: Graph)
    requires Symmetric(t) && Symmetric(g)
    requires t.cbi == g.cbi && t.ibc.Keys == g.ibc.Keys
    ensures t == g
  {
    forall c | c in t.ibc ensures t.ibc[c] == g.ibc[c] {
      forall x ensures x in t.ibc[c] <==> x in g.ibc[c] {
        if x in t.ibc[c] {
          assert x in t.cbi && c in t.cbi[x];
        }
        if x in g.ibc[c] {
          assert x in g.cbi && c in g.cbi[x];
        }
      }
    }
  }

  /** The legacy tables are settled when every row of the file is about an image. */
  lemma LegacySettled(images: seq<string>, album: Dir)
    requires RowNames(FileRows(album)) <= Elements(images)
    ensures Settled(images, LegacyTables(images, album))
  {
    var g0, g := LegacyGathered(images, album), LegacyTables(images, album);
    LegacyGatheredSymmetric(images, album);
    DerivePreservesSymmetry(g0);
    LegacyAllCategory(images, album);
    forall i | i in g.cbi ensures Adjust(g.cbi[i]) == g.cbi[i] {
      AdjustIdempotent(g0.cbi[i]);
    }
  }

  /**
   * Writing the legacy `imagesByCategory` into a directory holding no
   * category file yet stores exactly its categories other than the
   * synthetic ones, each with its images.
   */
  lemma WrittenStored(g: Graph, c1: ListTable, catDir: Dir, r: Dir)
    requires Storable(g) && Declared(catDir) == {}
    requires Frozen(c1, g.ibc) && Written(catDir, c1, c1.Keys, r)
    ensures CategoryFiles(r) == Stored(g.ibc)
  {
    DeclaredAfterWriteAll(g, c1, catDir, r);
    StoredContents(g, c1, r);
    CategoryFilesAre(r, g.ibc);
  }

  /** Helper for WrittenStored: the category files after the write are the stored categories. */
  lemma DeclaredAfterWriteAll(g: Graph, c1: ListTable, catDir: Dir, r: Dir)
    requires forall c :: c in g.ibc ==> IsPlainName(c) && !IsArtifact(c)
    requires Declared(catDir) == {} && c1.Keys == g.ibc.Keys
    requires r.Keys == catDir.Keys + c1.Keys + Backups(catDir, c1.Keys) - Temporaries(c1.Keys)
    ensures forall f :: f in Declared(r) <==> f in g.ibc && !IsReserved(f)
  {
    forall f ensures f in Declared(r) <==> f in g.ibc && !IsReserved(f) {
      DeclaredAfterWrite(g, c1, catDir, r, f);
    }
  }

  /** Helper for WrittenStored: each stored category's file lists its images. */
  lemma StoredContents(g: Graph, c1: ListTable, r: Dir)
    requires forall c :: c in g.ibc ==> CleanNames(g.ibc[c])
    requires Frozen(c1, g.ibc)
    requires forall c :: c in c1 ==> c in r && r[c] == CategoryText(c1[c])
    ensures forall f :: f in g.ibc && !IsReserved(f) ==> f in r && Members(r[f]) == g.ibc[f]
  {
    forall f | f in g.ibc && !IsReserved(f) ensures f in r && Members(r[f]) == g.ibc[f] {
      StoredFile(c1[f], g.ibc[f]);
    }
  }

  /** The category files of a directory that holds the stored categories of `ibc` and no other. */
  lemma CategoryFilesAre(r: Dir, ibc: SetTable)
    requires forall f :: f in Declared(r) <==> f in ibc && !IsReserved(f)
    requires forall f :: f in ibc && !IsReserved(f) ==> f in r && Members(r[f]) == ibc[f]
    ensures CategoryFiles(r) == Stored(ibc)
  {
    var files := CategoryFiles(r);
    var stored := Stored(ibc);
    forall f ensures (f in files <==> f in stored) && (f in files ==> files[f] == stored[f]) {
      assert f in files <==> f in Declared(r);
      assert f in stored <==> f in ibc && !IsReserved(f);
    }
    SameTables(files, stored);
  }

  /** Helper for WrittenStored: the category files after the write are the stored categories. */
  lemma DeclaredAfterWrite(g: Graph, c1: ListTable, catDir: Dir, r: Dir, f: string)
    requires forall c :: c in g.ibc ==> IsPlainName(c) && !IsArtifact(c)
    requires Declared(catDir) == {} && c1.Keys == g.ibc.Keys
    requires r.Keys == catDir.Keys + c1.Keys + Backups(catDir, c1.Keys) - Temporaries(c1.Keys)
    ensures f in Declared(r) <==> f in g.ibc && !IsReserved(f)
  {
    if !IsArtifact(f) && !IsReserved(f) {
      NotAnArtifactOf(f, catDir, c1.Keys);
      assert f !in Declared(catDir);
    }
  }

  /** Helper for WrittenStored: the file written for a category lists its images. */
  lemma StoredFile(l: seq<string>, s: set<string>)
    requires IsListing(l, s) && CleanNames(s)
    ensures Members(CategoryText(l)) == s
  {
    StrictIsSortedDistinct(l);
    SortOfSorted(l);
    forall k | 0 <= k < |l| ensures IsStripped(l[k]) && '\n' !in l[k] {
      assert l[k] in s;
    }
    MembersOfLinesText(l);
  }

  /**
   * The round trip `convertCategories` checks: when every row of the
   * legacy file is about an image and every name can be stored, reading
   * the written directory gives the legacy tables back.
   */
  lemma ConvertRoundTrip(images: seq<string>, album: Dir, c1: ListTable, catDir: Dir, r: Dir)
    requires RowNames(FileRows(album)) <= Elements(images)
    requires Storable(LegacyTables(images, album)) && Declared(catDir) == {}
    requires Frozen(c1, LegacyTables(images, album).ibc) && Written(catDir, c1, c1.Keys, r)
    ensures CategoryTables(images, r) == LegacyTables(images, album)
  {
    var g := LegacyTables(images, album);
    WrittenStored(g, c1, catDir, r);
    LegacySettled(images, album);
    ReadStored(images, g);
  }

  /**
   * A row about a name that is not an image: the legacy tables give the
   * name `all`, while `readCategories` never gives `all` to a name that
   * is not an image, so the name is missing from the re-read tables or
   * has other categories there.
   */
  lemma StaleNameDetected(images: seq<string>, album: Dir, r: Dir, f1: ListTable, f2: ListTable, x: string)
    requires x in RowNames(FileRows(album)) && x !in images
    requires Frozen(f1, LegacyTables(images, album).cbi) && Frozen(f2, CategoryTables(images, r).cbi)
    ensures x in f1 && (x !in f2 || Elements(f1[x]) != Elements(f2[x]))
  {
    LegacyAllCategory(images, album);
    assert All in Elements(f1[x]);
    if x in f2 {
      var files := CategoryFiles(r);
      TablesCategoriesOf(images, files, x);
      assert All !in ListingCategories(files, x);
      assert All !in Elements(f2[x]);
    }
  }

  /** A name of `d1` missing from `d2`, or listing other names there, fails one of the comparisons. */
  lemma DifferingName(d1: ListTable, d2: ListTable, x: string)
    requires x in d1 && (x !in d2 || Elements(d1[x]) != Elements(d2[x]))
    ensures KeyDiff(d1, d2) != {} || !ValuesAgree(d1, d2)
  {
    if x !in d2 {
      assert x in KeyDiff(d1, d2);
    }
  }

  /**
   * What the comparisons of `convertCategories` find when the legacy file
   * is about images only and every name can be stored in a fresh
   * directory: both reads agree, by image and by category.
   */
  lemma CleanComparisons(images: seq<string>, album: Dir, catDir: Dir, r: Dir,
                         c1: ListTable, f1: ListTable, c2: ListTable, f2: ListTable)
    requires RowNames(FileRows(album)) <= Elements(images)
    requires Storable(LegacyTables(images, album)) && Declared(catDir) == {}
    requires Frozen(c1, LegacyTables(images, album).ibc) && Frozen(f1, LegacyTables(images, album).cbi)
    requires Written(catDir, c1, c1.Keys, r)
    requires Frozen(c2, CategoryTables(images, r).ibc) && Frozen(f2, CategoryTables(images, r).cbi)
    ensures KeyDiff(f1, f2) == {} && ValuesAgree(f1, f2) && KeyDiff(c1, c2) == {} && ValuesAgree(c1, c2)
  {
    ConvertRoundTrip(images, album, c1, catDir, r);
    FrozenUnique(f1, f2, LegacyTables(images, album).cbi);
    FrozenUnique(c1, c2, LegacyTables(images, album).ibc);
  }

  /**
   * `convertCategories()`: read the legacy file, write the categories
   * into the category directory, read them back, and compare the names
   * (`keyDiff`) and the categories (`valsMatch`) of both reads, by image
   * and by category.  A `KeyError` from the comparison by image ends the
   * run there: the comparison by category is then not made, which the
   * results show as an empty `ckdiff` and the same error in `cvals`.
   * When every name can be stored in a fresh directory, every comparison
   * succeeds exactly when the legacy file is about images only.
   */
  method ConvertCategories(images: seq<string>, album: Dir, catDir: Dir)
    returns (r: Dir, fkdiff: set<string>, fvals: Result<bool>, ckdiff: set<string>, cvals: Result<bool>)
    requires NoArtifactClash(LegacyTables(images, album).ibc.Keys)
    ensures RowNames(FileRows(album)) <= Elements(images) && Storable(LegacyTables(images, album)) && Declared(catDir) == {}
      ==> fkdiff == {} && fvals == Ok(true) && ckdiff == {} && cvals == Ok(true)
    ensures !(RowNames(FileRows(album)) <= Elements(images)) ==> fkdiff != {} || fvals != Ok(true)
    ensures fvals.KeyError? ==> ckdiff == {} && cvals == fvals
  {
    var c1, f1 := ReadCategoriesOld(images, album);
    r := WriteCategories(catDir, c1);
    var c2, f2 := ReadCategories(images, r);
    if RowNames(FileRows(album)) <= Elements(images) && Storable(LegacyTables(images, album)) && Declared(catDir) == {} {
      CleanComparisons(images, album, catDir, r, c1, f1, c2, f2);
    }
    if !(RowNames(FileRows(album)) <= Elements(images)) {
      var x :| x in RowNames(FileRows(album)) && x !in Elements(images);
      StaleNameDetected(images, album, r, f1, f2, x);
      DifferingName(f1, f2, x);
    }
    fkdiff := KeyDiff(f1, f2);
    fvals := ValsMatch(f1, f2);
    if fvals.KeyError? {
      ckdiff, cvals := {}, fvals;
      return;
    }
    ckdiff := KeyDiff(c1, c2);
    cvals := ValsMatch(c1, c2);
  }
}
