/**
 * `readCategoriesOld` (gallerifrey.py:309-369): the category graph read
 * from the legacy single file `categories.txt`, which holds one line
 * `image,cat,cat,...` per image.  Every image starts with `all` alone; a
 * line then replaces the categories of the name it starts with by the
 * categories it lists plus `all`, so names the line gives that are not
 * among the images get `all` too.  `imagesByCategory` is built as the
 * inverse of `categoriesByImage`, after which the uncategorized pass and
 * the freezing into sorted lists are the ones `readCategories` uses.
 */
module LegacyReader {
  import opened Text
  import opened StringOrder
  import opened CategoryGraph
  import opened CategoryReader

  /** The legacy category file, `CATEGORYFILE`, inside the album directory. */
  const CategoryFile: string := "categories.txt"

  /** Every row names at least its image. */
  predicate WellFormed(rows: seq<seq<string>>)
  {
    forall k :: 0 <= k < |rows| ==> rows[k] != []
  }

  /**
   * `[l.strip().split(',') for l in f]` over the lines of the category
   * file; no rows when the file is missing (the `IOError` is ignored).
   */
  function FileRows(dir: Dir): (rows: seq<seq<string>>)
    ensures WellFormed(rows)
    ensures CategoryFile !in dir ==> rows == []
    ensures CategoryFile in dir ==> |rows| == |Lines(dir[CategoryFile])|
  {
    if CategoryFile in dir then
      var ls := Lines(dir[CategoryFile]);
      seq(|ls|, k requires 0 <= k < |ls| => Split(Strip(ls[k]), ','))
    else
      []
  }

  /** Every image with `all` alone. */
  function Seeded(images: seq<string>): SetTable
  {
    map i | i in images :: {All}
  }

  /** The categories a row gives its image: `set(line[1:])` plus `all`. */
  function RowCategories(row: seq<string>): set<string>
    requires row != []
  {
    Elements(row[1..]) + {All}
  }

  /** `categoriesByImage` after the rows are applied in turn to `base`, each replacing its image's entry. */
  function Overridden(base: SetTable, rows: seq<seq<string>>): SetTable
    requires WellFormed(rows)
  {
    if rows == [] then base
    else
      var last := rows[|rows| - 1];
      Overridden(base, rows[..|rows| - 1])[last[0] := RowCategories(last)]
  }

  /** The last row about `name`, or -1 when no row is. */
  function LastRowOf(rows: seq<seq<string>>, name: string): (k: int)
    requires WellFormed(rows)
    ensures -1 <= k < |rows|
    ensures k >= 0 ==> rows[k][0] == name
    ensures forall j :: k < j < |rows| ==> rows[j][0] != name
  {
    if rows == [] then -1
    else if rows[|rows| - 1][0] == name then |rows| - 1
    else LastRowOf(rows[..|rows| - 1], name)
  }

  /** The last row about a name decides its categories; a name no row is about keeps its entry. */
  lemma {:induction false} OverriddenAt(base: SetTable, rows: seq<seq<string>>, name: string)
    requires WellFormed(rows)
    ensures var o, k := Overridden(base, rows), LastRowOf(rows, name);
      && (name in o <==> name in base || k >= 0)
      && (name in o ==> o[name] == if k >= 0 then RowCategories(rows[k]) else base[name])
  {
    if rows != [] {
      OverriddenAt(base, rows[..|rows| - 1], name);
    }
  }

  /**
   * `imagesByCategory` built from `categoriesByImage` over the entries of
   * `seed`: every name is added to each of its categories, a category
   * seen for the first time starting empty.
   */
  function Inverted(seed: SetTable, cbi: SetTable): SetTable
  {
    map c | c in seed.Keys + ListedIn(cbi) ::
      (if c in seed then seed[c] else {}) + ListingCategories(cbi, c)
  }

  /** One category of the inverted table. */
  lemma InvertedAt(seed: SetTable, cbi: SetTable, c: string)
    ensures c in Inverted(seed, cbi) <==> c in seed || ListingCategories(cbi, c) != {}
    ensures c in Inverted(seed, cbi) ==>
      Inverted(seed, cbi)[c] == (if c in seed then seed[c] else {}) + ListingCategories(cbi, c)
  {
    ListedInIff(cbi, c);
  }

  /** Inverting one more name adds it to each of its categories. */
  lemma InvertedStep(seed: SetTable, cbi: SetTable, image: string, cats: set<string>)
    requires image !in cbi
    ensures Inverted(seed, cbi[image := cats]) == WithFile(Inverted(seed, cbi), image, cats)
  {
    var h, w := Inverted(seed, cbi[image := cats]), WithFile(Inverted(seed, cbi), image, cats);
    forall c ensures c in h <==> c in w {
      InvertedStepAt(seed, cbi, image, cats, c);
    }
    forall c | c in h ensures h[c] == w[c] {
      InvertedStepAt(seed, cbi, image, cats, c);
    }
  }

  /** Helper for InvertedStep: one category. */
  lemma InvertedStepAt(seed: SetTable, cbi: SetTable, image: string, cats: set<string>, c: string)
    requires image !in cbi
    ensures var h, w := Inverted(seed, cbi[image := cats]), WithFile(Inverted(seed, cbi), image, cats);
      (c in h <==> c in w) && (c in h ==> h[c] == w[c])
  {
    InvertedAt(seed, cbi, c);
    InvertedAt(seed, cbi[image := cats], c);
    ListingCategoriesStep(cbi, image, cats, c);
  }

  /** Inverting no names leaves the seed. */
  lemma InvertedNothing(seed: SetTable)
    ensures Inverted(seed, map[]) == seed
  {
    var v := Inverted(seed, map[]);
    assert ListedIn(map[]) == {};
    assert v.Keys == seed.Keys;
    forall c | c in v ensures v[c] == seed[c] {
      assert ListingCategories(map[], c) == {};
    }
  }

  /** The seeded `imagesByCategory`: `all` holds the images, `uncategorized` nothing. */
  function SeedCategories(images: seq<string>): SetTable
  {
    map[All := Elements(images), Uncategorized := {}]
  }

  /** `categoriesByImage` once the file's rows are applied. */
  function LegacyImages(images: seq<string>, dir: Dir): SetTable
  {
    Overridden(Seeded(images), FileRows(dir))
  }

  /** Both tables before the uncategorized pass. */
  function LegacyGathered(images: seq<string>, dir: Dir): Graph
  {
    var cbi := LegacyImages(images, dir);
    Graph(Inverted(SeedCategories(images), cbi), cbi)
  }

  /** The tables `readCategoriesOld` builds, before they are turned into sorted lists. */
  function LegacyTables(images: seq<string>, dir: Dir): Graph
  {
    assert Uncategorized in Inverted(SeedCategories(images), LegacyImages(images, dir));
    Derive(LegacyGathered(images, dir))
  }

  /** `for i in images: categoriesByImage[i] = {'all'}`. */
  method SeedImages(images: seq<string>) returns (categoriesByImage: SetTable)
    ensures categoriesByImage == Seeded(images)
  {
    categoriesByImage := map[];
    for k := 0 to |images|
      invariant categoriesByImage == map i | i in images[..k] :: {All}
    {
      categoriesByImage := categoriesByImage[images[k] := {All}];
    }
    assert images[..|images|] == images;
  }

  /** `for line in lines`: each row replaces the categories of its image. */
  method ApplyRows(categoriesByImage: SetTable, lines: seq<seq<string>>) returns (cbi: SetTable)
    requires WellFormed(lines)
    ensures cbi == Overridden(categoriesByImage, lines)
  {
    cbi := categoriesByImage;
    for k := 0 to |lines|
      invariant cbi == Overridden(categoriesByImage, lines[..k])
    {
      var line := lines[k];
      var image := line[0];
      var categories := Elements(line[1..]);
      categories := categories + {All};
      assert lines[..k + 1][..k] == lines[..k];
      cbi := cbi[image := categories];
    }
    assert lines[..|lines|] == lines;
  }

  /** `for c in categories`: the image joins each of its categories. */
  method AddImage(imagesByCategory: SetTable, image: string, categories: set<string>) returns (ibc: SetTable)
    ensures ibc == WithFile(imagesByCategory, image, categories)
  {
    ibc := imagesByCategory;
    WithFileEmpty(imagesByCategory, image);
    var todo := categories;
    while todo != {}
      invariant todo <= categories
      invariant ibc == WithFile(imagesByCategory, image, categories - todo)
      decreases todo
    {
      var c :| c in todo;
      WithFileStep(imagesByCategory, image, categories - todo, c);
      assert categories - (todo - {c}) == (categories - todo) + {c};
      var members := if c in ibc then ibc[c] else {};
      ibc := ibc[c := members + {image}];
      todo := todo - {c};
    }
    assert categories - {} == categories;
  }

  /** `for (image, categories) in categoriesByImage.iteritems()`: the inverse table. */
  method InvertCategories(imagesByCategory: SetTable, categoriesByImage: SetTable) returns (ibc: SetTable)
    ensures ibc == Inverted(imagesByCategory, categoriesByImage)
  {
    ibc := imagesByCategory;
    var todo := categoriesByImage.Keys;
    UnreadStep(categoriesByImage, todo, All);
    InvertedNothing(imagesByCategory);
    while todo != {}
      invariant todo <= categoriesByImage.Keys
      invariant ibc == Inverted(imagesByCategory, Unread(categoriesByImage, todo))
      decreases todo
    {
      var image :| image in todo;
      UnreadStep(categoriesByImage, todo, image);
      InvertedStep(imagesByCategory, Unread(categoriesByImage, todo), image, categoriesByImage[image]);
      ibc := AddImage(ibc, image, categoriesByImage[image]);
      todo := todo - {image};
    }
  }

  /**
   * `readCategoriesOld(images)` over the album directory `dir`: parses
   * the category file, seeds `all` and `uncategorized`, applies the rows,
   * inverts, derives `uncategorized` and returns both tables as sorted
   * lists.
   */
  method ReadCategoriesOld(images: seq<string>, dir: Dir) returns (ibyc: ListTable, cbyi: ListTable)
    ensures Frozen(ibyc, LegacyTables(images, dir).ibc)
    ensures Frozen(cbyi, LegacyTables(images, dir).cbi)
  {
    var lines: seq<seq<string>> := [];
    if CategoryFile in dir {
      var ls := Lines(dir[CategoryFile]);
      lines := seq(|ls|, k requires 0 <= k < |ls| => Split(Strip(ls[k]), ','));
    }
    assert lines == FileRows(dir);
    var imagesByCategory: SetTable := map[All := Elements(images)];
    var categoriesByImage := SeedImages(images);
    imagesByCategory := imagesByCategory[Uncategorized := {}];
    categoriesByImage := ApplyRows(categoriesByImage, lines);
    imagesByCategory := InvertCategories(imagesByCategory, categoriesByImage);
    InvertedUncategorized(images, categoriesByImage);
    imagesByCategory, categoriesByImage := DeriveUncategorized(imagesByCategory, categoriesByImage);
    ibyc := Freeze(imagesByCategory);
    cbyi := Freeze(categoriesByImage);
  }

  /** Before the pass, `uncategorized` holds exactly the names that have it. */
  lemma InvertedUncategorized(images: seq<string>, cbi: SetTable)
    ensures var ibc := Inverted(SeedCategories(images), cbi);
      && Uncategorized in ibc
      && forall i :: i in cbi && Uncategorized in cbi[i] <==> i in ibc[Uncategorized]
  {
    InvertedAt(SeedCategories(images), cbi, Uncategorized);
  }

  /** The names the rows are about. */
  function RowNames(rows: seq<seq<string>>): set<string>
    requires WellFormed(rows)
  {
    set k | 0 <= k < |rows| :: rows[k][0]
  }

  /**
   * A name has an entry when it is an image or a row is about it; the
   * last row about it decides its categories, and an image no row is about
   * keeps `all` alone.  Every entry holds `all`.
   */
  lemma LegacyImagesAt(images: seq<string>, dir: Dir, i: string)
    ensures var o, rows := LegacyImages(images, dir), FileRows(dir); var k := LastRowOf(rows, i);
      && (i in o <==> i in images || i in RowNames(rows))
      && (i in o ==> o[i] == if k >= 0 then RowCategories(rows[k]) else {All})
      && (i in o ==> All in o[i])
  {
    var rows := FileRows(dir);
    OverriddenAt(Seeded(images), rows, i);
    if i in RowNames(rows) {
      var j :| 0 <= j < |rows| && rows[j][0] == i;
      assert LastRowOf(rows, i) >= j;
    }
  }

  /** Before the uncategorized pass the two tables are inverse to each other. */
  lemma LegacyGatheredSymmetric(images: seq<string>, dir: Dir)
    ensures Symmetric(LegacyGathered(images, dir))
  {
    var g, seed := LegacyGathered(images, dir), SeedCategories(images);
    forall c, i | c in g.ibc && i in g.ibc[c] ensures i in g.cbi && c in g.cbi[i] {
      InvertedAt(seed, g.cbi, c);
      if i !in ListingCategories(g.cbi, c) {
        assert c == All && i in images;
        LegacyImagesAt(images, dir, i);
      }
    }
    forall i, c | i in g.cbi && c in g.cbi[i] ensures c in g.ibc && i in g.ibc[c] {
      InvertedAt(seed, g.cbi, c);
      assert i in ListingCategories(g.cbi, c);
    }
  }

  /**
   * Symmetry: in the sorted lists `readCategoriesOld` returns, a name is
   * listed under a category exactly when the category is listed under
   * the name.
   */
  lemma ReadCategoriesOldSymmetric(images: seq<string>, dir: Dir, ibyc: ListTable, cbyi: ListTable)
    requires Frozen(ibyc, LegacyTables(images, dir).ibc)
    requires Frozen(cbyi, LegacyTables(images, dir).cbi)
    ensures forall c, i :: c in ibyc && i in ibyc[c] <==> i in cbyi && c in cbyi[i]
  {
    LegacyGatheredSymmetric(images, dir);
    DerivePreservesSymmetry(LegacyGathered(images, dir));
    FrozenSymmetric(LegacyTables(images, dir), ibyc, cbyi);
  }

  /**
   * The `all` category of the legacy reader: every name has `all`, and
   * `all` holds every name, the images and the names the rows are about
   * alike, so a name the file gives that is not an image still gets `all`.
   */
  lemma LegacyAllCategory(images: seq<string>, dir: Dir)
    ensures var g := LegacyTables(images, dir);
      && g.cbi.Keys == Elements(images) + RowNames(FileRows(dir))
      && All in g.ibc && g.ibc[All] == g.cbi.Keys
      && (forall i :: i in g.cbi ==> All in g.cbi[i])
  {
    var g0, g := LegacyGathered(images, dir), LegacyTables(images, dir);
    assert g.cbi == AdjustAll(g0.cbi);
    LegacyNames(images, dir);
    LegacyAllHoldsAll(images, dir);
    assert g.ibc[All] == g0.ibc[All];
    forall i | i in g.cbi ensures All in g.cbi[i] {
      LegacyImagesAt(images, dir, i);
      AdjustEffect(g0.cbi[i]);
      assert All in g0.cbi[i] - {Uncategorized};
    }
  }

  /** The names of the legacy tables: the images and the names the rows are about. */
  lemma LegacyNames(images: seq<string>, dir: Dir)
    ensures LegacyImages(images, dir).Keys == Elements(images) + RowNames(FileRows(dir))
  {
    forall i ensures i in LegacyImages(images, dir) <==> i in Elements(images) + RowNames(FileRows(dir)) {
      LegacyImagesAt(images, dir, i);
    }
  }

  /** Before the pass `all` holds every name. */
  lemma LegacyAllHoldsAll(images: seq<string>, dir: Dir)
    ensures var g0 := LegacyGathered(images, dir); All in g0.ibc && g0.ibc[All] == g0.cbi.Keys
  {
    var g0 := LegacyGathered(images, dir);
    InvertedAt(SeedCategories(images), g0.cbi, All);
    assert g0.ibc[All] == Elements(images) + ListingCategories(g0.cbi, All);
    forall i ensures i in g0.ibc[All] <==> i in g0.cbi {
      LegacyImagesAt(images, dir, i);
    }
  }

  /**
   * The uncategorized rule of the legacy reader.  An image no row is
   * about ends with `all` and `uncategorized`.  Otherwise the last row
   * about the name decides: the name keeps the row's categories and `all`,
   * and has `uncategorized` exactly when the row lists nothing besides
   * `all` and `uncategorized`; a row listing `uncategorized` beside
   * another category loses it.
   */
  lemma LegacyUncategorizedRule(images: seq<string>, dir: Dir, i: string)
    requires i in LegacyTables(images, dir).cbi
    ensures var f, rows := LegacyTables(images, dir).cbi[i], FileRows(dir); var k := LastRowOf(rows, i);
      && (k < 0 ==> f == {All, Uncategorized})
      && (k >= 0 ==> f - {Uncategorized} == RowCategories(rows[k]) - {Uncategorized})
      && (k >= 0 ==> (Uncategorized in f <==> Elements(rows[k][1..]) <= {All, Uncategorized}))
  {
    var o := LegacyImages(images, dir)[i];
    LegacyImagesAt(images, dir, i);
    assert LegacyTables(images, dir).cbi[i] == Adjust(o);
    AdjustWithAll(o);
  }

  /**
   * The pass on a set holding `all`: `uncategorized` ends up present
   * exactly when nothing but `all` and `uncategorized` was there.
   */
  lemma AdjustWithAll(o: set<string>)
    requires All in o
    ensures Adjust(o) - {Uncategorized} == o - {Uncategorized}
    ensures Uncategorized in Adjust(o) <==> o <= {All, Uncategorized}
    ensures o == {All} ==> Adjust(o) == {All, Uncategorized}
  {
    AdjustEffect(o);
    if o <= {All, Uncategorized} {
      if Uncategorized in o {
        assert o == {All, Uncategorized};
      } else {
        assert o == {All};
      }
    } else {
      var c :| c in o && c != All && c != Uncategorized;
      SubsetSize({All, c}, o);
      assert |{All, c}| == 2;
      if Uncategorized in o {
        SubsetSize({All, c, Uncategorized}, o);
        assert |{All, c, Uncategorized}| == 3;
      }
    }
  }

  /** A subset is no larger than its superset. */
  lemma SubsetSize(a: set<string>, b: set<string>)
    requires a <= b
    ensures |a| <= |b|
  {
    assert b == a + (b - a);
  }

  /** A name the legacy format can carry: no comma, no newline, no surrounding whitespace. */
  predicate CleanName(x: string)
  {
    IsStripped(x) && ',' !in x && '\n' !in x
  }

  /** A row of clean names, starting with its image. */
  predicate CleanRow(row: seq<string>)
  {
    row != [] && forall k :: 0 <= k < |row| ==> CleanName(row[k])
  }

  /** `','.join(row)` for each row. */
  function Joined(rows: seq<seq<string>>): (r: seq<string>)
    ensures |r| == |rows|
  {
    seq(|rows|, k requires 0 <= k < |rows| => Join(rows[k], ','))
  }

  /** A row of clean names joined with commas is one stripped line that splits back into the row. */
  lemma CleanRowText(row: seq<string>)
    requires CleanRow(row)
    ensures IsStripped(Join(row, ',')) && '\n' !in Join(row, ',')
    ensures Split(Join(row, ','), ',') == row
  {
    JoinStripped(row, ',');
    JoinExcludes(row, ',', '\n');
    SplitJoin(row, ',');
  }

  /**
   * A category file holding clean rows, each joined with commas and ended
   * by a newline, reads back as exactly those rows.
   */
  lemma ReadWrittenRows(rows: seq<seq<string>>, dir: Dir)
    requires forall k :: 0 <= k < |rows| ==> CleanRow(rows[k])
    requires CategoryFile in dir && dir[CategoryFile] == LinesText(Joined(rows))
    ensures FileRows(dir) == rows
  {
    var texts := Joined(rows);
    forall k | 0 <= k < |texts| ensures '\n' !in texts[k] {
      CleanRowText(rows[k]);
    }
    LinesOfLinesText(texts);
    forall k | 0 <= k < |rows| ensures k < |FileRows(dir)| && FileRows(dir)[k] == rows[k] {
      ReadWrittenRowAt(rows, dir, k);
    }
  }

  /** Helper for ReadWrittenRows: one line. */
  lemma ReadWrittenRowAt(rows: seq<seq<string>>, dir: Dir, k: int)
    requires 0 <= k < |rows| && CleanRow(rows[k])
    requires CategoryFile in dir && Lines(dir[CategoryFile]) == Terminated(Joined(rows))
    ensures k < |FileRows(dir)| && FileRows(dir)[k] == rows[k]
  {
    var t := Join(rows[k], ',');
    CleanRowText(rows[k]);
    assert Lines(dir[CategoryFile])[k] == t + "\n";
    StripWrittenName(t);
  }

  /**
   * The removal branch of the pass is live here: a last file line
   * `x,uncategorized,c`, with `c` another category, leaves `x` with
   * `all`, `uncategorized` and `c` before the pass and with `all` and `c`
   * after it.
   */
  lemma LegacyRemovalLive(images: seq<string>, dir: Dir, x: string, c: string)
    requires CleanName(x) && CleanName(c) && c != All && c != Uncategorized
    requires CategoryFile in dir && dir[CategoryFile] == Join([x, Uncategorized, c], ',') + "\n"
    ensures var g0, g := LegacyGathered(images, dir), LegacyTables(images, dir);
      && x in g0.cbi && g0.cbi[x] == {All, Uncategorized, c}
      && x in g.cbi && g.cbi[x] == {All, c}
  {
    var row := [x, Uncategorized, c];
    OneRowFile(row, dir);
    SingleRow(images, dir, row);
    assert row[1..] == [Uncategorized, c];
    assert RowCategories(row) == {All, Uncategorized, c};
    var o := LegacyImages(images, dir);
    AdjustDropsUncategorized(c);
    assert LegacyTables(images, dir).cbi[x] == Adjust(o[x]);
  }

  /** `uncategorized` beside `all` and one more category is dropped. */
  lemma AdjustDropsUncategorized(c: string)
    requires c != All && c != Uncategorized
    ensures Adjust({All, Uncategorized, c}) == {All, c}
  {
    var o := {All, Uncategorized, c};
    AdjustWithAll(o);
    assert Uncategorized !in Adjust(o) by {
      assert !(o <= {All, Uncategorized}) by { assert c in o; }
    }
    assert o - {Uncategorized} == {All, c};
  }

  /** With a single row in the file, that row decides its image's categories. */
  lemma SingleRow(images: seq<string>, dir: Dir, row: seq<string>)
    requires row != [] && FileRows(dir) == [row]
    ensures row[0] in LegacyImages(images, dir) && LegacyImages(images, dir)[row[0]] == RowCategories(row)
  {
    LegacyImagesAt(images, dir, row[0]);
    assert row[0] in RowNames([row]);
    assert LastRowOf([row], row[0]) == 0;
  }

  /** A file holding one clean row, ended by a newline, reads as that row. */
  lemma OneRowFile(row: seq<string>, dir: Dir)
    requires |row| == 3 && CleanName(row[0]) && row[1] == Uncategorized && CleanName(row[2])
    requires CategoryFile in dir && dir[CategoryFile] == Join(row, ',') + "\n"
    ensures FileRows(dir) == [row]
  {
    assert LinesText(Joined([row])) == Join(row, ',') + "\n";
    assert CleanName(Uncategorized);
    ReadWrittenRows([row], dir);
  }
}
