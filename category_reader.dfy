/**
 * `readCategories(images)` (gallerifrey.py:241-306): every file of the
 * category directory names a category and lists its images one per line.
 * The directory is a map from file name to file contents; directories
 * inside it are not modelled (see README).
 */
module CategoryReader {
  import opened Text
  import opened StringOrder
  import opened Names
  import opened CategoryGraph

  /** The category directory: each file's name and its contents. */
  type Dir = map<string, string>

  /** Backup and temporary files left by a publish. */
  predicate IsArtifact(f: string)
  {
    FileHasExt(f, ".bak") || FileHasExt(f, ".tmp")
  }

  /** The synthetic categories, whose files are never read. */
  predicate IsReserved(f: string)
  {
    f == All || f == Uncategorized
  }

  /** The files whose contents define a category. */
  function Declared(dir: Dir): (r: set<string>)
    ensures r <= dir.Keys
  {
    set f | f in dir && !IsArtifact(f) && !IsReserved(f)
  }

  /** The names a category file lists: each line, stripped. */
  function Members(content: string): set<string>
  {
    StrippedSet(Lines(content))
  }

  /** The stripped forms of some lines. */
  function StrippedSet(lines: seq<string>): set<string>
  {
    set l | l in lines :: Strip(l)
  }

  /** The readable category files and the names each one lists. */
  function CategoryFiles(dir: Dir): (files: SetTable)
    ensures files.Keys == Declared(dir) && NoReserved(files)
  {
    map f | f in Declared(dir) :: Members(dir[f])
  }

  /** A table of category files: no file of it is a synthetic category. */
  predicate NoReserved(files: SetTable)
  {
    All !in files && Uncategorized !in files
  }

  /** The names listed by any of the files. */
  function ListedIn(files: SetTable): set<string>
  {
    set c, i | c in files && i in files[c] :: i
  }

  /** The files that list `i`. */
  function ListingCategories(files: SetTable, i: string): set<string>
  {
    set c | c in files && i in files[c]
  }

  /**
   * Both tables once the category files `files` have been read, before
   * the uncategorized pass: `all` holds the images, `uncategorized` is
   * empty, every image starts with `all`, and every listed name gains the
   * files that list it (a name not among the images starts with nothing).
   */
  function Gathered(images: seq<string>, files: SetTable): Graph
  {
    Graph(GatheredCategories(images, files), GatheredImages(images, files))
  }

  /** `imagesByCategory` once the files are read: each file's names, `all` and an empty `uncategorized`. */
  function GatheredCategories(images: seq<string>, files: SetTable): SetTable
  {
    files + map[All := Elements(images), Uncategorized := {}]
  }

  /** `categoriesByImage` once the files are read: `all` for an image, and the files listing the name. */
  function GatheredImages(images: seq<string>, files: SetTable): SetTable
  {
    map i | i in Elements(images) + ListedIn(files) ::
      (if i in images then {All} else {}) + ListingCategories(files, i)
  }

  /** Both tables after the uncategorized pass. */
  function Tables(images: seq<string>, files: SetTable): Graph
  {
    Derive(Gathered(images, files))
  }

  /** The tables `readCategories` builds, before they are turned into sorted lists. */
  function CategoryTables(images: seq<string>, dir: Dir): Graph
  {
    Tables(images, CategoryFiles(dir))
  }

  /** Reading one more category file adds its members to `imagesByCategory`. */
  lemma GatheredStepCategories(images: seq<string>, files: SetTable, cf: string, members: set<string>)
    requires NoReserved(files) && !IsReserved(cf) && cf !in files
    ensures GatheredCategories(images, files[cf := members]) == GatheredCategories(images, files)[cf := members]
  {
  }

  /** A name listed by a file is a listed name; a listed name has a file listing it. */
  lemma ListedInIff(files: SetTable, i: string)
    ensures i in ListedIn(files) <==> ListingCategories(files, i) != {}
  {
    if i in ListedIn(files) {
      var c :| c in files && i in files[c];
      assert c in ListingCategories(files, i);
    }
    if ListingCategories(files, i) != {} {
      var c :| c in ListingCategories(files, i);
      assert i in files[c];
    }
  }

  /** The files listing `i` once `cf` is read. */
  lemma ListingCategoriesStep(files: SetTable, cf: string, members: set<string>, i: string)
    requires cf !in files
    ensures ListingCategories(files[cf := members], i) == ListingCategories(files, i) + (if i in members then {cf} else {})
  {
  }

  /**
   * `categoriesByImage` after the file `cf` listing `category` was read
   * into `before`: every listed name gains `cf`, a name seen for the first
   * time starting from nothing.
   */
  function WithFile(before: SetTable, cf: string, category: set<string>): SetTable
  {
    map i | i in before.Keys + category ::
      (if i in before then before[i] else {}) + (if i in category then {cf} else {})
  }

  /** Reading one more category file adds the file to each name it lists. */
  lemma GatheredStepImages(images: seq<string>, files: SetTable, cf: string, members: set<string>)
    requires cf !in files
    ensures GatheredImages(images, files[cf := members]) == WithFile(GatheredImages(images, files), cf, members)
  {
    var files' := files[cf := members];
    var g, h, w := GatheredImages(images, files), GatheredImages(images, files'), WithFile(GatheredImages(images, files), cf, members);
    forall i ensures i in h <==> i in w {
      GatheredImagesAt(images, files, i);
      GatheredImagesAt(images, files', i);
      ListingCategoriesStep(files, cf, members, i);
    }
    forall i | i in h ensures h[i] == w[i] {
      GatheredImagesAt(images, files, i);
      GatheredImagesAt(images, files', i);
      ListingCategoriesStep(files, cf, members, i);
    }
  }

  /** The category files already read while `todo` remain. */
  function Unread(files: SetTable, todo: set<string>): SetTable
  {
    map f | f in files && f !in todo :: files[f]
  }

  /** Nothing is read at first, everything at the end, and one file more per turn. */
  lemma UnreadStep(files: SetTable, todo: set<string>, cf: string)
    ensures files.Keys <= todo ==> Unread(files, todo) == map[]
    ensures Unread(files, {}) == files
    ensures cf in todo ==> cf !in Unread(files, todo)
    ensures Unread(files, todo - {cf}) == if cf in files && cf in todo then Unread(files, todo)[cf := files[cf]] else Unread(files, todo)
  {
    var u, v := Unread(files, todo), Unread(files, todo - {cf});
    if cf in files && cf in todo {
      assert v.Keys == u.Keys + {cf};
    } else {
      assert v.Keys == u.Keys;
    }
  }

  /** Reading one more line of a category file. */
  lemma WithFileStep(before: SetTable, cf: string, category: set<string>, x: string)
    ensures var w := WithFile(before, cf, category);
      WithFile(before, cf, category + {x}) == w[x := (if x in w then w[x] else {}) + {cf}]
  {
    var w, w' := WithFile(before, cf, category), WithFile(before, cf, category + {x});
    var v := w[x := (if x in w then w[x] else {}) + {cf}];
    assert w'.Keys == v.Keys;
    forall i | i in w' ensures w'[i] == v[i] {
      WithFileAt(before, cf, category, x, i);
    }
  }

  /** Helper for WithFileStep: one name's categories. */
  lemma WithFileAt(before: SetTable, cf: string, category: set<string>, x: string, i: string)
    requires i in before.Keys + category + {x}
    ensures var w := WithFile(before, cf, category);
      WithFile(before, cf, category + {x})[i] == if i == x then (if x in w then w[x] else {}) + {cf} else w[i]
  {
    var b := if i in before then before[i] else {};
    assert WithFile(before, cf, category + {x})[i] == b + (if i in category + {x} then {cf} else {});
    if i in before.Keys + category {
      assert WithFile(before, cf, category)[i] == b + (if i in category then {cf} else {});
    }
  }

  /** Reading a file that lists nothing changes nothing. */
  lemma WithFileEmpty(before: SetTable, cf: string)
    ensures WithFile(before, cf, {}) == before
  {
    var w := WithFile(before, cf, {});
    assert w.Keys == before.Keys;
    forall i | i in w ensures w[i] == before[i] {
    }
  }

  /** The stripped lines of a longer prefix. */
  lemma StrippedSetStep(lines: seq<string>, j: nat)
    requires j < |lines|
    ensures StrippedSet(lines[..j + 1]) == StrippedSet(lines[..j]) + {Strip(lines[j])}
  {
    assert lines[..j + 1] == lines[..j] + [lines[j]];
  }

  /**
   * The `with open(...)` block of `readCategories`: goes through the lines
   * of the file `cf`, collects the stripped lines as the category, and
   * adds `cf` to the categories of each name, creating an empty entry for
   * a name seen for the first time.
   */
  method ReadCategoryFile(cf: string, lines: seq<string>, categoriesByImage: SetTable)
    returns (category: set<string>, cbi: SetTable)
    ensures category == StrippedSet(lines)
    ensures cbi == WithFile(categoriesByImage, cf, category)
  {
    category := {};
    cbi := categoriesByImage;
    WithFileEmpty(categoriesByImage, cf);
    for j := 0 to |lines|
      invariant category == StrippedSet(lines[..j])
      invariant cbi == WithFile(categoriesByImage, cf, category)
    {
      var imgname := Strip(lines[j]);
      StrippedSetStep(lines, j);
      WithFileStep(categoriesByImage, cf, category, imgname);
      category := category + {imgname};
      var cats := if imgname in cbi then cbi[imgname] else {};
      cbi := cbi[imgname := cats + {cf}];
    }
    assert lines[..|lines|] == lines;
  }

  /** The seeded tables: `all` holds the images, each image has `all`, `uncategorized` is empty. */
  method SeedTables(images: seq<string>) returns (imagesByCategory: SetTable, categoriesByImage: SetTable)
    ensures imagesByCategory == GatheredCategories(images, map[])
    ensures categoriesByImage == GatheredImages(images, map[])
  {
    imagesByCategory := map[All := set i | i in images];
    categoriesByImage := map[];
    for k := 0 to |images|
      invariant categoriesByImage == map i | i in images[..k] :: {All}
    {
      categoriesByImage := categoriesByImage[images[k] := {All}];
    }
    imagesByCategory := imagesByCategory[Uncategorized := {}];
    assert images[..|images|] == images;
    assert ListedIn(map[]) == {};
    assert forall i :: ListingCategories(map[], i) == {};
    assert (set i | i in images) == Elements(images) + ListedIn(map[]);
    assert forall i :: i in categoriesByImage ==> categoriesByImage[i] == GatheredImages(images, map[])[i];
  }

  /**
   * `readCategories(images)` over the directory `dir`: seeds `all` and
   * `uncategorized`, reads every file that is not a backup, a temporary
   * file or a synthetic category, derives `uncategorized`, and returns
   * both tables as sorted lists.
   */
  method ReadCategories(images: seq<string>, dir: Dir) returns (ibyc: ListTable, cbyi: ListTable)
    ensures Frozen(ibyc, CategoryTables(images, dir).ibc)
    ensures Frozen(cbyi, CategoryTables(images, dir).cbi)
  {
    var imagesByCategory, categoriesByImage := GatherCategories(images, dir);
    UncategorizedAbsent(images, CategoryFiles(dir));
    imagesByCategory, categoriesByImage := DeriveUncategorized(imagesByCategory, categoriesByImage);
    ibyc := Freeze(imagesByCategory);
    cbyi := Freeze(categoriesByImage);
  }

  /** A file that is no artifact is read as a category exactly when its name is not reserved. */
  lemma CategoryFileOf(dir: Dir, cf: string)
    requires cf in dir && !IsArtifact(cf)
    ensures cf in CategoryFiles(dir) <==> !IsReserved(cf)
    ensures cf in CategoryFiles(dir) ==> CategoryFiles(dir)[cf] == StrippedSet(Lines(dir[cf]))
  {
  }

  /**
   * The first part of `readCategories`: the seeded tables, then every
   * category file read in turn, skipping the synthetic categories.
   */
  method GatherCategories(images: seq<string>, dir: Dir) returns (imagesByCategory: SetTable, categoriesByImage: SetTable)
    ensures Graph(imagesByCategory, categoriesByImage) == Gathered(images, CategoryFiles(dir))
  {
    var categoryFiles := set f | f in dir && !IsArtifact(f);
    ghost var files := CategoryFiles(dir);
    imagesByCategory, categoriesByImage := SeedTables(images);
    var todo := categoryFiles;
    UnreadStep(files, todo, All);
    while todo != {}
      invariant todo <= categoryFiles
      invariant imagesByCategory == GatheredCategories(images, Unread(files, todo))
      invariant categoriesByImage == GatheredImages(images, Unread(files, todo))
      decreases todo
    {
      var cf :| cf in todo;
      ghost var read := Unread(files, todo);
      UnreadStep(files, todo, cf);
      CategoryFileOf(dir, cf);
      todo := todo - {cf};
      if cf == All || cf == Uncategorized {
        continue;
      }
      var category, after := ReadCategoryFile(cf, Lines(dir[cf]), categoriesByImage);
      GatheredStepImages(images, read, cf, category);
      GatheredStepCategories(images, read, cf, category);
      categoriesByImage := after;
      imagesByCategory := imagesByCategory[cf := category];
    }
    UnreadStep(files, {}, All);
  }

  /** Before the uncategorized pass the two tables are inverse to each other. */
  lemma GatheredSymmetric(images: seq<string>, files: SetTable)
    requires NoReserved(files)
    ensures Symmetric(Gathered(images, files))
  {
    var g := Gathered(images, files);
    forall c, i | c in g.ibc && i in g.ibc[c] ensures i in g.cbi && c in g.cbi[i] {
      if c != All {
        assert i in ListedIn(files);
        assert c in ListingCategories(files, i);
      }
    }
  }

  /**
   * Symmetry: an image is listed under a category exactly when the
   * category is listed under the image, in the tables and in the sorted
   * lists `readCategories` returns.
   */
  lemma ReadCategoriesSymmetric(images: seq<string>, dir: Dir, ibyc: ListTable, cbyi: ListTable)
    requires Frozen(ibyc, CategoryTables(images, dir).ibc)
    requires Frozen(cbyi, CategoryTables(images, dir).cbi)
    ensures forall c, i :: c in ibyc && i in ibyc[c] <==> i in cbyi && c in cbyi[i]
  {
    var files := CategoryFiles(dir);
    GatheredSymmetric(images, files);
    DerivePreservesSymmetry(Gathered(images, files));
    FrozenSymmetric(Tables(images, files), ibyc, cbyi);
  }

  /**
   * The categories a name ends with: `all` if it is one of the images,
   * the files that list it, then the uncategorized pass.
   */
  function FinalCategories(images: seq<string>, files: SetTable, i: string): set<string>
  {
    Adjust((if i in images then {All} else {}) + ListingCategories(files, i))
  }

  /**
   * The names of `categoriesByImage` are the images and the names the
   * files list, and each name's categories are its final categories.
   */
  lemma TablesImagesAt(images: seq<string>, files: SetTable, i: string)
    ensures i in Tables(images, files).cbi <==> i in images || ListingCategories(files, i) != {}
    ensures i in Tables(images, files).cbi ==> Tables(images, files).cbi[i] == FinalCategories(images, files, i)
  {
    GatheredImagesAt(images, files, i);
    assert Tables(images, files).cbi == AdjustAll(GatheredImages(images, files));
  }

  /** Before the uncategorized pass: the names and the categories of each. */
  lemma GatheredImagesAt(images: seq<string>, files: SetTable, i: string)
    ensures i in GatheredImages(images, files) <==> i in images || ListingCategories(files, i) != {}
    ensures i in GatheredImages(images, files) ==>
      GatheredImages(images, files)[i] == (if i in images then {All} else {}) + ListingCategories(files, i)
  {
    ListedInIff(files, i);
  }

  /**
   * The `all` category holds exactly the images, and a name has `all`
   * among its categories exactly when it is one of the images: names seen
   * only in category files do not get it.
   */
  lemma AllCategory(images: seq<string>, files: SetTable)
    requires NoReserved(files)
    ensures var g := Tables(images, files);
      && All in g.ibc && g.ibc[All] == Elements(images)
      && (forall i :: i in images ==> i in g.cbi)
      && (forall i :: i in g.cbi ==> (All in g.cbi[i] <==> i in images))
  {
    var g := Tables(images, files);
    assert g.ibc == GatheredCategories(images, files)[Uncategorized := g.ibc[Uncategorized]];
    forall i | i in images ensures i in g.cbi {
      TablesImagesAt(images, files, i);
    }
    forall i | i in g.cbi ensures All in g.cbi[i] <==> i in images {
      TablesImagesAt(images, files, i);
      AllAmongFinal(images, files, i);
    }
  }

  /** A name's final categories hold `all` exactly when it is an image. */
  lemma AllAmongFinal(images: seq<string>, files: SetTable, i: string)
    requires NoReserved(files)
    ensures All in FinalCategories(images, files, i) <==> i in images
  {
    var s := (if i in images then {All} else {}) + ListingCategories(files, i);
    assert All !in ListingCategories(files, i);
    AdjustEffect(s);
    assert All in Adjust(s) <==> All in Adjust(s) - {Uncategorized};
  }

  /**
   * The categories of the tables: one for each category file, with the
   * file's names as its members, plus the two synthetic ones.
   */
  lemma TablesCategories(images: seq<string>, files: SetTable)
    requires NoReserved(files)
    ensures var g := Tables(images, files);
      && g.ibc.Keys == {All, Uncategorized} + files.Keys
      && (forall c :: c in files ==> g.ibc[c] == files[c])
  {
    var g := Tables(images, files);
    assert g.ibc == GatheredCategories(images, files)[Uncategorized := g.ibc[Uncategorized]];
  }

  /** The names of the tables: the images and the names the files list. */
  lemma TablesNames(images: seq<string>, files: SetTable)
    ensures Tables(images, files).cbi.Keys == Elements(images) + ListedIn(files)
  {
    forall i ensures i in Tables(images, files).cbi <==> i in Elements(images) + ListedIn(files) {
      TablesImagesAt(images, files, i);
      ListedInIff(files, i);
    }
  }

  /**
   * The categories of each name: `all` if it is an image, the files that
   * list it, and apart from those at most `uncategorized`.
   */
  lemma TablesCategoriesOf(images: seq<string>, files: SetTable, i: string)
    requires NoReserved(files) && i in Tables(images, files).cbi
    ensures Tables(images, files).cbi[i] - {Uncategorized} == (if i in images then {All} else {}) + ListingCategories(files, i)
  {
    TablesImagesAt(images, files, i);
    var s := (if i in images then {All} else {}) + ListingCategories(files, i);
    AdjustEffect(s);
    assert Uncategorized !in ListingCategories(files, i);
  }

  /**
   * Backup, temporary and synthetic-category files never contribute: the
   * tables are the same whatever such a file holds, or without it.
   */
  lemma SkippedFileIgnored(images: seq<string>, dir: Dir, f: string, content: string)
    requires f in dir && (IsArtifact(f) || IsReserved(f))
    ensures CategoryTables(images, dir[f := content]) == CategoryTables(images, dir)
    ensures CategoryTables(images, dir - {f}) == CategoryTables(images, dir)
  {
    var d1, d2 := dir[f := content], dir - {f};
    assert Declared(d1) == Declared(dir);
    assert Declared(d2) == Declared(dir);
    CategoryFilesSame(d1, dir);
    CategoryFilesSame(d2, dir);
  }

  /** Two directories declaring the same files, each listing the same names, read alike. */
  lemma CategoryFilesSame(d1: Dir, d2: Dir)
    requires Declared(d1) == Declared(d2)
    requires forall f :: f in Declared(d1) ==> Members(d1[f]) == Members(d2[f])
    ensures CategoryFiles(d1) == CategoryFiles(d2)
  {
  }

  /**
   * The uncategorized rule.  An image listed by no category file ends with
   * exactly `all` and `uncategorized`; an image listed by any file never
   * gets `uncategorized`.  A stale name (listed, but not an image) has no
   * `all`, so it gets `uncategorized` exactly when one file lists it.
   */
  lemma UncategorizedRule(images: seq<string>, files: SetTable, i: string)
    requires NoReserved(files) && i in Tables(images, files).cbi
    ensures var g, listing := Tables(images, files), ListingCategories(files, i);
      && (i in images ==> (Uncategorized in g.cbi[i] <==> listing == {}))
      && (i in images && listing == {} ==> g.cbi[i] == {All, Uncategorized})
      && (i !in images ==> (Uncategorized in g.cbi[i] <==> |listing| == 1))
  {
    TablesImagesAt(images, files, i);
    FinalUncategorized(images, files, i);
  }

  /** The uncategorized rule on one name's final categories. */
  lemma FinalUncategorized(images: seq<string>, files: SetTable, i: string)
    requires NoReserved(files)
    ensures var f, listing := FinalCategories(images, files, i), ListingCategories(files, i);
      && (i in images ==> (Uncategorized in f <==> listing == {}))
      && (i in images && listing == {} ==> f == {All, Uncategorized})
      && (i !in images ==> (Uncategorized in f <==> |listing| == 1))
  {
    var listing := ListingCategories(files, i);
    var s := (if i in images then {All} else {}) + listing;
    assert All !in listing && Uncategorized !in listing;
    AdjustEffect(s);
    if i in images {
      assert s == {All} + listing;
      assert |s| == 1 + |listing|;
    } else {
      assert s == listing;
    }
  }

  /**
   * The branch that removes `uncategorized` from an image with two other
   * categories never fires in `readCategories`: no file can add
   * `uncategorized` to an image, since that file is skipped.
   */
  lemma RemovalBranchDead(images: seq<string>, files: SetTable)
    requires NoReserved(files)
    ensures Removed(GatheredImages(images, files)) == {}
  {
    UncategorizedAbsent(images, files);
  }

  /** No name has `uncategorized` before the uncategorized pass. */
  lemma UncategorizedAbsent(images: seq<string>, files: SetTable)
    requires NoReserved(files)
    ensures forall i :: i in GatheredImages(images, files) ==> Uncategorized !in GatheredImages(images, files)[i]
  {
    var g0 := Gathered(images, files);
    forall i | i in g0.cbi ensures Uncategorized !in g0.cbi[i] {
      assert Uncategorized !in ListingCategories(files, i);
    }
  }

  /** A blank line in a category file lists the empty name. */
  lemma BlankLineListsEmptyName(content: string)
    ensures "" in Members("\n" + content)
  {
    var s := "\n" + content;
    assert FirstLineLength(s) == 1;
    assert Lines(s)[0] == "\n";
    assert Strip("\n") == "";
  }
}
