/**
 * `writeCategories(imagesByCategory)` (gallerifrey.py:371-392): every
 * category is written to a file of its own, one image name per line, and
 * published safely: write `<name>.tmp`, copy the live file to
 * `<name>.bak` if there is one, then rename the temporary file over the
 * live one.  The category directory is the same map from file name to
 * contents that `readCategories` reads.
 */
module CategoryStore {
  import opened Text
  import opened StringOrder
  import opened Names
  import opened CategoryGraph
  import opened CategoryReader

  /** The backup file of `name`. */
  function Bak(name: string): string
  {
    name + ".bak"
  }

  /** The temporary file of `name`. */
  function Tmp(name: string): string
  {
    name + ".tmp"
  }

  /** The three files of one publish are distinct. */
  lemma PublishFilesDistinct(name: string)
    ensures name != Bak(name) && name != Tmp(name) && Bak(name) != Tmp(name)
  {
    assert Bak(name)[|name| + 1] == 'b' && Tmp(name)[|name| + 1] == 't';
  }

  /**
   * The tmp / .bak / rename sequence of `writeCategories` for one file
   * (gallerifrey.py:378-391):
   * afterwards the live file holds the new content, the backup holds the
   * previous content if there was a live file (a missing one makes
   * `shutil.copyfile` raise IOError, which is ignored), no temporary file
   * remains, and every other file is as it was.
   */
  predicate Published(dir: Dir, name: string, content: string, r: Dir)
  {
    && r.Keys == dir.Keys + {name} + (if name in dir then {Bak(name)} else {}) - {Tmp(name)}
    && name in r && r[name] == content
    && (name in dir ==> Bak(name) in r && r[Bak(name)] == dir[name])
    && (forall p :: p in r && p != name && !(p == Bak(name) && name in dir) ==> r[p] == dir[p])
  }

  /** `writeCategories` publishing the file of one category. */
  method Publish(dir: Dir, name: string, content: string) returns (r: Dir)
    ensures Published(dir, name, content, r)
  {
    PublishFilesDistinct(name);
    var catfilename, bakfilename, tmpfilename := name, Bak(name), Tmp(name);
    r := dir[tmpfilename := content];
    if catfilename in r {
      r := r[bakfilename := r[catfilename]];
    }
    r := (r - {tmpfilename})[catfilename := r[tmpfilename]];
  }

  /** What the file of a category holds: its sorted image names, each followed by a newline. */
  function CategoryText(imgset: seq<string>): string
  {
    LinesText(Sort(imgset))
  }

  /** No category is named like the backup or temporary file of another. */
  predicate NoArtifactClash(names: set<string>)
  {
    forall c :: c in names ==> Bak(c) !in names && Tmp(c) !in names
  }

  /** The backups made when the categories `cs` are written over `dir`. */
  function Backups(dir: Dir, cs: set<string>): set<string>
  {
    set c | c in cs && c in dir :: Bak(c)
  }

  /** The temporary files of the categories `cs`. */
  function Temporaries(cs: set<string>): set<string>
  {
    set c | c in cs :: Tmp(c)
  }

  /**
   * The directory after the categories `cs` of `ibyc` were written over
   * `dir`: each category file holds the category's text, each category
   * that had a file has its old content in the backup, no temporary file
   * is left, and nothing else changed.
   */
  predicate Written(dir: Dir, ibyc: ListTable, cs: set<string>, r: Dir)
    requires cs <= ibyc.Keys
  {
    && r.Keys == dir.Keys + cs + Backups(dir, cs) - Temporaries(cs)
    && (forall c :: c in cs ==> c in r && r[c] == CategoryText(ibyc[c]))
    && (forall c :: c in cs && c in dir ==> Bak(c) in r && r[Bak(c)] == dir[c])
    && (forall p :: p in r && p !in cs && p !in Backups(dir, cs) ==> r[p] == dir[p])
  }

  /**
   * `writeCategories(imagesByCategory)`: publishes the text of every
   * category.  The categories are written in dictionary order; when no
   * category is named like another's backup or temporary file, the
   * result does not depend on that order.
   */
  method WriteCategories(dir: Dir, imagesByCategory: ListTable) returns (r: Dir)
    requires NoArtifactClash(imagesByCategory.Keys)
    ensures Written(dir, imagesByCategory, imagesByCategory.Keys, r)
  {
    r := dir;
    var todo := imagesByCategory.Keys;
    ghost var done: set<string> := {};
    WrittenNothing(dir, imagesByCategory);
    while todo != {}
      invariant done + todo == imagesByCategory.Keys && done !! todo
      invariant Written(dir, imagesByCategory, done, r)
      decreases todo
    {
      var catname :| catname in todo;
      var imglist := Sort(imagesByCategory[catname]);
      var r' := Publish(r, catname, LinesText(imglist));
      WrittenStep(dir, imagesByCategory, done, catname, r, r');
      r := r';
      todo := todo - {catname};
      done := done + {catname};
    }
  }

  /** Before any category is written the directory is as it was. */
  lemma WrittenNothing(dir: Dir, ibyc: ListTable)
    ensures Written(dir, ibyc, {}, dir)
  {
    assert Backups(dir, {}) == {} && Temporaries({}) == {};
  }

  /** Fewer categories cannot clash where more did not. */
  lemma NoArtifactClashSubset(names: set<string>, sub: set<string>)
    requires NoArtifactClash(names) && sub <= names
    ensures NoArtifactClash(sub)
  {
  }

  /** Backups and temporary files never coincide, and each names one file only. */
  lemma ArtifactNamesDistinct(x: string, y: string)
    ensures Bak(x) != Tmp(y)
    ensures Bak(x) == Bak(y) ==> x == y
    ensures Tmp(x) == Tmp(y) ==> x == y
  {
    assert Bak(x)[|Bak(x)| - 1] == 'k' && Tmp(y)[|Tmp(y)| - 1] == 'p';
    if Bak(x) == Bak(y) {
      assert x == Bak(x)[..|x|] == Bak(y)[..|y|] == y;
    }
    if Tmp(x) == Tmp(y) {
      assert x == Tmp(x)[..|x|] == Tmp(y)[..|y|] == y;
    }
  }

  /** Writing one more category adds its temporary file to those removed. */
  lemma TemporariesAdd(cs: set<string>, c: string)
    ensures Temporaries(cs + {c}) == Temporaries(cs) + {Tmp(c)}
  {
  }

  /** Writing one more category adds its backup when it had a file. */
  lemma BackupsAdd(dir: Dir, cs: set<string>, c: string)
    ensures Backups(dir, cs + {c}) == Backups(dir, cs) + (if c in dir then {Bak(c)} else {})
  {
  }

  /** Publishing one more category: the directory keys. */
  lemma WrittenKeysStep(dir: Dir, done: set<string>, c: string, r: Dir, r': Dir)
    requires c !in done && NoArtifactClash(done + {c})
    requires r.Keys == dir.Keys + done + Backups(dir, done) - Temporaries(done)
    requires r'.Keys == r.Keys + {c} + (if c in r then {Bak(c)} else {}) - {Tmp(c)}
    ensures c in r <==> c in dir
    ensures r'.Keys == dir.Keys + (done + {c}) + Backups(dir, done + {c}) - Temporaries(done + {c})
  {
    PublishFilesDistinct(c);
    assert c !in Temporaries(done) by {
      forall d | d in done ensures Tmp(d) != c {
      }
    }
    assert c !in Backups(dir, done) by {
      forall d | d in done && d in dir ensures Bak(d) != c {
      }
    }
    assert Bak(c) !in Temporaries(done) by {
      forall d | d in done ensures Tmp(d) != Bak(c) {
        ArtifactNamesDistinct(c, d);
      }
    }
    BackupsAdd(dir, done, c);
    TemporariesAdd(done, c);
  }

  /** Publishing one more category: the category files. */
  lemma WrittenContentStep(ibyc: ListTable, done: set<string>, c: string, r: Dir, r': Dir)
    requires done <= ibyc.Keys && c in ibyc && c !in done && NoArtifactClash(done + {c})
    requires forall x :: x in done ==> x in r && r[x] == CategoryText(ibyc[x])
    requires Published(r, c, CategoryText(ibyc[c]), r')
    ensures forall x :: x in done + {c} ==> x in r' && r'[x] == CategoryText(ibyc[x])
  {
    forall x | x in done ensures x in r' && r'[x] == CategoryText(ibyc[x]) {
      assert Bak(c) != x && Tmp(c) != x;
    }
  }

  /** Publishing one more category: the backups. */
  lemma WrittenBackupStep(dir: Dir, done: set<string>, c: string, r: Dir, r': Dir, content: string)
    requires c !in done && NoArtifactClash(done + {c}) && (c in r <==> c in dir) && (c in dir ==> r[c] == dir[c])
    requires forall x :: x in done && x in dir ==> Bak(x) in r && r[Bak(x)] == dir[x]
    requires Published(r, c, content, r')
    ensures forall x :: x in done + {c} && x in dir ==> Bak(x) in r' && r'[Bak(x)] == dir[x]
  {
    forall x | x in done && x in dir ensures Bak(x) in r' && r'[Bak(x)] == dir[x] {
      ArtifactNamesDistinct(x, c);
      assert Bak(x) != c;
    }
  }

  /** Publishing one more category extends what was written. */
  lemma WrittenStep(dir: Dir, ibyc: ListTable, done: set<string>, c: string, r: Dir, r': Dir)
    requires NoArtifactClash(ibyc.Keys) && done <= ibyc.Keys && c in ibyc && c !in done
    requires Written(dir, ibyc, done, r)
    requires Published(r, c, CategoryText(ibyc[c]), r')
    ensures Written(dir, ibyc, done + {c}, r')
  {
    var cs := done + {c};
    NoArtifactClashSubset(ibyc.Keys, cs);
    WrittenKeysStep(dir, done, c, r, r');
    WrittenContentStep(ibyc, done, c, r, r');
    assert c in dir ==> r[c] == dir[c] by {
      if c in dir {
        assert c !in Backups(dir, done) by {
          forall d | d in done && d in dir ensures Bak(d) != c {
          }
        }
      }
    }
    WrittenBackupStep(dir, done, c, r, r', CategoryText(ibyc[c]));
    BackupsAdd(dir, done, c);
  }

  /** Every name a category file lists is stripped and holds no newline. */
  lemma MembersAreClean(content: string)
    ensures forall x :: x in Members(content) ==> IsStripped(x) && '\n' !in x
  {
    var lines := Lines(content);
    forall x | x in Members(content) ensures IsStripped(x) && '\n' !in x {
      var k :| 0 <= k < |lines| && x == Strip(lines[k]);
      StripLineHasNoNewline(lines[k]);
    }
  }

  /** Stripping the lines of a written file gives back the names written. */
  lemma StrippedTerminated(l: seq<string>)
    requires forall k :: 0 <= k < |l| ==> IsStripped(l[k])
    ensures StrippedSet(Terminated(l)) == set x | x in l
  {
    var t := Terminated(l);
    forall y | y in StrippedSet(t) ensures y in l {
      var line :| line in t && y == Strip(line);
      var k :| 0 <= k < |t| && t[k] == line;
      StripWrittenName(l[k]);
    }
    forall x | x in l ensures x in StrippedSet(t) {
      var k :| 0 <= k < |l| && l[k] == x;
      StripWrittenName(l[k]);
      assert t[k] in t;
    }
  }

  /** A written category file lists exactly the names written to it. */
  lemma MembersOfLinesText(l: seq<string>)
    requires forall k :: 0 <= k < |l| ==> IsStripped(l[k]) && '\n' !in l[k]
    ensures Members(LinesText(l)) == set x | x in l
  {
    LinesOfLinesText(l);
    StrippedTerminated(l);
  }

  /**
   * `readCategories` reads back the file `writeCategories` wrote for a
   * category it had read: the same names.
   */
  lemma CategoryFileRoundTrip(l: seq<string>, content: string)
    requires IsListing(l, Members(content))
    ensures Members(CategoryText(l)) == Members(content)
  {
    StrictIsSortedDistinct(l);
    SortOfSorted(l);
    MembersAreClean(content);
    MembersOfLinesText(l);
  }

  /** The synthetic categories are plain names and not artifacts. */
  lemma ReservedArePlain()
    ensures IsPlainName(All) && IsPlainName(Uncategorized)
    ensures !IsArtifact(All) && !IsArtifact(Uncategorized)
  {
    ReservedNotArtifact(All);
    ReservedNotArtifact(Uncategorized);
  }

  /** A synthetic category is a plain name and not an artifact. */
  lemma ReservedNotArtifact(c: string)
    requires IsReserved(c)
    ensures IsPlainName(c) && !IsArtifact(c)
  {
    assert c[0] != '.' && c[|c| - 1] != 'k' && c[|c| - 1] != 'p';
    ArtifactEnding(c);
  }

  /** An artifact's name ends in the last letter of its extension. */
  lemma ArtifactEnding(f: string)
    ensures IsArtifact(f) ==> f != [] && (f[|f| - 1] == 'k' || f[|f| - 1] == 'p')
  {
    if IsArtifact(f) {
      var e := SplitExt(f).1;
      assert f == SplitExt(f).0 + e;
      assert e[|e| - 1] == f[|f| - 1];
    }
  }

  /** The categories `readCategories` returns are the declared files and the two synthetic ones. */
  lemma ReadCategoryNames(images: seq<string>, dir: Dir, ibyc: ListTable)
    requires Frozen(ibyc, CategoryTables(images, dir).ibc)
    ensures ibyc.Keys == {All, Uncategorized} + Declared(dir)
  {
    TablesCategories(images, CategoryFiles(dir));
  }

  /** Plain names that are not artifacts never clash with each other's backups. */
  lemma PlainNamesDoNotClash(names: set<string>)
    requires forall c :: c in names ==> IsPlainName(c) && !IsArtifact(c)
    ensures NoArtifactClash(names)
  {
    forall c | c in names ensures Bak(c) !in names && Tmp(c) !in names {
      BackupsAreArtifacts(c);
    }
  }

  /** The backup and temporary files of a plain name are artifacts. */
  lemma BackupsAreArtifacts(c: string)
    requires IsPlainName(c)
    ensures IsArtifact(Bak(c)) && IsArtifact(Tmp(c))
  {
    ArtifactHasExt(c, ".bak");
    ArtifactHasExt(c, ".tmp");
  }

  /** The categories `readCategories` returns never clash with each other's backups. */
  lemma ReadCategoriesDoNotClash(images: seq<string>, dir: Dir, ibyc: ListTable)
    requires forall f :: f in dir ==> IsPlainName(f)
    requires Frozen(ibyc, CategoryTables(images, dir).ibc)
    ensures NoArtifactClash(ibyc.Keys)
  {
    ReadCategoryNames(images, dir, ibyc);
    ReadNamesArePlain(dir, ibyc.Keys);
    PlainNamesDoNotClash(ibyc.Keys);
  }

  /** A name that is not an artifact is neither a backup nor a temporary file of a plain name. */
  lemma NotAnArtifactOf(f: string, dir: Dir, k: set<string>)
    requires !IsArtifact(f)
    requires forall c :: c in k ==> IsPlainName(c)
    ensures f !in Backups(dir, k) && f !in Temporaries(k)
  {
    forall c | c in k ensures Bak(c) != f && Tmp(c) != f {
      ArtifactHasExt(c, ".bak");
      ArtifactHasExt(c, ".tmp");
    }
  }

  /** One file name is declared after the write exactly when it was before. */
  lemma WrittenDeclaresName(dir: Dir, k: set<string>, r: Dir, f: string)
    requires forall c :: c in k ==> IsPlainName(c)
    requires k == {All, Uncategorized} + Declared(dir)
    requires r.Keys == dir.Keys + k + Backups(dir, k) - Temporaries(k)
    ensures f in Declared(r) <==> f in Declared(dir)
  {
    if !IsArtifact(f) && !IsReserved(f) {
      NotAnArtifactOf(f, dir, k);
      assert f in r <==> f in dir;
    }
  }

  /** The categories `readCategories` returns all have plain names. */
  lemma ReadNamesArePlain(dir: Dir, k: set<string>)
    requires forall f :: f in dir ==> IsPlainName(f)
    requires k == {All, Uncategorized} + Declared(dir)
    ensures forall c :: c in k ==> IsPlainName(c) && !IsArtifact(c)
  {
    ReservedArePlain();
  }

  /** Writing the categories back declares the same category files. */
  lemma WrittenDeclaresSame(dir: Dir, k: set<string>, r: Dir)
    requires forall f :: f in dir ==> IsPlainName(f)
    requires k == {All, Uncategorized} + Declared(dir)
    requires r.Keys == dir.Keys + k + Backups(dir, k) - Temporaries(k)
    ensures Declared(r) == Declared(dir)
  {
    ReadNamesArePlain(dir, k);
    forall f ensures f in Declared(r) <==> f in Declared(dir) {
      WrittenDeclaresName(dir, k, r, f);
    }
  }

  /**
   * What `convertCategories` checks for the directory format: writing the
   * tables `readCategories` returned and reading them again gives the same
   * tables, provided no file name is made of dots only (such a name's
   * backup would not be recognised as one).
   */
  lemma WriteReadRoundTrip(images: seq<string>, dir: Dir, ibyc: ListTable, r: Dir)
    requires forall f :: f in dir ==> IsPlainName(f)
    requires Frozen(ibyc, CategoryTables(images, dir).ibc)
    requires Written(dir, ibyc, ibyc.Keys, r)
    ensures CategoryTables(images, r) == CategoryTables(images, dir)
  {
    var files := CategoryFiles(dir);
    TablesCategories(images, files);
    ReadCategoryNames(images, dir, ibyc);
    forall f | f in Declared(dir) ensures IsListing(ibyc[f], Members(dir[f])) {
      assert IsListing(ibyc[f], files[f]);
    }
    WrittenFilesSame(dir, ibyc, r);
  }

  /** Written back, the category files list the same names as before. */
  lemma WrittenFilesSame(dir: Dir, ibyc: ListTable, r: Dir)
    requires forall f :: f in dir ==> IsPlainName(f)
    requires ibyc.Keys == {All, Uncategorized} + Declared(dir)
    requires forall f :: f in Declared(dir) ==> IsListing(ibyc[f], Members(dir[f]))
    requires Written(dir, ibyc, ibyc.Keys, r)
    ensures CategoryFiles(r) == CategoryFiles(dir)
  {
    WrittenDeclaresSame(dir, ibyc.Keys, r);
    forall f | f in Declared(dir) ensures Members(r[f]) == Members(dir[f]) {
      assert r[f] == CategoryText(ibyc[f]);
      CategoryFileRoundTrip(ibyc[f], dir[f]);
    }
    CategoryFilesSame(dir, r);
  }
}
