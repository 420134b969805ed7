/**
 * The category graph both readers build (gallerifrey.py:241-369): a table
 * of images by category and its inverse, categories by image.  This module
 * holds what the two readers share: the synthetic `all` and
 * `uncategorized` categories, the pass that derives `uncategorized`
 * (gallerifrey.py:280-291 and 345-357, the same code twice), and the final
 * step that turns every set into a sorted list (gallerifrey.py:293-305 and
 * 359-368).
 */
module CategoryGraph {
  import opened StringOrder

  /** The category that holds every image. */
  const All: string := "all"
  /** The category of images listed in no other category. */
  const Uncategorized: string := "uncategorized"

  /** A table from names to sets of names: a Python dict of sets. */
  type SetTable = map<string, set<string>>
  /** A table from names to sorted lists of names, as the readers return it. */
  type ListTable = map<string, seq<string>>

  /** `imagesByCategory` and `categoriesByImage` while a reader builds them. */
  datatype Graph = Graph(ibc: SetTable, cbi: SetTable)

  /** Each table is the inverse of the other. */
  predicate Symmetric(g: Graph)
  {
    && (forall c, i :: c in g.ibc && i in g.ibc[c] ==> i in g.cbi && c in g.cbi[i])
    && (forall i, c :: i in g.cbi && c in g.cbi[i] ==> c in g.ibc && i in g.ibc[c])
  }

  /**
   * The uncategorized pass on one image's categories: a lone category
   * gains `uncategorized`; `uncategorized` beside at least two others is
   * dropped.
   */
  function Adjust(cats: set<string>): (r: set<string>)
  {
    if |cats| == 1 then cats + {Uncategorized}
    else if |cats| > 2 && Uncategorized in cats then cats - {Uncategorized}
    else cats
  }

  /**
   * The pass changes nothing but `uncategorized`, and an image ends in
   * `uncategorized` exactly when it had one category, or had
   * `uncategorized` with at most one other.
   */
  lemma AdjustEffect(cats: set<string>)
    ensures Adjust(cats) - {Uncategorized} == cats - {Uncategorized}
    ensures Uncategorized in Adjust(cats) <==> |cats| == 1 || (Uncategorized in cats && |cats| <= 2)
  {
  }

  /** Running the pass twice is running it once. */
  lemma AdjustIdempotent(cats: set<string>)
    ensures Adjust(Adjust(cats)) == Adjust(cats)
  {
    if |cats| == 1 {
      var x :| x in cats;
      assert |cats - {x}| == 0;
      assert cats == {x};
      if x == Uncategorized {
        assert cats + {Uncategorized} == cats;
      } else {
        assert |cats + {Uncategorized}| == 2;
      }
    } else if |cats| > 2 && Uncategorized in cats {
      assert |cats - {Uncategorized}| == |cats| - 1;
    }
  }

  /** The images the pass adds to `uncategorized`. */
  function Added(cbi: SetTable): set<string>
  {
    set i | i in cbi && |cbi[i]| == 1
  }

  /** The images the pass removes from `uncategorized`. */
  function Removed(cbi: SetTable): set<string>
  {
    set i | i in cbi && |cbi[i]| > 2 && Uncategorized in cbi[i]
  }

  /** `categoriesByImage` after the uncategorized pass. */
  function AdjustAll(cbi: SetTable): SetTable
  {
    map i | i in cbi :: Adjust(cbi[i])
  }

  /** Both tables after the uncategorized pass. */
  function Derive(g: Graph): (r: Graph)
    requires Uncategorized in g.ibc
  {
    Graph(g.ibc[Uncategorized := (g.ibc[Uncategorized] + Added(g.cbi)) - Removed(g.cbi)], AdjustAll(g.cbi))
  }

  /**
   * The pass keeps the tables inverse to each other: every change to an
   * image's categories is matched in `uncategorized`.
   */
  lemma DerivePreservesSymmetry(g: Graph)
    requires Uncategorized in g.ibc && Symmetric(g)
    ensures Symmetric(Derive(g))
  {
    var r := Derive(g);
    forall c, i | c in r.ibc && i in r.ibc[c] ensures i in r.cbi && c in r.cbi[i] {
      if c == Uncategorized {
        assert i in g.cbi;
        AdjustEffect(g.cbi[i]);
      } else {
        AdjustEffect(g.cbi[i]);
        assert c in g.cbi[i] - {Uncategorized};
      }
    }
    forall i, c | i in r.cbi && c in r.cbi[i] ensures c in r.ibc && i in r.ibc[c] {
      AdjustEffect(g.cbi[i]);
      if c != Uncategorized {
        assert c in g.cbi[i] - {Uncategorized};
      }
    }
  }

  /**
   * Both tables part way through the uncategorized pass: the images still
   * in `todo` are untouched, the others are done.
   */
  function Partial(g: Graph, todo: set<string>): Graph
    requires Uncategorized in g.ibc
  {
    Graph(g.ibc[Uncategorized := (g.ibc[Uncategorized] + (Added(g.cbi) - todo)) - (Removed(g.cbi) - todo)],
          map i | i in g.cbi :: if i in todo then g.cbi[i] else Adjust(g.cbi[i]))
  }

  /** Before the pass nothing is done; once every image is done, the pass is complete. */
  lemma PartialEnds(g: Graph)
    requires Uncategorized in g.ibc
    ensures Partial(g, g.cbi.Keys) == g
    ensures Partial(g, {}) == Derive(g)
  {
    var p := Partial(g, g.cbi.Keys);
    assert Added(g.cbi) - g.cbi.Keys == {} && Removed(g.cbi) - g.cbi.Keys == {};
    assert p.ibc == g.ibc;
    assert p.cbi == g.cbi;
    var d, e := Partial(g, {}), Derive(g);
    assert Added(g.cbi) - {} == Added(g.cbi) && Removed(g.cbi) - {} == Removed(g.cbi);
    assert d.ibc == e.ibc;
    assert d.cbi == e.cbi;
  }

  /**
   * One turn of the pass on `image`: a lone category gains
   * `uncategorized` and the image joins it; `uncategorized` beside two or
   * more others is dropped, and the image leaves it (where Python's
   * `set.remove` finds it, so nothing raises); otherwise nothing changes.
   */
  lemma PartialStep(g: Graph, todo: set<string>, image: string)
    requires Uncategorized in g.ibc && image in todo && todo <= g.cbi.Keys
    requires forall i :: i in g.cbi && Uncategorized in g.cbi[i] ==> i in g.ibc[Uncategorized]
    ensures var p := Partial(g, todo); var cats := p.cbi[image];
      && (|cats| > 2 && Uncategorized in cats ==> image in p.ibc[Uncategorized])
      && Partial(g, todo - {image}) ==
           if |cats| == 1 then Graph(p.ibc[Uncategorized := p.ibc[Uncategorized] + {image}], p.cbi[image := cats + {Uncategorized}])
           else if |cats| > 2 && Uncategorized in cats then Graph(p.ibc[Uncategorized := p.ibc[Uncategorized] - {image}], p.cbi[image := cats - {Uncategorized}])
           else p
  {
    var p, q := Partial(g, todo), Partial(g, todo - {image});
    var cats := g.cbi[image];
    assert p.cbi[image] == cats;
    var u, u' := p.ibc[Uncategorized], q.ibc[Uncategorized];
    assert q.cbi == p.cbi[image := Adjust(cats)];
    if |cats| == 1 {
      assert image in Added(g.cbi) && image !in Removed(g.cbi);
      assert u' == u + {image};
    } else if |cats| > 2 && Uncategorized in cats {
      assert image !in Added(g.cbi) && image in Removed(g.cbi);
      assert u' == u - {image};
    } else {
      assert image !in Added(g.cbi) && image !in Removed(g.cbi);
      assert u' == u;
    }
  }

  /**
   * Draining the set of images one at a time, `categoriesByImage` gets each
   * image's adjusted categories and `uncategorized` gains and loses the
   * matching images.  Python's `set.remove` would raise for an image not in
   * `uncategorized`; the inverse tables the readers pass never give it one.
   */
  method DeriveUncategorized(imagesByCategory: SetTable, categoriesByImage: SetTable)
    returns (ibc: SetTable, cbi: SetTable)
    requires Uncategorized in imagesByCategory
    requires forall i :: i in categoriesByImage && Uncategorized in categoriesByImage[i] ==> i in imagesByCategory[Uncategorized]
    ensures Graph(ibc, cbi) == Derive(Graph(imagesByCategory, categoriesByImage))
  {
    ghost var g := Graph(imagesByCategory, categoriesByImage);
    ibc, cbi := imagesByCategory, categoriesByImage;
    var todo := categoriesByImage.Keys;
    PartialEnds(g);
    while todo != {}
      invariant todo <= categoriesByImage.Keys
      invariant Graph(ibc, cbi) == Partial(g, todo)
      decreases todo
    {
      var image :| image in todo;
      PartialStep(g, todo, image);
      var cats := cbi[image];
      var num := |cats|;
      if num == 1 {
        cbi := cbi[image := cats + {Uncategorized}];
        ibc := ibc[Uncategorized := ibc[Uncategorized] + {image}];
      } else if num > 2 && Uncategorized in cats {
        assert image in ibc[Uncategorized];
        cbi := cbi[image := cats - {Uncategorized}];
        ibc := ibc[Uncategorized := ibc[Uncategorized] - {image}];
      }
      todo := todo - {image};
    }
  }

  /** `list(s)`: the members of a set, each once, in no particular order. */
  method ListOf(s: set<string>) returns (l: seq<string>)
    ensures Distinct(l)
    ensures forall x :: x in l ==> x in s
    ensures forall x :: x in s ==> x in l
  {
    l := [];
    var todo := s;
    while todo != {}
      invariant todo <= s && Distinct(l)
      invariant forall x :: x in l <==> x in s && x !in todo
      decreases todo
    {
      var x :| x in todo;
      l := l + [x];
      todo := todo - {x};
    }
  }

  /** A table of sorted lists holding exactly the sets of `sets`. */
  predicate Frozen(lists: ListTable, sets: SetTable)
  {
    lists.Keys == sets.Keys && forall k :: k in lists ==> IsListing(lists[k], sets[k])
  }

  /** The freezing of a table of sets is determined by the sets alone. */
  lemma FrozenUnique(l1: ListTable, l2: ListTable, sets: SetTable)
    requires Frozen(l1, sets) && Frozen(l2, sets)
    ensures l1 == l2
  {
    forall k | k in l1 ensures l1[k] == l2[k] {
      ListingUnique(l1[k], l2[k], sets[k]);
    }
  }

  /** `l = list(s); l.sort()` for every entry: each set becomes its sorted listing. */
  method Freeze(sets: SetTable) returns (lists: ListTable)
    ensures Frozen(lists, sets)
  {
    lists := map[];
    var todo := sets.Keys;
    while todo != {}
      invariant todo <= sets.Keys
      invariant lists.Keys == sets.Keys - todo
      invariant forall k :: k in lists ==> IsListing(lists[k], sets[k])
      decreases todo
    {
      var k :| k in todo;
      var l := ListOf(sets[k]);
      SortOfDistinctIsListing(l, sets[k]);
      lists := lists[k := Sort(l)];
      todo := todo - {k};
    }
  }

  /**
   * The lists a reader returns are inverse to each other when the sets
   * were: an image is listed under a category exactly when the category
   * is listed under the image.
   */
  lemma FrozenSymmetric(g: Graph, ibyc: ListTable, cbyi: ListTable)
    requires Symmetric(g) && Frozen(ibyc, g.ibc) && Frozen(cbyi, g.cbi)
    ensures forall c, i :: c in ibyc && i in ibyc[c] <==> i in cbyi && c in cbyi[i]
  {
  }
}
