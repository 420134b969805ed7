/**
 * The maintenance helpers that compare two category tables
 * (gallerifrey.py:513-523): `keyDiff`, the keys of one table missing from
 * the other, and `valsMatch`, whether every key of the first table lists
 * the same names, in any order, in the second.
 */
module Maintenance {
  import opened StringOrder
  import opened CategoryGraph

  /** `keyDiff`: the keys of `d1` that `d2` lacks. */
  function KeyDiff(d1: ListTable, d2: ListTable): (r: set<string>)
    ensures forall k :: k in r <==> k in d1 && k !in d2
  {
    d1.Keys - d2.Keys
  }

  /** `keyDiff` is empty exactly when every key of `d1` is a key of `d2`. */
  lemma KeyDiffEmptyIff(d1: ListTable, d2: ListTable)
    ensures KeyDiff(d1, d2) == {} <==> d1.Keys <= d2.Keys
  {
    if KeyDiff(d1, d2) == {} {
      forall k | k in d1 ensures k in d2 {
        assert k !in KeyDiff(d1, d2);
      }
    }
  }

  /** Two tables have the same keys exactly when neither has a key the other lacks. */
  lemma KeyDiffBothEmpty(d1: ListTable, d2: ListTable)
    ensures KeyDiff(d1, d2) == {} && KeyDiff(d2, d1) == {} <==> d1.Keys == d2.Keys
  {
    if KeyDiff(d1, d2) == {} && KeyDiff(d2, d1) == {} {
      forall k | k in d1 ensures k in d2 {
        assert k !in KeyDiff(d1, d2);
      }
      forall k | k in d2 ensures k in d1 {
        assert k !in KeyDiff(d2, d1);
      }
    }
  }

  /** Why `valsMatch` fails: `d2[k]` raises `KeyError` for a key of `d1` missing from `d2`. */
  datatype Result<T> = Ok(value: T) | KeyError(key: string)

  /** Every key of `d1` is in `d2` and lists the same names there. */
  predicate ValuesAgree(d1: ListTable, d2: ListTable)
  {
    forall k :: k in d1 ==> k in d2 && Elements(d1[k]) == Elements(d2[k])
  }

  /**
   * `valsMatch`: the keys of `d1` in an unspecified order, stopping at the
   * first key whose names differ (`False`) or that `d2` lacks (`KeyError`).
   * Which of the two a run meets first depends on the dictionary's order,
   * so only its three outcomes are pinned down.
   */
  method ValsMatch(d1: ListTable, d2: ListTable) returns (r: Result<bool>)
    ensures r == Ok(true) <==> ValuesAgree(d1, d2)
    ensures r == Ok(false) ==> exists k :: k in d1 && k in d2 && Elements(d1[k]) != Elements(d2[k])
    ensures r.KeyError? ==> r.key in d1 && r.key !in d2
  {
    var todo := d1.Keys;
    while todo != {}
      invariant todo <= d1.Keys
      invariant forall k :: k in d1 && k !in todo ==> k in d2 && Elements(d1[k]) == Elements(d2[k])
      decreases todo
    {
      var k :| k in todo;
      if k !in d2 {
        return KeyError(k);
      }
      if Elements(d1[k]) != Elements(d2[k]) {
        return Ok(false);
      }
      todo := todo - {k};
    }
    return Ok(true);
  }
}
