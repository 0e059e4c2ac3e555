/**
 * A database table as the sequence of its rows, with the key each row is stored under.
 * These functions are the store's primary-key operations: `Model.query.get(key)`,
 * inserting a row, overwriting a row in place, and deleting the row with a key.
 */
module Tables {
  import opened Wrappers

  /** The key column, row by row. */
  function Keys<K, R>(rows: seq<R>, key: R -> K): (ks: seq<K>)
    ensures |ks| == |rows|
    ensures forall i :: 0 <= i < |rows| ==> ks[i] == key(rows[i])
  {
    if rows == [] then [] else [key(rows[0])] + Keys(rows[1..], key)
  }

  predicate HasKey<K(==), R>(rows: seq<R>, key: R -> K, k: K) {
    k in Keys(rows, key)
  }

  /** No two rows share a key: the primary-key constraint. */
  predicate UniqueKeys<K(==), R>(rows: seq<R>, key: R -> K) {
    var ks := Keys(rows, key);
    forall i, j :: 0 <= i < j < |ks| ==> ks[i] != ks[j]
  }

  /** `Model.query.get(k)`: the row stored under k, if any. */
  function Lookup<K(==), R>(rows: seq<R>, key: R -> K, k: K): (r: Option<R>)
    ensures r.Some? <==> HasKey(rows, key, k)
    ensures r.Some? ==> r.value in rows && key(r.value) == k
  {
    if rows == [] then None
    else
      assert Keys(rows, key) == [key(rows[0])] + Keys(rows[1..], key);
      if key(rows[0]) == k then Some(rows[0]) else Lookup(rows[1..], key, k)
  }

  /** Under unique keys, what Lookup finds under the key of row i is row i. */
  lemma LookupFindsTheRow<K, R>(rows: seq<R>, key: R -> K, i: int)
    requires UniqueKeys(rows, key) && 0 <= i < |rows|
    ensures Lookup(rows, key, key(rows[i])) == Some(rows[i])
  {
    var k := key(rows[i]);
    var x := Lookup(rows, key, k).value;
    var j :| 0 <= j < |rows| && rows[j] == x;
    assert Keys(rows, key)[j] == Keys(rows, key)[i];
  }

  /** Adding a row whose key is new keeps the keys unique and makes the row findable. */
  lemma InsertFresh<K, R>(rows: seq<R>, key: R -> K, x: R)
    requires UniqueKeys(rows, key) && !HasKey(rows, key, key(x))
    ensures Keys(rows + [x], key) == Keys(rows, key) + [key(x)]
    ensures UniqueKeys(rows + [x], key)
    ensures Lookup(rows + [x], key, key(x)) == Some(x)
  {
    var s := rows + [x];
    assert Keys(s, key) == Keys(rows, key) + [key(x)];
    LookupFindsTheRow(s, key, |rows|);
  }

  /** Adding a row changes nothing that is found under other keys. */
  lemma {:induction false} LookupAppend<K, R>(rows: seq<R>, key: R -> K, x: R, k: K)
    requires key(x) != k
    ensures Lookup(rows + [x], key, k) == Lookup(rows, key, k)
  {
    if rows != [] {
      assert (rows + [x])[1..] == rows[1..] + [x];
      LookupAppend(rows[1..], key, x, k);
    }
  }

  /** The table after `db.session.delete` of the row stored under k. */
  function Remove<K(==), R>(rows: seq<R>, key: R -> K, k: K): (r: seq<R>)
    ensures k !in Keys(r, key)
    ensures multiset(r) <= multiset(rows)
    ensures !HasKey(rows, key, k) ==> r == rows
  {
    if rows == [] then []
    else
      var rest := Remove(rows[1..], key, k);
      assert rows == [rows[0]] + rows[1..];
      assert Keys(rows, key) == [key(rows[0])] + Keys(rows[1..], key);
      if key(rows[0]) == k then rest
      else
        assert Keys([rows[0]] + rest, key) == [key(rows[0])] + Keys(rest, key);
        [rows[0]] + rest
  }

  /** Deleting under k leaves every other key, and what is found under it, as it was. */
  lemma {:induction false} RemoveKeepsOthers<K, R>(rows: seq<R>, key: R -> K, k: K, k': K)
    requires k' != k
    ensures Lookup(Remove(rows, key, k), key, k') == Lookup(rows, key, k')
  {
    if rows != [] {
      RemoveKeepsOthers(rows[1..], key, k, k');
      if key(rows[0]) != k {
        assert ([rows[0]] + Remove(rows[1..], key, k))[1..] == Remove(rows[1..], key, k);
      }
    }
  }

  /** After deleting under k, exactly the other keys remain. */
  lemma RemoveHasKey<K, R>(rows: seq<R>, key: R -> K, k: K, k': K)
    ensures HasKey(Remove(rows, key, k), key, k') <==> HasKey(rows, key, k') && k' != k
  {
    if k' != k {
      RemoveKeepsOthers(rows, key, k, k');
    }
  }

  /** Deleting keeps the keys unique. */
  lemma {:induction false} RemoveKeepsUnique<K, R>(rows: seq<R>, key: R -> K, k: K)
    requires UniqueKeys(rows, key)
    ensures UniqueKeys(Remove(rows, key, k), key)
  {
    if rows != [] {
      var ks := Keys(rows, key);
      assert ks == [key(rows[0])] + Keys(rows[1..], key);
      assert UniqueKeys(rows[1..], key) by {
        var ks' := Keys(rows[1..], key);
        forall i, j | 0 <= i < j < |ks'| ensures ks'[i] != ks'[j] {
          assert ks'[i] == ks[i + 1] && ks'[j] == ks[j + 1];
        }
      }
      RemoveKeepsUnique(rows[1..], key, k);
      var rest := Remove(rows[1..], key, k);
      if key(rows[0]) != k {
        var r := [rows[0]] + rest;
        assert r[1..] == rest;
        assert !HasKey(rows[1..], key, key(rows[0])) by {
          forall i | 0 <= i < |rows| - 1 ensures Keys(rows[1..], key)[i] != key(rows[0]) {
            assert Keys(rows[1..], key)[i] == ks[i + 1];
          }
        }
        RemoveKeepsOthers(rows[1..], key, k, key(rows[0]));
        assert !HasKey(rest, key, key(rows[0]));
        var kr := Keys(r, key);
        assert kr == [key(rows[0])] + Keys(rest, key);
        forall i, j | 0 <= i < j < |kr| ensures kr[i] != kr[j] {
          if i > 0 {
            assert kr[i] == Keys(rest, key)[i - 1] && kr[j] == Keys(rest, key)[j - 1];
          } else {
            assert kr[j] == Keys(rest, key)[j - 1];
          }
        }
      }
    }
  }

  /** Under unique keys, deleting a present key removes exactly that one row. */
  lemma {:induction false} RemoveExactlyOne<K, R>(rows: seq<R>, key: R -> K, k: K)
    requires UniqueKeys(rows, key) && HasKey(rows, key, k)
    ensures multiset(Remove(rows, key, k)) + multiset{Lookup(rows, key, k).value} == multiset(rows)
    ensures |Remove(rows, key, k)| == |rows| - 1
  {
    var ks := Keys(rows, key);
    assert rows == [rows[0]] + rows[1..];
    assert ks == [key(rows[0])] + Keys(rows[1..], key);
    assert UniqueKeys(rows[1..], key) by {
      var ks' := Keys(rows[1..], key);
      forall i, j | 0 <= i < j < |ks'| ensures ks'[i] != ks'[j] {
        assert ks'[i] == ks[i + 1] && ks'[j] == ks[j + 1];
      }
    }
    if key(rows[0]) == k {
      assert !HasKey(rows[1..], key, k) by {
        forall i | 0 <= i < |rows| - 1 ensures Keys(rows[1..], key)[i] != k {
          assert Keys(rows[1..], key)[i] == ks[i + 1];
        }
      }
    } else {
      RemoveExactlyOne(rows[1..], key, k);
    }
  }

  /** The table after overwriting, in place, the row stored under key(x) with x. */
  function Replace<K(==), R>(rows: seq<R>, key: R -> K, x: R): (r: seq<R>)
    ensures Keys(r, key) == Keys(rows, key)
    ensures forall i :: 0 <= i < |rows| && key(rows[i]) != key(x) ==> r[i] == rows[i]
    ensures forall i :: 0 <= i < |rows| && key(rows[i]) == key(x) ==> r[i] == x
  {
    if rows == [] then []
    else
      var rest := Replace(rows[1..], key, x);
      var r := [if key(rows[0]) == key(x) then x else rows[0]] + rest;
      assert r[1..] == rest;
      assert Keys(r, key) == [key(r[0])] + Keys(rest, key);
      assert Keys(rows, key) == [key(rows[0])] + Keys(rows[1..], key);
      r
  }

  /** After overwriting, x is found under its key and every other key finds what it found before. */
  lemma ReplaceLookup<K, R>(rows: seq<R>, key: R -> K, x: R, k: K)
    requires UniqueKeys(rows, key) && HasKey(rows, key, key(x))
    ensures Lookup(Replace(rows, key, x), key, key(x)) == Some(x)
    ensures k != key(x) ==> Lookup(Replace(rows, key, x), key, k) == Lookup(rows, key, k)
  {
    var r := Replace(rows, key, x);
    var i :| 0 <= i < |rows| && Keys(rows, key)[i] == key(x);
    LookupFindsTheRow(r, key, i);
    if k != key(x) && HasKey(rows, key, k) {
      var j :| 0 <= j < |rows| && Keys(rows, key)[j] == k;
      LookupFindsTheRow(rows, key, j);
      LookupFindsTheRow(r, key, j);
    }
  }

  /**
   * The key an integer primary key column assigns to the next inserted row: one more than the
   * largest key in use, or 1 for an empty table.
   */
  function NextId<R>(rows: seq<R>, key: R -> int): (n: int)
    ensures forall i :: 0 <= i < |rows| ==> key(rows[i]) < n
    ensures rows == [] ==> n == 1
    ensures rows != [] ==> n - 1 in Keys(rows, key)
    ensures !HasKey(rows, key, n)
  {
    if rows == [] then 1
    else
      var m := NextId(rows[..|rows| - 1], key);
      var last := key(rows[|rows| - 1]);
      assert forall i :: 0 <= i < |rows| - 1 ==> rows[..|rows| - 1][i] == rows[i];
      assert Keys(rows, key)[|rows| - 1] == last;
      assert forall i :: 0 <= i < |rows| - 1 ==> Keys(rows[..|rows| - 1], key)[i] == Keys(rows, key)[i];
      if |rows| == 1 || last >= m then last + 1 else m
  }

  /** A key present in a table is present in every extension of it. */
  lemma HasKeyExtended<K, R>(rows: seq<R>, ext: seq<R>, key: R -> K, k: K)
    requires rows <= ext && HasKey(rows, key, k)
    ensures HasKey(ext, key, k)
  {
    var i :| 0 <= i < |rows| && Keys(rows, key)[i] == k;
    assert ext[i] == rows[i];
    assert Keys(ext, key)[i] == k;
  }

  /** After appending x, the keys present are the old ones and key(x). */
  lemma HasKeyAppend<K, R>(rows: seq<R>, key: R -> K, x: R, k: K)
    ensures HasKey(rows + [x], key, k) <==> HasKey(rows, key, k) || key(x) == k
  {
    assert Keys(rows + [x], key) == Keys(rows, key) + [key(x)];
  }
}
