/**
 * Generic facts about a table held as a sequence of rows, where a column is
 * given by a key function. `Find` is the lookup behind `FindAsync`,
 * `AnyAsync` and `SingleOrDefaultAsync`; `Without` removes every row whose
 * column has a given value, which is what removing a row by its primary key
 * and a cascade delete over a foreign key both do.
 */
module Tables {
  import opened Wrappers

  /** Some row has `k` in the column `key`. */
  predicate Has<T, K(==)>(rows: seq<T>, key: T -> K, k: K) {
    exists i :: 0 <= i < |rows| && key(rows[i]) == k
  }

  /** No two rows share a value of the column `key`. */
  predicate UniqueKeys<T, K(==)>(rows: seq<T>, key: T -> K) {
    forall i, j :: 0 <= i < j < |rows| ==> key(rows[i]) != key(rows[j])
  }

  /** Every value of the column `key` is below `bound`. */
  predicate KeysBelow<T>(rows: seq<T>, key: T -> int, bound: int) {
    forall i :: 0 <= i < |rows| ==> key(rows[i]) < bound
  }

  /** The position of the first row with `k` in the column `key`, if any. */
  function Find<T, K(==)>(rows: seq<T>, key: T -> K, k: K): (r: Option<nat>)
    ensures r.None? <==> !Has(rows, key, k)
    ensures r.Some? ==> r.value < |rows| && key(rows[r.value]) == k
    ensures r.Some? ==> forall i :: 0 <= i < r.value ==> key(rows[i]) != k
  {
    if rows == [] then None
    else if key(rows[0]) == k then Some(0)
    else
      match Find(rows[1..], key, k)
      case None =>
        assert forall i :: 1 <= i < |rows| ==> rows[i] == rows[1..][i - 1];
        None
      case Some(i) => Some(i + 1)
  }

  /** The rows whose column `key` is not `k`, in their original order. */
  function Without<T(==), K(==)>(rows: seq<T>, key: T -> K, k: K): (r: seq<T>)
    ensures |r| <= |rows|
    ensures forall x | x in r :: x in rows && key(x) != k
    ensures forall x | x in rows && key(x) != k :: x in r
    ensures !Has(rows, key, k) ==> r == rows
  {
    if rows == [] then []
    else
      assert rows == [rows[0]] + rows[1..];
      assert !Has(rows, key, k) ==> !Has(rows[1..], key, k) by {
        if Has(rows[1..], key, k) {
          var i :| 0 <= i < |rows[1..]| && key(rows[1..][i]) == k;
          assert key(rows[i + 1]) == k;
        }
      }
      if key(rows[0]) == k then Without(rows[1..], key, k)
      else [rows[0]] + Without(rows[1..], key, k)
  }

  /**
   * `Without` keeps the order of the rows it keeps: filtering a concatenation
   * is concatenating the filtered parts.
   */
  lemma {:induction false} WithoutAppend<T, K>(a: seq<T>, b: seq<T>, key: T -> K, k: K)
    ensures Without(a + b, key, k) == Without(a, key, k) + Without(b, key, k)
  {
    if a != [] {
      assert (a + b)[1..] == a[1..] + b;
      WithoutAppend(a[1..], b, key, k);
    } else {
      assert a + b == b;
    }
  }

  /** `Without` keeps every copy of a kept row and no copy of a removed one. */
  lemma {:induction false} WithoutCounts<T, K>(rows: seq<T>, key: T -> K, k: K, x: T)
    ensures multiset(Without(rows, key, k))[x] == if key(x) != k then multiset(rows)[x] else 0
  {
    if rows != [] {
      assert rows == [rows[0]] + rows[1..];
      WithoutCounts(rows[1..], key, k, x);
    }
  }

  /** Removing rows keeps every key below a bound that held before. */
  lemma WithoutKeepsBelow<T, K>(rows: seq<T>, key: T -> K, k: K, id: T -> int, bound: int)
    requires KeysBelow(rows, id, bound)
    ensures KeysBelow(Without(rows, key, k), id, bound)
  {
  }

  /** In a table with unique keys the row `Find` reaches is the only one with that key. */
  lemma FindUnique<T, K>(rows: seq<T>, key: T -> K, j: nat)
    requires UniqueKeys(rows, key)
    requires j < |rows|
    ensures Find(rows, key, key(rows[j])) == Some(j)
  {
  }

  /** With unique keys, `Without` on the key column removes exactly the row `Find` reaches. */
  lemma {:induction false} WithoutRemovesOne<T, K>(rows: seq<T>, key: T -> K, j: nat)
    requires UniqueKeys(rows, key)
    requires j < |rows|
    ensures Without(rows, key, key(rows[j])) == rows[..j] + rows[j + 1..]
  {
    TailUnique(rows, key);
    if j == 0 {
      WithoutAbsent(rows[1..], key, key(rows[0]));
    } else {
      WithoutRemovesOne(rows[1..], key, j - 1);
      WithoutStep(rows, key, j);
    }
  }

  lemma TailUnique<T, K>(rows: seq<T>, key: T -> K)
    requires UniqueKeys(rows, key)
    requires rows != []
    ensures UniqueKeys(rows[1..], key)
    ensures forall i :: 0 <= i < |rows| - 1 ==> key(rows[1..][i]) != key(rows[0])
  {
  }

  lemma WithoutAbsent<T, K>(rows: seq<T>, key: T -> K, k: K)
    requires forall i :: 0 <= i < |rows| ==> key(rows[i]) != k
    ensures Without(rows, key, k) == rows
  {
  }

  lemma WithoutStep<T, K>(rows: seq<T>, key: T -> K, j: nat)
    requires 0 < j < |rows|
    requires key(rows[0]) != key(rows[j])
    requires Without(rows[1..], key, key(rows[1..][j - 1])) == rows[1..][..j - 1] + rows[1..][j..]
    ensures Without(rows, key, key(rows[j])) == rows[..j] + rows[j + 1..]
  {
  }

  /** Removing rows never introduces a repeated key, in any column. */
  lemma {:induction false} WithoutKeepsUnique<T, K, K2>(rows: seq<T>, key: T -> K, k: K, other: T -> K2)
    requires UniqueKeys(rows, other)
    ensures UniqueKeys(Without(rows, key, k), other)
  {
    if rows != [] {
      var tail := rows[1..];
      assert UniqueKeys(tail, other) by {
        forall a, b | 0 <= a < b < |tail| ensures other(tail[a]) != other(tail[b]) {
          assert tail[a] == rows[a + 1] && tail[b] == rows[b + 1];
        }
      }
      WithoutKeepsUnique(tail, key, k, other);
      if key(rows[0]) != k {
        var w := Without(tail, key, k);
        var r := [rows[0]] + w;
        forall a, b | 0 <= a < b < |r| ensures other(r[a]) != other(r[b]) {
          if a == 0 {
            assert r[b] == w[b - 1];
            assert w[b - 1] in tail;
            var i :| 0 <= i < |tail| && tail[i] == w[b - 1];
            assert tail[i] == rows[i + 1];
          } else {
            assert r[a] == w[a - 1] && r[b] == w[b - 1];
          }
        }
      }
    }
  }

  /** Appending a row with a new key keeps the keys unique. */
  lemma UniqueAppend<T, K>(rows: seq<T>, key: T -> K, x: T)
    requires UniqueKeys(rows, key)
    requires !Has(rows, key, key(x))
    ensures UniqueKeys(rows + [x], key)
  {
  }

  /**
   * Replacing row `i` of a table with unique keys keeps the keys unique exactly
   * when no other row already has the new row's key.
   */
  lemma UniqueReplace<T, K>(rows: seq<T>, key: T -> K, i: nat, x: T)
    requires UniqueKeys(rows, key)
    requires i < |rows|
    ensures UniqueKeys(rows[i := x], key) <==>
            forall j :: 0 <= j < |rows| && j != i ==> key(rows[j]) != key(x)
  {
    var r := rows[i := x];
    if forall j :: 0 <= j < |rows| && j != i ==> key(rows[j]) != key(x) {
      forall a, b | 0 <= a < b < |r| ensures key(r[a]) != key(r[b]) {
      }
    } else {
      var j :| 0 <= j < |rows| && j != i && key(rows[j]) == key(x);
      if j < i {
        assert key(r[j]) == key(r[i]);
      } else {
        assert key(r[i]) == key(r[j]);
      }
    }
  }

  /** A key present before an append is present after it. */
  lemma HasAppend<T, K>(rows: seq<T>, key: T -> K, x: T, k: K)
    ensures Has(rows + [x], key, k) <==> Has(rows, key, k) || key(x) == k
  {
    if Has(rows, key, k) {
      var i :| 0 <= i < |rows| && key(rows[i]) == k;
      assert (rows + [x])[i] == rows[i];
    }
    if key(x) == k {
      assert (rows + [x])[|rows|] == x;
    }
    if Has(rows + [x], key, k) {
      var i :| 0 <= i < |rows + [x]| && key((rows + [x])[i]) == k;
      if i < |rows| {
        assert (rows + [x])[i] == rows[i];
      }
    }
  }

  /** Replacing a row by one with the same key leaves the set of present keys as it was. */
  lemma HasReplaceSameKey<T, K>(rows: seq<T>, key: T -> K, i: nat, x: T, k: K)
    requires i < |rows|
    requires key(x) == key(rows[i])
    ensures Has(rows[i := x], key, k) <==> Has(rows, key, k)
  {
    if Has(rows, key, k) {
      var j :| 0 <= j < |rows| && key(rows[j]) == k;
      assert key(rows[i := x][j]) == k;
    }
    if Has(rows[i := x], key, k) {
      var j :| 0 <= j < |rows| && key(rows[i := x][j]) == k;
      assert key(rows[j]) == k;
    }
  }

}
