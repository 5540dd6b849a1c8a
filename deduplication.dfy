/**
 * `drop_duplicates` on one key column with pandas' default `keep='first'`:
 * a row is dropped exactly when an earlier row has the same key.
 */
module Deduplication {

  /** The key values present in `rows`. */
  function Keys<R, K(==)>(rows: seq<R>, key: R -> K): set<K> {
    set i | 0 <= i < |rows| :: key(rows[i])
  }

  /** No two rows share a key. */
  predicate DistinctKeys<R, K(==)>(rows: seq<R>, key: R -> K) {
    forall i, j :: 0 <= i < j < |rows| ==> key(rows[i]) != key(rows[j])
  }

  /** Row `i` is the first row with its key. */
  predicate IsFirst<R, K(==)>(rows: seq<R>, key: R -> K, i: nat)
    requires i < |rows|
  {
    forall j :: 0 <= j < i ==> key(rows[j]) != key(rows[i])
  }

  lemma KeysSnoc<R, K>(rows: seq<R>, key: R -> K)
    requires rows != []
    ensures Keys(rows, key) == Keys(rows[..|rows| - 1], key) + {key(rows[|rows| - 1])}
  {
    var n := |rows| - 1;
    forall x | x in Keys(rows, key) ensures x in Keys(rows[..n], key) + {key(rows[n])} {
      var i :| 0 <= i < |rows| && key(rows[i]) == x;
      if i < n {
        assert rows[..n][i] == rows[i];
      }
    }
    forall x | x in Keys(rows[..n], key) ensures x in Keys(rows, key) {
      var i :| 0 <= i < n && key(rows[..n][i]) == x;
      assert rows[i] == rows[..n][i];
    }
  }

  /** remove_duplicates: the rows whose key no earlier row has, in order. */
  function RemoveDuplicates<R, K(==)>(rows: seq<R>, key: R -> K): (out: seq<R>)
    ensures |out| <= |rows|
    decreases |rows|
  {
    if rows == [] then []
    else
      var n := |rows| - 1;
      RemoveDuplicates(rows[..n], key) + (if key(rows[n]) in Keys(rows[..n], key) then [] else [rows[n]])
  }

  /**
   * The result has no two rows with the same key, keeps every key of the
   * input, has one row per distinct key, and holds only input rows.
   */
  lemma {:induction false} RemoveDuplicatesSpec<R, K>(rows: seq<R>, key: R -> K)
    ensures var out := RemoveDuplicates(rows, key);
            && DistinctKeys(out, key)
            && Keys(out, key) == Keys(rows, key)
            && |out| == |Keys(rows, key)|
            && forall k :: 0 <= k < |out| ==> out[k] in rows
    decreases |rows|
  {
    if rows != [] {
      var n := |rows| - 1;
      var kept := RemoveDuplicates(rows[..n], key);
      RemoveDuplicatesSpec(rows[..n], key);
      KeysSnoc(rows, key);
      var out := RemoveDuplicates(rows, key);
      if key(rows[n]) !in Keys(rows[..n], key) {
        assert out == kept + [rows[n]];
        AppendNewKey(kept, rows[n], key);
      } else {
        assert out == kept;
      }
      forall k | 0 <= k < |out| ensures out[k] in rows {
        if k < |kept| {
          assert kept[k] in rows[..n];
        }
      }
    }
  }

  /** Appending a row whose key is new keeps the keys distinct and adds that one key. */
  lemma AppendNewKey<R, K>(rows: seq<R>, x: R, key: R -> K)
    requires DistinctKeys(rows, key) && key(x) !in Keys(rows, key)
    ensures DistinctKeys(rows + [x], key)
    ensures Keys(rows + [x], key) == Keys(rows, key) + {key(x)}
  {
    var s := rows + [x];
    KeysSnoc(s, key);
    assert s[..|rows|] == rows;
    forall i, j | 0 <= i < j < |s| ensures key(s[i]) != key(s[j]) {
      if j == |rows| {
        assert key(rows[i]) in Keys(rows, key);
      } else {
        assert s[i] == rows[i] && s[j] == rows[j];
      }
    }
  }

  /** Every kept row is the first row of the input with its key. */
  lemma {:induction false} KeepsFirstOccurrence<R, K>(rows: seq<R>, key: R -> K, k: nat)
    requires k < |RemoveDuplicates(rows, key)|
    ensures exists i :: 0 <= i < |rows| && rows[i] == RemoveDuplicates(rows, key)[k] && IsFirst(rows, key, i)
    decreases |rows|
  {
    var n := |rows| - 1;
    var kept := RemoveDuplicates(rows[..n], key);
    if k < |kept| {
      KeepsFirstOccurrence(rows[..n], key, k);
      var i :| 0 <= i < n && rows[..n][i] == kept[k] && IsFirst(rows[..n], key, i);
      assert rows[i] == rows[..n][i];
      assert IsFirst(rows, key, i);
    } else {
      assert key(rows[n]) !in Keys(rows[..n], key);
      forall j | 0 <= j < n ensures key(rows[j]) != key(rows[n]) {
        assert key(rows[..n][j]) in Keys(rows[..n], key);
      }
    }
  }

  /** The last input row adds at most itself at the end of the output. */
  lemma LastRowOnly<R, K>(rows: seq<R>, key: R -> K)
    requires rows != []
    ensures var prev := RemoveDuplicates(rows[..|rows| - 1], key);
            var out := RemoveDuplicates(rows, key);
            |prev| <= |out| && out[..|prev|] == prev
  {
  }

  lemma PrefixOfPrefix<T>(a: seq<T>, b: seq<T>, c: seq<T>)
    requires |a| <= |b| <= |c| && b[..|a|] == a && c[..|b|] == b
    ensures c[..|a|] == a
  {
    assert c[..|a|] == c[..|b|][..|a|];
  }

  /** Deduplicating a prefix gives a prefix of the deduplicated rows, so the output keeps the input order. */
  lemma {:induction false} PrefixKeepsOrder<R, K>(rows: seq<R>, key: R -> K, m: nat)
    requires m <= |rows|
    ensures var p := RemoveDuplicates(rows[..m], key);
            var out := RemoveDuplicates(rows, key);
            |p| <= |out| && out[..|p|] == p
    decreases |rows|
  {
    if m < |rows| {
      var n := |rows| - 1;
      assert rows[..n][..m] == rows[..m];
      PrefixKeepsOrder(rows[..n], key, m);
      LastRowOnly(rows, key);
      PrefixOfPrefix(RemoveDuplicates(rows[..m], key), RemoveDuplicates(rows[..n], key), RemoveDuplicates(rows, key));
    } else {
      assert rows[..m] == rows;
    }
  }

  /** An input without duplicate keys is returned with the same rows. */
  lemma {:induction false} DistinctUnchanged<R, K>(rows: seq<R>, key: R -> K)
    requires DistinctKeys(rows, key)
    ensures RemoveDuplicates(rows, key) == rows
    decreases |rows|
  {
    if rows != [] {
      var n := |rows| - 1;
      DistinctUnchanged(rows[..n], key);
      assert rows[..n] + [rows[n]] == rows;
    }
  }

  /** Deduplicating twice is deduplicating once. */
  lemma RemoveDuplicatesIdempotent<R, K>(rows: seq<R>, key: R -> K)
    ensures RemoveDuplicates(RemoveDuplicates(rows, key), key) == RemoveDuplicates(rows, key)
  {
    RemoveDuplicatesSpec(rows, key);
    DistinctUnchanged(RemoveDuplicates(rows, key), key);
  }
}
