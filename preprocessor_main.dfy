/**
 * The two sequence steps of the preprocessing driver that are not library
 * calls: capping the dataset by a cumulative UTF-8 byte budget, and
 * truncating the segmented rows to a row limit.  Both copies of the driver
 * share `cap_dataset_by_bytes`; they differ in the default row limit.
 */
module PreprocessorMain {
  import opened Wrappers

  /** `DEFAULT_MAX_BYTES`: 25 GiB. */
  const DEFAULT_MAX_BYTES: int := 25 * 1024 * 1024 * 1024

  /** The `--segment-limit` default of the driver that simulates contamination. */
  const DEFAULT_SEGMENT_LIMIT: Option<int> := Some(3414)

  /** The `--segment-limit` default of the driver without contamination. */
  const PLAIN_DEFAULT_SEGMENT_LIMIT: Option<int> := None

  /** The number of bytes UTF-8 uses for one scalar value (RFC 3629, section 3). */
  function Utf8Width(c: char): (n: nat)
    ensures 1 <= n <= 4
    ensures n == 1 <==> c <= '\U{7F}'
  {
    if c <= '\U{7F}' then 1
    else if c <= '\U{7FF}' then 2
    else if c <= '\U{FFFF}' then 3
    else 4
  }

  /** `len(s.encode('utf-8'))`. */
  function Utf8Length(s: string): (n: nat)
    ensures |s| <= n <= 4 * |s|
  {
    if s == [] then 0 else Utf8Width(s[0]) + Utf8Length(s[1..])
  }

  /** The `cum_size` of the last of `rows`: the byte total of all of them. */
  function TotalBytes<R>(rows: seq<R>, text: R -> string): (n: nat) {
    if rows == [] then 0
    else TotalBytes(rows[..|rows| - 1], text) + Utf8Length(text(rows[|rows| - 1]))
  }

  /** Row `i` is kept exactly when the cumulative size through it is within the budget. */
  function KeptByCumSize<R>(rows: seq<R>, text: R -> string, maxBytes: int): (kept: seq<R>)
    ensures |kept| <= |rows|
  {
    if rows == [] then []
    else
      var n := |rows| - 1;
      KeptByCumSize(rows[..n], text, maxBytes) + (if TotalBytes(rows, text) <= maxBytes then [rows[n]] else [])
  }

  /** Sizes are never negative, so the cumulative size never decreases along the rows. */
  lemma {:induction false} TotalBytesMonotone<R>(rows: seq<R>, text: R -> string, i: nat, j: nat)
    requires i <= j <= |rows|
    ensures TotalBytes(rows[..i], text) <= TotalBytes(rows[..j], text)
    decreases j - i
  {
    if i < j {
      TotalBytesMonotone(rows, text, i, j - 1);
      assert rows[..j][..j - 1] == rows[..j - 1];
    }
  }

  /** When the whole dataset fits the budget, no row is dropped. */
  lemma {:induction false} KeptAllWithinBudget<R>(rows: seq<R>, text: R -> string, maxBytes: int)
    requires TotalBytes(rows, text) <= maxBytes
    ensures KeptByCumSize(rows, text, maxBytes) == rows
    decreases |rows|
  {
    if rows != [] {
      var n := |rows| - 1;
      assert rows[..n + 1] == rows;
      TotalBytesMonotone(rows, text, n, n + 1);
      KeptAllWithinBudget(rows[..n], text, maxBytes);
      assert rows[..n] + [rows[n]] == rows;
    }
  }

  /** Under the driver's default `--max-bytes` of 25 GiB, a corpus of at most that many bytes is kept whole. */
  lemma DefaultBudgetKeepsSmallCorpus<R>(rows: seq<R>, text: R -> string)
    requires TotalBytes(rows, text) <= DEFAULT_MAX_BYTES
    ensures KeptByCumSize(rows, text, DEFAULT_MAX_BYTES) == rows
  {
    KeptAllWithinBudget(rows, text, DEFAULT_MAX_BYTES);
  }

  /**
   * The rows the cumulative filter keeps are a prefix of the input, within
   * the budget (when there are any), and maximal: either all rows are kept
   * or the next one would take the cumulative size over the budget.
   */
  lemma {:induction false} KeptIsMaximalPrefix<R>(rows: seq<R>, text: R -> string, maxBytes: int)
    ensures var kept := KeptByCumSize(rows, text, maxBytes);
            && |kept| <= |rows| && kept == rows[..|kept|]
            && (kept == [] || TotalBytes(kept, text) <= maxBytes)
            && (|kept| == |rows| || TotalBytes(rows[..|kept| + 1], text) > maxBytes)
    decreases |rows|
  {
    if rows == [] {
    } else if TotalBytes(rows, text) <= maxBytes {
      KeptAllWithinBudget(rows, text, maxBytes);
      assert rows[..|rows|] == rows;
    } else {
      var n := |rows| - 1;
      var prefix := rows[..n];
      var kept := KeptByCumSize(prefix, text, maxBytes);
      assert KeptByCumSize(rows, text, maxBytes) == kept by {
        assert kept + [] == kept;
      }
      KeptIsMaximalPrefix(prefix, text, maxBytes);
      var m := |kept|;
      assert prefix[..m] == rows[..m];
      if m == n {
        assert rows[..m + 1] == rows;
      } else {
        assert prefix[..m + 1] == rows[..m + 1];
      }
    }
  }

  /**
   * cap_dataset_by_bytes: the rows whose cumulative UTF-8 size is at most
   * `maxBytes`, which are a maximal prefix of the input within the budget.
   */
  method CapDatasetByBytes<R>(rows: seq<R>, text: R -> string, maxBytes: int) returns (capped: seq<R>)
    ensures capped == KeptByCumSize(rows, text, maxBytes)
    ensures |capped| <= |rows| && capped == rows[..|capped|]
    ensures capped == [] || TotalBytes(capped, text) <= maxBytes
    ensures |capped| == |rows| || TotalBytes(rows[..|capped| + 1], text) > maxBytes
    ensures rows != [] && Utf8Length(text(rows[0])) > maxBytes ==> capped == []
  {
    capped := [];
    var cumSize := 0;
    for i := 0 to |rows|
      invariant cumSize == TotalBytes(rows[..i], text)
      invariant capped == KeptByCumSize(rows[..i], text, maxBytes)
    {
      assert rows[..i + 1][..i] == rows[..i];
      cumSize := cumSize + Utf8Length(text(rows[i]));
      if cumSize <= maxBytes {
        capped := capped + [rows[i]];
      }
    }
    assert rows[..|rows|] == rows;
    KeptIsMaximalPrefix(rows, text, maxBytes);
    FirstRowOverBudget(rows, text, maxBytes);
  }

  /** A first row that alone exceeds the budget leaves nothing: no later cumulative size is smaller. */
  lemma FirstRowOverBudget<R>(rows: seq<R>, text: R -> string, maxBytes: int)
    ensures rows != [] && Utf8Length(text(rows[0])) > maxBytes ==> KeptByCumSize(rows, text, maxBytes) == []
  {
    var kept := KeptByCumSize(rows, text, maxBytes);
    if rows != [] && Utf8Length(text(rows[0])) > maxBytes && kept != [] {
      KeptIsMaximalPrefix(rows, text, maxBytes);
      assert rows[..1] == [rows[0]];
      assert TotalBytes(rows[..1], text) > maxBytes by {
        assert rows[..1][..0] == [];
      }
      TotalBytesMonotone(rows, text, 1, |kept|);
      assert false;
    }
  }

  /**
   * The row-limit step: a truthy limit keeps `rows.iloc[:limit]` (the first
   * `limit` rows, or all but the last `-limit` rows for a negative limit);
   * a missing or zero limit keeps every row.
   */
  function ApplySegmentLimit<R>(rows: seq<R>, limit: Option<int>): (out: seq<R>)
    ensures |out| <= |rows| && out == rows[..|out|]
    ensures limit == None || limit == Some(0) ==> out == rows
    ensures limit.Some? && limit.value > 0 ==>
      |out| == if limit.value < |rows| then limit.value else |rows|
    ensures limit.Some? && limit.value < 0 ==>
      |out| == if |rows| + limit.value > 0 then |rows| + limit.value else 0
  {
    match limit
    case None => rows
    case Some(l) =>
      if l == 0 then rows
      else if l > 0 then (if l < |rows| then rows[..l] else rows)
      else (if |rows| + l > 0 then rows[..|rows| + l] else [])
  }

  /** A non-negative limit applied twice keeps the same rows as applied once. */
  lemma SegmentLimitIdempotent<R>(rows: seq<R>, limit: Option<int>)
    requires limit.None? || limit.value >= 0
    ensures ApplySegmentLimit(ApplySegmentLimit(rows, limit), limit) == ApplySegmentLimit(rows, limit)
  {
  }

  /** A negative limit is not idempotent: each application drops more rows. */
  lemma NegativeLimitShrinks<R>(rows: seq<R>, l: int)
    requires l < 0 && |rows| > 0
    ensures |ApplySegmentLimit(ApplySegmentLimit(rows, Some(l)), Some(l))| < |ApplySegmentLimit(rows, Some(l))|
            || ApplySegmentLimit(rows, Some(l)) == []
  {
  }

  /** With the contamination driver's default, at most 3414 rows remain. */
  lemma DefaultSegmentLimit<R>(rows: seq<R>)
    ensures var out := ApplySegmentLimit(rows, DEFAULT_SEGMENT_LIMIT);
            |out| == (if |rows| < 3414 then |rows| else 3414) && out == rows[..|out|]
  {
  }

  /** With the plain driver's default, every row remains. */
  lemma PlainDefaultSegmentLimit<R>(rows: seq<R>)
    ensures ApplySegmentLimit(rows, PLAIN_DEFAULT_SEGMENT_LIMIT) == rows
  {
  }

  /** The byte length of a text is additive over concatenation. */
  lemma {:induction false} Utf8LengthAppend(a: string, b: string)
    ensures Utf8Length(a + b) == Utf8Length(a) + Utf8Length(b)
  {
    if a == [] {
      assert a + b == b;
    } else {
      assert (a + b)[1..] == a[1..] + b;
      Utf8LengthAppend(a[1..], b);
    }
  }

  /** An ASCII text takes one byte per character. */
  lemma {:induction false} Utf8LengthAscii(s: string)
    requires forall k :: 0 <= k < |s| ==> s[k] <= '\U{7F}'
    ensures Utf8Length(s) == |s|
  {
    if s != [] {
      Utf8LengthAscii(s[1..]);
    }
  }
}
