/**
 * Text segmentation: sentence mode defers to a sentence splitter, fixed mode
 * joins consecutive windows of tokens, and any other mode keeps the text
 * whole.  `segment_dataframe` then gives every segment a row of its own.
 * The sentence splitter and the tokenizer are external collaborators and
 * enter the model as functions.
 */
module Segmentation {
  import opened Wrappers
  import opened Words

  /** The default `fixed_token_length` of `segment_text`. */
  const DEFAULT_FIXED_TOKEN_LENGTH: int := 100

  /** `range(0, len(tokens), 0)` raises ValueError. */
  datatype SegmentError = ZeroStep

  function Min(a: int, b: int): int {
    if a <= b then a else b
  }

  /**
   * The token windows `tokens[i:i + n]` for `i` in `range(start, len(tokens), n)`,
   * each slice clipped at the end of the list.
   */
  function Windows<T>(xs: seq<T>, n: nat, start: nat): (ws: seq<seq<T>>)
    requires n > 0 && start <= |xs|
    ensures |ws| <= |xs| - start
    decreases |xs| - start
  {
    if start == |xs| then []
    else
      var stop := Min(start + n, |xs|);
      [xs[start..stop]] + Windows(xs, n, stop)
  }

  /**
   * There are ceil((|xs| - start) / n) windows; every window but the last
   * holds exactly `n` items and the last holds between 1 and `n`.
   */
  lemma {:induction false} WindowsShape<T>(xs: seq<T>, n: nat, start: nat)
    requires n > 0 && start <= |xs|
    ensures var ws := Windows(xs, n, start);
      && |ws| == (|xs| - start + n - 1) / n
      && (forall k :: 0 <= k < |ws| - 1 ==> |ws[k]| == n)
      && (|ws| > 0 ==> 0 < |ws[|ws| - 1]| <= n)
    decreases |xs| - start
  {
    if start < |xs| {
      var stop := Min(start + n, |xs|);
      WindowsShape(xs, n, stop);
      CeilStep(|xs| - start, n);
      var ws := Windows(xs, n, start);
      assert ws == [xs[start..stop]] + Windows(xs, n, stop);
    } else {
      assert (n - 1) / n == 0 by {
        DivUnique(n - 1, n, 0, n - 1);
      }
    }
  }

  /** Taking one window of `n` off `m` items takes one off the number of windows. */
  lemma CeilStep(m: nat, n: nat)
    requires n > 0 && m > 0
    ensures m <= n ==> (m + n - 1) / n == 1
    ensures m > n ==> (m + n - 1) / n == (m - n + n - 1) / n + 1
  {
    if m <= n {
      DivUnique(m + n - 1, n, 1, m - 1);
    } else {
      var a := m - n + n - 1;
      var q, r := a / n, a % n;
      DivUnique(a + n, n, q + 1, r);
    }
  }

  /** Integer division is determined by any quotient-remainder pair. */
  lemma DivUnique(a: int, n: int, q: int, r: int)
    requires n > 0 && 0 <= r < n && a == q * n + r
    ensures a / n == q
  {
    var q', r' := a / n, a % n;
    assert (q' - q) * n == r - r';
    if q' > q {
      MulAtLeast(q' - q, n);
    } else if q' < q {
      MulAtLeast(q - q', n);
    }
  }

  lemma MulAtLeast(d: int, n: int)
    requires d >= 1 && n > 0
    ensures d * n >= n
  {
  }

  /** The concatenation of a list of lists. */
  function Flatten<T>(ws: seq<seq<T>>): seq<T> {
    if ws == [] then [] else ws[0] + Flatten(ws[1..])
  }

  /** Concatenating the windows in order gives back the tokens they were cut from. */
  lemma {:induction false} FlattenWindows<T>(xs: seq<T>, n: nat, start: nat)
    requires n > 0 && start <= |xs|
    ensures Flatten(Windows(xs, n, start)) == xs[start..]
    decreases |xs| - start
  {
    if start < |xs| {
      var stop := Min(start + n, |xs|);
      FlattenWindows(xs, n, stop);
      assert Windows(xs, n, start)[1..] == Windows(xs, n, stop);
      assert xs[start..stop] + xs[stop..] == xs[start..];
    }
  }

  /**
   * segment_text: sentence mode returns the sentence splitter's output;
   * fixed mode returns one single-spaced segment per window of `n` tokens;
   * every other mode returns the text as its only segment.
   */
  function SegmentText(
    text: string,
    mode: string := "sentence",
    n: int := DEFAULT_FIXED_TOKEN_LENGTH,
    sentTokenize: string -> seq<string>,
    tokenize: string -> seq<string>
  ): (r: Result<seq<string>, SegmentError>)
    ensures mode == "sentence" ==> r == Ok(sentTokenize(text))
    ensures mode != "sentence" && mode != "fixed" ==> r == Ok([text])
    ensures mode == "fixed" ==> (r.Err? <==> n == 0)
    ensures mode == "fixed" && n < 0 ==> r == Ok([])
    ensures mode == "fixed" && n > 0 ==>
      var tokens := tokenize(text);
      && r.Ok?
      && |r.value| == (|tokens| + n - 1) / n
      && (tokens == [] <==> r.value == [])
  {
    if mode == "sentence" then Ok(sentTokenize(text))
    else if mode == "fixed" then
      if n == 0 then Err(ZeroStep)
      else if n < 0 then Ok([])
      else
        var tokens := tokenize(text);
        var windows := Windows(tokens, n, 0);
        WindowsShape(tokens, n, 0);
        Ok(seq(|windows|, k requires 0 <= k < |windows| => Join(windows[k])))
    else Ok([text])
  }

  /**
   * With whitespace-free tokens, fixed mode loses nothing: each segment
   * splits back into its window, every window but the last holds `n`
   * tokens, and the windows in order are the token list.
   */
  lemma FixedSegmentsRoundTrip(
    text: string,
    n: int,
    sentTokenize: string -> seq<string>,
    tokenize: string -> seq<string>
  )
    requires n > 0 && AllWords(tokenize(text))
    ensures var segs := SegmentText(text, "fixed", n, sentTokenize, tokenize).value;
            var windows := Windows(tokenize(text), n, 0);
            && |segs| == |windows|
            && (forall k :: 0 <= k < |segs| ==> segs[k] == Join(windows[k]))
            && (forall k :: 0 <= k < |segs| ==> Split(segs[k]) == windows[k])
            && (forall k :: 0 <= k < |segs| - 1 ==> |Split(segs[k])| == n)
            && Flatten(windows) == tokenize(text)
  {
    var tokens := tokenize(text);
    var windows := Windows(tokens, n, 0);
    forall k | 0 <= k < |windows|
      ensures Split(Join(windows[k])) == windows[k]
    {
      WindowRoundTrip(tokens, n, k);
    }
    WindowsShape(tokens, n, 0);
    FlattenWindows(tokens, n, 0);
    assert tokens[0..] == tokens;
  }

  /** A window of whitespace-free tokens, joined with spaces, splits back into the window. */
  lemma WindowRoundTrip(tokens: seq<string>, n: nat, k: nat)
    requires n > 0 && AllWords(tokens) && k < |Windows(tokens, n, 0)|
    ensures Split(Join(Windows(tokens, n, 0)[k])) == Windows(tokens, n, 0)[k]
  {
    WindowsAreSlices(tokens, n, 0, k);
    var w := Windows(tokens, n, 0)[k];
    var i, j :| 0 <= i <= j <= |tokens| && w == tokens[i..j];
    forall m | 0 <= m < |w| ensures IsWord(w[m]) {
      assert w[m] == tokens[i + m];
    }
    SplitJoin(w);
  }

  /** Every window is a contiguous slice of the tokens. */
  lemma {:induction false} WindowsAreSlices<T>(xs: seq<T>, n: nat, start: nat, k: nat)
    requires n > 0 && start <= |xs| && k < |Windows(xs, n, start)|
    ensures exists i, j :: start <= i <= j <= |xs| && Windows(xs, n, start)[k] == xs[i..j]
    decreases |xs| - start
  {
    var stop := Min(start + n, |xs|);
    if k == 0 {
      assert Windows(xs, n, start)[0] == xs[start..stop];
    } else {
      assert Windows(xs, n, start)[k] == Windows(xs, n, stop)[k - 1];
      WindowsAreSlices(xs, n, stop, k - 1);
    }
  }

  /** One row of the exploded frame: the source row and the segment it carries (missing for no segments). */
  datatype Exploded<R> = Exploded(source: R, segment: Option<string>)

  /** The rows `explode` makes from one source row: one per segment, or one with a missing value. */
  function ExplodeRow<R>(row: R, segments: seq<string>): (out: seq<Exploded<R>>)
    ensures segments == [] ==> out == [Exploded(row, None)]
    ensures segments != [] ==>
      && |out| == |segments|
      && forall k :: 0 <= k < |out| ==> out[k] == Exploded(row, Some(segments[k]))
  {
    if segments == [] then [Exploded(row, None)]
    else seq(|segments|, k requires 0 <= k < |segments| => Exploded(row, Some(segments[k])))
  }

  /**
   * segment_dataframe: every row's text is segmented with the given mode
   * and the default token length, and the segment lists are exploded into
   * rows, in order.
   */
  function SegmentDataframe<R>(
    rows: seq<R>,
    text: R -> string,
    mode: string := "sentence",
    sentTokenize: string -> seq<string>,
    tokenize: string -> seq<string>
  ): (out: seq<Exploded<R>>)
    ensures |out| >= |rows|
    ensures forall k :: 0 <= k < |out| ==> out[k].source in rows
  {
    if rows == [] then []
    else
      var segments := SegmentText(text(rows[0]), mode, DEFAULT_FIXED_TOKEN_LENGTH, sentTokenize, tokenize).value;
      ExplodeRow(rows[0], segments) + SegmentDataframe(rows[1..], text, mode, sentTokenize, tokenize)
  }

  /** Exploding a concatenation of frames gives the concatenation of the exploded frames, so row order is kept. */
  lemma {:induction false} SegmentDataframeAppend<R>(
    a: seq<R>, b: seq<R>,
    text: R -> string, mode: string,
    sentTokenize: string -> seq<string>, tokenize: string -> seq<string>
  )
    ensures SegmentDataframe(a + b, text, mode, sentTokenize, tokenize)
         == SegmentDataframe(a, text, mode, sentTokenize, tokenize) + SegmentDataframe(b, text, mode, sentTokenize, tokenize)
  {
    if a == [] {
      assert a + b == b;
    } else {
      assert (a + b)[0] == a[0];
      assert (a + b)[1..] == a[1..] + b;
      SegmentDataframeAppend(a[1..], b, text, mode, sentTokenize, tokenize);
    }
  }

  /** With a mode that keeps texts whole, every row becomes exactly one row carrying its own text. */
  lemma {:induction false} SegmentDataframeWhole<R>(
    rows: seq<R>, text: R -> string, mode: string,
    sentTokenize: string -> seq<string>, tokenize: string -> seq<string>
  )
    requires mode != "sentence" && mode != "fixed"
    ensures var out := SegmentDataframe(rows, text, mode, sentTokenize, tokenize);
            |out| == |rows| && forall k :: 0 <= k < |rows| ==> out[k] == Exploded(rows[k], Some(text(rows[k])))
  {
    if rows != [] {
      var t := text(rows[0]);
      var head := Exploded(rows[0], Some(t));
      var rest := SegmentDataframe(rows[1..], text, mode, sentTokenize, tokenize);
      SegmentDataframeWhole(rows[1..], text, mode, sentTokenize, tokenize);
      assert SegmentText(t, mode, DEFAULT_FIXED_TOKEN_LENGTH, sentTokenize, tokenize).value == [t];
      assert ExplodeRow(rows[0], [t]) == [head];
      var out := SegmentDataframe(rows, text, mode, sentTokenize, tokenize);
      assert out == [head] + rest;
      forall k | 0 <= k < |rows| ensures out[k] == Exploded(rows[k], Some(text(rows[k]))) {
        if k > 0 {
          assert out[k] == rest[k - 1];
          assert rows[k] == rows[1..][k - 1];
        }
      }
    }
  }
}
