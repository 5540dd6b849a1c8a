/**
 * The word-order perturbation of the PaCoST contamination detector: split a
 * text on whitespace, shuffle the words in place and join them with single
 * spaces.  The shuffle's random choices are nondeterministic.
 */
module Pacost {
  import opened Words

  /** `random.shuffle`: a Fisher-Yates pass whose swap partners are chosen freely. */
  method Shuffle(a: array<string>)
    modifies a
    ensures multiset(a[..]) == multiset(old(a[..]))
  {
    var i := a.Length;
    while i > 1
      invariant 0 <= i <= a.Length
      invariant multiset(a[..]) == multiset(old(a[..]))
    {
      i := i - 1;
      var j :| 0 <= j <= i;
      a[i], a[j] := a[j], a[i];
    }
  }

  /** The total length of the words is the same in any order. */
  lemma {:induction false} SumLenPermutation(xs: seq<string>, ys: seq<string>)
    requires multiset(xs) == multiset(ys)
    ensures SumLen(xs) == SumLen(ys)
    decreases |xs|
  {
    if xs == [] {
      assert |ys| == |multiset(ys)| == 0;
    } else {
      var x := xs[0];
      assert xs == [x] + xs[1..];
      assert x in multiset(ys) by {
        assert x in multiset(xs);
      }
      var k :| 0 <= k < |ys| && ys[k] == x;
      var rest := ys[..k] + ys[k + 1..];
      RemoveAt(ys, k);
      assert multiset(xs[1..]) == multiset(rest) by {
        assert multiset(xs[1..]) == multiset(xs) - multiset{x};
      }
      SumLenPermutation(xs[1..], rest);
    }
  }

  /** Taking one element out of a list takes it out of the multiset and its length out of the total. */
  lemma RemoveAt(ys: seq<string>, k: nat)
    requires k < |ys|
    ensures multiset(ys[..k] + ys[k + 1..]) == multiset(ys) - multiset{ys[k]}
    ensures SumLen(ys) == SumLen(ys[..k] + ys[k + 1..]) + |ys[k]|
  {
    assert ys == ys[..k] + ([ys[k]] + ys[k + 1..]);
    SumLenAppend(ys[..k], [ys[k]] + ys[k + 1..]);
    SumLenAppend(ys[..k], ys[k + 1..]);
    assert ([ys[k]] + ys[k + 1..])[1..] == ys[k + 1..];
  }

  lemma {:induction false} SumLenAppend(xs: seq<string>, ys: seq<string>)
    ensures SumLen(xs + ys) == SumLen(xs) + SumLen(ys)
  {
    if xs == [] {
      assert xs + ys == ys;
    } else {
      assert (xs + ys)[0] == xs[0];
      assert (xs + ys)[1..] == xs[1..] + ys;
      SumLenAppend(xs[1..], ys);
    }
  }

  /** Every element of a permutation of a list of words is a word. */
  lemma PermutationOfWords(xs: seq<string>, ys: seq<string>)
    requires AllWords(xs) && multiset(xs) == multiset(ys)
    ensures AllWords(ys)
  {
    forall k | 0 <= k < |ys| ensures IsWord(ys[k]) {
      assert ys[k] in multiset(xs);
    }
  }

  /**
   * perturb_text: a text of at most one word comes back as it was;
   * otherwise its words come back in some order, single-spaced.
   */
  method PerturbText(text: string) returns (r: string)
    ensures |Split(text)| <= 1 ==> r == text
    ensures |Split(text)| >= 2 ==>
      && multiset(Split(r)) == multiset(Split(text))
      && |Split(r)| == |Split(text)|
      && SingleSpaced(r)
      && |r| == SumLen(Split(text)) + |Split(text)| - 1
      && r == Join(Split(r))
  {
    var words := Split(text);
    if |words| <= 1 {
      return text;
    }
    var a := new string[|words|](k requires 0 <= k < |words| => words[k]);
    assert a[..] == words;
    Shuffle(a);
    var shuffled := a[..];
    PermutationOfWords(words, shuffled);
    r := Join(shuffled);
    SplitJoin(shuffled);
    JoinSingleSpaced(shuffled);
    assert |shuffled| == |multiset(shuffled)| == |multiset(words)| == |words|;
    SumLenPermutation(shuffled, words);
  }
}
