/**
 * The contamination simulator's three text edits: swapping two words,
 * character-level noise on individual words, and splicing an irrelevant
 * sentence into the word list.  Every random draw (`random.sample`,
 * `random.random`, `random.randint`, `random.choice`) is a nondeterministic
 * choice in the methods, or a parameter of the pure function.
 */
module ContaminationSimulator {
  import opened Wrappers
  import opened Words

  /** The per-word edit probability `add_char_noise` uses when none is given. */
  const DEFAULT_NOISE_LEVEL: real := 0.05

  /** The alphabet `random.choice('abcdefghijklmnopqrstuvwxyz')` draws from. */
  predicate IsLetter(c: char) {
    'a' <= c <= 'z'
  }

  // The four single-character edits of `add_char_noise`.  The enclosing loop
  // draws the position with `random.randint(0, len(word) - 1)`, so every edit
  // is applied at a position inside the word.

  /** insert: a letter goes in at position `i`. */
  function Insert(s: string, i: nat, c: char): (r: string)
    requires i < |s|
    ensures |r| == |s| + 1 && r[i] == c
    ensures r[..i] == s[..i] && r[i + 1..] == s[i..]
  {
    s[..i] + [c] + s[i..]
  }

  /** delete: the character at `i` goes, unless the word is a single character. */
  function Delete(s: string, i: nat): (r: string)
    requires i < |s|
    ensures |s| > 1 ==> |r| == |s| - 1 && r[..i] == s[..i] && r[i..] == s[i + 1..]
    ensures |s| <= 1 ==> r == s
  {
    if |s| > 1 then s[..i] + s[i + 1..] else s
  }

  /** substitute: the character at `i` becomes a letter; nothing else changes. */
  function Substitute(s: string, i: nat, c: char): (r: string)
    requires i < |s|
    ensures |r| == |s| && r[i] == c
    ensures forall k :: 0 <= k < |s| && k != i ==> r[k] == s[k]
  {
    s[..i] + [c] + s[i + 1..]
  }

  /** swap: characters `i` and `i + 1` trade places; at the last position the word is unchanged. */
  function SwapAdjacent(s: string, i: nat): (r: string)
    requires i < |s|
    ensures |r| == |s|
    ensures i < |s| - 1 ==> r[i] == s[i + 1] && r[i + 1] == s[i]
    ensures forall k :: 0 <= k < |s| && k != i && k != i + 1 ==> r[k] == s[k]
    ensures i == |s| - 1 ==> r == s
  {
    if i < |s| - 1 then s[..i] + [s[i + 1]] + [s[i]] + s[i + 2..] else s
  }

  /** `random.choice(ops)(word)`: operation 0 to 3 is insert, delete, substitute, swap. */
  function ApplyEdit(op: nat, s: string, i: nat, c: char): (r: string)
    requires op < 4 && i < |s|
    ensures |s| - 1 <= |r| <= |s| + 1
    ensures r[..i] == s[..i]
  {
    match op
    case 0 => Insert(s, i, c)
    case 1 => Delete(s, i)
    case 2 => Substitute(s, i, c)
    case _ => SwapAdjacent(s, i)
  }

  /** `v` is `w` after one of the four edits, with a letter for the inserted or substituted character. */
  ghost predicate OneEdit(w: string, v: string) {
    exists op: nat, i: nat, c: char :: op < 4 && i < |w| && IsLetter(c) && v == ApplyEdit(op, w, i, c)
  }

  /** Deleting what was just inserted gives the word back. */
  lemma DeleteInsert(s: string, i: nat, c: char)
    requires i < |s|
    ensures Delete(Insert(s, i, c), i) == s
  {
    var t := Insert(s, i, c);
    assert t[..i] + t[i + 1..] == s[..i] + s[i..];
    assert s[..i] + s[i..] == s;
  }

  /** Swapping the same adjacent pair twice gives the word back. */
  lemma SwapAdjacentTwice(s: string, i: nat)
    requires i < |s|
    ensures SwapAdjacent(SwapAdjacent(s, i), i) == s
  {
  }

  /** Substituting a character by itself changes nothing. */
  lemma SubstituteSame(s: string, i: nat)
    requires i < |s|
    ensures Substitute(s, i, s[i]) == s
  {
  }

  /** Each edit keeps a word a word: it stays non-empty and gains no whitespace. */
  lemma EditKeepsWord(op: nat, s: string, i: nat, c: char)
    requires op < 4 && i < |s| && IsWord(s) && IsLetter(c)
    ensures IsWord(ApplyEdit(op, s, i, c))
  {
    var r := ApplyEdit(op, s, i, c);
    if op == 0 {
      forall k | 0 <= k < |r| ensures !IsSpace(r[k]) {
        if k > i { assert r[k] == s[k - 1]; }
      }
    } else if op == 1 && |s| > 1 {
      forall k | 0 <= k < |r| ensures !IsSpace(r[k]) {
        if k >= i { assert r[k] == s[k + 1]; }
      }
    }
  }

  /** The word length after each edit. */
  lemma EditLength(op: nat, s: string, i: nat, c: char)
    requires op < 4 && i < |s|
    ensures op == 0 ==> |ApplyEdit(op, s, i, c)| == |s| + 1
    ensures op == 1 ==> |ApplyEdit(op, s, i, c)| == if |s| > 1 then |s| - 1 else |s|
    ensures op >= 2 ==> |ApplyEdit(op, s, i, c)| == |s|
  {
  }

  /**
   * swap_words: a text of fewer than two words comes back as it was;
   * otherwise two distinct word positions `i` and `j` trade places in the
   * word list, which is then joined with single spaces.
   */
  method SwapWords(text: string) returns (r: string, i: nat, j: nat)
    ensures |Split(text)| < 2 ==> r == text
    ensures |Split(text)| >= 2 ==>
      var words := Split(text);
      && i < |words| && j < |words| && i != j
      && Split(r) == words[i := words[j]][j := words[i]]
      && multiset(Split(r)) == multiset(words)
      && r == Join(Split(r))
  {
    var words := Split(text);
    if |words| < 2 {
      return text, 0, 0;
    }
    i, j :| 0 <= i < |words| && 0 <= j < |words| && i != j;
    var a := new string[|words|](k requires 0 <= k < |words| => words[k]);
    assert a[..] == words;
    a[i], a[j] := a[j], a[i];
    var swapped := a[..];
    assert swapped == words[i := words[j]][j := words[i]];
    ExchangeWords(words, i, j);
    r := Join(swapped);
    SplitJoin(swapped);
  }

  /** Exchanging two entries of a word list keeps a list of words with the same multiset. */
  lemma ExchangeWords(words: seq<string>, i: nat, j: nat)
    requires AllWords(words) && i < |words| && j < |words|
    ensures AllWords(words[i := words[j]][j := words[i]])
    ensures multiset(words[i := words[j]][j := words[i]]) == multiset(words)
  {
    var once := words[i := words[j]];
    assert AllWords(once);
  }

  /**
   * add_char_noise: every word draws a coin in [0, 1); when the coin is
   * below `noiseLevel` the word gets one random edit at a random position.
   * The word list is joined with single spaces.
   */
  method AddCharNoise(text: string, noiseLevel: real := DEFAULT_NOISE_LEVEL) returns (r: string)
    ensures |Split(r)| == |Split(text)|
    ensures forall k :: 0 <= k < |Split(text)| ==>
      Split(r)[k] == Split(text)[k] || OneEdit(Split(text)[k], Split(r)[k])
    ensures noiseLevel <= 0.0 ==> Split(r) == Split(text)
    ensures r == Join(Split(r))
  {
    var words := Split(text);
    var a := new string[|words|](k requires 0 <= k < |words| => words[k]);
    assert a[..] == words;
    for w := 0 to a.Length
      invariant forall k :: 0 <= k < a.Length ==> IsWord(a[k])
      invariant forall k :: 0 <= k < w ==> a[k] == words[k] || OneEdit(words[k], a[k])
      invariant forall k :: w <= k < a.Length ==> a[k] == words[k]
      invariant noiseLevel <= 0.0 ==> a[..] == words
    {
      var coin: real :| 0.0 <= coin < 1.0;
      if coin < noiseLevel && |a[w]| > 0 {
        var pos: nat :| pos < |a[w]|;
        var op: nat :| op < 4;
        assert IsLetter('a');
        var letter: char :| IsLetter(letter);
        EditKeepsWord(op, a[w], pos, letter);
        a[w] := ApplyEdit(op, a[w], pos, letter);
      }
    }
    var noisy := a[..];
    assert AllWords(noisy);
    r := Join(noisy);
    SplitJoin(noisy);
  }

  datatype InsertError = EmptySentenceList  // `random.choice` on an empty list raises IndexError

  /**
   * insert_irrelevant_text: the sentence `sentences[pick]` is split into
   * words and spliced into the text's word list at `pos`.  `pick` and `pos`
   * are the values of `random.choice` and `random.randint(0, len(words))`.
   */
  function InsertIrrelevantText(text: string, sentences: seq<string>, pick: nat, pos: nat): (r: Result<string, InsertError>)
    requires sentences != [] ==> pick < |sentences|
    requires pos <= |Split(text)|
    ensures sentences == [] <==> r.Err?
    ensures r.Ok? ==>
      var words := Split(text);
      && Split(r.value) == words[..pos] + Split(sentences[pick]) + words[pos..]
      && |Split(r.value)| == |words| + |Split(sentences[pick])|
      && r.value == Join(Split(r.value))
  {
    if sentences == [] then Err(EmptySentenceList)
    else
      var irrelevant := sentences[pick];
      var words := Split(text);
      var spliced := words[..pos] + Split(irrelevant) + words[pos..];
      assert AllWords(spliced);
      SplitJoin(spliced);
      Ok(Join(spliced))
  }

  /** The original words keep their order: dropping the spliced block gives them back. */
  lemma InsertKeepsOriginalOrder(text: string, sentences: seq<string>, pick: nat, pos: nat)
    requires sentences != [] && pick < |sentences|
    requires pos <= |Split(text)|
    ensures var out := Split(InsertIrrelevantText(text, sentences, pick, pos).value);
            var m := |Split(sentences[pick])|;
            out[..pos] + out[pos + m..] == Split(text)
  {
    SpliceRemoved(Split(text), Split(sentences[pick]), pos);
  }

  /** Cutting a block out again where it was spliced in restores the original list. */
  lemma SpliceRemoved<T>(a: seq<T>, b: seq<T>, pos: nat)
    requires pos <= |a|
    ensures var out := a[..pos] + b + a[pos..];
            out[..pos] + out[pos + |b|..] == a
  {
    var out := a[..pos] + b + a[pos..];
    assert out[..pos] == a[..pos];
    assert out[pos + |b|..] == a[pos..];
    assert a[..pos] + a[pos..] == a;
  }
}
