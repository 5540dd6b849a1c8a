/**
 * Python's whitespace handling on `str`: `isspace()`, `split()` with no
 * argument and `sep.join(...)`.  Every modelled function that splits a text
 * into words and joins them back goes through these definitions.
 */
module Words {

  /** The characters for which `str.isspace()` holds; `strip()`, `split()` and the regex class `\s` use the same set. */
  const WHITESPACE: set<char> := {
    '\t', '\n', '\U{0B}', '\U{0C}', '\r', '\U{1C}', '\U{1D}', '\U{1E}', '\U{1F}', ' ',
    '\U{85}', '\U{A0}', '\U{1680}', '\U{2000}', '\U{2001}', '\U{2002}', '\U{2003}', '\U{2004}',
    '\U{2005}', '\U{2006}', '\U{2007}', '\U{2008}', '\U{2009}', '\U{200A}', '\U{2028}', '\U{2029}',
    '\U{202F}', '\U{205F}', '\U{3000}'
  }

  /** `c.isspace()`. */
  predicate IsSpace(c: char) {
    c in WHITESPACE
  }

  /** Every character of `s` satisfies `p`. */
  predicate AllChars(s: string, p: char -> bool) {
    forall i :: 0 <= i < |s| ==> p(s[i])
  }

  /** `s` holds no whitespace. */
  predicate NoSpace(s: string) {
    forall i :: 0 <= i < |s| ==> !IsSpace(s[i])
  }

  /** A word as `split()` produces it: non-empty and free of whitespace. */
  predicate IsWord(w: string) {
    |w| > 0 && NoSpace(w)
  }

  predicate AllWords(ws: seq<string>) {
    forall k :: 0 <= k < |ws| ==> IsWord(ws[k])
  }

  /** `s.lstrip()`: `s` without its leading whitespace. */
  function DropSpaces(s: string): (t: string)
    ensures |t| <= |s|
    ensures t == [] || !IsSpace(t[0])
  {
    if s != [] && IsSpace(s[0]) then DropSpaces(s[1..]) else s
  }

  lemma {:induction false} DropSpacesSuffix(s: string)
    ensures DropSpaces(s) == s[|s| - |DropSpaces(s)|..]
  {
    if s != [] && IsSpace(s[0]) {
      DropSpacesSuffix(s[1..]);
    }
  }

  /** The longest prefix of `s` that holds no whitespace. */
  function WordPrefix(s: string): (w: string)
    ensures |w| <= |s| && w == s[..|w|]
    ensures NoSpace(w)
    ensures |w| == |s| || IsSpace(s[|w|])
  {
    if s == [] || IsSpace(s[0]) then [] else [s[0]] + WordPrefix(s[1..])
  }

  /** `s.split()`: the maximal runs of non-whitespace characters of `s`, in order. */
  function Split(s: string): (ws: seq<string>)
    ensures AllWords(ws)
    decreases |s|
  {
    var t := DropSpaces(s);
    if t == [] then []
    else
      var w := WordPrefix(t);
      [w] + Split(t[|w|..])
  }

  /** `sep.join(parts)`: the part lengths plus one separator between each pair. */
  function JoinWith(sep: string, parts: seq<string>): (r: string)
    ensures |parts| > 0 ==> |r| == SumLen(parts) + (|parts| - 1) * |sep|
  {
    if |parts| == 0 then ""
    else if |parts| == 1 then parts[0]
    else parts[0] + sep + JoinWith(sep, parts[1..])
  }

  /** `" ".join(ws)`: the word lengths plus one space between each pair. */
  function Join(ws: seq<string>): (r: string)
    ensures |ws| > 0 ==> |r| == SumLen(ws) + |ws| - 1
  {
    JoinWith(" ", ws)
  }

  /** The total number of characters in `ws`. */
  function SumLen(ws: seq<string>): nat {
    if ws == [] then 0 else |ws[0]| + SumLen(ws[1..])
  }

  /**
   * A text with no leading or trailing whitespace whose only whitespace is
   * single spaces between words.
   */
  predicate SingleSpaced(s: string) {
    forall i :: 0 <= i < |s| && IsSpace(s[i]) ==>
      s[i] == ' ' && 0 < i < |s| - 1 && !IsSpace(s[i + 1])
  }

  lemma {:induction false} WordPrefixOfWord(w: string, t: string)
    requires NoSpace(w)
    requires t == [] || IsSpace(t[0])
    ensures WordPrefix(w + t) == w
    decreases |w|
  {
    if w == [] {
      assert w + t == t;
    } else {
      assert (w + t)[1..] == w[1..] + t;
      WordPrefixOfWord(w[1..], t);
    }
  }

  lemma SplitLeadingSpace(s: string)
    ensures Split(" " + s) == Split(s)
  {
    assert (" " + s)[1..] == s;
  }

  /** A word followed by nothing or by whitespace is the first word of the split. */
  lemma SplitWordThen(w: string, t: string)
    requires IsWord(w)
    requires t == [] || IsSpace(t[0])
    ensures Split(w + t) == [w] + Split(t)
  {
    var s := w + t;
    assert s[0] == w[0];
    assert DropSpaces(s) == s;
    WordPrefixOfWord(w, t);
    assert s[|w|..] == t;
  }

  /** `split()` undoes `" ".join` on a list of words. */
  lemma {:induction false} SplitJoin(ws: seq<string>)
    requires AllWords(ws)
    ensures Split(Join(ws)) == ws
  {
    if |ws| == 1 {
      assert ws[0] + "" == ws[0];
      SplitWordThen(ws[0], "");
    } else if |ws| > 1 {
      var w, j := ws[0], Join(ws[1..]);
      assert Join(ws) == w + (" " + j);
      SplitWordThen(w, " " + j);
      SplitLeadingSpace(j);
      SplitJoin(ws[1..]);
    }
  }

  /** `" ".join` of words is single-spaced and starts with a word when non-empty. */
  lemma {:induction false} JoinSingleSpaced(ws: seq<string>)
    requires AllWords(ws)
    ensures SingleSpaced(Join(ws))
    ensures |ws| > 0 ==> |Join(ws)| > 0 && !IsSpace(Join(ws)[0])
  {
    if |ws| == 1 {
      assert IsWord(ws[0]);
    } else if |ws| > 1 {
      var w, j := ws[0], Join(ws[1..]);
      JoinSingleSpaced(ws[1..]);
      var s := Join(ws);
      assert IsWord(w);
      assert s == w + " " + j;
      forall i | 0 <= i < |s| && IsSpace(s[i])
        ensures s[i] == ' ' && 0 < i < |s| - 1 && !IsSpace(s[i + 1])
      {
        if i > |w| {
          assert s[i] == j[i - |w| - 1];
          assert i + 1 < |s| ==> s[i + 1] == j[i - |w|];
        }
      }
    }
  }

  /** Every character of `sep.join(parts)` comes from a part or from `sep`. */
  lemma {:induction false} JoinWithChars(sep: string, parts: seq<string>, p: char -> bool)
    requires AllChars(sep, p)
    requires forall k :: 0 <= k < |parts| ==> AllChars(parts[k], p)
    ensures AllChars(JoinWith(sep, parts), p)
  {
    if |parts| > 1 {
      JoinWithChars(sep, parts[1..], p);
      var s, a, b := JoinWith(sep, parts), parts[0] + sep, JoinWith(sep, parts[1..]);
      assert s == a + b;
      forall i | 0 <= i < |s| ensures p(s[i]) {
        if i < |parts[0]| {
          assert s[i] == parts[0][i];
        } else if i < |a| {
          assert s[i] == sep[i - |parts[0]|];
        } else {
          assert s[i] == b[i - |a|];
        }
      }
    }
  }

  /** Every character of a word of `s.split()` is a character of `s`. */
  lemma {:induction false} SplitChars(s: string, p: char -> bool)
    requires AllChars(s, p)
    ensures forall k :: 0 <= k < |Split(s)| ==> AllChars(Split(s)[k], p)
    decreases |s|
  {
    var t := DropSpaces(s);
    if t != [] {
      var w := WordPrefix(t);
      DropSpacesSuffix(s);
      AllCharsSuffix(s, |s| - |t|, p);
      var rest := t[|w|..];
      AllCharsSuffix(t, |w|, p);
      SplitChars(rest, p);
      assert Split(s) == [w] + Split(rest);
    }
  }

  lemma AllCharsSuffix(s: string, k: nat, p: char -> bool)
    requires k <= |s| && AllChars(s, p)
    ensures AllChars(s[k..], p)
  {
    forall i | 0 <= i < |s| - k ensures p(s[k..][i]) {
      assert s[k..][i] == s[k + i];
    }
  }

  /** Applying `" ".join(s.split())` twice gives the same text as applying it once. */
  lemma JoinSplitIdempotent(s: string)
    ensures Join(Split(Join(Split(s)))) == Join(Split(s))
  {
    SplitJoin(Split(s));
  }
}
