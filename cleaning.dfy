/**
 * Text normalisation: tag removal, Unicode normalisation, lowercasing,
 * accent stripping, replacement of non-ASCII runs, whitespace collapsing
 * and optional stopword removal.  The three regular-expression
 * substitutions and `strip` are modelled character by character; NFC,
 * `str.lower`, `unicodedata.combining` and the stopword list are library
 * lookups and enter the model as parameters.
 */
module Cleaning {
  import opened Wrappers
  import opened Words

  // ---------------------------------------------------------------------
  // re.sub(r'<.*?>', ' ', text)

  /**
   * Where the lazy `.*?>` starting at the beginning of `s` ends: the first
   * '>' of `s`, provided no newline (which `.` does not match) comes first.
   */
  function TagEnd(s: string): (k: Option<nat>)
    ensures k.Some? ==> k.value < |s|
  {
    if s == [] || s[0] == '\n' then None
    else if s[0] == '>' then Some(0)
    else match TagEnd(s[1..])
      case None => None
      case Some(k) => Some(k + 1)
  }

  /**
   * The match is the shortest one: it ends at the first '>' and crosses no
   * newline; and when there is none, every '>' of `s` comes after a newline.
   */
  lemma {:induction false} TagEndSpec(s: string)
    ensures var k := TagEnd(s);
      && (k.Some? ==> s[k.value] == '>' && forall i :: 0 <= i < k.value ==> s[i] != '>' && s[i] != '\n')
      && (k.None? ==> forall i :: 0 <= i < |s| && s[i] == '>' ==> exists j :: 0 <= j < i && s[j] == '\n')
  {
    if s != [] && s[0] != '\n' && s[0] != '>' {
      TagEndSpec(s[1..]);
      if TagEnd(s).None? {
        forall i | 0 <= i < |s| && s[i] == '>' ensures exists j :: 0 <= j < i && s[j] == '\n' {
          assert s[1..][i - 1] == '>';
          var j :| 0 <= j < i - 1 && s[1..][j] == '\n';
          assert s[j + 1] == '\n';
        }
      }
    }
  }

  /** Scanning left to right, every match of `<.*?>` becomes one space; other characters are copied. */
  function StripTags(s: string): (r: string)
    ensures |r| <= |s|
    decreases |s|
  {
    if s == [] then []
    else if s[0] == '<' && TagEnd(s[1..]).Some? then
      " " + StripTags(s[TagEnd(s[1..]).value + 2..])
    else [s[0]] + StripTags(s[1..])
  }

  /** No position of `s` starts a match of `<.*?>`. */
  predicate TagFree(s: string) {
    forall i :: 0 <= i < |s| && s[i] == '<' ==> TagEnd(s[i + 1..]).None?
  }

  /** Put plainly: between any '<' and a later '>' of a tag-free text there is a newline. */
  lemma TagFreeMeansNoTag(s: string, i: nat, j: nat)
    requires TagFree(s)
    requires i < j < |s| && s[i] == '<' && s[j] == '>'
    ensures exists m :: i < m < j && s[m] == '\n'
  {
    var u := s[i + 1..];
    TagEndSpec(u);
    assert u[j - i - 1] == '>';
    var m' :| 0 <= m' < j - i - 1 && u[m'] == '\n';
    assert s[i + 1 + m'] == '\n';
  }

  lemma TagFreeCons(c: char, x: string)
    requires TagFree(x)
    requires c == '<' ==> TagEnd(x).None?
    ensures TagFree([c] + x)
  {
    var s := [c] + x;
    forall i | 0 <= i < |s| && s[i] == '<' ensures TagEnd(s[i + 1..]).None? {
      if i == 0 {
        assert s[1..] == x;
      } else {
        TagFreeShift(c, x, i);
      }
    }
  }

  /** A '<' of `x` still starts no match once a character is put in front of `x`. */
  lemma TagFreeShift(c: char, x: string, i: nat)
    requires TagFree(x)
    requires 0 < i <= |x| && x[i - 1] == '<'
    ensures TagEnd(([c] + x)[i + 1..]).None?
  {
    assert ([c] + x)[i + 1..] == x[i - 1 + 1..];
  }

  /** Removing tags from a text that has no closing '>' before its first newline adds none. */
  lemma {:induction false} TagEndNoneKept(u: string)
    requires TagEnd(u).None?
    ensures TagEnd(StripTags(u)).None?
    decreases |u|
  {
    if u != [] && u[0] != '\n' {
      assert TagEnd(u[1..]).None?;
      TagEndNoneKept(u[1..]);
      assert StripTags(u) == [u[0]] + StripTags(u[1..]);
      assert ([u[0]] + StripTags(u[1..]))[1..] == StripTags(u[1..]);
    }
  }

  /** The output of tag removal holds no further match. */
  lemma {:induction false} StripTagsTagFree(s: string)
    ensures TagFree(StripTags(s))
    decreases |s|
  {
    if s != [] {
      if s[0] == '<' && TagEnd(s[1..]).Some? {
        StripTagsTagFree(s[TagEnd(s[1..]).value + 2..]);
        TagFreeCons(' ', StripTags(s[TagEnd(s[1..]).value + 2..]));
      } else {
        StripTagsTagFree(s[1..]);
        if s[0] == '<' {
          TagEndNoneKept(s[1..]);
        }
        TagFreeCons(s[0], StripTags(s[1..]));
      }
    }
  }

  /** Tag removal leaves a tag-free text as it is. */
  lemma {:induction false} StripTagsOfTagFree(s: string)
    requires TagFree(s)
    ensures StripTags(s) == s
    decreases |s|
  {
    if s != [] {
      forall i | 0 <= i < |s[1..]| && s[1..][i] == '<' ensures TagEnd(s[1..][i + 1..]).None? {
        assert s[1..][i + 1..] == s[i + 2..];
      }
      StripTagsOfTagFree(s[1..]);
    }
  }

  /** Removing tags twice is removing them once. */
  lemma StripTagsIdempotent(s: string)
    ensures StripTags(StripTags(s)) == StripTags(s)
  {
    StripTagsTagFree(s);
    StripTagsOfTagFree(StripTags(s));
  }

  /** A text without '<' has no tags to remove. */
  lemma {:induction false} StripTagsNoOpen(s: string)
    requires forall i :: 0 <= i < |s| ==> s[i] != '<'
    ensures StripTags(s) == s
    decreases |s|
  {
    if s != [] {
      StripTagsNoOpen(s[1..]);
    }
  }

  // ---------------------------------------------------------------------
  // ''.join(c for c in text if not unicodedata.combining(c))

  /** The characters whose combining class is 0, in order. */
  function DropCombining(s: string, combining: char -> int): (r: string)
    ensures |r| <= |s|
    ensures forall k :: 0 <= k < |r| ==> combining(r[k]) == 0 && r[k] in s
  {
    if s == [] then []
    else (if combining(s[0]) == 0 then [s[0]] else []) + DropCombining(s[1..], combining)
  }

  // ---------------------------------------------------------------------
  // re.sub(r'[^\x00-\x7F]+', ' ', text)

  predicate IsAscii(c: char) {
    c <= '\U{7F}'
  }

  /** `s` without its leading non-ASCII characters. */
  function DropNonAscii(s: string): (t: string)
    ensures |t| <= |s|
    ensures t == [] || IsAscii(t[0])
  {
    if s != [] && !IsAscii(s[0]) then DropNonAscii(s[1..]) else s
  }

  /** Each maximal run of non-ASCII characters becomes one space. */
  function SubNonAscii(s: string): (r: string)
    ensures AllChars(r, IsAscii)
    decreases |s|
  {
    if s == [] then []
    else if !IsAscii(s[0]) then " " + SubNonAscii(DropNonAscii(s[1..]))
    else [s[0]] + SubNonAscii(s[1..])
  }

  /** An ASCII text is left as it is. */
  lemma {:induction false} SubNonAsciiOfAscii(s: string)
    requires AllChars(s, IsAscii)
    ensures SubNonAscii(s) == s
    decreases |s|
  {
    if s != [] {
      SubNonAsciiOfAscii(s[1..]);
    }
  }

  lemma {:induction false} DropNonAsciiChars(s: string, p: char -> bool)
    requires AllChars(s, p)
    ensures AllChars(DropNonAscii(s), p)
  {
    if s != [] && !IsAscii(s[0]) {
      DropNonAsciiChars(s[1..], p);
    }
  }

  /** Every character of the output is a space or a character of the input. */
  lemma {:induction false} SubNonAsciiChars(s: string, p: char -> bool)
    requires p(' ') && AllChars(s, p)
    ensures AllChars(SubNonAscii(s), p)
    decreases |s|
  {
    if s != [] {
      if !IsAscii(s[0]) {
        DropNonAsciiChars(s[1..], p);
        SubNonAsciiChars(DropNonAscii(s[1..]), p);
      } else {
        SubNonAsciiChars(s[1..], p);
      }
    }
  }

  // ---------------------------------------------------------------------
  // re.sub(r'\s+', ' ', text).strip()

  /** Each maximal run of whitespace becomes one space. */
  function SubWhitespace(s: string): (r: string)
    ensures |r| <= |s|
    ensures forall i :: 0 <= i < |r| && IsSpace(r[i]) ==> r[i] == ' '
    decreases |s|
  {
    if s == [] then []
    else if IsSpace(s[0]) then " " + SubWhitespace(DropSpaces(s[1..]))
    else [s[0]] + SubWhitespace(s[1..])
  }

  /** `s.rstrip()`. */
  function DropTrailingSpaces(s: string): (t: string)
    ensures |t| <= |s| && t == s[..|t|]
    ensures t == [] || !IsSpace(t[|t| - 1])
  {
    if s != [] && IsSpace(s[|s| - 1]) then DropTrailingSpaces(s[..|s| - 1]) else s
  }

  /** `s.strip()`. */
  function Strip(s: string): (r: string)
    ensures |r| <= |s|
    ensures r == [] || (!IsSpace(r[0]) && !IsSpace(r[|r| - 1]))
  {
    DropTrailingSpaces(DropSpaces(s))
  }

  /** The whitespace-collapse step of `normalize_text`. */
  function Collapse(s: string): (r: string)
    ensures r == Join(Split(s))
    ensures SingleSpaced(r)
  {
    CollapseIsJoinSplit(s);
    JoinSingleSpaced(Split(s));
    Strip(SubWhitespace(s))
  }

  lemma {:induction false} SubWhitespaceAfterWord(w: string, u: string)
    requires NoSpace(w)
    ensures SubWhitespace(w + u) == w + SubWhitespace(u)
    decreases |w|
  {
    if w == [] {
      assert w + u == u;
    } else {
      assert (w + u)[0] == w[0];
      assert (w + u)[1..] == w[1..] + u;
      SubWhitespaceAfterWord(w[1..], u);
    }
  }

  lemma JoinCons(w: string, ws: seq<string>)
    requires ws != []
    ensures Join([w] + ws) == w + " " + Join(ws)
  {
    assert ([w] + ws)[1..] == ws;
  }

  /** A text that starts with whitespace collapses to a space and splits as the text after the run. */
  lemma SkipSpaceRun(u: string)
    requires u != [] && IsSpace(u[0])
    ensures SubWhitespace(u) == " " + SubWhitespace(DropSpaces(u[1..]))
    ensures Split(u) == Split(DropSpaces(u[1..]))
  {
    var r := DropSpaces(u[1..]);
    assert DropSpaces(u) == r;
    assert DropSpaces(r) == r;
  }

  /** A text that starts with a word splits into that word and the rest. */
  lemma SplitFirstWord(t: string)
    requires t != [] && !IsSpace(t[0])
    ensures Split(t) == [WordPrefix(t)] + Split(t[|WordPrefix(t)|..])
  {
    assert DropSpaces(t) == t;
  }

  /** A text that starts with a word collapses to that word followed by the collapsed rest. */
  lemma CollapseFirstWord(t: string)
    requires t != [] && !IsSpace(t[0])
    ensures SubWhitespace(t) == WordPrefix(t) + SubWhitespace(t[|WordPrefix(t)|..])
  {
    var w := WordPrefix(t);
    SubWhitespaceSplitAt(t, |w|);
  }

  /** Collapsing copies a whitespace-free prefix as it is. */
  lemma SubWhitespaceSplitAt(t: string, k: nat)
    requires k <= |t| && NoSpace(t[..k])
    ensures SubWhitespace(t) == t[..k] + SubWhitespace(t[k..])
  {
    assert t[..k] + t[k..] == t;
    SubWhitespaceAfterWord(t[..k], t[k..]);
  }

  /** The last word: nothing, or one space, follows it. */
  lemma CollapseLastWord(t: string, w: string, post: string)
    requires Split(t) == [w]
    requires SubWhitespace(t) == w + post
    ensures SubWhitespace(t) == Join(Split(t)) + post
  {
    assert Join([w]) == w;
  }

  /** A word, a space, and the collapsed rest. */
  lemma CollapseNextWord(t: string, w: string, ws: seq<string>, post: string)
    requires ws != [] && Split(t) == [w] + ws
    requires SubWhitespace(t) == w + (" " + (Join(ws) + post))
    ensures SubWhitespace(t) == Join(Split(t)) + post
  {
    JoinCons(w, ws);
    var j := Join(ws);
    SeqAssoc3(w, " ", j, post);
  }

  lemma SeqAssoc3(a: string, b: string, c: string, d: string)
    ensures a + (b + (c + d)) == (a + b + c) + d
    ensures a + (b + c) == a + b + c
  {
  }

  /** Collapsing a text that does not start with whitespace gives the joined words, perhaps followed by one space. */
  lemma {:induction false} CollapseFromWord(t: string) returns (post: string)
    requires t == [] || !IsSpace(t[0])
    ensures post == "" || post == " "
    ensures SubWhitespace(t) == Join(Split(t)) + post
    ensures t == [] ==> post == ""
    decreases |t|
  {
    if t == [] {
      return "";
    }
    var w := WordPrefix(t);
    var rest := t[|w|..];
    SplitFirstWord(t);
    CollapseFirstWord(t);
    if rest == [] {
      post := "";
      CollapseLastWord(t, w, post);
    } else {
      var r2 := DropSpaces(rest[1..]);
      SkipSpaceRun(rest);
      var post' := CollapseFromWord(r2);
      if r2 == [] {
        post := " ";
        CollapseLastWord(t, w, post);
      } else {
        post := post';
        CollapseNextWord(t, w, Split(r2), post);
      }
    }
  }

  /** Collapsing any text gives the joined words with at most one space on either side. */
  lemma CollapseShape(s: string) returns (pre: string, post: string)
    ensures pre == "" || pre == " "
    ensures post == "" || post == " "
    ensures SubWhitespace(s) == pre + Join(Split(s)) + post
  {
    if s != [] && IsSpace(s[0]) {
      var t := DropSpaces(s[1..]);
      SkipSpaceRun(s);
      pre := " ";
      post := CollapseFromWord(t);
      SeqAssoc3(pre, Join(Split(t)), post, "");
    } else {
      pre := "";
      post := CollapseFromWord(s);
      assert pre + Join(Split(s)) == Join(Split(s));
    }
  }

  /** Stripping a single-spaced text padded by at most one space on either side removes exactly the padding. */
  lemma StripPadded(pre: string, j: string, post: string)
    requires pre == "" || pre == " "
    requires post == "" || post == " "
    requires SingleSpaced(j)
    ensures Strip(pre + j + post) == j
  {
    var s := pre + j + post;
    if j == [] {
      assert DropSpaces(s) == [];
    } else {
      assert !IsSpace(j[0]) && !IsSpace(j[|j| - 1]);
      assert s == pre + (j + post);
      DropLeadingPad(pre, j + post);
      DropTrailingPad(j, post);
    }
  }

  lemma DropLeadingPad(pre: string, t: string)
    requires pre == "" || pre == " "
    requires t != [] && !IsSpace(t[0])
    ensures DropSpaces(pre + t) == t
  {
    if pre == " " {
      assert (pre + t)[1..] == t;
    } else {
      assert pre + t == t;
    }
  }

  lemma DropTrailingPad(j: string, post: string)
    requires post == "" || post == " "
    requires j != [] && !IsSpace(j[|j| - 1])
    ensures DropTrailingSpaces(j + post) == j
  {
    assert DropTrailingSpaces(j) == j;
    if post == " " {
      assert (j + post)[|j + post| - 1] == ' ';
      assert (j + post)[..|j + post| - 1] == j;
    } else {
      assert j + post == j;
    }
  }

  /** `re.sub(r'\s+', ' ', s).strip()` equals `" ".join(s.split())`. */
  lemma CollapseIsJoinSplit(s: string)
    ensures Strip(SubWhitespace(s)) == Join(Split(s))
  {
    var pre, post := CollapseShape(s);
    JoinSingleSpaced(Split(s));
    StripPadded(pre, Join(Split(s)), post);
  }

  /** The whitespace-collapse step is idempotent. */
  lemma CollapseIdempotent(s: string)
    ensures Collapse(Collapse(s)) == Collapse(s)
  {
    JoinSplitIdempotent(s);
  }

  // ---------------------------------------------------------------------
  // Stopword removal

  /** The words that are not stopwords, in their original order. */
  function RemoveStopwords(ws: seq<string>, stopWords: set<string>): (r: seq<string>)
    ensures |r| <= |ws|
  {
    if ws == [] then []
    else (if ws[0] in stopWords then [] else [ws[0]]) + RemoveStopwords(ws[1..], stopWords)
  }

  /** The kept words are words of the input, none of them a stopword, and every non-stopword is kept. */
  lemma {:induction false} RemoveStopwordsSpec(ws: seq<string>, stopWords: set<string>)
    ensures var r := RemoveStopwords(ws, stopWords);
            && |r| <= |ws|
            && (forall k :: 0 <= k < |r| ==> r[k] !in stopWords && r[k] in ws)
            && (forall k :: 0 <= k < |ws| && ws[k] !in stopWords ==> ws[k] in r)
  {
    if ws != [] {
      RemoveStopwordsSpec(ws[1..], stopWords);
      var head := if ws[0] in stopWords then [] else [ws[0]];
      var rest := RemoveStopwords(ws[1..], stopWords);
      var r := head + rest;
      forall k | 0 <= k < |r| ensures r[k] !in stopWords && r[k] in ws {
        if k >= |head| {
          assert r[k] == rest[k - |head|];
          assert rest[k - |head|] in ws[1..];
        }
      }
      forall k | 0 <= k < |ws| && ws[k] !in stopWords ensures ws[k] in r {
        if k > 0 {
          assert ws[k] == ws[1..][k - 1];
          assert ws[k] in rest;
        }
      }
    }
  }

  /** The filter works word by word, so it keeps the relative order of the words it keeps. */
  lemma {:induction false} RemoveStopwordsAppend(a: seq<string>, b: seq<string>, stopWords: set<string>)
    ensures RemoveStopwords(a + b, stopWords) == RemoveStopwords(a, stopWords) + RemoveStopwords(b, stopWords)
  {
    if a == [] {
      assert a + b == b;
    } else {
      var head := if a[0] in stopWords then [] else [a[0]];
      var x, y := RemoveStopwords(a[1..], stopWords), RemoveStopwords(b, stopWords);
      assert (a + b)[0] == a[0];
      assert (a + b)[1..] == a[1..] + b;
      assert RemoveStopwords(a + b, stopWords) == head + RemoveStopwords(a[1..] + b, stopWords);
      RemoveStopwordsAppend(a[1..], b, stopWords);
      assert head + (x + y) == (head + x) + y;
    }
  }

  /** A word list without stopwords is kept whole. */
  lemma {:induction false} RemoveStopwordsNone(ws: seq<string>, stopWords: set<string>)
    requires forall k :: 0 <= k < |ws| ==> ws[k] !in stopWords
    ensures RemoveStopwords(ws, stopWords) == ws
  {
    if ws != [] {
      RemoveStopwordsNone(ws[1..], stopWords);
    }
  }

  // ---------------------------------------------------------------------
  // normalize_text

  /** The text that reaches the whitespace-collapse step. */
  function Prepared(text: string, nfc: string -> string, lower: string -> string, combining: char -> int): (p: string) {
    SubNonAscii(DropCombining(lower(nfc(StripTags(text))), combining))
  }

  /**
   * normalize_text: the output is ASCII and single-spaced; without stopword
   * removal it is the prepared text's words joined by single spaces, and
   * with it, the same minus the stopwords.
   */
  function NormalizeText(
    text: string,
    removeStopwords: bool := false,
    stopWords: set<string>,
    nfc: string -> string,
    lower: string -> string,
    combining: char -> int
  ): (r: string)
    ensures AllChars(r, IsAscii)
    ensures SingleSpaced(r)
    ensures !removeStopwords ==> r == Join(Split(Prepared(text, nfc, lower, combining)))
    ensures removeStopwords ==>
      && Split(r) == RemoveStopwords(Split(Prepared(text, nfc, lower, combining)), stopWords)
      && forall k :: 0 <= k < |Split(r)| ==> Split(r)[k] !in stopWords
  {
    var untagged := StripTags(text);
    var composed := nfc(untagged);
    var lowered := lower(composed);
    var unaccented := DropCombining(lowered, combining);
    var ascii := SubNonAscii(unaccented);
    var collapsed := Collapse(ascii);
    NormalizedChars(ascii, removeStopwords, stopWords, IsAscii);
    SplitJoin(Split(ascii));
    if removeStopwords then
      var words := RemoveStopwords(Split(collapsed), stopWords);
      RemoveStopwordsSpec(Split(collapsed), stopWords);
      assert AllWords(words);
      SplitJoin(words);
      JoinSingleSpaced(words);
      Join(words)
    else collapsed
  }

  /** A character property that holds for the space and for every character of the prepared text holds for the output. */
  lemma NormalizedChars(ascii: string, removeStopwords: bool, stopWords: set<string>, p: char -> bool)
    requires p(' ') && AllChars(ascii, p)
    ensures AllChars(Collapse(ascii), p)
    ensures AllChars(Join(RemoveStopwords(Split(Collapse(ascii)), stopWords)), p)
  {
    SplitChars(ascii, p);
    JoinWithChars(" ", Split(ascii), p);
    var collapsed := Collapse(ascii);
    SplitChars(collapsed, p);
    var words := RemoveStopwords(Split(collapsed), stopWords);
    RemoveStopwordsSpec(Split(collapsed), stopWords);
    forall k | 0 <= k < |words| ensures AllChars(words[k], p) {
      var m :| 0 <= m < |Split(collapsed)| && Split(collapsed)[m] == words[k];
    }
    JoinWithChars(" ", words, p);
  }

  predicate NotUpper(c: char) {
    !('A' <= c <= 'Z')
  }

  /** When lowercasing leaves no ASCII capital letter, the output has none either. */
  lemma NormalizeTextLowercase(
    text: string,
    removeStopwords: bool,
    stopWords: set<string>,
    nfc: string -> string,
    lower: string -> string,
    combining: char -> int
  )
    requires AllChars(lower(nfc(StripTags(text))), NotUpper)
    ensures AllChars(NormalizeText(text, removeStopwords, stopWords, nfc, lower, combining), NotUpper)
  {
    var lowered := lower(nfc(StripTags(text)));
    var unaccented := DropCombining(lowered, combining);
    forall k | 0 <= k < |unaccented| ensures NotUpper(unaccented[k]) {
      var m :| 0 <= m < |lowered| && lowered[m] == unaccented[k];
    }
    SubNonAsciiChars(unaccented, NotUpper);
    NormalizedChars(SubNonAscii(unaccented), removeStopwords, stopWords, NotUpper);
  }
}
