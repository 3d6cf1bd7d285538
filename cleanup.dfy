/**
 * Whitespace cleanup applied to the whole text before tokenization: every
 * run of whitespace becomes one space, then whitespace at both ends is
 * removed.
 *
 * The functions and lemmas are stated over any class `ws` of whitespace
 * characters that contains the space; Cleanup instantiates them with the
 * ECMAScript class.
 */
module TextCleanup {

  type CharClass = char -> bool

  /**
   * The ECMAScript whitespace class (`\s`, and what String.prototype.trim
   * removes): tab, line feed, vertical tab, form feed, carriage return, the
   * space separators, the line and paragraph separators and the byte order
   * mark.
   */
  predicate IsWhitespace(c: char) {
    || '\t' <= c <= '\r'
    || c == ' ' || c == '\U{00A0}' || c == '\U{1680}'
    || '\U{2000}' <= c <= '\U{200A}'
    || c == '\U{2028}' || c == '\U{2029}' || c == '\U{202F}' || c == '\U{205F}'
    || c == '\U{3000}' || c == '\U{FEFF}'
  }

  /** The text with its leading whitespace removed. */
  function TrimStart(ws: CharClass, s: string): (r: string)
    ensures |r| <= |s| && r == s[|s| - |r|..]
    ensures r == [] || !ws(r[0])
    ensures forall k :: 0 <= k < |s| - |r| ==> ws(s[k])
  {
    if s != [] && ws(s[0]) then
      var t := s[1..];
      var r := TrimStart(ws, t);
      assert forall k :: 0 <= k < |s| - |r| ==> k == 0 || s[k] == t[k - 1];
      r
    else s
  }

  /** The text with its trailing whitespace removed. */
  function TrimEnd(ws: CharClass, s: string): (r: string)
    ensures |r| <= |s| && r == s[..|r|]
    ensures r == [] || !ws(r[|r| - 1])
    ensures forall k :: |r| <= k < |s| ==> ws(s[k])
  {
    if s != [] && ws(s[|s| - 1]) then TrimEnd(ws, s[..|s| - 1]) else s
  }

  /** String.prototype.trim. */
  function Trim(ws: CharClass, s: string): string {
    TrimEnd(ws, TrimStart(ws, s))
  }

  /** The global replacement of /\s+/ by a single space. */
  function CollapseRuns(ws: CharClass, s: string): string
    decreases |s|
  {
    if s == [] then []
    else if ws(s[0]) then " " + CollapseRuns(ws, TrimStart(ws, s[1..]))
    else [s[0]] + CollapseRuns(ws, s[1..])
  }

  /** Collapse whitespace runs to one space, then trim. */
  function CleanupWith(ws: CharClass, s: string): string {
    Trim(ws, CollapseRuns(ws, s))
  }

  /** The non-whitespace characters of s, in order. */
  function Visible(ws: CharClass, s: string): string {
    if s == [] then []
    else (if ws(s[0]) then [] else [s[0]]) + Visible(ws, s[1..])
  }

  /** Every whitespace character is a space and no two are adjacent. */
  predicate SingleSpaced(ws: CharClass, s: string) {
    && (forall k :: 0 <= k < |s| && ws(s[k]) ==> s[k] == ' ')
    && (forall k :: 0 <= k < |s| - 1 ==> !(ws(s[k]) && ws(s[k + 1])))
  }

  /** Single-spaced, and no whitespace at either end. */
  predicate IsClean(ws: CharClass, s: string) {
    && SingleSpaced(ws, s)
    && (s == [] || (!ws(s[0]) && !ws(s[|s| - 1])))
  }

  lemma {:induction false} VisibleConcat(ws: CharClass, a: string, b: string)
    ensures Visible(ws, a + b) == Visible(ws, a) + Visible(ws, b)
    decreases |a|
  {
    if a == [] {
      assert a + b == b;
    } else {
      assert (a + b)[1..] == a[1..] + b;
      VisibleConcat(ws, a[1..], b);
    }
  }

  lemma {:induction false} VisibleOfWhitespace(ws: CharClass, s: string)
    requires forall k :: 0 <= k < |s| ==> ws(s[k])
    ensures Visible(ws, s) == []
    decreases |s|
  {
    if s != [] {
      VisibleOfWhitespace(ws, s[1..]);
    }
  }

  /** Removing leading whitespace removes whitespace only. */
  lemma {:induction false} TrimStartKeepsVisible(ws: CharClass, s: string)
    ensures Visible(ws, TrimStart(ws, s)) == Visible(ws, s)
    decreases |s|
  {
    if s != [] && ws(s[0]) {
      TrimStartKeepsVisible(ws, s[1..]);
    }
  }

  /** Removing trailing whitespace removes whitespace only. */
  lemma {:induction false} TrimEndKeepsVisible(ws: CharClass, s: string)
    ensures Visible(ws, TrimEnd(ws, s)) == Visible(ws, s)
  {
    var e := TrimEnd(ws, s);
    assert s == e + s[|e|..];
    VisibleConcat(ws, e, s[|e|..]);
    VisibleOfWhitespace(ws, s[|e|..]);
  }

  /** Collapsing keeps the first character visible when it is. */
  lemma {:induction false} CollapseRunsStart(ws: CharClass, s: string)
    requires s == [] || !ws(s[0])
    ensures CollapseRuns(ws, s) == [] || !ws(CollapseRuns(ws, s)[0])
  {
    if s != [] {
      assert CollapseRuns(ws, s) == [s[0]] + CollapseRuns(ws, s[1..]);
    }
  }

  /** Collapsing starts with whitespace exactly when its input does, and is empty only for the empty text. */
  lemma {:induction false} CollapseRunsHead(ws: CharClass, s: string)
    requires ws(' ')
    ensures CollapseRuns(ws, s) == [] <==> s == []
    ensures s != [] ==> (ws(CollapseRuns(ws, s)[0]) <==> ws(s[0]))
  {
    if s != [] {
      if ws(s[0]) {
        assert CollapseRuns(ws, s)[0] == ' ';
      } else {
        assert CollapseRuns(ws, s)[0] == s[0];
      }
    }
  }

  /** Collapsing keeps the non-whitespace characters, in order. */
  lemma {:induction false} CollapseRunsKeepsVisible(ws: CharClass, s: string)
    requires ws(' ')
    ensures Visible(ws, CollapseRuns(ws, s)) == Visible(ws, s)
    decreases |s|
  {
    if s != [] {
      var c := [s[0]];
      assert s == c + s[1..];
      VisibleConcat(ws, c, s[1..]);
      if ws(s[0]) {
        var t := TrimStart(ws, s[1..]);
        CollapseRunsKeepsVisible(ws, t);
        TrimStartKeepsVisible(ws, s[1..]);
        VisibleConcat(ws, " ", CollapseRuns(ws, t));
      } else {
        CollapseRunsKeepsVisible(ws, s[1..]);
        VisibleConcat(ws, c, CollapseRuns(ws, s[1..]));
      }
    }
  }

  /** One character in front of a single-spaced text that cannot start a run. */
  lemma {:induction false} SingleSpacedCons(ws: CharClass, c: char, t: string)
    requires SingleSpaced(ws, t)
    requires ws(c) ==> c == ' ' && (t == [] || !ws(t[0]))
    ensures SingleSpaced(ws, [c] + t)
  {
    var u := [c] + t;
    forall k | 0 <= k < |u| - 1 ensures !(ws(u[k]) && ws(u[k + 1])) {
      if k > 0 {
        assert u[k] == t[k - 1] && u[k + 1] == t[k];
      }
    }
    forall k | 0 <= k < |u| && ws(u[k]) ensures u[k] == ' ' {
      if k > 0 {
        assert u[k] == t[k - 1];
      }
    }
  }

  /** Collapsing leaves a single-spaced text. */
  lemma {:induction false} CollapseRunsSingleSpaced(ws: CharClass, s: string)
    requires ws(' ')
    ensures SingleSpaced(ws, CollapseRuns(ws, s))
    decreases |s|
  {
    if s != [] {
      if ws(s[0]) {
        var t := TrimStart(ws, s[1..]);
        CollapseRunsSingleSpaced(ws, t);
        CollapseRunsHead(ws, t);
        SingleSpacedCons(ws, ' ', CollapseRuns(ws, t));
      } else {
        CollapseRunsSingleSpaced(ws, s[1..]);
        SingleSpacedCons(ws, s[0], CollapseRuns(ws, s[1..]));
      }
    }
  }

  /** A slice of a single-spaced text is single-spaced. */
  lemma {:induction false} SliceSingleSpaced(ws: CharClass, s: string, a: nat, b: nat)
    requires a <= b <= |s|
    requires SingleSpaced(ws, s)
    ensures SingleSpaced(ws, s[a..b])
  {
    var t := s[a..b];
    forall k | 0 <= k < |t| - 1 ensures !(ws(t[k]) && ws(t[k + 1])) {
      assert t[k] == s[a + k] && t[k + 1] == s[a + k + 1];
    }
  }

  /** Trimming a single-spaced text keeps it single-spaced. */
  lemma {:induction false} TrimSingleSpaced(ws: CharClass, s: string)
    requires SingleSpaced(ws, s)
    ensures SingleSpaced(ws, Trim(ws, s))
  {
    var u := TrimStart(ws, s);
    SliceSingleSpaced(ws, s, |s| - |u|, |s|);
    SliceSingleSpaced(ws, u, 0, |TrimEnd(ws, u)|);
  }

  /**
   * The cleaned text has no whitespace at either end and never two
   * whitespace characters in a row (every whitespace left is one space).
   */
  lemma {:induction false} CleanupWithIsClean(ws: CharClass, s: string)
    requires ws(' ')
    ensures IsClean(ws, CleanupWith(ws, s))
  {
    CollapseRunsSingleSpaced(ws, s);
    TrimSingleSpaced(ws, CollapseRuns(ws, s));
  }

  /** The non-whitespace characters of the cleaned text are those of the input, in order. */
  lemma {:induction false} CleanupWithKeepsVisible(ws: CharClass, s: string)
    requires ws(' ')
    ensures Visible(ws, CleanupWith(ws, s)) == Visible(ws, s)
  {
    CollapseRunsKeepsVisible(ws, s);
    TrimStartKeepsVisible(ws, CollapseRuns(ws, s));
    TrimEndKeepsVisible(ws, TrimStart(ws, CollapseRuns(ws, s)));
  }

  /** A cleaned text is empty exactly when the input is all whitespace. */
  lemma {:induction false} CleanupWithEmptyIffBlank(ws: CharClass, s: string)
    requires ws(' ')
    ensures CleanupWith(ws, s) == [] <==> Visible(ws, s) == []
  {
    CleanupWithKeepsVisible(ws, s);
    var r := CleanupWith(ws, s);
    if r != [] {
      CleanupWithIsClean(ws, s);
      assert !ws(r[0]);
      assert Visible(ws, r) == [r[0]] + Visible(ws, r[1..]);
    }
  }

  /** A single-spaced text has no run of two whitespace characters to collapse. */
  lemma {:induction false} CollapseRunsOfSingleSpaced(ws: CharClass, s: string)
    requires SingleSpaced(ws, s)
    ensures CollapseRuns(ws, s) == s
    decreases |s|
  {
    if s != [] {
      SliceSingleSpaced(ws, s, 1, |s|);
      CollapseRunsOfSingleSpaced(ws, s[1..]);
      if ws(s[0]) {
        assert s[1..] == [] || !ws(s[1..][0]);
        assert TrimStart(ws, s[1..]) == s[1..];
        assert s == " " + s[1..];
      } else {
        assert s == [s[0]] + s[1..];
      }
    }
  }

  /** A clean text is left as it is. */
  lemma {:induction false} CleanIsFixpoint(ws: CharClass, s: string)
    requires ws(' ')
    requires IsClean(ws, s)
    ensures CleanupWith(ws, s) == s
  {
    CollapseRunsOfSingleSpaced(ws, s);
    assert TrimStart(ws, s) == s;
    assert TrimEnd(ws, s) == s;
  }

  /** Cleaning twice is cleaning once. */
  lemma {:induction false} CleanupWithIdempotent(ws: CharClass, s: string)
    requires ws(' ')
    ensures CleanupWith(ws, CleanupWith(ws, s)) == CleanupWith(ws, s)
  {
    CleanupWithIsClean(ws, s);
    CleanIsFixpoint(ws, CleanupWith(ws, s));
  }

  /** A word without whitespace passes through collapsing unchanged. */
  lemma {:induction false} CollapseRunsAfterWord(ws: CharClass, w: string, t: string)
    requires forall k :: 0 <= k < |w| ==> !ws(w[k])
    ensures CollapseRuns(ws, w + t) == w + CollapseRuns(ws, t)
    decreases |w|
  {
    if w != [] {
      assert (w + t)[1..] == w[1..] + t;
      CollapseRunsAfterWord(ws, w[1..], t);
      assert w == [w[0]] + w[1..];
    } else {
      assert w + t == t;
    }
  }

  /** Leading whitespace in front of a word is cut exactly up to the word. */
  lemma {:induction false} TrimStartBeforeWord(ws: CharClass, sp: string, w: string)
    requires forall k :: 0 <= k < |sp| ==> ws(sp[k])
    requires w == [] || !ws(w[0])
    ensures TrimStart(ws, sp + w) == w
    decreases |sp|
  {
    if sp == [] {
      assert sp + w == w;
    } else {
      assert (sp + w)[1..] == sp[1..] + w;
      TrimStartBeforeWord(ws, sp[1..], w);
    }
  }

  /** A run of whitespace before a word collapses to one space. */
  lemma {:induction false} CollapseRunsBeforeWord(ws: CharClass, sp: string, w: string)
    requires sp != []
    requires forall k :: 0 <= k < |sp| ==> ws(sp[k])
    requires forall k :: 0 <= k < |w| ==> !ws(w[k])
    ensures CollapseRuns(ws, sp + w) == " " + w
  {
    var x := sp + w;
    assert x[0] == sp[0];
    assert x[1..] == sp[1..] + w;
    TrimStartBeforeWord(ws, sp[1..], w);
    CollapseRunsAfterWord(ws, w, []);
    assert w + [] == w;
  }

  /** A text with visible characters at both ends is left alone by Trim. */
  lemma {:induction false} TrimOfVisibleEnds(ws: CharClass, s: string)
    requires s != [] && !ws(s[0]) && !ws(s[|s| - 1])
    ensures Trim(ws, s) == s
  {
    TrimStartOfTrimmed(ws, s);
  }

  /** Two words separated by any run of whitespace are cleaned to the words and one space. */
  lemma {:induction false} TwoWords(ws: CharClass, w1: string, sp: string, w2: string)
    requires ws(' ')
    requires w1 != [] && w2 != [] && sp != []
    requires forall k :: 0 <= k < |w1| ==> !ws(w1[k])
    requires forall k :: 0 <= k < |w2| ==> !ws(w2[k])
    requires forall k :: 0 <= k < |sp| ==> ws(sp[k])
    ensures CleanupWith(ws, w1 + sp + w2) == w1 + " " + w2
  {
    assert w1 + sp + w2 == w1 + (sp + w2);
    CollapseRunsAfterWord(ws, w1, sp + w2);
    CollapseRunsBeforeWord(ws, sp, w2);
    var r := w1 + (" " + w2);
    assert w1 + " " + w2 == r;
    assert r[0] == w1[0] && r[|r| - 1] == w2[|w2| - 1];
    TrimOfVisibleEnds(ws, r);
  }

  /** The longest prefix of s without whitespace. */
  function TakeWord(ws: CharClass, s: string): (w: string)
    ensures |w| <= |s| && w == s[..|w|]
    ensures forall k :: 0 <= k < |w| ==> !ws(w[k])
    ensures |w| == |s| || ws(s[|w|])
  {
    if s == [] || ws(s[0]) then [] else [s[0]] + TakeWord(ws, s[1..])
  }

  /** A non-empty text without whitespace. */
  predicate IsWord(ws: CharClass, w: string) {
    w != [] && forall k :: 0 <= k < |w| ==> !ws(w[k])
  }

  /** The maximal runs of non-whitespace characters of s, in order. */
  function Words(ws: CharClass, s: string): (words: seq<string>)
    ensures forall j :: 0 <= j < |words| ==> IsWord(ws, words[j])
    decreases |s|
  {
    var t := TrimStart(ws, s);
    if t == [] then [] else
    var w := TakeWord(ws, t);
    assert IsWord(ws, w);
    var rest := Words(ws, t[|w|..]);
    assert forall j :: 0 <= j < |rest| ==> IsWord(ws, rest[j]);
    [w] + rest
  }

  /** The words separated by single spaces. */
  function JoinWords(words: seq<string>): string {
    if |words| == 0 then ""
    else if |words| == 1 then words[0]
    else words[0] + " " + JoinWords(words[1..])
  }

  lemma {:induction false} TrimStartOfTrimmed(ws: CharClass, s: string)
    requires s == [] || !ws(s[0])
    ensures TrimStart(ws, s) == s
  {
  }

  /** Words do not see leading whitespace. */
  lemma {:induction false} WordsAfterTrimStart(ws: CharClass, s: string)
    ensures Words(ws, TrimStart(ws, s)) == Words(ws, s)
  {
    TrimStartOfTrimmed(ws, TrimStart(ws, s));
  }

  lemma {:induction false} TrimStartAfterSpace(ws: CharClass, c: string)
    requires ws(' ')
    ensures TrimStart(ws, " " + c) == TrimStart(ws, c)
  {
    var d := " " + c;
    assert d[0] == ' ' && d[1..] == c;
  }

  /** Collapsing and removing leading whitespace can be done in either order. */
  lemma {:induction false} TrimStartCollapseRuns(ws: CharClass, s: string)
    requires ws(' ')
    ensures TrimStart(ws, CollapseRuns(ws, s)) == CollapseRuns(ws, TrimStart(ws, s))
  {
    if s != [] && ws(s[0]) {
      var t := TrimStart(ws, s[1..]);
      var c := CollapseRuns(ws, t);
      CollapseRunsStart(ws, t);
      TrimStartOfTrimmed(ws, c);
      TrimStartAfterSpace(ws, c);
    } else {
      CollapseRunsStart(ws, s);
      TrimStartOfTrimmed(ws, CollapseRuns(ws, s));
    }
  }

  /** Trailing whitespace after the last visible character of b is all TrimEnd removes. */
  lemma {:induction false} TrimEndAppend(ws: CharClass, a: string, b: string)
    requires TrimEnd(ws, b) != []
    ensures TrimEnd(ws, a + b) == a + TrimEnd(ws, b)
    decreases |b|
  {
    var c := a + b;
    if ws(b[|b| - 1]) {
      assert c[..|c| - 1] == a + b[..|b| - 1];
      TrimEndAppend(ws, a, b[..|b| - 1]);
    }
  }

  /** A word followed by whitespace only is trimmed back to the word. */
  lemma {:induction false} TrimEndAfterWord(ws: CharClass, w: string, sp: string)
    requires w != [] && !ws(w[|w| - 1])
    requires forall k :: 0 <= k < |sp| ==> ws(sp[k])
    ensures TrimEnd(ws, w + sp) == w
    decreases |sp|
  {
    if sp == [] {
      assert w + sp == w;
    } else {
      assert (w + sp)[..|w + sp| - 1] == w + sp[..|sp| - 1];
      TrimEndAfterWord(ws, w, sp[..|sp| - 1]);
    }
  }

  /** Whitespace only collapses to at most one space. */
  lemma {:induction false} CollapseRunsOfBlank(ws: CharClass, s: string)
    requires ws(' ')
    requires TrimStart(ws, s) == []
    ensures forall k :: 0 <= k < |CollapseRuns(ws, s)| ==> ws(CollapseRuns(ws, s)[k])
  {
    if s != [] {
      assert TrimStart(ws, s[1..]) == [];
      assert CollapseRuns(ws, s) == " ";
    }
  }

  /** A text that starts with whitespace collapses to one space and the rest. */
  lemma {:induction false} CollapseRunsOfSpaced(ws: CharClass, s: string)
    requires s != [] && ws(s[0])
    ensures CollapseRuns(ws, s) == " " + CollapseRuns(ws, TrimStart(ws, s))
  {
  }

  /** TrimEnd keeps a text whose first character is visible non-empty. */
  lemma {:induction false} TrimEndKeepsFirst(ws: CharClass, s: string)
    requires s != [] && !ws(s[0])
    ensures TrimEnd(ws, s) != []
  {
  }

  lemma {:induction false} JoinWordsCons(w: string, words: seq<string>)
    requires words != []
    ensures JoinWords([w] + words) == w + " " + JoinWords(words)
  {
    assert ([w] + words)[1..] == words;
  }

  /** A text that starts with a visible character splits into its first word and the rest. */
  lemma {:induction false} FirstWord(ws: CharClass, t: string)
    requires t != [] && !ws(t[0])
    ensures var w := TakeWord(ws, t);
      && IsWord(ws, w)
      && CollapseRuns(ws, t) == w + CollapseRuns(ws, t[|w|..])
      && Words(ws, t) == [w] + Words(ws, TrimStart(ws, t[|w|..]))
  {
    var w := TakeWord(ws, t);
    var rest := t[|w|..];
    assert t == w + rest;
    CollapseRunsAfterWord(ws, w, rest);
    TrimStartOfTrimmed(ws, t);
    WordsAfterTrimStart(ws, rest);
  }

  /** A text that starts with a visible character has a first word. */
  lemma {:induction false} WordsOfVisibleStart(ws: CharClass, t: string)
    requires t != [] && !ws(t[0])
    ensures Words(ws, t) != []
  {
    TrimStartOfTrimmed(ws, t);
  }

  /** After a word, whitespace and more words: the separator becomes one space. */
  lemma {:induction false} TrimEndWordThenSpaced(ws: CharClass, w: string, rest: string)
    requires ws(' ')
    requires rest != [] && ws(rest[0]) && TrimStart(ws, rest) != []
    ensures TrimEnd(ws, w + CollapseRuns(ws, rest)) == w + " " + TrimEnd(ws, CollapseRuns(ws, TrimStart(ws, rest)))
  {
    var u := TrimStart(ws, rest);
    CollapseRunsOfSpaced(ws, rest);
    CollapseRunsStart(ws, u);
    var cu := CollapseRuns(ws, u);
    assert cu != [] by {
      assert cu == [u[0]] + CollapseRuns(ws, u[1..]);
    }
    TrimEndKeepsFirst(ws, cu);
    assert w + CollapseRuns(ws, rest) == (w + " ") + cu;
    TrimEndAppend(ws, w + " ", cu);
  }

  /**
   * For a text with no leading whitespace, collapsing and removing the
   * trailing whitespace gives its words joined by single spaces.
   */
  lemma {:induction false} CollapsedIsJoinedWords(ws: CharClass, t: string)
    requires ws(' ')
    requires t == [] || !ws(t[0])
    ensures TrimEnd(ws, CollapseRuns(ws, t)) == JoinWords(Words(ws, t))
    decreases |t|
  {
    if t != [] {
      FirstWord(ws, t);
      var w := TakeWord(ws, t);
      var rest := t[|w|..];
      var u := TrimStart(ws, rest);
      if u == [] {
        CollapseRunsOfBlank(ws, rest);
        TrimEndAfterWord(ws, w, CollapseRuns(ws, rest));
      } else {
        CollapsedIsJoinedWords(ws, u);
        assert rest != [] && rest[0] == t[|w|];
        TrimEndWordThenSpaced(ws, w, rest);
        WordsOfVisibleStart(ws, u);
        JoinWordsCons(w, Words(ws, u));
      }
    }
  }

  /**
   * The cleaned text is the input's words, the maximal runs of
   * non-whitespace characters, joined by single spaces.
   */
  lemma {:induction false} CleanupWithIsJoinedWords(ws: CharClass, s: string)
    requires ws(' ')
    ensures CleanupWith(ws, s) == JoinWords(Words(ws, s))
  {
    TrimStartCollapseRuns(ws, s);
    CollapsedIsJoinedWords(ws, TrimStart(ws, s));
    WordsAfterTrimStart(ws, s);
  }

  /** The cleanup applied by the scanner: ECMAScript whitespace. */
  function Cleanup(s: string): (r: string)
    ensures IsClean(IsWhitespace, r)
    ensures Visible(IsWhitespace, r) == Visible(IsWhitespace, s)
    ensures r == [] <==> Visible(IsWhitespace, s) == []
  {
    assert IsWhitespace(' ');
    CleanupWithIsClean(IsWhitespace, s);
    CleanupWithKeepsVisible(IsWhitespace, s);
    CleanupWithEmptyIffBlank(IsWhitespace, s);
    CleanupWith(IsWhitespace, s)
  }

  /**
   * The cleaned text is the input's words, the maximal runs of
   * non-whitespace characters, joined by single spaces.
   */
  lemma CleanupIsJoinedWords(s: string)
    ensures Cleanup(s) == JoinWords(Words(IsWhitespace, s))
  {
    assert IsWhitespace(' ');
    CleanupWithIsJoinedWords(IsWhitespace, s);
  }

  /** Cleaning twice is cleaning once. */
  lemma CleanupIdempotent(s: string)
    ensures Cleanup(Cleanup(s)) == Cleanup(s)
  {
    assert IsWhitespace(' ');
    CleanupWithIdempotent(IsWhitespace, s);
  }

  /** The example as the two words and the blank run between them. */
  lemma HelloWorldParts()
    ensures CleanupWith(IsWhitespace, "Hello," + "   " + "World!") == "Hello," + " " + "World!"
  {
    var w1, w2 := "Hello,", "World!";
    assert forall k :: 0 <= k < |w1| ==> '!' <= w1[k] <= '~';
    assert forall k :: 0 <= k < |w2| ==> '!' <= w2[k] <= '~';
    TwoWords(IsWhitespace, w1, "   ", w2);
  }

  /** "Hello,   World!" is cleaned to "Hello, World!". */
  lemma ExampleHelloWorld()
    ensures Cleanup("Hello,   World!") == "Hello, World!"
  {
    HelloWorldParts();
    assert "Hello,   World!" == "Hello," + "   " + "World!";
    assert "Hello, World!" == "Hello," + " " + "World!";
  }
}
