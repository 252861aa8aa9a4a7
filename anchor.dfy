/**
 * The anchor slugger: turns a rendered heading such as "GET /endpoint/method{id}"
 * into the fragment "get-endpoint-method-id" that the published reference uses
 * as the id of that heading.
 *
 * Letters and '_' are kept (letters lowercased); every run of other characters
 * becomes a single '-', written only in front of the next kept character.
 */
module Anchor {

  /** The ASCII characters Python's str.isspace() accepts: these are what str.strip() removes. */
  predicate IsSpace(c: char) {
    var n := c as int;
    n == 32 || 9 <= n <= 13 || 28 <= n <= 31
  }

  predicate IsAsciiLetter(c: char) {
    'A' <= c <= 'Z' || 'a' <= c <= 'z'
  }

  /** A character the slugger keeps: a letter or an underscore. */
  predicate IsWordChar(c: char) {
    c == '_' || IsAsciiLetter(c)
  }

  /** A character a slug may hold in front of, or instead of, a separator. */
  predicate IsSlugLetter(c: char) {
    c == '_' || 'a' <= c <= 'z'
  }

  function Lower(c: char): (d: char)
    ensures IsWordChar(c) ==> IsSlugLetter(d)
    ensures IsSlugLetter(c) ==> d == c
  {
    if 'A' <= c <= 'Z' then (c as int + 32) as char else c
  }

  /** str.lstrip(): drops the leading whitespace. */
  function StripLeft(s: string): string {
    if s != [] && IsSpace(s[0]) then StripLeft(s[1..]) else s
  }

  /** str.rstrip(): drops the trailing whitespace. */
  function StripRight(s: string): string {
    if s != [] && IsSpace(s[|s| - 1]) then StripRight(s[..|s| - 1]) else s
  }

  /** What lstrip removes is a run of whitespace in front of what it keeps. */
  lemma {:induction false} StripLeftSplits(s: string)
    ensures var r := StripLeft(s);
      |r| <= |s| && r == s[|s| - |r|..] &&
      (forall k :: 0 <= k < |s| - |r| ==> IsSpace(s[k])) &&
      (r == [] || !IsSpace(r[0]))
    decreases |s|
  {
    if s != [] && IsSpace(s[0]) {
      StripLeftSplits(s[1..]);
    }
  }

  /** What rstrip removes is a run of whitespace behind what it keeps. */
  lemma {:induction false} StripRightSplits(s: string)
    ensures var r := StripRight(s);
      |r| <= |s| && r == s[..|r|] &&
      (forall k :: |r| <= k < |s| ==> IsSpace(s[k])) &&
      (r == [] || !IsSpace(r[|r| - 1]))
    decreases |s|
  {
    if s != [] && IsSpace(s[|s| - 1]) {
      StripRightSplits(s[..|s| - 1]);
    }
  }

  function Strip(s: string): string {
    StripRight(StripLeft(s))
  }

  /**
   * The slugging automaton run over `s` from the state `accum` ("a separator is
   * pending"): what it appends to the result.
   */
  function Scan(s: string, accum: bool): string {
    if s == [] then [] else Emit(s[0], accum) + Scan(s[1..], !IsWordChar(s[0]))
  }

  /** What the automaton writes on reading `c` in the state `accum`. */
  function Emit(c: char, accum: bool): string {
    if !IsWordChar(c) then [] else if accum then ['-', Lower(c)] else [Lower(c)]
  }

  /** convert_to_anchor as a function of its input. */
  function Slug(reference: string): string {
    Scan(Strip(reference), false)
  }

  /**
   * convert_to_anchor (apilinks.py:52-71): strips the input, then scans it once,
   * growing the result and toggling `accum`.
   */
  method ConvertToAnchor(reference: string) returns (result: string)
    ensures result == Slug(reference)
  {
    result := "";
    var accum := false;
    var header := Strip(reference);
    for i := 0 to |header|
      invariant result + Scan(header[i..], accum) == Scan(header, false)
    {
      var c := header[i];
      ScanStep(header, i, accum);
      if c == '_' || IsAsciiLetter(c) {
        if accum {
          accum := false;
          result := result + ['-', Lower(c)];
        } else {
          result := result + [Lower(c)];
        }
      } else {
        accum := true;
      }
    }
    assert header[|header|..] == [];
  }

  /** One step of the automaton, read off a suffix of the input. */
  lemma ScanStep(s: string, i: nat, accum: bool)
    requires i < |s|
    ensures Scan(s[i..], accum) == Emit(s[i], accum) + Scan(s[i + 1..], !IsWordChar(s[i]))
  {
    assert s[i..][1..] == s[i + 1..];
  }

  /**
   * The shape of every slug: only lowercase letters, '_' and '-', and every '-'
   * is immediately followed by a letter or '_'.
   */
  ghost predicate IsSlug(r: string) {
    forall i :: 0 <= i < |r| ==> SlugAt(r, i)
  }

  /** Position `i` of `r` is a slug letter, or a '-' followed by one. */
  ghost predicate SlugAt(r: string, i: nat)
    requires i < |r|
  {
    (IsSlugLetter(r[i]) || r[i] == '-') &&
    (r[i] == '-' ==> i + 1 < |r| && IsSlugLetter(r[i + 1]))
  }

  lemma SlugConcat(a: string, b: string)
    requires IsSlug(a) && IsSlug(b)
    ensures IsSlug(a + b)
  {
    var ab := a + b;
    forall i | 0 <= i < |ab|
      ensures SlugAt(ab, i)
    {
      if i < |a| {
        assert SlugAt(a, i);
        assert ab[i] == a[i];
        if a[i] == '-' { assert ab[i + 1] == a[i + 1]; }
      } else {
        assert SlugAt(b, i - |a|);
        assert ab[i] == b[i - |a|];
        if b[i - |a|] == '-' { assert ab[i + 1] == b[i - |a| + 1]; }
      }
    }
  }

  lemma {:induction false} ScanIsSlug(s: string, accum: bool)
    ensures IsSlug(Scan(s, accum))
    decreases |s|
  {
    if s != [] {
      var head := Emit(s[0], accum);
      assert IsSlug(head) by {
        if IsWordChar(s[0]) && accum { assert SlugAt(head, 0) && SlugAt(head, 1); }
      }
      ScanIsSlug(s[1..], !IsWordChar(s[0]));
      SlugConcat(head, Scan(s[1..], !IsWordChar(s[0])));
    }
  }

  /** Every output character is a lowercase letter, '_' or '-'; every '-' is followed by one of the first two. */
  lemma SlugIsSlug(reference: string)
    ensures IsSlug(Slug(reference))
  {
    ScanIsSlug(Strip(reference), false);
  }

  /** Consequences of the shape: a slug never ends in '-' and never holds "--". */
  lemma SlugSeparators(reference: string)
    ensures var r := Slug(reference);
      (r != [] ==> r[|r| - 1] != '-') &&
      forall i :: 0 <= i < |r| - 1 ==> !(r[i] == '-' && r[i + 1] == '-')
  {
    SlugIsSlug(reference);
    var r := Slug(reference);
    if r != [] {
      assert SlugAt(r, |r| - 1);
    }
    forall i | 0 <= i < |r| - 1
      ensures !(r[i] == '-' && r[i + 1] == '-')
    {
      assert SlugAt(r, i);
    }
  }

  lemma SlugSuffix(r: string, k: nat)
    requires IsSlug(r) && k <= |r|
    requires 0 < k ==> r[k - 1] != '-'
    ensures IsSlug(r[k..])
  {
    var t := r[k..];
    forall i | 0 <= i < |t|
      ensures SlugAt(t, i)
    {
      assert SlugAt(r, k + i);
      assert t[i] == r[k + i];
      if t[i] == '-' {
        assert t[i + 1] == r[k + i + 1];
      }
    }
  }

  /** The automaton leaves a slug as it is. */
  lemma {:induction false} ScanFixesSlug(r: string)
    requires IsSlug(r)
    ensures Scan(r, false) == r
    decreases |r|
  {
    if r == [] {
    } else if r[0] == '-' {
      assert SlugAt(r, 0);
      SlugSuffix(r, 2);
      ScanFixesSlug(r[2..]);
      assert r[1..][1..] == r[2..];
      calc {
        Scan(r, false);
        Scan(r[1..], true);
        Emit(r[1], true) + Scan(r[2..], false);
        ['-', r[1]] + r[2..];
        r;
      }
    } else {
      assert SlugAt(r, 0);
      SlugSuffix(r, 1);
      ScanFixesSlug(r[1..]);
      assert [r[0]] + r[1..] == r;
    }
  }

  lemma SlugHasNoSpace(r: string)
    requires IsSlug(r)
    ensures Strip(r) == r
  {
    if r != [] {
      assert SlugAt(r, 0);
      assert SlugAt(r, |r| - 1);
    }
    assert StripLeft(r) == r;
    StripRightSplits(r);
  }

  /** convert_to_anchor is idempotent: slugging a slug gives it back. */
  lemma SlugIdempotent(reference: string)
    ensures Slug(Slug(reference)) == Slug(reference)
  {
    var r := Slug(reference);
    SlugIsSlug(reference);
    SlugHasNoSpace(r);
    ScanFixesSlug(r);
  }

  /** The lowercased letters and underscores of `s`, in order. */
  function LowerWords(s: string): string {
    if s == [] then []
    else (if IsWordChar(s[0]) then [Lower(s[0])] else []) + LowerWords(s[1..])
  }

  /** `r` with its separators removed. */
  function Undash(r: string): string {
    if r == [] then [] else (if r[0] == '-' then [] else [r[0]]) + Undash(r[1..])
  }

  lemma {:induction false} UndashConcat(a: string, b: string)
    ensures Undash(a + b) == Undash(a) + Undash(b)
    decreases |a|
  {
    if a == [] {
      assert a + b == b;
    } else {
      assert (a + b)[1..] == a[1..] + b;
      UndashConcat(a[1..], b);
    }
  }

  lemma {:induction false} LowerWordsConcat(a: string, b: string)
    ensures LowerWords(a + b) == LowerWords(a) + LowerWords(b)
    decreases |a|
  {
    if a == [] {
      assert a + b == b;
    } else {
      assert (a + b)[1..] == a[1..] + b;
      LowerWordsConcat(a[1..], b);
    }
  }

  lemma {:induction false} LowerWordsOfSpaces(s: string)
    requires forall k :: 0 <= k < |s| ==> IsSpace(s[k])
    ensures LowerWords(s) == []
    decreases |s|
  {
    if s != [] {
      LowerWordsOfSpaces(s[1..]);
    }
  }

  lemma {:induction false} ScanKeepsWords(s: string, accum: bool)
    ensures Undash(Scan(s, accum)) == LowerWords(s)
    decreases |s|
  {
    if s != [] {
      var head := Emit(s[0], accum);
      ScanKeepsWords(s[1..], !IsWordChar(s[0]));
      UndashConcat(head, Scan(s[1..], !IsWordChar(s[0])));
      assert Undash(head) == if IsWordChar(s[0]) then [Lower(s[0])] else [];
    }
  }

  lemma StripLeftKeepsWords(s: string)
    ensures LowerWords(StripLeft(s)) == LowerWords(s)
  {
    var l := StripLeft(s);
    StripLeftSplits(s);
    var i := |s| - |l|;
    assert s == s[..i] + l;
    LowerWordsConcat(s[..i], l);
    LowerWordsOfSpaces(s[..i]);
  }

  lemma StripRightKeepsWords(s: string)
    ensures LowerWords(StripRight(s)) == LowerWords(s)
  {
    var r := StripRight(s);
    StripRightSplits(s);
    assert s == r + s[|r|..];
    LowerWordsConcat(r, s[|r|..]);
    LowerWordsOfSpaces(s[|r|..]);
  }

  /**
   * Dropping the separators from a slug gives exactly the letters and
   * underscores of the input, lowercased and in order: nothing else is kept
   * and nothing is lost.
   */
  lemma SlugKeepsWords(reference: string)
    ensures Undash(Slug(reference)) == LowerWords(reference)
  {
    ScanKeepsWords(Strip(reference), false);
    StripLeftKeepsWords(reference);
    StripRightKeepsWords(StripLeft(reference));
  }

  /** The automaton reads a concatenation piece by piece; the state between the pieces is set by the last character read. */
  lemma {:induction false} ScanAppend(a: string, b: string, accum: bool)
    ensures Scan(a + b, accum) == Scan(a, accum) + Scan(b, if a == [] then accum else !IsWordChar(a[|a| - 1]))
    decreases |a|
  {
    if a == [] {
      assert a + b == b;
    } else {
      assert (a + b)[0] == a[0];
      assert (a + b)[1..] == a[1..] + b;
      ScanAppend(a[1..], b, !IsWordChar(a[0]));
      if a[1..] != [] {
        assert a[1..][|a[1..]| - 1] == a[|a| - 1];
      }
    }
  }

  /** `w` is made of letters and underscores only. */
  predicate AllWordChars(w: string) {
    forall c | c in w :: IsWordChar(c)
  }

  /** `x` holds no letter and no underscore. */
  predicate NoWordChars(x: string) {
    forall c | c in x :: !IsWordChar(c)
  }

  /** A run of letters and underscores is copied lowercased, behind a '-' if one is pending. */
  lemma {:induction false} ScanWordRun(w: string, accum: bool)
    requires AllWordChars(w)
    ensures Scan(w, accum) == (if accum && w != [] then ['-'] else []) + LowerWords(w)
    decreases |w|
  {
    if w != [] {
      ScanWordRun(w[1..], false);
    }
  }

  /** A run of other characters writes nothing. */
  lemma {:induction false} ScanSeparatorRun(x: string, accum: bool)
    requires NoWordChars(x)
    ensures Scan(x, accum) == []
    decreases |x|
  {
    if x != [] {
      ScanSeparatorRun(x[1..], true);
    }
  }

  lemma {:induction false} LastOfRun(s: string)
    requires s != []
    ensures AllWordChars(s) ==> IsWordChar(s[|s| - 1])
    ensures NoWordChars(s) ==> !IsWordChar(s[|s| - 1])
    decreases |s|
  {
    if |s| > 1 {
      LastOfRun(s[1..]);
    }
  }

  /** Reading a run of other characters, a word, then `rest`: the state after the word is "nothing pending". */
  lemma SeparatedWordThen(x: string, w: string, rest: string, accum: bool)
    requires x != [] && NoWordChars(x)
    requires w != [] && AllWordChars(w)
    ensures Scan(x + w + rest, accum) == ['-'] + LowerWords(w) + Scan(rest, false)
  {
    var xw := x + w;
    SeparatedWord(x, w, accum);
    LastOfRun(w);
    assert xw[|xw| - 1] == w[|w| - 1];
    ScanAppend(xw, rest, accum);
  }

  /** Reading a run of other characters, then a word. */
  lemma SeparatedWord(x: string, w: string, accum: bool)
    requires x != [] && NoWordChars(x)
    requires w != [] && AllWordChars(w)
    ensures Scan(x + w, accum) == ['-'] + LowerWords(w)
  {
    LastOfRun(x);
    ScanAppend(x, w, accum);
    ScanSeparatorRun(x, accum);
    ScanWordRun(w, true);
    assert Scan(x + w, accum) == [] + (['-'] + LowerWords(w));
  }

  /** `w` is made of lowercase letters and underscores only. */
  predicate AllSlugLetters(w: string) {
    forall c | c in w :: IsSlugLetter(c)
  }

  lemma {:induction false} LowerWordsFixesSlugLetters(w: string)
    requires AllSlugLetters(w)
    ensures AllWordChars(w) && LowerWords(w) == w
    decreases |w|
  {
    if w != [] {
      LowerWordsFixesSlugLetters(w[1..]);
      assert [w[0]] + w[1..] == w;
    }
  }

  /** A run of letters and underscores in front of `rest`: the state after it is "nothing pending". */
  lemma WordThen(w: string, rest: string)
    requires w != [] && AllWordChars(w)
    ensures Scan(w + rest, false) == LowerWords(w) + Scan(rest, false)
  {
    ScanWordRun(w, false);
    LastOfRun(w);
    ScanAppend(w, rest, false);
  }

  /** A string with no whitespace at either end is left alone by strip(). */
  lemma StripKeeps(s: string)
    requires s != [] && !IsSpace(s[0]) && !IsSpace(s[|s| - 1])
    ensures Strip(s) == s
  {
  }

  /** A separator run, a word already in lowercase, then `rest`. */
  lemma SlugWordThen(x: string, w: string, rest: string)
    requires x != [] && NoWordChars(x)
    requires w != [] && AllSlugLetters(w)
    ensures Scan(x + w + rest, false) == ['-'] + w + Scan(rest, false)
  {
    LowerWordsFixesSlugLetters(w);
    SeparatedWordThen(x, w, rest, false);
  }

  /** A word, then three lowercase words each behind a separator run, then a last separator run. */
  lemma FourWords(w0: string, x1: string, w1: string, x2: string, w2: string, x3: string, w3: string, x4: string)
    requires w0 != [] && AllWordChars(w0)
    requires x1 != [] && NoWordChars(x1) && w1 != [] && AllSlugLetters(w1)
    requires x2 != [] && NoWordChars(x2) && w2 != [] && AllSlugLetters(w2)
    requires x3 != [] && NoWordChars(x3) && w3 != [] && AllSlugLetters(w3)
    requires NoWordChars(x4)
    ensures Scan(w0 + (x1 + w1 + (x2 + w2 + (x3 + w3 + x4))), false)
         == LowerWords(w0) + (['-'] + w1 + (['-'] + w2 + (['-'] + w3)))
  {
    var t3 := x3 + w3 + x4;
    var t2 := x2 + w2 + t3;
    var t1 := x1 + w1 + t2;
    ScanSeparatorRun(x4, false);
    SlugWordThen(x3, w3, x4);
    assert Scan(t3, false) == ['-'] + w3;
    SlugWordThen(x2, w2, t3);
    SlugWordThen(x1, w1, t2);
    WordThen(w0, t1);
  }

  lemma ExampleRuns(w0: string, x1: string, w1: string, x2: string, w2: string, x3: string, w3: string, x4: string)
    requires w0 == "GET" && x1 == " /" && w1 == "endpoint" && x2 == "/"
    requires w2 == "method" && x3 == "{" && w3 == "id" && x4 == "}"
    ensures AllWordChars(w0) && LowerWords(w0) == "get"
    ensures NoWordChars(x1) && NoWordChars(x2) && NoWordChars(x3) && NoWordChars(x4)
    ensures AllSlugLetters(w1) && AllSlugLetters(w2) && AllSlugLetters(w3)
  {
    assert w0[1..][1..][1..] == [];
    assert LowerWords(w0[1..][1..]) == "t";
    assert LowerWords(w0[1..]) == "et";
  }

  /**
   * The example of convert_to_anchor's docstring, "GET /endpoint/method{id}",
   * given in its pieces: words and the separator runs between them.
   */
  lemma SlugExample(w0: string, x1: string, w1: string, x2: string, w2: string, x3: string, w3: string, x4: string)
    requires w0 == "GET" && x1 == " /" && w1 == "endpoint" && x2 == "/"
    requires w2 == "method" && x3 == "{" && w3 == "id" && x4 == "}"
    ensures Slug(w0 + x1 + w1 + x2 + w2 + x3 + w3 + x4) == "get-endpoint-method-id"
  {
    var s := w0 + (x1 + w1 + (x2 + w2 + (x3 + w3 + x4)));
    assert s == w0 + x1 + w1 + x2 + w2 + x3 + w3 + x4;
    StripKeeps(s);
    ExampleRuns(w0, x1, w1, x2, w2, x3, w3, x4);
    FourWords(w0, x1, w1, x2, w2, x3, w3, x4);
  }
}
