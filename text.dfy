/**
 * The string primitives qarrayrun relies on: Python's notion of whitespace,
 * `str.replace`, `str.split()` with no separator, and the way iterating over
 * a text file yields its lines with their terminators kept.
 */
module Text {

  /** The characters Python 3's `str.isspace`, and so `str.split()`, treats as whitespace. */
  predicate IsSpace(c: char)
  {
    c == ' ' || ('\t' <= c <= '\r') || ('\U{1c}' <= c <= '\U{1f}')
    || c == '\U{85}' || c == '\U{a0}' || c == '\U{1680}' || ('\U{2000}' <= c <= '\U{200a}')
    || c == '\U{2028}' || c == '\U{2029}' || c == '\U{202f}' || c == '\U{205f}' || c == '\U{3000}'
  }

  predicate NoSpace(s: string)
  {
    forall i :: 0 <= i < |s| ==> !IsSpace(s[i])
  }

  predicate AllSpace(s: string)
  {
    forall i :: 0 <= i < |s| ==> IsSpace(s[i])
  }

  // ---------------------------------------------------------------------------
  // str.replace

  /** `pat` occurs in `s` starting at index `i`. */
  predicate OccursAt(s: string, pat: string, i: nat)
  {
    i + |pat| <= |s| && s[i..i + |pat|] == pat
  }

  predicate Occurs(s: string, pat: string)
  {
    exists i: nat | i <= |s| :: OccursAt(s, pat, i)
  }

  /**
   * `s.replace(pat, rep)`: scanning left to right, every occurrence of `pat`
   * that does not overlap an earlier replaced one is replaced by `rep`; the
   * scan resumes after the replaced occurrence, so `rep` itself is never rescanned.
   */
  function Replace(s: string, pat: string, rep: string): string
    requires |pat| > 0
    decreases |s|
  {
    if |s| < |pat| then s
    else if s[..|pat|] == pat then rep + Replace(s[|pat|..], pat, rep)
    else [s[0]] + Replace(s[1..], pat, rep)
  }

  /** A string without an occurrence of the pattern is left unchanged. */
  lemma {:induction false} ReplaceAbsent(s: string, pat: string, rep: string)
    requires |pat| > 0
    requires !Occurs(s, pat)
    ensures Replace(s, pat, rep) == s
    decreases |s|
  {
    if |s| < |pat| {
    } else {
      assert s[0..|pat|] == s[..|pat|];
      assert !OccursAt(s, pat, 0);
      forall i: nat | i <= |s[1..]| && OccursAt(s[1..], pat, i)
        ensures false
      {
        assert s[1..][i..i + |pat|] == s[i + 1..i + 1 + |pat|];
        assert OccursAt(s, pat, i + 1);
      }
      ReplaceAbsent(s[1..], pat, rep);
    }
  }

  /** Replacing a pattern by itself changes nothing. */
  lemma {:induction false} ReplaceBySelf(s: string, pat: string)
    requires |pat| > 0
    ensures Replace(s, pat, pat) == s
    decreases |s|
  {
    if |s| < |pat| {
    } else if s[..|pat|] == pat {
      ReplaceBySelf(s[|pat|..], pat);
      assert s == s[..|pat|] + s[|pat|..];
    } else {
      ReplaceBySelf(s[1..], pat);
      assert s == [s[0]] + s[1..];
    }
  }

  /** When the whole string is the pattern, the result is the replacement. */
  lemma ReplaceWhole(pat: string, rep: string)
    requires |pat| > 0
    ensures Replace(pat, pat, rep) == rep
  {
    assert pat[..|pat|] == pat;
    assert pat[|pat|..] == [];
    assert Replace([], pat, rep) == [];
    assert rep + [] == rep;
  }

  /** A prefix at none of whose positions the pattern starts is copied through unchanged. */
  lemma {:induction false} ReplaceSkip(a: string, b: string, pat: string, rep: string)
    requires |pat| > 0
    requires forall i: nat :: i < |a| ==> !OccursAt(a + b, pat, i)
    ensures Replace(a + b, pat, rep) == a + Replace(b, pat, rep)
    decreases |a|
  {
    var s := a + b;
    if a == [] {
      assert s == b;
    } else if |s| < |pat| {
      assert Replace(b, pat, rep) == b;
    } else {
      assert !OccursAt(s, pat, 0);
      assert s[..|pat|] != pat by {
        assert s[0..|pat|] == s[..|pat|];
      }
      assert Replace(s, pat, rep) == [a[0]] + Replace(s[1..], pat, rep);
      assert s[1..] == a[1..] + b;
      forall i: nat | i < |a[1..]|
        ensures !OccursAt(a[1..] + b, pat, i)
      {
        assert !OccursAt(s, pat, i + 1);
        OccursAtShift(s, pat, i);
      }
      ReplaceSkip(a[1..], b, pat, rep);
      assert a == [a[0]] + a[1..];
    }
  }

  /** An occurrence one position further in `s` is an occurrence in `s[1..]`. */
  lemma OccursAtShift(s: string, pat: string, i: nat)
    requires |s| > 0
    ensures OccursAt(s, pat, i + 1) <==> OccursAt(s[1..], pat, i)
  {
    if i + 1 + |pat| <= |s| {
      assert s[1..][i..i + |pat|] == s[i + 1..i + 1 + |pat|];
    }
  }

  /** An occurrence `k` positions further in `s` is an occurrence in `s[k..]`. */
  lemma OccursAtDrop(s: string, pat: string, k: nat, j: nat)
    requires k <= |s|
    ensures OccursAt(s[k..], pat, j) <==> OccursAt(s, pat, j + k)
  {
    if j + k + |pat| <= |s| {
      assert s[k..][j..j + |pat|] == s[j + k..j + k + |pat|];
    }
  }

  /**
   * When no occurrence of the pattern starts in `x` and runs on into `y`,
   * the two parts are replaced independently of each other.
   */
  lemma {:induction false} ReplaceSplit(x: string, y: string, pat: string, rep: string)
    requires |pat| > 0
    requires forall j: nat :: j < |x| && OccursAt(x + y, pat, j) ==> j + |pat| <= |x|
    ensures Replace(x + y, pat, rep) == Replace(x, pat, rep) + Replace(y, pat, rep)
    decreases |x|
  {
    var s := x + y;
    if x == [] {
      assert s == y;
    } else if |x| < |pat| {
      ReplaceSkip(x, y, pat, rep);
    } else {
      assert s[..|pat|] == x[..|pat|];
      var k := if x[..|pat|] == pat then |pat| else 1;
      assert s[k..] == x[k..] + y;
      forall j: nat | j < |x[k..]| && OccursAt(x[k..] + y, pat, j)
        ensures j + |pat| <= |x[k..]|
      {
        OccursAtDrop(s, pat, k, j);
      }
      ReplaceSplit(x[k..], y, pat, rep);
    }
  }

  /** Text that does not contain the first character of the pattern is copied through unchanged. */
  lemma ReplaceSkipText(a: string, b: string, pat: string, rep: string)
    requires |pat| > 0
    requires forall i :: 0 <= i < |a| ==> a[i] != pat[0]
    ensures Replace(a + b, pat, rep) == a + Replace(b, pat, rep)
  {
    forall i: nat | i < |a|
      ensures !OccursAt(a + b, pat, i)
    {
      assert (a + b)[i] == a[i];
    }
    ReplaceSkip(a, b, pat, rep);
  }

  /** An occurrence at the front is replaced, and the scan continues behind it. */
  lemma ReplaceHit(pat: string, b: string, rep: string)
    requires |pat| > 0
    ensures Replace(pat + b, pat, rep) == rep + Replace(b, pat, rep)
  {
    assert (pat + b)[..|pat|] == pat;
    assert (pat + b)[|pat|..] == b;
  }

  // ---------------------------------------------------------------------------
  // str.split() with no separator

  /** Length of the leading run of non-whitespace characters. */
  function WordLen(s: string): (k: nat)
    ensures k <= |s| && NoSpace(s[..k])
    ensures k < |s| ==> IsSpace(s[k])
  {
    if s == [] || IsSpace(s[0]) then 0
    else
      var k := 1 + WordLen(s[1..]);
      assert forall i :: 1 <= i < k ==> s[..k][i] == s[1..][..k - 1][i - 1];
      k
  }

  /** `s.split()`: the maximal runs of non-whitespace characters, in order. */
  function Split(s: string): seq<string>
    decreases |s|
  {
    if s == [] then []
    else if IsSpace(s[0]) then Split(s[1..])
    else
      var k := WordLen(s);
      [s[..k]] + Split(s[k..])
  }

  /** Every word `split()` returns is nonempty and holds no whitespace. */
  lemma {:induction false} SplitWords(s: string)
    ensures forall w :: w in Split(s) ==> |w| > 0 && NoSpace(w)
    decreases |s|
  {
    if s == [] {
    } else if IsSpace(s[0]) {
      SplitWords(s[1..]);
    } else {
      var k := WordLen(s);
      SplitWords(s[k..]);
      assert forall w :: w in Split(s) ==> w == s[..k] || w in Split(s[k..]);
    }
  }

  /** The characters of `s` that are not whitespace, in order. */
  function NonSpace(s: string): string
  {
    if s == [] then [] else (if IsSpace(s[0]) then [] else [s[0]]) + NonSpace(s[1..])
  }

  function Flatten(ss: seq<string>): string
  {
    if ss == [] then [] else ss[0] + Flatten(ss[1..])
  }

  /** Words joined by single spaces, as `" ".join(words)`. */
  function JoinSpace(words: seq<string>): string
  {
    if words == [] then []
    else if |words| == 1 then words[0]
    else words[0] + " " + JoinSpace(words[1..])
  }

  lemma {:induction false} NonSpaceAppend(a: string, b: string)
    ensures NonSpace(a + b) == NonSpace(a) + NonSpace(b)
    decreases |a|
  {
    if a == [] {
      assert a + b == b;
    } else {
      assert (a + b)[1..] == a[1..] + b;
      NonSpaceAppend(a[1..], b);
    }
  }

  lemma {:induction false} NonSpaceOfWord(w: string)
    requires NoSpace(w)
    ensures NonSpace(w) == w
    decreases |w|
  {
    if w != [] {
      NonSpaceOfWord(w[1..]);
      assert w == [w[0]] + w[1..];
    }
  }

  lemma {:induction false} NonSpaceOfSpaces(s: string)
    requires AllSpace(s)
    ensures NonSpace(s) == []
    decreases |s|
  {
    if s != [] {
      NonSpaceOfSpaces(s[1..]);
    }
  }

  /** Splitting loses exactly the whitespace: the words put back together are the non-whitespace characters. */
  lemma {:induction false} SplitKeepsNonSpace(s: string)
    ensures Flatten(Split(s)) == NonSpace(s)
    decreases |s|
  {
    if s == [] {
    } else if IsSpace(s[0]) {
      assert Split(s) == Split(s[1..]);
      assert NonSpace(s) == [] + NonSpace(s[1..]);
      SplitKeepsNonSpace(s[1..]);
    } else {
      var k := WordLen(s);
      SplitKeepsNonSpace(s[k..]);
      SplitKeepsNonSpaceWord(s);
    }
  }

  lemma SplitKeepsNonSpaceWord(s: string)
    requires s != [] && !IsSpace(s[0])
    requires Flatten(Split(s[WordLen(s)..])) == NonSpace(s[WordLen(s)..])
    ensures Flatten(Split(s)) == NonSpace(s)
  {
    var k := WordLen(s);
    var w, r := s[..k], s[k..];
    assert Split(s) == [w] + Split(r);
    assert ([w] + Split(r))[1..] == Split(r);
    assert s == w + r;
    NonSpaceAppend(w, r);
    NonSpaceOfWord(w);
  }

  lemma {:induction false} WordLenOfWord(w: string, t: string)
    requires NoSpace(w)
    requires t == [] || IsSpace(t[0])
    ensures WordLen(w + t) == |w|
    decreases |w|
  {
    if w != [] {
      assert (w + t)[1..] == w[1..] + t;
      WordLenOfWord(w[1..], t);
    } else {
      assert w + t == t;
    }
  }

  lemma {:induction false} SplitSkipsSpaces(p: string, s: string)
    requires AllSpace(p)
    ensures Split(p + s) == Split(s)
    decreases |p|
  {
    if p != [] {
      assert (p + s)[1..] == p[1..] + s;
      SplitSkipsSpaces(p[1..], s);
    } else {
      assert p + s == s;
    }
  }

  /** Splitting a word followed by whitespace and more text yields the word first. */
  lemma SplitWord(w: string, t: string)
    requires |w| > 0 && NoSpace(w)
    requires t == [] || IsSpace(t[0])
    ensures Split(w + t) == [w] + Split(t)
  {
    WordLenOfWord(w, t);
    assert (w + t)[..|w|] == w;
    assert (w + t)[|w|..] == t;
  }

  /**
   * Words without whitespace, joined by spaces and followed by any run of
   * whitespace (a line terminator, say), split back into the same words.
   */
  lemma {:induction false} SplitJoinSpace(words: seq<string>, tail: string)
    requires forall w :: w in words ==> |w| > 0 && NoSpace(w)
    requires AllSpace(tail)
    ensures Split(JoinSpace(words) + tail) == words
    decreases |words|
  {
    if words == [] {
      assert JoinSpace(words) + tail == tail;
      SplitOfSpaces(tail);
    } else if |words| == 1 {
      SplitLastWord(words, tail);
    } else {
      SplitFirstWord(words, tail);
      assert forall v :: v in words[1..] ==> v in words;
      SplitJoinSpace(words[1..], tail);
      assert words == [words[0]] + words[1..];
    }
  }

  lemma SplitOfSpaces(s: string)
    requires AllSpace(s)
    ensures Split(s) == []
  {
    SplitSkipsSpaces(s, []);
    assert s + [] == s;
  }

  lemma SplitLastWord(words: seq<string>, tail: string)
    requires |words| == 1 && |words[0]| > 0 && NoSpace(words[0])
    requires AllSpace(tail)
    ensures Split(JoinSpace(words) + tail) == words
  {
    var w := words[0];
    assert JoinSpace(words) == w;
    assert tail == [] || IsSpace(tail[0]);
    SplitWord(w, tail);
    SplitOfSpaces(tail);
    assert words == [w];
  }

  lemma SplitFirstWord(words: seq<string>, tail: string)
    requires |words| > 1 && |words[0]| > 0 && NoSpace(words[0])
    ensures Split(JoinSpace(words) + tail) == [words[0]] + Split(JoinSpace(words[1..]) + tail)
  {
    var w := words[0];
    var rest := JoinSpace(words[1..]) + tail;
    JoinSpaceCons(words, tail);
    assert (" " + rest)[0] == ' ';
    SplitWord(w, " " + rest);
    assert AllSpace(" ");
    SplitSkipsSpaces(" ", rest);
  }

  lemma JoinSpaceCons(words: seq<string>, tail: string)
    requires |words| > 1
    ensures JoinSpace(words) + tail == words[0] + (" " + (JoinSpace(words[1..]) + tail))
  {
  }

  // ---------------------------------------------------------------------------
  // Iterating over a text file

  /** Length of the first line of `c`, its terminating newline included. */
  function LineLen(c: string): (k: nat)
    requires |c| > 0
    ensures 0 < k <= |c|
    ensures forall i :: 0 <= i < k - 1 ==> c[i] != '\n'
    ensures k < |c| ==> c[k - 1] == '\n'
  {
    if c[0] == '\n' || |c| == 1 then 1 else 1 + LineLen(c[1..])
  }

  /** `s` is one line as Python yields it: no newline except possibly a final one. */
  predicate IsLine(s: string)
  {
    |s| > 0 && forall i :: 0 <= i < |s| - 1 ==> s[i] != '\n'
  }

  /**
   * The lines `for line in f` produces from a file with content `c`: each
   * line keeps its '\n'; only the last line may lack one.
   */
  function SplitLines(c: string): (lines: seq<string>)
    ensures forall i :: 0 <= i < |lines| ==> IsLine(lines[i])
    ensures forall i :: 0 <= i < |lines| - 1 ==> |lines[i]| > 0 && lines[i][|lines[i]| - 1] == '\n'
    ensures (c == []) == (lines == [])
    decreases |c|
  {
    if c == [] then []
    else
      var k := LineLen(c);
      var rest := SplitLines(c[k..]);
      assert c[k..] != [] ==> rest != [];
      [c[..k]] + rest
  }

  /** Reading the lines loses nothing: concatenated, they are the file content. */
  lemma {:induction false} SplitLinesConcat(c: string)
    ensures Flatten(SplitLines(c)) == c
    decreases |c|
  {
    if c != [] {
      var k := LineLen(c);
      SplitLinesConcat(c[k..]);
      assert ([c[..k]] + SplitLines(c[k..]))[1..] == SplitLines(c[k..]);
      assert c == c[..k] + c[k..];
    }
  }

  /** The first line of a line followed by more text is that line. */
  lemma {:induction false} LineLenOfLine(l: string, rest: string)
    requires IsLine(l)
    requires l[|l| - 1] == '\n' || rest == []
    ensures LineLen(l + rest) == |l|
    decreases |l|
  {
    var c := l + rest;
    if |l| > 1 {
      assert c[0] == l[0] && c[0] != '\n';
      assert c[1..] == l[1..] + rest;
      assert forall i :: 0 <= i < |l[1..]| - 1 ==> l[1..][i] == l[i + 1];
      LineLenOfLine(l[1..], rest);
    }
  }

  /**
   * Conversely, lines of which all but the last end with '\n' are read back
   * from their concatenation exactly as they were written.
   */
  lemma {:induction false} SplitLinesOfLines(ls: seq<string>)
    requires forall i :: 0 <= i < |ls| ==> IsLine(ls[i])
    requires forall i :: 0 <= i < |ls| - 1 ==> |ls[i]| > 0 && ls[i][|ls[i]| - 1] == '\n'
    ensures SplitLines(Flatten(ls)) == ls
    decreases |ls|
  {
    if ls != [] {
      var l, rest := ls[0], Flatten(ls[1..]);
      assert |ls| == 1 ==> ls[1..] == [];
      LineLenOfLine(l, rest);
      var c := l + rest;
      assert c[..|l|] == l && c[|l|..] == rest;
      SplitLinesOfLines(ls[1..]);
      assert ls == [l] + ls[1..];
    }
  }
}
