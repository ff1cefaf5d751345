/**
 * `substitute_arguments` (qarrayrun/qarrayrun.py): placeholders `{N}` in a
 * command line are replaced by the N-th argument (1-based), or removed when
 * N is 0 or beyond the last argument.
 *
 * The numbers are collected once, left to right, from the original command
 * line; each is then turned back into the text `"{" + str(N) + "}"` and
 * every occurrence of that text in the current command line is replaced.
 * The replacements are sequential, so a later one also rewrites text an
 * earlier argument brought in, and a zero-padded `{01}` is found but never
 * removed, because the text searched for is `{1}`.
 */
module Substitution {
  import opened Text
  import opened Decimal

  // ---------------------------------------------------------------------------
  // re.findall("{([0-9]+)}", command_line)

  /** Length of the leading run of ASCII digits. */
  function DigitRun(s: string): (k: nat)
    ensures k <= |s| && AllDigits(s[..k])
    ensures k < |s| ==> !IsDigit(s[k])
  {
    if s == [] || !IsDigit(s[0]) then 0
    else
      var k := 1 + DigitRun(s[1..]);
      assert forall i :: 1 <= i < k ==> s[..k][i] == s[1..][..k - 1][i - 1];
      k
  }

  /** A placeholder `{digits}` at the start of `s`, the number of digits being `DigitRun(s[1..])`. */
  predicate PlaceholderFirst(s: string)
  {
    |s| > 0 && s[0] == '{' && 0 < DigitRun(s[1..]) && 1 + DigitRun(s[1..]) < |s| && s[1 + DigitRun(s[1..])] == '}'
  }

  /**
   * The digit strings the pattern `{([0-9]+)}` captures, scanning left to
   * right; after a match the scan resumes behind its closing brace.
   */
  function FindPlaceholders(s: string): seq<string>
    decreases |s|
  {
    if s == [] then []
    else if PlaceholderFirst(s) then
      var k := DigitRun(s[1..]);
      assert s[1..1 + k] == s[1..][..k];
      [s[1..1 + k]] + FindPlaceholders(s[2 + k..])
    else FindPlaceholders(s[1..])
  }

  /** Every captured string is a nonempty run of digits. */
  lemma {:induction false} FoundDigits(s: string)
    ensures forall i :: 0 <= i < |FindPlaceholders(s)| ==> |FindPlaceholders(s)[i]| > 0 && AllDigits(FindPlaceholders(s)[i])
    decreases |s|
  {
    if s == [] {
    } else if PlaceholderFirst(s) {
      var k := DigitRun(s[1..]);
      assert s[1..1 + k] == s[1..][..k];
      FoundDigits(s[2 + k..]);
    } else {
      FoundDigits(s[1..]);
    }
  }

  /** `param_nums`: the numbers of the placeholders, in order, duplicates kept. */
  function ParamNums(s: string): seq<nat>
  {
    var found := FindPlaceholders(s);
    FoundDigits(s);
    seq(|found|, i requires 0 <= i < |found| => DigitsValue(found[i]))
  }

  /** `"{%s}" % param_num`: the placeholder text rebuilt from the number. */
  function Placeholder(n: nat): (p: string)
    ensures |p| > 2 && p[0] == '{' && p[|p| - 1] == '}'
  {
    "{" + NatToString(n) + "}"
  }

  /**
   * What placeholder `n` is replaced by, `args` being the arguments with ""
   * in front: the empty string for 0 and for numbers past the end.
   */
  function ArgumentValue(args: seq<string>, n: nat): string
  {
    if n == 0 || n >= |args| then "" else args[n]
  }

  /** The loop of `substitute_arguments` as a left fold of `str.replace` over the numbers. */
  function ApplyReplacements(s: string, nums: seq<nat>, args: seq<string>): string
    decreases |nums|
  {
    if nums == [] then s
    else ApplyReplacements(Replace(s, Placeholder(nums[0]), ArgumentValue(args, nums[0])), nums[1..], args)
  }

  /** The command line with its placeholders substituted. */
  function Substitute(commandLine: string, arguments: seq<string>): string
  {
    ApplyReplacements(commandLine, ParamNums(commandLine), [""] + arguments)
  }

  /** `substitute_arguments(command_line, arguments)`. */
  method SubstituteArguments(commandLine: string, arguments: seq<string>) returns (result: string)
    ensures result == Substitute(commandLine, arguments)
  {
    var args := [""];
    args := args + arguments;
    var paramNums := ParamNums(commandLine);
    result := commandLine;
    for i := 0 to |paramNums|
      invariant ApplyReplacements(result, paramNums[i..], args) == Substitute(commandLine, arguments)
    {
      var paramNum := paramNums[i];
      var placeholder := Placeholder(paramNum);
      if paramNum == 0 || paramNum >= |args| {
        result := Replace(result, placeholder, "");
      } else {
        result := Replace(result, placeholder, args[paramNum]);
      }
      assert paramNums[i..][1..] == paramNums[i + 1..];
    }
  }

  // ---------------------------------------------------------------------------
  // Properties

  /** `{digits}` occupies `s[i..j + 1]`. */
  ghost predicate PlaceholderAt(s: string, i: nat, j: nat)
  {
    i + 1 < j < |s| && s[i] == '{' && s[j] == '}' && AllDigits(s[i + 1..j])
  }

  /** `s` contains a substring matching `{[0-9]+}`. */
  ghost predicate HasPlaceholder(s: string)
  {
    exists i: nat, j: nat :: PlaceholderAt(s, i, j)
  }

  lemma {:induction false} DigitRunExact(s: string, k: nat)
    requires k < |s| && AllDigits(s[..k]) && !IsDigit(s[k])
    ensures DigitRun(s) == k
    decreases k
  {
    if k > 0 {
      assert s[1..][..k - 1] == s[1..k];
      assert forall i :: 0 <= i < k - 1 ==> s[1..k][i] == s[..k][i + 1];
      DigitRunExact(s[1..], k - 1);
      assert IsDigit(s[..k][0]);
    }
  }

  lemma {:induction false} PlaceholderIsFound(s: string, i: nat, j: nat)
    requires PlaceholderAt(s, i, j)
    ensures FindPlaceholders(s) != []
    decreases |s|
  {
    if !PlaceholderFirst(s) {
      if i == 0 {
        assert s[1..][..j - 1] == s[1..j];
        DigitRunExact(s[1..], j - 1);
        assert false;
      }
      assert s[1..][i - 1 + 1..j - 1] == s[i + 1..j];
      PlaceholderIsFound(s[1..], i - 1, j - 1);
    }
  }

  lemma {:induction false} FoundIsPlaceholder(s: string) returns (i: nat, j: nat)
    requires FindPlaceholders(s) != []
    ensures PlaceholderAt(s, i, j)
    decreases |s|
  {
    if PlaceholderFirst(s) {
      var k := DigitRun(s[1..]);
      assert s[1..1 + k] == s[1..][..k];
      i, j := 0, 1 + k;
    } else {
      var i', j' := FoundIsPlaceholder(s[1..]);
      assert s[1..][i' + 1..j'] == s[i' + 2..j' + 1];
      i, j := i' + 1, j' + 1;
    }
  }

  /** No number is collected exactly when the command line holds no `{digits}` substring. */
  lemma NoNumbersIffNoPlaceholder(s: string)
    ensures ParamNums(s) == [] <==> !HasPlaceholder(s)
  {
    if HasPlaceholder(s) {
      var i: nat, j: nat :| PlaceholderAt(s, i, j);
      PlaceholderIsFound(s, i, j);
    }
    if FindPlaceholders(s) != [] {
      var i, j := FoundIsPlaceholder(s);
    }
  }

  /** A command line without placeholders is returned unchanged, whatever the arguments. */
  lemma PlaceholderFreeUnchanged(s: string, arguments: seq<string>)
    requires !HasPlaceholder(s)
    ensures Substitute(s, arguments) == s
  {
    NoNumbersIffNoPlaceholder(s);
  }

  /** Folding over two lists of numbers in turn is folding over their concatenation. */
  lemma {:induction false} ApplyConcat(s: string, xs: seq<nat>, ys: seq<nat>, args: seq<string>)
    ensures ApplyReplacements(s, xs + ys, args) == ApplyReplacements(ApplyReplacements(s, xs, args), ys, args)
    decreases |xs|
  {
    if xs == [] {
      assert xs + ys == ys;
    } else {
      assert (xs + ys)[1..] == xs[1..] + ys;
      ApplyConcat(Replace(s, Placeholder(xs[0]), ArgumentValue(args, xs[0])), xs[1..], ys, args);
    }
  }

  /**
   * A number whose placeholder no longer occurs in the command line at its
   * turn changes nothing: dropping it from the list gives the same result.
   * So a repeated number is a no-op when its placeholder no longer occurs at
   * its turn; otherwise it need not be, since an earlier pass can create the
   * placeholder anew (`{{1}1}` becomes `{1}`).
   */
  lemma SpentNumberIsNoOp(s: string, xs: seq<nat>, n: nat, ys: seq<nat>, args: seq<string>)
    requires !Occurs(ApplyReplacements(s, xs, args), Placeholder(n))
    ensures ApplyReplacements(s, xs + [n] + ys, args) == ApplyReplacements(s, xs + ys, args)
  {
    var mid := ApplyReplacements(s, xs, args);
    ApplyConcat(s, xs + [n], ys, args);
    ApplyConcat(s, xs, [n], args);
    ApplyConcat(s, xs, ys, args);
    ReplaceAbsent(mid, Placeholder(n), ArgumentValue(args, n));
    assert ApplyReplacements(mid, [n], args) == ApplyReplacements(Replace(mid, Placeholder(n), ArgumentValue(args, n)), [], args);
  }

  /** A command line that is one `{digits}` yields exactly that number. */
  lemma LoneNumber(d: string)
    requires |d| > 0 && AllDigits(d)
    ensures ParamNums("{" + d + "}") == [DigitsValue(d)]
  {
    LoneFound(d);
  }

  lemma LoneFound(d: string)
    requires |d| > 0 && AllDigits(d)
    ensures FindPlaceholders("{" + d + "}") == [d]
  {
    var s := "{" + d + "}";
    assert s[1..] == d + "}";
    assert (d + "}")[..|d|] == d;
    DigitRunExact(d + "}", |d|);
    assert PlaceholderFirst(s);
    assert s[1..1 + |d|] == d;
    assert s[2 + |d|..] == [];
    assert FindPlaceholders([]) == [];
  }

  /** The fold over a single number is one replacement. */
  lemma ApplyOne(s: string, n: nat, args: seq<string>)
    ensures ApplyReplacements(s, [n], args) == Replace(s, Placeholder(n), ArgumentValue(args, n))
  {
    assert [n][1..] == [];
  }

  /**
   * A lone placeholder `{n}` becomes the n-th argument when 1 <= n <= the
   * number of arguments, and the empty string otherwise (in particular `{0}`).
   */
  lemma SinglePlaceholder(n: nat, arguments: seq<string>)
    ensures Substitute(Placeholder(n), arguments) == if 1 <= n <= |arguments| then arguments[n - 1] else ""
  {
    var s := Placeholder(n);
    LoneNumber(NatToString(n));
    NatToStringValue(n);
    var args := [""] + arguments;
    ApplyOne(s, n, args);
    ReplaceWhole(s, ArgumentValue(args, n));
    assert 1 <= n <= |arguments| ==> args[n] == arguments[n - 1];
  }

  /** A numeral with a redundant leading zero, as in `{01}`. */
  predicate ZeroPadded(d: string)
  {
    |d| > 1 && AllDigits(d) && d[0] == '0'
  }

  /**
   * A zero-padded placeholder such as `{01}` is captured as a number, but the
   * text searched for is the unpadded `{1}`, so it stays in the command line:
   * every replacement pass copies it through.
   */
  lemma ZeroPaddedKept(s: string, d: string, arguments: seq<string>)
    requires ZeroPadded(d) && Occurs(s, "{" + d + "}")
    ensures Occurs(Substitute(s, arguments), "{" + d + "}")
  {
    ZeroPaddedSurvivesFold(s, d, ParamNums(s), [""] + arguments);
  }

  /** A command line that is only a zero-padded placeholder is returned as it is. */
  lemma ZeroPaddedAlone(d: string, arguments: seq<string>)
    requires ZeroPadded(d)
    ensures Substitute("{" + d + "}", arguments) == "{" + d + "}"
  {
    var s := "{" + d + "}";
    var m := DigitsValue(d);
    LoneNumber(d);
    var p := Placeholder(m);
    LeadingZeroNotWritten(d);
    forall i: nat | i <= |s| && OccursAt(s, p, i)
      ensures false
    {
      ZeroPaddedNoOccurrence(d, p, i);
    }
    var args := [""] + arguments;
    ReplaceAbsent(s, p, ArgumentValue(args, m));
    ApplyOne(s, m, args);
  }

  lemma {:induction false} ZeroPaddedSurvivesFold(s: string, d: string, nums: seq<nat>, args: seq<string>)
    requires ZeroPadded(d) && Occurs(s, "{" + d + "}")
    ensures Occurs(ApplyReplacements(s, nums, args), "{" + d + "}")
    decreases |nums|
  {
    if nums != [] {
      var n := nums[0];
      ZeroPaddedSurvivesReplace(s, d, n, ArgumentValue(args, n));
      ZeroPaddedSurvivesFold(Replace(s, Placeholder(n), ArgumentValue(args, n)), d, nums[1..], args);
    }
  }

  /** One replacement pass keeps an occurrence of a zero-padded placeholder. */
  lemma ZeroPaddedSurvivesReplace(s: string, d: string, n: nat, rep: string)
    requires ZeroPadded(d) && Occurs(s, "{" + d + "}")
    ensures Occurs(Replace(s, Placeholder(n), rep), "{" + d + "}")
  {
    var i: nat :| i <= |s| && OccursAt(s, "{" + d + "}", i);
    var k := ZeroPaddedAt(s, d, i, n, rep);
  }

  /** The occurrence at `i` reappears at `k`, behind the replaced text in front of it. */
  lemma ZeroPaddedAt(s: string, d: string, i: nat, n: nat, rep: string) returns (k: nat)
    requires ZeroPadded(d) && OccursAt(s, "{" + d + "}", i)
    ensures OccursAt(Replace(s, Placeholder(n), rep), "{" + d + "}", k)
  {
    var t := "{" + d + "}";
    var a, b := s[..i], s[i + |t|..];
    OccurrenceSplits(s, t, i);
    ReplaceBeforeBrace(a, t + b, n, rep);
    ReplaceZeroPadded(d, b, n, rep);
    k := |Replace(a, Placeholder(n), rep)|;
    KeptBehind(Replace(a, Placeholder(n), rep), t, Replace(b, Placeholder(n), rep));
  }

  lemma OccurrenceSplits(s: string, t: string, i: nat)
    requires OccursAt(s, t, i)
    ensures s == s[..i] + (t + s[i + |t|..])
  {
    assert s == s[..i] + s[i..i + |t|] + s[i + |t|..];
  }

  lemma KeptBehind(x: string, t: string, y: string)
    ensures OccursAt(x + t + y, t, |x|)
  {
    assert (x + t + y)[|x|..|x| + |t|] == t;
  }

  /** Text in front of a `{` is replaced on its own. */
  lemma ReplaceBeforeBrace(a: string, r: string, n: nat, rep: string)
    requires |r| > 0 && r[0] == '{'
    ensures Replace(a + r, Placeholder(n), rep) == Replace(a, Placeholder(n), rep) + Replace(r, Placeholder(n), rep)
  {
    forall j: nat | j < |a| && OccursAt(a + r, Placeholder(n), j)
      ensures j + |Placeholder(n)| <= |a|
    {
      NoStraddle(a, r, n, j);
    }
    ReplaceSplit(a, r, Placeholder(n), rep);
  }

  /** A zero-padded placeholder at the front is copied through by a replacement pass. */
  lemma ReplaceZeroPadded(d: string, b: string, n: nat, rep: string)
    requires ZeroPadded(d)
    ensures Replace("{" + d + "}" + b, Placeholder(n), rep) == "{" + d + "}" + Replace(b, Placeholder(n), rep)
  {
    var t := "{" + d + "}";
    var p := Placeholder(n);
    forall j: nat | j < |t|
      ensures !OccursAt(t + b, p, j)
    {
      NoMatchInZeroPadded(d, b, n, j);
    }
    ReplaceSkip(t, b, p, rep);
  }

  /** Inside a placeholder only the first character is `{`, so no match starts before a `{` and runs past it. */
  lemma NoStraddle(a: string, r: string, n: nat, j: nat)
    requires |r| > 0 && r[0] == '{' && j < |a|
    requires OccursAt(a + r, Placeholder(n), j)
    ensures j + |Placeholder(n)| <= |a|
  {
    var p := Placeholder(n);
    var s := a + r;
    PlaceholderShape(n);
    assert forall m :: 0 <= m < |p| ==> s[j + m] == p[m];
    assert forall k :: j < k < j + |p| ==> s[k] != '{';
    assert s[|a|] == '{';
  }

  /** No placeholder `{n}` matches anywhere inside a zero-padded `{0…}`. */
  lemma NoMatchInZeroPadded(d: string, b: string, n: nat, j: nat)
    requires ZeroPadded(d) && j < |d| + 2
    ensures !OccursAt("{" + d + "}" + b, Placeholder(n), j)
  {
    var p := Placeholder(n);
    if OccursAt("{" + d + "}" + b, p, j) {
      PlaceholderShape(n);
      BracedMatch(d, b, p, j);
      assert p[1..|p| - 1] == NatToString(n);
      LeadingZeroNotWritten(d);
      NatToStringValue(n);
      assert false;
    }
  }

  /** Between its braces a placeholder holds only digits. */
  lemma PlaceholderShape(n: nat)
    ensures forall k :: 0 < k < |Placeholder(n)| - 1 ==> IsDigit(Placeholder(n)[k])
  {
    var d := NatToString(n);
    assert forall k :: 0 < k < |Placeholder(n)| - 1 ==> Placeholder(n)[k] == d[k - 1];
  }

  /** A braced run of digits can only match a `{digits}` pattern at its start, and then the whole of it. */
  lemma BracedMatch(d: string, b: string, p: string, j: nat)
    requires |d| > 0 && AllDigits(d) && j < |d| + 2
    requires |p| > 2 && p[0] == '{' && p[|p| - 1] == '}'
    requires forall k :: 0 < k < |p| - 1 ==> IsDigit(p[k])
    requires OccursAt("{" + d + "}" + b, p, j)
    ensures j == 0 && p == "{" + d + "}"
  {
    var t := "{" + d + "}";
    var s := t + b;
    assert s[j] == p[0];
    assert forall k :: 0 < k < |t| ==> s[k] == t[k];
    assert forall k :: 0 < k < |t| - 1 ==> t[k] == d[k - 1];
    assert j == 0;
    assert forall m :: 0 <= m < |p| ==> s[m] == p[m];
    assert s[|p| - 1] == '}';
    assert |p| >= |t|;
    assert p[|t| - 1] == s[|t| - 1] == '}';
    assert |p| == |t|;
    assert p == s[..|t|];
  }

  lemma ZeroPaddedNoOccurrence(d: string, p: string, i: nat)
    requires |d| > 0 && AllDigits(d)
    requires |p| > 2 && p[0] == '{' && p[|p| - 1] == '}'
    requires OccursAt("{" + d + "}", p, i)
    ensures p == "{" + d + "}"
  {
    var s := "{" + d + "}";
    assert s[i..i + |p|] == p;
    assert s[i] == p[0];
    assert forall k :: 0 < k < |s| - 1 ==> s[k] == d[k - 1];
    assert i == 0;
    assert s[|p| - 1] == p[|p| - 1];
    assert |p| == |s|;
  }
}
