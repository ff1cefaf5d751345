/**
 * Command lines built from brace-free text and canonical placeholders `{n}`,
 * the shape qarrayrun's users write. For them the sequential replacements of
 * `substitute_arguments` agree with filling every placeholder at once, as
 * long as no argument contains a `{`; the worked examples of the docstring
 * and of the test suite follow from this.
 */
module Templates {
  import opened Text
  import opened Decimal
  import opened Substitution

  datatype Piece = Literal(text: string) | Hole(n: nat)

  predicate BraceFree(s: string)
  {
    forall i :: 0 <= i < |s| ==> s[i] != '{'
  }

  /** Every literal piece is free of `{`, so only the holes can start a placeholder. */
  predicate WellFormed(ps: seq<Piece>)
  {
    forall i :: 0 <= i < |ps| && ps[i].Literal? ==> BraceFree(ps[i].text)
  }

  function PieceText(p: Piece): string
  {
    match p
    case Literal(t) => t
    case Hole(n) => Placeholder(n)
  }

  /** The command line the pieces spell out. */
  function Render(ps: seq<Piece>): string
  {
    if ps == [] then [] else PieceText(ps[0]) + Render(ps[1..])
  }

  /** The numbers of the holes, left to right. */
  function Holes(ps: seq<Piece>): seq<nat>
  {
    if ps == [] then []
    else (if ps[0].Hole? then [ps[0].n] else []) + Holes(ps[1..])
  }

  /** The substitution policy: `{n}` stands for the n-th argument (1-based), or nothing when there is none. */
  function Value(arguments: seq<string>, n: nat): string
  {
    if 1 <= n <= |arguments| then arguments[n - 1] else ""
  }

  /** What a piece stands for once its hole, if any, is filled. */
  function PieceValue(p: Piece, arguments: seq<string>): string
  {
    match p
    case Literal(t) => t
    case Hole(n) => Value(arguments, n)
  }

  /** Simultaneous substitution: every hole is filled from the arguments at once. */
  function Fill(ps: seq<Piece>, arguments: seq<string>): string
  {
    if ps == [] then [] else PieceValue(ps[0], arguments) + Fill(ps[1..], arguments)
  }

  /** The holes numbered `n` turned into the literal text `v`. */
  function FillHole(ps: seq<Piece>, n: nat, v: string): seq<Piece>
  {
    if ps == [] then []
    else [if ps[0] == Hole(n) then Literal(v) else ps[0]] + FillHole(ps[1..], n, v)
  }

  // ---------------------------------------------------------------------------
  // Scanning a rendered command line

  lemma {:induction false} FindSkip(a: string, b: string)
    requires BraceFree(a)
    ensures FindPlaceholders(a + b) == FindPlaceholders(b)
    decreases |a|
  {
    if a == [] {
      assert a + b == b;
    } else {
      assert (a + b)[1..] == a[1..] + b;
      FindSkip(a[1..], b);
    }
  }

  lemma FindHead(d: string, b: string)
    requires |d| > 0 && AllDigits(d)
    ensures FindPlaceholders("{" + d + "}" + b) == [d] + FindPlaceholders(b)
  {
    var s := "{" + d + "}" + b;
    assert s[1..] == d + ("}" + b);
    assert (d + ("}" + b))[..|d|] == d;
    DigitRunExact(d + ("}" + b), |d|);
    assert PlaceholderFirst(s);
    assert s[1..1 + |d|] == d;
    assert s[2 + |d|..] == b;
  }

  function Numerals(ns: seq<nat>): seq<string>
  {
    seq(|ns|, i requires 0 <= i < |ns| => NatToString(ns[i]))
  }

  lemma WellFormedTail(ps: seq<Piece>)
    requires WellFormed(ps) && ps != []
    ensures WellFormed(ps[1..])
    ensures ps[0].Literal? ==> BraceFree(ps[0].text)
  {
    forall i | 0 <= i < |ps[1..]| && ps[1..][i].Literal?
      ensures BraceFree(ps[1..][i].text)
    {
      assert ps[1..][i] == ps[i + 1];
    }
  }

  lemma FindHole(n: nat, rest: string)
    ensures FindPlaceholders(Placeholder(n) + rest) == [NatToString(n)] + FindPlaceholders(rest)
  {
    FindHead(NatToString(n), rest);
  }

  lemma {:induction false} FindRender(ps: seq<Piece>)
    requires WellFormed(ps)
    ensures FindPlaceholders(Render(ps)) == Numerals(Holes(ps))
    decreases |ps|
  {
    if ps != [] {
      WellFormedTail(ps);
      FindRender(ps[1..]);
      FindRenderStep(ps);
    }
  }

  lemma FindRenderStep(ps: seq<Piece>)
    requires ps != [] && (ps[0].Literal? ==> BraceFree(ps[0].text))
    requires FindPlaceholders(Render(ps[1..])) == Numerals(Holes(ps[1..]))
    ensures FindPlaceholders(Render(ps)) == Numerals(Holes(ps))
  {
    if ps[0].Literal? {
      FindRenderLiteral(ps);
    } else {
      FindRenderHole(ps);
    }
  }

  lemma FindRenderLiteral(ps: seq<Piece>)
    requires ps != [] && ps[0].Literal? && BraceFree(ps[0].text)
    ensures FindPlaceholders(Render(ps)) == FindPlaceholders(Render(ps[1..]))
    ensures Holes(ps) == Holes(ps[1..])
  {
    assert Render(ps) == ps[0].text + Render(ps[1..]);
    FindSkip(ps[0].text, Render(ps[1..]));
  }

  lemma FindRenderHole(ps: seq<Piece>)
    requires ps != [] && ps[0].Hole?
    requires FindPlaceholders(Render(ps[1..])) == Numerals(Holes(ps[1..]))
    ensures FindPlaceholders(Render(ps)) == Numerals(Holes(ps))
  {
    var n := ps[0].n;
    assert Render(ps) == Placeholder(n) + Render(ps[1..]);
    FindHole(n, Render(ps[1..]));
    assert Holes(ps) == [n] + Holes(ps[1..]);
    NumeralsCons(n, Holes(ps[1..]));
  }

  lemma NumeralsCons(n: nat, ns: seq<nat>)
    ensures Numerals([n] + ns) == [NatToString(n)] + Numerals(ns)
  {
    assert forall i :: 0 <= i < |ns| ==> ([n] + ns)[i + 1] == ns[i];
  }

  /** The numbers collected from a rendered command line are exactly its holes. */
  lemma ParamNumsRender(ps: seq<Piece>)
    requires WellFormed(ps)
    ensures ParamNums(Render(ps)) == Holes(ps)
  {
    FindRender(ps);
    var ns := Holes(ps);
    forall i | 0 <= i < |ns|
      ensures DigitsValue(Numerals(ns)[i]) == ns[i]
    {
      NatToStringValue(ns[i]);
    }
  }

  // ---------------------------------------------------------------------------
  // One replacement step on a rendered command line

  /** Searching for `{n}` never matches inside a different placeholder `{m}`. */
  lemma ReplaceOtherPlaceholder(m: nat, n: nat, b: string, rep: string)
    requires m != n
    ensures Replace(Placeholder(m) + b, Placeholder(n), rep) == Placeholder(m) + Replace(b, Placeholder(n), rep)
  {
    var pm, pn := Placeholder(m), Placeholder(n);
    var s := pm + b;
    forall i: nat | i < |pm|
      ensures !OccursAt(s, pn, i)
    {
      if OccursAt(s, pn, i) {
        assert s[i] == pn[0];
        if i == 0 {
          NoPlaceholderPrefix(m, n, b);
        }
      }
    }
    ReplaceSkip(pm, b, pn, rep);
  }

  lemma NoPlaceholderPrefix(m: nat, n: nat, b: string)
    requires m != n
    ensures !OccursAt(Placeholder(m) + b, Placeholder(n), 0)
  {
    if OccursAt(Placeholder(m) + b, Placeholder(n), 0) {
      PlaceholderPrefixSame(m, n, b);
      assert false;
    }
  }

  lemma PlaceholderPrefixSame(m: nat, n: nat, b: string)
    requires OccursAt(Placeholder(m) + b, Placeholder(n), 0)
    ensures m == n
  {
    var pm, pn := Placeholder(m), Placeholder(n);
    var s := pm + b;
    assert s[..|pn|] == pn;
    PlaceholderShape(m);
    PlaceholderShape(n);
    assert s[|pn| - 1] == '}' && s[|pm| - 1] == '}';
    assert |pn| == |pm|;
    assert pn == pm;
    assert NatToString(n) == pn[1..|pn| - 1] == NatToString(m);
    NatToStringValue(m);
    NatToStringValue(n);
  }

  lemma {:induction false} ReplaceRender(ps: seq<Piece>, n: nat, v: string)
    requires WellFormed(ps)
    ensures Replace(Render(ps), Placeholder(n), v) == Render(FillHole(ps, n, v))
    decreases |ps|
  {
    var pn := Placeholder(n);
    if ps == [] {
      assert Replace([], pn, v) == [];
    } else {
      var rest := Render(ps[1..]);
      assert WellFormed(ps[1..]) by {
        forall i | 0 <= i < |ps[1..]| && ps[1..][i].Literal?
          ensures BraceFree(ps[1..][i].text)
        {
          assert ps[1..][i] == ps[i + 1];
        }
      }
      ReplaceRender(ps[1..], n, v);
      match ps[0]
      case Literal(t) =>
        assert ps[0].Literal? && BraceFree(ps[0].text);
        ReplaceSkipText(t, rest, pn, v);
      case Hole(m) =>
        if m == n {
          ReplaceHit(pn, rest, v);
        } else {
          ReplaceOtherPlaceholder(m, n, rest, v);
        }
    }
  }

  lemma {:induction false} FillHoleWellFormed(ps: seq<Piece>, n: nat, v: string)
    requires WellFormed(ps) && BraceFree(v)
    ensures WellFormed(FillHole(ps, n, v))
    ensures forall h :: h in Holes(FillHole(ps, n, v)) ==> h in Holes(ps) && h != n
    ensures forall arguments :: v == Value(arguments, n) ==> Fill(FillHole(ps, n, v), arguments) == Fill(ps, arguments)
    decreases |ps|
  {
    if ps != [] {
      assert WellFormed(ps[1..]) by {
        forall i | 0 <= i < |ps[1..]| && ps[1..][i].Literal?
          ensures BraceFree(ps[1..][i].text)
        {
          assert ps[1..][i] == ps[i + 1];
        }
      }
      FillHoleWellFormed(ps[1..], n, v);
      var qs := FillHole(ps, n, v);
      assert qs[1..] == FillHole(ps[1..], n, v);
      assert qs[0].Literal? ==> BraceFree(qs[0].text) by {
        if ps[0] != Hole(n) {
          assert ps[0].Literal? ==> BraceFree(ps[0].text);
        }
      }
      forall i | 0 <= i < |qs| && qs[i].Literal?
        ensures BraceFree(qs[i].text)
      {
        if i > 0 {
          assert qs[i] == qs[1..][i - 1];
        }
      }
    }
  }

  lemma {:induction false} RenderWithoutHoles(ps: seq<Piece>, arguments: seq<string>)
    requires Holes(ps) == []
    ensures Render(ps) == Fill(ps, arguments)
    decreases |ps|
  {
    if ps != [] {
      RenderWithoutHoles(ps[1..], arguments);
    }
  }

  lemma ArgumentValueIsValue(arguments: seq<string>, n: nat)
    ensures ArgumentValue([""] + arguments, n) == Value(arguments, n)
  {
    if 1 <= n <= |arguments| {
      assert ([""] + arguments)[n] == arguments[n - 1];
    }
  }

  lemma {:induction false} ApplyRender(ps: seq<Piece>, ns: seq<nat>, arguments: seq<string>)
    requires WellFormed(ps)
    requires forall a :: a in arguments ==> BraceFree(a)
    requires forall h :: h in Holes(ps) ==> h in ns
    ensures ApplyReplacements(Render(ps), ns, [""] + arguments) == Fill(ps, arguments)
    decreases |ns|
  {
    if ns == [] {
      assert |Holes(ps)| > 0 ==> Holes(ps)[0] in Holes(ps);
      RenderWithoutHoles(ps, arguments);
    } else {
      var n := ns[0];
      var v := ArgumentValue([""] + arguments, n);
      ArgumentValueIsValue(arguments, n);
      assert BraceFree(v) by {
        if 1 <= n <= |arguments| {
          assert arguments[n - 1] in arguments;
        }
      }
      ReplaceRender(ps, n, v);
      FillHoleWellFormed(ps, n, v);
      var qs := FillHole(ps, n, v);
      ApplyRender(qs, ns[1..], arguments);
    }
  }

  /**
   * For a command line of brace-free text and canonical placeholders, and
   * arguments without `{`, `substitute_arguments` fills every placeholder
   * with its value exactly as a simultaneous substitution would.
   */
  lemma SubstituteFills(ps: seq<Piece>, arguments: seq<string>)
    requires WellFormed(ps)
    requires forall a :: a in arguments ==> BraceFree(a)
    ensures Substitute(Render(ps), arguments) == Fill(ps, arguments)
  {
    ParamNumsRender(ps);
    ApplyRender(ps, Holes(ps), arguments);
  }

  /** A command line without any `{` is run as it is, whatever the arguments. */
  lemma BraceFreeUnchanged(s: string, arguments: seq<string>)
    requires BraceFree(s)
    ensures Substitute(s, arguments) == s
  {
    var ps := [Literal(s)];
    assert Render(ps) == s by {
      assert Render(ps) == s + [];
    }
    assert WellFormed(ps);
    ParamNumsRender(ps);
  }

  /**
   * With no arguments, as for a blank parameter line, a command line of
   * brace-free text and placeholders loses every placeholder: what is left
   * is its literal text, without a single `{`.
   */
  lemma NoArgumentsClearsPlaceholders(ps: seq<Piece>)
    requires WellFormed(ps)
    ensures Substitute(Render(ps), []) == Fill(ps, [])
    ensures BraceFree(Fill(ps, []))
  {
    SubstituteFills(ps, []);
    FillWithoutArguments(ps);
  }

  lemma {:induction false} FillWithoutArguments(ps: seq<Piece>)
    requires WellFormed(ps)
    ensures BraceFree(Fill(ps, []))
    decreases |ps|
  {
    if ps != [] {
      WellFormedTail(ps);
      FillWithoutArguments(ps[1..]);
      var h, rest := PieceValue(ps[0], []), Fill(ps[1..], []);
      assert BraceFree(h);
      assert forall i :: 0 <= i < |h + rest| ==> (h + rest)[i] == if i < |h| then h[i] else rest[i - |h|];
    }
  }

  lemma {:induction false} RenderAppend(xs: seq<Piece>, ys: seq<Piece>)
    ensures Render(xs + ys) == Render(xs) + Render(ys)
    decreases |xs|
  {
    if xs == [] {
      assert xs + ys == ys;
    } else {
      assert (xs + ys)[1..] == xs[1..] + ys;
      RenderAppend(xs[1..], ys);
    }
  }

  lemma {:induction false} FillAppend(xs: seq<Piece>, ys: seq<Piece>, arguments: seq<string>)
    ensures Fill(xs + ys, arguments) == Fill(xs, arguments) + Fill(ys, arguments)
    decreases |xs|
  {
    if xs == [] {
      assert xs + ys == ys;
    } else {
      assert (xs + ys)[1..] == xs[1..] + ys;
      FillAppend(xs[1..], ys, arguments);
    }
  }

  // ---------------------------------------------------------------------------
  // Worked examples

  lemma RenderSnoc(ps: seq<Piece>, p: Piece)
    ensures Render(ps + [p]) == Render(ps) + PieceText(p)
  {
    RenderAppend(ps, [p]);
    assert Render([p]) == PieceText(p) + Render([]);
  }

  lemma FillSnoc(ps: seq<Piece>, p: Piece, arguments: seq<string>)
    ensures Fill(ps + [p], arguments) == Fill(ps, arguments) + PieceValue(p, arguments)
  {
    FillAppend(ps, [p], arguments);
    assert Fill([p], arguments) == PieceValue(p, arguments) + Fill([], arguments);
  }

  lemma WellFormedSnoc(ps: seq<Piece>, p: Piece)
    requires WellFormed(ps)
    requires p.Literal? ==> BraceFree(p.text)
    ensures WellFormed(ps + [p])
  {
    forall i | 0 <= i < |ps + [p]| && (ps + [p])[i].Literal?
      ensures BraceFree((ps + [p])[i].text)
    {
      if i < |ps| {
        assert (ps + [p])[i] == ps[i];
      }
    }
  }

  /** The placeholders below ten, spelled out. */
  lemma SmallPlaceholders()
    ensures Placeholder(0) == "{0}" && Placeholder(1) == "{1}" && Placeholder(2) == "{2}"
    ensures Placeholder(3) == "{3}" && Placeholder(4) == "{4}"
  {
  }

  /** The docstring's command line `cmd {0}/{1}/{2} -- {3}{4}`, with `cmd ` as any leading text. */
  function DocstringPieces(cmd: string): seq<Piece>
  {
    [Literal(cmd)] + [Hole(0)] + [Literal("/")] + [Hole(1)] + [Literal("/")] + [Hole(2)]
      + [Literal(" -- ")] + [Hole(3)] + [Hole(4)]
  }

  lemma DocstringRender(cmd: string)
    ensures Render(DocstringPieces(cmd))
         == cmd + Placeholder(0) + "/" + Placeholder(1) + "/" + Placeholder(2) + " -- " + Placeholder(3) + Placeholder(4)
  {
    var ps1 := [Literal(cmd)];
    RenderSnoc([], Literal(cmd));
    assert [] + ps1 == ps1;
    var ps2 := ps1 + [Hole(0)];
    RenderSnoc(ps1, Hole(0));
    assert Render(ps2) == cmd + Placeholder(0);
    var ps3 := ps2 + [Literal("/")];
    RenderSnoc(ps2, Literal("/"));
    assert Render(ps3) == cmd + Placeholder(0) + "/";
    var ps4 := ps3 + [Hole(1)];
    RenderSnoc(ps3, Hole(1));
    assert Render(ps4) == cmd + Placeholder(0) + "/" + Placeholder(1);
    var ps5 := ps4 + [Literal("/")];
    RenderSnoc(ps4, Literal("/"));
    assert Render(ps5) == cmd + Placeholder(0) + "/" + Placeholder(1) + "/";
    var ps6 := ps5 + [Hole(2)];
    RenderSnoc(ps5, Hole(2));
    assert Render(ps6) == cmd + Placeholder(0) + "/" + Placeholder(1) + "/" + Placeholder(2);
    var ps7 := ps6 + [Literal(" -- ")];
    RenderSnoc(ps6, Literal(" -- "));
    assert Render(ps7) == cmd + Placeholder(0) + "/" + Placeholder(1) + "/" + Placeholder(2) + " -- ";
    var ps8 := ps7 + [Hole(3)];
    RenderSnoc(ps7, Hole(3));
    assert Render(ps8) == cmd + Placeholder(0) + "/" + Placeholder(1) + "/" + Placeholder(2) + " -- " + Placeholder(3);
    var ps9 := ps8 + [Hole(4)];
    RenderSnoc(ps8, Hole(4));
    assert Render(ps9) == cmd + Placeholder(0) + "/" + Placeholder(1) + "/" + Placeholder(2) + " -- " + Placeholder(3) + Placeholder(4);
  }

  lemma DocstringFill(cmd: string, a: string, b: string, c: string)
    ensures Fill(DocstringPieces(cmd), [a, b, c]) == cmd + "/" + a + "/" + b + " -- " + c
  {
    var args := [a, b, c];
    var ps1 := [Literal(cmd)];
    FillSnoc([], Literal(cmd), args);
    assert [] + ps1 == ps1;
    var ps2 := ps1 + [Hole(0)];
    FillSnoc(ps1, Hole(0), args);
    assert Fill(ps2, args) == cmd;
    var ps3 := ps2 + [Literal("/")];
    FillSnoc(ps2, Literal("/"), args);
    assert Fill(ps3, args) == cmd + "/";
    var ps4 := ps3 + [Hole(1)];
    FillSnoc(ps3, Hole(1), args);
    assert Fill(ps4, args) == cmd + "/" + a;
    var ps5 := ps4 + [Literal("/")];
    FillSnoc(ps4, Literal("/"), args);
    assert Fill(ps5, args) == cmd + "/" + a + "/";
    var ps6 := ps5 + [Hole(2)];
    FillSnoc(ps5, Hole(2), args);
    assert Fill(ps6, args) == cmd + "/" + a + "/" + b;
    var ps7 := ps6 + [Literal(" -- ")];
    FillSnoc(ps6, Literal(" -- "), args);
    assert Fill(ps7, args) == cmd + "/" + a + "/" + b + " -- ";
    var ps8 := ps7 + [Hole(3)];
    FillSnoc(ps7, Hole(3), args);
    assert Fill(ps8, args) == cmd + "/" + a + "/" + b + " -- " + c;
    var ps9 := ps8 + [Hole(4)];
    FillSnoc(ps8, Hole(4), args);
    assert Fill(ps9, args) == cmd + "/" + a + "/" + b + " -- " + c;
  }

  lemma DocstringWellFormed(cmd: string)
    requires BraceFree(cmd)
    ensures WellFormed(DocstringPieces(cmd))
  {
    var ps1 := [Literal(cmd)];
    WellFormedSnoc([], Literal(cmd));
    assert [] + ps1 == ps1;
    var ps2 := ps1 + [Hole(0)];
    WellFormedSnoc(ps1, Hole(0));
    var ps3 := ps2 + [Literal("/")];
    WellFormedSnoc(ps2, Literal("/"));
    var ps4 := ps3 + [Hole(1)];
    WellFormedSnoc(ps3, Hole(1));
    var ps5 := ps4 + [Literal("/")];
    WellFormedSnoc(ps4, Literal("/"));
    var ps6 := ps5 + [Hole(2)];
    WellFormedSnoc(ps5, Hole(2));
    var ps7 := ps6 + [Literal(" -- ")];
    WellFormedSnoc(ps6, Literal(" -- "));
    var ps8 := ps7 + [Hole(3)];
    WellFormedSnoc(ps7, Hole(3));
    var ps9 := ps8 + [Hole(4)];
    WellFormedSnoc(ps8, Hole(4));
  }

  /**
   * The docstring example of `substitute_arguments`: `cmd {0}/{1}/{2} -- {3}{4}`
   * with the arguments `aa`, `bb`, `cc` gives `cmd /aa/bb -- cc`. Here for any
   * leading text and any three arguments without `{`: `{0}` and `{4}` vanish,
   * the rest are filled in.
   */
  lemma DocstringExample(cmd: string, a: string, b: string, c: string)
    requires BraceFree(cmd) && BraceFree(a) && BraceFree(b) && BraceFree(c)
    ensures Substitute(cmd + Placeholder(0) + "/" + Placeholder(1) + "/" + Placeholder(2) + " -- " + Placeholder(3) + Placeholder(4), [a, b, c])
         == cmd + "/" + a + "/" + b + " -- " + c
  {
    DocstringRender(cmd);
    DocstringFill(cmd, a, b, c);
    DocstringWellFormed(cmd);
    assert forall x :: x in [a, b, c] ==> BraceFree(x);
    SubstituteFills(DocstringPieces(cmd), [a, b, c]);
  }

  /** `pre{3} {2} {1}post`. */
  function ReversedPieces(pre: string, post: string): seq<Piece>
  {
    [Literal(pre)] + [Hole(3)] + [Literal(" ")] + [Hole(2)] + [Literal(" ")] + [Hole(1)] + [Literal(post)]
  }

  lemma ReversedRender(pre: string, post: string)
    ensures Render(ReversedPieces(pre, post))
         == pre + Placeholder(3) + " " + Placeholder(2) + " " + Placeholder(1) + post
  {
    var ps1 := [Literal(pre)];
    RenderSnoc([], Literal(pre));
    assert [] + ps1 == ps1;
    var ps2 := ps1 + [Hole(3)];
    RenderSnoc(ps1, Hole(3));
    assert Render(ps2) == pre + Placeholder(3);
    var ps3 := ps2 + [Literal(" ")];
    RenderSnoc(ps2, Literal(" "));
    assert Render(ps3) == pre + Placeholder(3) + " ";
    var ps4 := ps3 + [Hole(2)];
    RenderSnoc(ps3, Hole(2));
    assert Render(ps4) == pre + Placeholder(3) + " " + Placeholder(2);
    var ps5 := ps4 + [Literal(" ")];
    RenderSnoc(ps4, Literal(" "));
    assert Render(ps5) == pre + Placeholder(3) + " " + Placeholder(2) + " ";
    var ps6 := ps5 + [Hole(1)];
    RenderSnoc(ps5, Hole(1));
    assert Render(ps6) == pre + Placeholder(3) + " " + Placeholder(2) + " " + Placeholder(1);
    var ps7 := ps6 + [Literal(post)];
    RenderSnoc(ps6, Literal(post));
    assert Render(ps7) == pre + Placeholder(3) + " " + Placeholder(2) + " " + Placeholder(1) + post;
  }

  lemma ReversedFill(pre: string, post: string, a: string, b: string, c: string)
    ensures Fill(ReversedPieces(pre, post), [a, b, c]) == pre + c + " " + b + " " + a + post
  {
    var args := [a, b, c];
    var ps1 := [Literal(pre)];
    FillSnoc([], Literal(pre), args);
    assert [] + ps1 == ps1;
    var ps2 := ps1 + [Hole(3)];
    FillSnoc(ps1, Hole(3), args);
    assert Fill(ps2, args) == pre + c;
    var ps3 := ps2 + [Literal(" ")];
    FillSnoc(ps2, Literal(" "), args);
    assert Fill(ps3, args) == pre + c + " ";
    var ps4 := ps3 + [Hole(2)];
    FillSnoc(ps3, Hole(2), args);
    assert Fill(ps4, args) == pre + c + " " + b;
    var ps5 := ps4 + [Literal(" ")];
    FillSnoc(ps4, Literal(" "), args);
    assert Fill(ps5, args) == pre + c + " " + b + " ";
    var ps6 := ps5 + [Hole(1)];
    FillSnoc(ps5, Hole(1), args);
    assert Fill(ps6, args) == pre + c + " " + b + " " + a;
    var ps7 := ps6 + [Literal(post)];
    FillSnoc(ps6, Literal(post), args);
    assert Fill(ps7, args) == pre + c + " " + b + " " + a + post;
  }

  lemma ReversedWellFormed(pre: string, post: string)
    requires BraceFree(pre) && BraceFree(post)
    ensures WellFormed(ReversedPieces(pre, post))
  {
    var ps1 := [Literal(pre)];
    WellFormedSnoc([], Literal(pre));
    assert [] + ps1 == ps1;
    var ps2 := ps1 + [Hole(3)];
    WellFormedSnoc(ps1, Hole(3));
    var ps3 := ps2 + [Literal(" ")];
    WellFormedSnoc(ps2, Literal(" "));
    var ps4 := ps3 + [Hole(2)];
    WellFormedSnoc(ps3, Hole(2));
    var ps5 := ps4 + [Literal(" ")];
    WellFormedSnoc(ps4, Literal(" "));
    var ps6 := ps5 + [Hole(1)];
    WellFormedSnoc(ps5, Hole(1));
    var ps7 := ps6 + [Literal(post)];
    WellFormedSnoc(ps6, Literal(post));
  }

  /** `{3} {2} {1}` inside any brace-free text lists three brace-free arguments in reverse order. */
  lemma ReversedArguments(pre: string, post: string, a: string, b: string, c: string)
    requires BraceFree(pre) && BraceFree(post) && BraceFree(a) && BraceFree(b) && BraceFree(c)
    ensures Substitute(pre + Placeholder(3) + " " + Placeholder(2) + " " + Placeholder(1) + post, [a, b, c])
         == pre + c + " " + b + " " + a + post
  {
    ReversedRender(pre, post);
    ReversedFill(pre, post, a, b, c);
    ReversedWellFormed(pre, post);
    assert forall x :: x in [a, b, c] ==> BraceFree(x);
    SubstituteFills(ReversedPieces(pre, post), [a, b, c]);
  }

  /** The command of the test suite: a Python one-liner writing `text` to the file `outFile`. */
  function TestCommand(outFile: string, text: string): string
  {
    TestPrefix(outFile) + text + TestSuffix()
  }

  function TestPrefix(outFile: string): string
  {
    "python -c 'f = open(\"" + outFile + "\", \"w\");f.write(\""
  }

  function TestSuffix(): string
  {
    "\"); f.close()'"
  }

  lemma TestAffixesBraceFree(outFile: string)
    requires BraceFree(outFile)
    ensures BraceFree(TestPrefix(outFile)) && BraceFree(TestSuffix())
  {
  }

  /**
   * The test suite's command writes `{3} {2} {1}`; for a parameter line of
   * three words (there `Argument1 Argument2 Argument3`) the command run
   * writes them in reverse order.
   */
  lemma TestCommandExample(outFile: string, a: string, b: string, c: string)
    requires BraceFree(outFile) && BraceFree(a) && BraceFree(b) && BraceFree(c)
    ensures Substitute(TestCommand(outFile, "{3} {2} {1}"), [a, b, c]) == TestCommand(outFile, c + " " + b + " " + a)
  {
    var pre, post := TestPrefix(outFile), TestSuffix();
    assert BraceFree(pre) && BraceFree(post) by {
      TestAffixesBraceFree(outFile);
    }
    var mid := Placeholder(3) + " " + Placeholder(2) + " " + Placeholder(1);
    assert mid == "{3} {2} {1}" by {
      SmallPlaceholders();
    }
    assert TestCommand(outFile, mid) == pre + Placeholder(3) + " " + Placeholder(2) + " " + Placeholder(1) + post;
    assert TestCommand(outFile, c + " " + b + " " + a) == pre + c + " " + b + " " + a + post;
    ReversedArguments(pre, post, a, b, c);
  }

  /**
   * Replacement is sequential, not simultaneous: for `{1}{2}` with the first
   * argument `{2}`, the first step brings in a second `{2}`, which the step
   * for `{2}` then replaces as well; filling the holes at once would keep it.
   */
  lemma SequentialExample(b: string)
    requires BraceFree(b)
    ensures Substitute(Placeholder(1) + Placeholder(2), [Placeholder(2), b]) == b + b
    ensures Fill([Hole(1), Hole(2)], [Placeholder(2), b]) == Placeholder(2) + b
  {
    SequentialNumbers();
    SequentialSteps(b);
    var ps := [Hole(1), Hole(2)];
    assert Fill(ps[1..], [Placeholder(2), b]) == b + [];
  }

  lemma SequentialNumbers()
    ensures ParamNums(Placeholder(1) + Placeholder(2)) == [1, 2]
  {
    var ps := [Hole(1), Hole(2)];
    assert Render(ps) == Placeholder(1) + Placeholder(2) by {
      assert Render(ps[1..]) == Placeholder(2) + [];
    }
    assert WellFormed(ps);
    ParamNumsRender(ps);
    assert Holes(ps) == [1, 2];
  }

  lemma SequentialSteps(b: string)
    requires BraceFree(b)
    ensures ApplyReplacements(Placeholder(1) + Placeholder(2), [1, 2], [""] + [Placeholder(2), b]) == b + b
  {
    var p1, p2 := Placeholder(1), Placeholder(2);
    var args := [""] + [p2, b];
    assert ArgumentValue(args, 1) == p2 && ArgumentValue(args, 2) == b;
    assert Replace(p1 + p2, p1, p2) == p2 + p2 by {
      ReplaceHit(p1, p2, p2);
      ReplaceOtherPlaceholder(2, 1, [], p2);
      assert p2 + [] == p2;
    }
    assert Replace(p2 + p2, p2, b) == b + b by {
      ReplaceHit(p2, p2, b);
      ReplaceWhole(p2, b);
    }
    assert ApplyReplacements(p2 + p2, [2], args) == ApplyReplacements(b + b, [], args);
  }
}
