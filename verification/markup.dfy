/**
  Markup as a list of pieces: literal text and named placeholders between brace
  delimiters (`{{name}}` in templates, `{name}` in the iterator compiler).

  The library works on the flat string with global replacements; this module proves
  that, for markup whose text and names hold no braces, a run of those replacements
  gives the same string as substituting the placeholders in the piece list.
 */
module Markup {
  import opened JsString

  datatype Piece = Text(text: string) | Hole(name: string)

  /** Holds no brace character. */
  predicate Plain(s: string) {
    '{' !in s && '}' !in s
  }

  lemma PlainConcat(a: string, b: string)
    ensures Plain(a + b) <==> Plain(a) && Plain(b)
  {
    assert forall c :: c in a + b <==> c in a || c in b;
  }

  function Content(p: Piece): string {
    match p
    case Text(t) => t
    case Hole(n) => n
  }

  predicate PlainPieces(ps: seq<Piece>) {
    forall i :: 0 <= i < |ps| ==> Plain(Content(ps[i]))
  }

  /** An opening delimiter made of `{` and a closing one made of `}`. */
  predicate Delimiters(open: string, close: string) {
    && |open| > 0 && |close| > 0
    && (forall i :: 0 <= i < |open| ==> open[i] == '{')
    && (forall i :: 0 <= i < |close| ==> close[i] == '}')
  }

  function PieceText(p: Piece, open: string, close: string): string {
    match p
    case Text(t) => t
    case Hole(n) => open + n + close
  }

  /** The flat markup string of a piece list. */
  function Render(ps: seq<Piece>, open: string, close: string): string {
    if |ps| == 0 then "" else PieceText(ps[0], open, close) + Render(ps[1..], open, close)
  }

  /** Rendering distributes over concatenation of piece lists. */
  lemma {:induction false} RenderAppend(a: seq<Piece>, b: seq<Piece>, open: string, close: string)
    ensures Render(a + b, open, close) == Render(a, open, close) + Render(b, open, close)
    decreases |a|
  {
    if |a| == 0 {
      assert a + b == b;
    } else {
      assert (a + b)[1..] == a[1..] + b;
      RenderAppend(a[1..], b, open, close);
    }
  }

  /** Placeholders whose name is in `names` become the text `fill(name)`; the rest stay. */
  function Resolve(ps: seq<Piece>, names: set<string>, fill: string -> string): (r: seq<Piece>)
    ensures |r| == |ps|
    ensures forall i :: 0 <= i < |ps| ==>
      r[i] == if ps[i].Hole? && ps[i].name in names then Text(fill(ps[i].name)) else ps[i]
  {
    if |ps| == 0 then []
    else
      [if ps[0].Hole? && ps[0].name in names then Text(fill(ps[0].name)) else ps[0]]
      + Resolve(ps[1..], names, fill)
  }

  /** Every placeholder replaced by `fill` of its name. */
  function Expand(ps: seq<Piece>, fill: string -> string): string {
    if |ps| == 0 then ""
    else (match ps[0] case Text(t) => t case Hole(n) => fill(n)) + Expand(ps[1..], fill)
  }

  /** Expansion distributes over concatenation of piece lists. */
  lemma {:induction false} ExpandAppend(a: seq<Piece>, b: seq<Piece>, fill: string -> string)
    ensures Expand(a + b, fill) == Expand(a, fill) + Expand(b, fill)
    decreases |a|
  {
    if |a| == 0 {
      assert a + b == b;
    } else {
      assert (a + b)[1..] == a[1..] + b;
      ExpandAppend(a[1..], b, fill);
    }
  }

  /** Brace-free text and brace-free fills expand to brace-free markup. */
  lemma {:induction false} ExpandPlain(ps: seq<Piece>, fill: string -> string)
    requires PlainPieces(ps)
    requires forall i :: 0 <= i < |ps| && ps[i].Hole? ==> Plain(fill(ps[i].name))
    ensures Plain(Expand(ps, fill))
    decreases |ps|
  {
    if |ps| > 0 {
      assert Plain(Content(ps[0]));
      forall i | 0 <= i < |ps| - 1 ensures Plain(Content(ps[1..][i])) {
        assert ps[1..][i] == ps[i + 1];
      }
      forall i | 0 <= i < |ps| - 1 && ps[1..][i].Hole? ensures Plain(fill(ps[1..][i].name)) {
        assert ps[1..][i] == ps[i + 1];
      }
      ExpandPlain(ps[1..], fill);
    }
  }

  /** The names of the placeholders, in markup order. */
  function HoleNames(ps: seq<Piece>): (r: seq<string>)
    ensures forall i :: 0 <= i < |ps| && ps[i].Hole? ==> ps[i].name in r
  {
    if |ps| == 0 then []
    else (if ps[0].Hole? then [ps[0].name] else []) + HoleNames(ps[1..])
  }

  /** Every listed name is the name of a placeholder. */
  lemma {:induction false} HoleNamesOf(ps: seq<Piece>)
    ensures forall k :: 0 <= k < |HoleNames(ps)| ==> exists i :: 0 <= i < |ps| && ps[i] == Hole(HoleNames(ps)[k])
    decreases |ps|
  {
    if |ps| > 0 {
      var r, t := HoleNames(ps), HoleNames(ps[1..]);
      HoleNamesOf(ps[1..]);
      var d := if ps[0].Hole? then 1 else 0;
      assert r == (if ps[0].Hole? then [ps[0].name] else []) + t;
      forall k | 0 <= k < |r| ensures exists i :: 0 <= i < |ps| && ps[i] == Hole(r[k]) {
        if k < d {
          assert ps[0] == Hole(r[k]) && 0 < |ps|;
        } else {
          assert r[k] == t[k - d];
          var i :| 0 <= i < |ps[1..]| && ps[1..][i] == Hole(t[k - d]);
          assert ps[i + 1] == Hole(r[k]);
          assert 0 <= i + 1 < |ps|;
        }
      }
    } else {
      assert HoleNames(ps) == [];
    }
  }

  /** The set of strings listed in `names`. */
  function NameSet(names: seq<string>): (r: set<string>)
    ensures forall n :: n in r <==> n in names
  {
    set i | 0 <= i < |names| :: names[i]
  }

  /**
    Global replacement of each `open + name + close` in turn, as the library does for
    its list of observer names or object keys.
   */
  function ReplaceEach(t: string, names: seq<string>, open: string, close: string,
                       fill: string -> string): string
    requires |open| > 0
    decreases |names|
  {
    if |names| == 0 then t
    else ReplaceEach(ReplaceAll(t, open + names[0] + close, fill(names[0])), names[1..], open, close, fill)
  }

  /** Two names replaced in turn. */
  lemma ReplaceEachTwo(t: string, a: string, b: string, open: string, close: string, fill: string -> string)
    requires |open| > 0
    ensures ReplaceEach(t, [a, b], open, close, fill)
         == ReplaceAll(ReplaceAll(t, open + a + close, fill(a)), open + b + close, fill(b))
  {
    var names := [a, b];
    var once := ReplaceAll(t, open + a + close, fill(a));
    var twice := ReplaceAll(once, open + b + close, fill(b));
    assert names[1..] == [b];
    assert [b][1..] == [];
    assert ReplaceEach(twice, [], open, close, fill) == twice;
    assert ReplaceEach(once, [b], open, close, fill) == twice;
  }

  /** A scan that finds no match at the first `k` positions copies them unchanged. */
  lemma {:induction false} ReplaceAllUnmatched(x: string, p: string, r: string, k: nat)
    requires |p| > 0 && k <= |x|
    requires forall i :: 0 <= i < k ==> !StartsWith(x[i..], p)
    ensures ReplaceAll(x, p, r) == x[..k] + ReplaceAll(x[k..], p, r)
    decreases k
  {
    if k > 0 {
      assert !StartsWith(x, p) by { assert x[0..] == x; }
      if |x| >= |p| {
        forall i | 0 <= i < k - 1 ensures !StartsWith(x[1..][i..], p) {
          assert x[1..][i..] == x[i + 1..];
        }
        ReplaceAllUnmatched(x[1..], p, r, k - 1);
        assert x[1..][k - 1..] == x[k..];
        assert [x[0]] + x[1..][..k - 1] == x[..k];
      } else {
        assert ReplaceAll(x[k..], p, r) == x[k..];
        assert x[..k] + x[k..] == x;
      }
    }
  }

  /** Two different plain names give placeholders neither of which starts the other. */
  lemma DistinctHoles(open: string, close: string, m: string, n: string, rest: string)
    requires Delimiters(open, close) && Plain(m) && Plain(n) && m != n
    ensures !StartsWith(open + m + close + rest, open + n + close)
  {
    var x, p, l := open + m + close + rest, open + n + close, |open|;
    if |p| <= |x| {
      var d: nat;
      if |m| < |n| {
        d := l + |m|;
        assert x[d] == close[0];
        assert p[d] == n[|m|];
        assert n[|m|] in n;
      } else if |m| > |n| {
        d := l + |n|;
        assert p[d] == close[0];
        assert x[d] == m[|n|];
        assert m[|n|] in m;
      } else {
        assert exists i :: 0 <= i < |m| && m[i] != n[i];
        var i :| 0 <= i < |m| && m[i] != n[i];
        d := l + i;
        assert x[d] == m[i];
        assert p[d] == n[i];
      }
      assert x[..|p|][d] != p[d];
    }
  }

  /** A placeholder with another name passes through a global replacement unchanged. */
  lemma OtherHoleUnchanged(open: string, close: string, m: string, n: string, rest: string, r: string)
    requires Delimiters(open, close) && Plain(m) && Plain(n) && m != n
    ensures ReplaceAll(open + m + close + rest, open + n + close, r)
         == open + m + close + ReplaceAll(rest, open + n + close, r)
  {
    var x, p := open + m + close + rest, open + n + close;
    var k := |open| + |m| + |close|;
    assert x[|open|] != '{' by {
      if |m| > 0 { assert x[|open|] == m[0]; assert m[0] in m; }
      else { assert x[|open|] == close[0]; }
    }
    forall i | 0 <= i < k ensures !StartsWith(x[i..], p) {
      if i == 0 {
        DistinctHoles(open, close, m, n, rest);
        assert x[0..] == x;
      } else if i < |open| {
        var j := |open| - i;
        assert x[i..][j] == x[|open|];
        assert p[j] == '{';
      } else {
        assert x[i] != '{' by {
          if i < |open| + |m| { assert x[i] == m[i - |open|]; assert m[i - |open|] in m; }
          else { assert x[i] == close[i - |open| - |m|]; }
        }
        assert x[i..][0] == x[i];
      }
    }
    ReplaceAllUnmatched(x, p, r, k);
    assert x[..k] == open + m + close;
    assert x[k..] == rest;
  }

  lemma ResolveTail(ps: seq<Piece>, names: set<string>, fill: string -> string)
    requires |ps| > 0
    ensures Resolve(ps, names, fill)[1..] == Resolve(ps[1..], names, fill)
  {
  }

  /**
    One global replacement of the placeholder `open + n + close` on plain markup is the
    substitution of that one placeholder in the piece list.
   */
  lemma {:induction false} ReplaceAllRender(ps: seq<Piece>, n: string, open: string, close: string,
                                            fill: string -> string)
    requires Delimiters(open, close) && PlainPieces(ps) && Plain(n)
    ensures ReplaceAll(Render(ps, open, close), open + n + close, fill(n))
         == Render(Resolve(ps, {n}, fill), open, close)
  {
    var p := open + n + close;
    if |ps| == 0 {
    } else {
      var rest := Render(ps[1..], open, close);
      assert PlainPieces(ps[1..]) by {
        forall i | 0 <= i < |ps[1..]| ensures Plain(Content(ps[1..][i])) { assert ps[1..][i] == ps[i + 1]; }
      }
      ReplaceAllRender(ps[1..], n, open, close, fill);
      ResolveTail(ps, {n}, fill);
      assert Plain(Content(ps[0]));
      match ps[0]
      case Text(t) =>
        assert p[0] == '{';
        ReplaceAllSkip(t, rest, p, fill(n));
      case Hole(m) =>
        if m == n {
          ReplaceAllLeading(rest, p, fill(n));
          assert Render(ps, open, close) == p + rest;
        } else {
          OtherHoleUnchanged(open, close, m, n, rest, fill(n));
          assert Render(ps, open, close) == open + m + close + rest;
        }
    }
  }

  /** Resolving in two steps is resolving the union of the names. */
  lemma ResolveTwice(ps: seq<Piece>, s: set<string>, t: set<string>, fill: string -> string)
    ensures Resolve(Resolve(ps, s, fill), t, fill) == Resolve(ps, s + t, fill)
  {
  }

  /**
    The library's sequence of global replacements over plain markup substitutes exactly
    the placeholders whose names it lists, each by `fill` of its name; the others stay.
   */
  lemma {:induction false} ReplaceEachRender(ps: seq<Piece>, resolved: set<string>, names: seq<string>,
                                             open: string, close: string, fill: string -> string)
    requires Delimiters(open, close) && PlainPieces(ps)
    requires forall n :: n in resolved ==> Plain(fill(n))
    requires forall i :: 0 <= i < |names| ==> Plain(names[i]) && Plain(fill(names[i]))
    ensures ReplaceEach(Render(Resolve(ps, resolved, fill), open, close), names, open, close, fill)
         == Render(Resolve(ps, resolved + NameSet(names), fill), open, close)
    decreases |names|
  {
    var qs := Resolve(ps, resolved, fill);
    if |names| == 0 {
      assert resolved + NameSet(names) == resolved;
    } else {
      var n := names[0];
      assert PlainPieces(qs) by {
        forall i | 0 <= i < |qs| ensures Plain(Content(qs[i])) {
          assert Plain(Content(ps[i]));
        }
      }
      ReplaceAllRender(qs, n, open, close, fill);
      ResolveTwice(ps, resolved, {n}, fill);
      ReplaceEachRender(ps, resolved + {n}, names[1..], open, close, fill);
      assert resolved + {n} + NameSet(names[1..]) == resolved + NameSet(names);
    }
  }

  /** With every placeholder named in `names`, the result is the fully expanded markup. */
  lemma {:induction false} ResolveAllIsExpand(ps: seq<Piece>, names: set<string>, open: string, close: string,
                                              fill: string -> string)
    requires forall i :: 0 <= i < |ps| && ps[i].Hole? ==> ps[i].name in names
    ensures Render(Resolve(ps, names, fill), open, close) == Expand(ps, fill)
  {
    if |ps| > 0 {
      ResolveTail(ps, names, fill);
      ResolveAllIsExpand(ps[1..], names, open, close, fill);
    }
  }

  lemma ResolveNothing(ps: seq<Piece>, fill: string -> string)
    ensures Resolve(ps, {}, fill) == ps
  {
  }

  /**
    Main theorem: replacing each listed placeholder globally in plain markup that names
    no other placeholder expands the markup, whatever the order or repetition of the list.
   */
  lemma ReplaceEachExpands(ps: seq<Piece>, names: seq<string>, open: string, close: string,
                           fill: string -> string)
    requires Delimiters(open, close) && PlainPieces(ps)
    requires forall i :: 0 <= i < |names| ==> Plain(names[i]) && Plain(fill(names[i]))
    requires forall i :: 0 <= i < |ps| && ps[i].Hole? ==> ps[i].name in names
    ensures ReplaceEach(Render(ps, open, close), names, open, close, fill) == Expand(ps, fill)
  {
    ResolveNothing(ps, fill);
    ReplaceEachRender(ps, {}, names, open, close, fill);
    ResolveAllIsExpand(ps, {} + NameSet(names), open, close, fill);
  }
}
