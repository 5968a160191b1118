/**
  The JavaScript string operations the library relies on, on `seq<char>`.

  Every pattern here is a plain literal: the model does not interpret regular
  expression metacharacters or `$` sequences in replacement strings.
 */
module JsString {

  /** `p` occurs in `s` starting at position `i`. */
  predicate IsAt(s: string, p: string, i: int) {
    0 <= i && i + |p| <= |s| && s[i..i + |p|] == p
  }

  /** `s.indexOf(p, from)`: the first position at or after `from` where `p` occurs, or -1. */
  function IndexOf(s: string, p: string, from: nat): (r: int)
    ensures r == -1 || (from <= r && IsAt(s, p, r))
    decreases |s| - from
  {
    if from + |p| > |s| then -1
    else if s[from..from + |p|] == p then from
    else IndexOf(s, p, from + 1)
  }

  /** The positions are listed in strictly increasing order. */
  predicate Increasing(r: seq<nat>) {
    forall k, l :: 0 <= k < l < |r| ==> r[k] < r[l]
  }

  /** No occurrence lies between `from` and the one `indexOf` finds, nor anywhere after `from` when it finds none. */
  lemma {:induction false} IndexOfFirst(s: string, p: string, from: nat)
    ensures IndexOf(s, p, from) != -1 ==> forall j :: from <= j < IndexOf(s, p, from) ==> !IsAt(s, p, j)
    ensures IndexOf(s, p, from) == -1 ==> forall j :: from <= j ==> !IsAt(s, p, j)
    decreases |s| - from
  {
    if from + |p| <= |s| && s[from..from + |p|] != p {
      IndexOfFirst(s, p, from + 1);
    }
  }

  /** The first occurrence at or after `from` is the one `indexOf` finds. */
  lemma {:induction false} IndexOfIs(s: string, p: string, from: nat, i: nat)
    requires from <= i && IsAt(s, p, i)
    requires forall j :: from <= j < i ==> !IsAt(s, p, j)
    ensures IndexOf(s, p, from) == i
    decreases i - from
  {
    if from < i {
      assert !IsAt(s, p, from);
      IndexOfIs(s, p, from + 1, i);
    }
  }

  /** Every position at or after `from` where `p` occurs, in increasing order. */
  function Occurrences(s: string, p: string, from: nat): (r: seq<nat>)
    decreases |s| - from
  {
    if from + |p| > |s| then []
    else (if IsAt(s, p, from) then [from] else []) + Occurrences(s, p, from + 1)
  }

  /** Every listed position is an occurrence at or after `from`. */
  lemma {:induction false} OccurrencesAt(s: string, p: string, from: nat)
    ensures forall k :: 0 <= k < |Occurrences(s, p, from)| ==>
      from <= Occurrences(s, p, from)[k] && IsAt(s, p, Occurrences(s, p, from)[k])
    decreases |s| - from
  {
    if from + |p| <= |s| {
      var t := Occurrences(s, p, from + 1);
      OccurrencesAt(s, p, from + 1);
      if IsAt(s, p, from) {
        var r := [from] + t;
        assert Occurrences(s, p, from) == r;
        assert forall k :: 1 <= k < |r| ==> r[k] == t[k - 1];
      } else {
        assert Occurrences(s, p, from) == t;
      }
    }
  }

  /** The occurrences are listed in increasing order. */
  lemma {:induction false} OccurrencesSorted(s: string, p: string, from: nat)
    ensures Increasing(Occurrences(s, p, from))
    decreases |s| - from
  {
    if from + |p| <= |s| {
      var t := Occurrences(s, p, from + 1);
      OccurrencesSorted(s, p, from + 1);
      OccurrencesAt(s, p, from + 1);
      if IsAt(s, p, from) {
        var r := [from] + t;
        assert Occurrences(s, p, from) == r;
        forall k, l | 0 <= k < l < |r|
          ensures r[k] < r[l]
        {
          assert r[l] == t[l - 1];
          if k > 0 {
            assert r[k] == t[k - 1];
          }
        }
      } else {
        assert Occurrences(s, p, from) == t;
      }
    }
  }

  /** Every occurrence at or after `from` is listed. */
  lemma {:induction false} OccurrencesComplete(s: string, p: string, from: nat)
    ensures forall j :: from <= j && IsAt(s, p, j) ==> j in Occurrences(s, p, from)
    decreases |s| - from
  {
    if from + |p| <= |s| {
      OccurrencesComplete(s, p, from + 1);
      if IsAt(s, p, from) {
        assert Occurrences(s, p, from) == [from] + Occurrences(s, p, from + 1);
      } else {
        assert Occurrences(s, p, from) == Occurrences(s, p, from + 1);
      }
    }
  }

  /** Without an occurrence between `from` and `until`, the occurrences from `from` are those from `until`. */
  lemma {:induction false} OccurrencesSkip(s: string, p: string, from: nat, until: nat)
    requires from <= until
    requires forall j :: from <= j < until ==> !IsAt(s, p, j)
    ensures Occurrences(s, p, from) == Occurrences(s, p, until)
    decreases until - from
  {
    if from < until && from + |p| <= |s| {
      assert !IsAt(s, p, from);
      OccurrencesSkip(s, p, from + 1, until);
    }
  }

  /** An occurrence at `from` heads the occurrences from `from`. */
  lemma OccurrencesHit(s: string, p: string, from: nat)
    requires IsAt(s, p, from)
    ensures Occurrences(s, p, from) == [from] + Occurrences(s, p, from + 1)
  {
  }

  /** A two-character pattern of one repeated character occurs exactly where that character is doubled. */
  lemma DoubleAt(s: string, p: string, c: char, j: int)
    requires p == [c, c]
    ensures IsAt(s, p, j) <==> 0 <= j && j + 2 <= |s| && s[j] == c && s[j + 1] == c
  {
    if 0 <= j && j + 2 <= |s| {
      assert s[j..j + 2] == [s[j], s[j + 1]];
    }
  }

  /** The text of `s` from `o` splits as `w` followed by `rest`. */
  lemma SliceSplit(s: string, o: nat, w: string, rest: string)
    requires o <= |s| && s[o..] == w + rest
    ensures o + |w| <= |s| && s[o + |w|..] == rest
    ensures forall k :: 0 <= k < |w| ==> s[o + k] == w[k]
  {
    assert forall k :: 0 <= k < |w| ==> s[o..][k] == s[o + k];
    assert s[o + |w|..] == s[o..][|w|..];
  }

  /** `xs.map(f)` for a function that renders each element as a string. */
  function Each<T>(xs: seq<T>, f: T -> string): (r: seq<string>)
    ensures |r| == |xs|
    ensures forall i :: 0 <= i < |xs| ==> r[i] == f(xs[i])
  {
    seq(|xs|, i requires 0 <= i < |xs| => f(xs[i]))
  }

  lemma EachOne<T>(x: T, f: T -> string)
    ensures Each([x], f) == [f(x)]
  {
  }

  lemma EachAppend<T>(xs: seq<T>, ys: seq<T>, f: T -> string)
    ensures Each(xs + ys, f) == Each(xs, f) + Each(ys, f)
  {
    var l, r := Each(xs + ys, f), Each(xs, f) + Each(ys, f);
    forall i | 0 <= i < |l|
      ensures l[i] == r[i]
    {
      assert (xs + ys)[i] == if i < |xs| then xs[i] else ys[i - |xs|];
    }
  }

  /** The concatenation of a list of strings. */
  function Concat(ss: seq<string>): (r: string)
    ensures |ss| == 0 ==> r == ""
  {
    if |ss| == 0 then "" else ss[0] + Concat(ss[1..])
  }

  lemma ConcatOne(x: string)
    ensures Concat([x]) == x
  {
    assert [x][1..] == [];
  }

  lemma {:induction false} ConcatAppend(x: seq<string>, y: seq<string>)
    ensures Concat(x + y) == Concat(x) + Concat(y)
    decreases |x|
  {
    if |x| == 0 {
      assert x + y == y;
    } else {
      assert (x + y)[1..] == x[1..] + y;
      ConcatAppend(x[1..], y);
    }
  }

  /** Scanning with `indexOf` from `from` meets exactly the occurrences listed by `Occurrences`. */
  lemma {:induction false} OccurrencesStep(s: string, p: string, from: nat)
    ensures IndexOf(s, p, from) == -1 ==> Occurrences(s, p, from) == []
    ensures IndexOf(s, p, from) != -1 ==>
      Occurrences(s, p, from) == [IndexOf(s, p, from)] + Occurrences(s, p, IndexOf(s, p, from) + 1)
    decreases |s| - from
  {
    if from + |p| > |s| {
      assert IndexOf(s, p, from) == -1;
      assert Occurrences(s, p, from) == [];
    } else if IsAt(s, p, from) {
      assert IndexOf(s, p, from) == from;
      assert Occurrences(s, p, from) == [from] + Occurrences(s, p, from + 1);
    } else {
      assert IndexOf(s, p, from) == IndexOf(s, p, from + 1);
      assert Occurrences(s, p, from) == Occurrences(s, p, from + 1);
      OccurrencesStep(s, p, from + 1);
    }
  }

  /** When `indexOf` finds `p`, that position heads the occurrences and the rest follow it. */
  lemma OccurrencesHead(s: string, p: string, from: nat)
    requires IndexOf(s, p, from) > -1
    ensures |Occurrences(s, p, from)| > 0
    ensures Occurrences(s, p, from)[0] == IndexOf(s, p, from)
    ensures Occurrences(s, p, from)[1..] == Occurrences(s, p, IndexOf(s, p, from) + 1)
  {
    OccurrencesStep(s, p, from);
  }

  /** The positions of an opening and of a closing delimiter that the scan paired up. */
  datatype Bounds = Bounds(open: nat, close: nat)

  /** Pairs the k-th opening position with the k-th closing position, as far as both reach. */
  function Zip(a: seq<nat>, b: seq<nat>): (r: seq<Bounds>)
    ensures |r| == if |a| < |b| then |a| else |b|
  {
    if |a| == 0 || |b| == 0 then [] else [Bounds(a[0], b[0])] + Zip(a[1..], b[1..])
  }

  lemma {:induction false} ZipAt(a: seq<nat>, b: seq<nat>)
    ensures forall k :: 0 <= k < |Zip(a, b)| ==> Zip(a, b)[k] == Bounds(a[k], b[k])
    decreases |a|
  {
    if |a| > 0 && |b| > 0 {
      ZipAt(a[1..], b[1..]);
    }
  }

  /** A list that starts with the first pair and continues with the zip of the rests is the zip. */
  lemma ZipCons(r: seq<Bounds>, t: seq<Bounds>, a: seq<nat>, b: seq<nat>, i: nat, j: nat, x: seq<nat>, y: seq<nat>)
    requires |a| > 0 && |b| > 0 && a[0] == i && b[0] == j && a[1..] == x && b[1..] == y
    requires r == [Bounds(i, j)] + t
    requires t == Zip(x, y)
    ensures r == Zip(a, b)
  {
  }

  /**
    The delimiter scan shared by the template and the iterator compiler: starting from
    the positions `i` and `j` returned by `indexOf`, record the pair and look for the next
    `open` after `i` and the next `close` after `j`, until either search returns -1.
   */
  function PairFrom(s: string, open: string, close: string, i: int, j: int): seq<Bounds>
    requires i == -1 || (0 <= i <= |s|)
    requires j == -1 || (0 <= j <= |s|)
    decreases if i < 0 then 0 else |s| + 1 - i
  {
    if i > -1 && j > -1 then
      [Bounds(i, j)] + PairFrom(s, open, close, IndexOf(s, open, i + 1), IndexOf(s, close, j + 1))
    else []
  }

  lemma PairFromStep(s: string, open: string, close: string, i: int, j: int)
    requires 0 <= i <= |s| && 0 <= j <= |s|
    ensures PairFrom(s, open, close, i, j)
         == [Bounds(i, j)] + PairFrom(s, open, close, IndexOf(s, open, i + 1), IndexOf(s, close, j + 1))
  {
  }

  /** The pairs the delimiter scan collects over the whole of `s`. */
  function Pairs(s: string, open: string, close: string): seq<Bounds> {
    PairFrom(s, open, close, IndexOf(s, open, 0), IndexOf(s, close, 0))
  }

  lemma {:induction false} PairFromZip(s: string, open: string, close: string, a: nat, b: nat)
    ensures PairFrom(s, open, close, IndexOf(s, open, a), IndexOf(s, close, b))
         == Zip(Occurrences(s, open, a), Occurrences(s, close, b))
    decreases |s| + 1 - a
  {
    if IndexOf(s, open, a) > -1 && IndexOf(s, close, b) > -1 {
      var i, j := IndexOf(s, open, a), IndexOf(s, close, b);
      PairFromZip(s, open, close, i + 1, j + 1);
      assert PairFrom(s, open, close, IndexOf(s, open, i + 1), IndexOf(s, close, j + 1))
          == Zip(Occurrences(s, open, i + 1), Occurrences(s, close, j + 1));
      PairFromZipCons(s, open, close, a, b, i, j);
    } else {
      OccurrencesStep(s, open, a);
      OccurrencesStep(s, close, b);
    }
  }

  /** One step of the scan: the pair found first, at `i` and `j`, heads both lists. */
  lemma PairFromZipCons(s: string, open: string, close: string, a: nat, b: nat, i: nat, j: nat)
    requires i == IndexOf(s, open, a) && j == IndexOf(s, close, b)
    requires PairFrom(s, open, close, IndexOf(s, open, i + 1), IndexOf(s, close, j + 1))
          == Zip(Occurrences(s, open, i + 1), Occurrences(s, close, j + 1))
    ensures PairFrom(s, open, close, i, j) == Zip(Occurrences(s, open, a), Occurrences(s, close, b))
  {
    OccurrencesHead(s, open, a);
    OccurrencesHead(s, close, b);
    PairFromStep(s, open, close, i, j);
    var t := PairFrom(s, open, close, IndexOf(s, open, i + 1), IndexOf(s, close, j + 1));
    ZipCons(PairFrom(s, open, close, i, j), t, Occurrences(s, open, a), Occurrences(s, close, b), i, j,
            Occurrences(s, open, i + 1), Occurrences(s, close, j + 1));
  }


  /**
    The scan pairs the k-th occurrence of `open` with the k-th occurrence of `close`;
    it yields as many pairs as the rarer delimiter has occurrences.
   */
  lemma PairsAreZip(s: string, open: string, close: string)
    ensures Pairs(s, open, close) == Zip(Occurrences(s, open, 0), Occurrences(s, close, 0))
  {
    PairFromZip(s, open, close, 0, 0);
  }

  function Clamp(x: int, n: nat): (r: nat)
    ensures r <= n
  {
    if x < 0 then 0 else if x > n then n else x
  }

  /**
    `s.substring(start, end)`: both bounds are clamped to `[0, |s|]` and swapped when
    the start lies after the end.
   */
  function JsSubstring(s: string, start: int, end: int): (r: string)
    ensures 0 <= start <= end <= |s| ==> r == s[start..end]
    ensures 0 <= end <= start <= |s| ==> r == s[end..start]
    ensures end <= 0 && start <= 0 ==> r == ""
    ensures |s| <= end && |s| <= start ==> r == ""
  {
    var a, b := Clamp(start, |s|), Clamp(end, |s|);
    if a <= b then s[a..b] else s[b..a]
  }

  /** `s.replace(p, r)` with a string pattern: only the first occurrence is replaced. */
  function ReplaceFirst(s: string, p: string, r: string): (t: string)
    ensures IndexOf(s, p, 0) == -1 ==> t == s
    ensures IndexOf(s, p, 0) != -1 ==>
      var i := IndexOf(s, p, 0); t == s[..i] + r + s[i + |p|..]
  {
    var i := IndexOf(s, p, 0);
    if i == -1 then s else s[..i] + r + s[i + |p|..]
  }

  /** `s` begins with `p`. */
  predicate StartsWith(s: string, p: string) {
    |p| <= |s| && s[..|p|] == p
  }

  /**
    `s.replace(new RegExp(p, 'g'), r)` for a literal `p`: scanning left to right,
    every occurrence that does not overlap an earlier replaced one is replaced.
   */
  function ReplaceAll(s: string, p: string, r: string): string
    requires |p| > 0
    decreases |s|
  {
    if |s| < |p| then s
    else if StartsWith(s, p) then r + ReplaceAll(s[|p|..], p, r)
    else [s[0]] + ReplaceAll(s[1..], p, r)
  }

  /** Without any occurrence of the pattern, a global replacement changes nothing. */
  lemma {:induction false} ReplaceAllAbsent(s: string, p: string, r: string)
    requires |p| > 0
    requires forall j :: !IsAt(s, p, j)
    ensures ReplaceAll(s, p, r) == s
    decreases |s|
  {
    if |s| < |p| {
    } else {
      assert !IsAt(s, p, 0);
      forall j ensures !IsAt(s[1..], p, j) {
        if IsAt(s[1..], p, j) {
          assert s[1..][j..j + |p|] == s[j + 1..j + 1 + |p|];
          assert IsAt(s, p, j + 1);
        }
      }
      ReplaceAllAbsent(s[1..], p, r);
    }
  }

  /** A prefix none of whose characters can start the pattern passes through unchanged. */
  lemma {:induction false} ReplaceAllSkip(t: string, x: string, p: string, r: string)
    requires |p| > 0
    requires p[0] !in t
    ensures ReplaceAll(t + x, p, r) == t + ReplaceAll(x, p, r)
    decreases |t|
  {
    if |t| > 0 {
      var s := t + x;
      assert s[0] == t[0];
      assert s[1..] == t[1..] + x;
      if |s| < |p| {
        assert ReplaceAll(x, p, r) == x;
      } else {
        assert s[0] != p[0];
        assert ReplaceAll(s, p, r) == [t[0]] + ReplaceAll(t[1..] + x, p, r);
        ReplaceAllSkip(t[1..], x, p, r);
        assert [t[0]] + t[1..] == t;
      }
    } else {
      assert t + x == x;
    }
  }

  /** A string that begins with the pattern has that occurrence replaced first. */
  lemma ReplaceAllLeading(x: string, p: string, r: string)
    requires |p| > 0
    ensures ReplaceAll(p + x, p, r) == r + ReplaceAll(x, p, r)
  {
    var s := p + x;
    assert s[..|p|] == p;
    assert s[|p|..] == x;
  }

  /** `s.replace(/c/g, '')` for one character `c`: every `c` is dropped. */
  function RemoveChar(s: string, c: char): (r: string)
    ensures c !in r
    ensures forall d :: d != c ==> (d in r <==> d in s)
    ensures c !in s ==> r == s
    ensures |r| <= |s|
  {
    if |s| == 0 then ""
    else if s[0] == c then RemoveChar(s[1..], c)
    else [s[0]] + RemoveChar(s[1..], c)
  }

  /** Removing a character commutes with concatenation. */
  lemma {:induction false} RemoveCharConcat(a: string, b: string, c: char)
    ensures RemoveChar(a + b, c) == RemoveChar(a, c) + RemoveChar(b, c)
  {
    if |a| > 0 {
      assert (a + b)[0] == a[0];
      assert (a + b)[1..] == a[1..] + b;
      RemoveCharConcat(a[1..], b, c);
    } else {
      assert a + b == b;
    }
  }

  /** The characters JavaScript's `trim` and `\s` treat as white space or line terminators. */
  predicate IsSpace(c: char) {
    c == ' ' || c == '\t' || c == '\n' || c == '\r' || c == '\U{000B}' || c == '\U{000C}'
    || c == '\U{00A0}' || c == '\U{1680}' || ('\U{2000}' <= c <= '\U{200A}')
    || c == '\U{2028}' || c == '\U{2029}' || c == '\U{202F}' || c == '\U{205F}'
    || c == '\U{3000}' || c == '\U{FEFF}'
  }

  /** Number of leading white-space characters of `s` from position `from`. */
  function SpaceRun(s: string, from: nat): (n: nat)
    requires from <= |s|
    ensures from + n <= |s|
    ensures from + n == |s| || !IsSpace(s[from + n])
    decreases |s| - from
  {
    if from == |s| || !IsSpace(s[from]) then 0 else 1 + SpaceRun(s, from + 1)
  }

  /** Everything a white-space run covers is white space. */
  lemma {:induction false} SpaceRunSpaces(s: string, from: nat)
    requires from <= |s|
    ensures forall k :: from <= k < from + SpaceRun(s, from) ==> IsSpace(s[k])
    decreases |s| - from
  {
    if from < |s| && IsSpace(s[from]) {
      SpaceRunSpaces(s, from + 1);
    }
  }

  function TrimStart(s: string): (r: string)
    ensures |r| <= |s| && r == s[|s| - |r|..]
    ensures forall k :: 0 <= k < |s| - |r| ==> IsSpace(s[k])
    ensures |r| == 0 || !IsSpace(r[0])
  {
    SpaceRunSpaces(s, 0);
    s[SpaceRun(s, 0)..]
  }

  function TrimEnd(s: string): (r: string)
    ensures |r| <= |s| && r == s[..|r|]
    ensures forall k :: |r| <= k < |s| ==> IsSpace(s[k])
    ensures |r| == 0 || !IsSpace(r[|r| - 1])
  {
    if |s| == 0 || !IsSpace(s[|s| - 1]) then s else TrimEnd(s[..|s| - 1])
  }

  /** `r` is the part of `s` that starts at `i`, and everything around it is white space. */
  predicate TrimmedAt(s: string, r: string, i: nat) {
    && i + |r| <= |s| && r == s[i..i + |r|]
    && (forall k :: 0 <= k < i ==> IsSpace(s[k]))
    && (forall k :: i + |r| <= k < |s| ==> IsSpace(s[k]))
  }

  /**
    `s.trim()`: the result is a contiguous part of `s`, everything cut off is white
    space, and the result neither begins nor ends with white space.
   */
  function Trim(s: string): (r: string)
    ensures exists i :: TrimmedAt(s, r, i)
    ensures |r| == 0 || (!IsSpace(r[0]) && !IsSpace(r[|r| - 1]))
  {
    var t := TrimStart(s);
    var r := TrimEnd(t);
    var i := |s| - |t|;
    assert r == s[i..i + |r|];
    assert TrimmedAt(s, r, i);
    r
  }

  /** Text with no white space at all is its own trim. */
  lemma TrimNoSpace(s: string)
    requires forall k :: 0 <= k < |s| ==> !IsSpace(s[k])
    ensures Trim(s) == s
  {
    var r := Trim(s);
    var i: nat :| TrimmedAt(s, r, i);
    assert i + |r| <= |s| && r == s[i..i + |r|];
    if 0 < |s| {
      assert !IsSpace(s[0]) && !IsSpace(s[|s| - 1]);
    }
    assert s[0..|s|] == s;
  }

  /**
    `s.replace(/>\s+</g, '><')`: every `>` followed by one or more white-space
    characters and then `<` loses that white space; the scan resumes after the `<`.
   */
  function CollapseGaps(s: string): string
    decreases |s|
  {
    if |s| == 0 then ""
    else if s[0] == '>' && SpaceRun(s, 1) > 0 && 1 + SpaceRun(s, 1) < |s| && s[1 + SpaceRun(s, 1)] == '<' then
      "><" + CollapseGaps(s[2 + SpaceRun(s, 1)..])
    else [s[0]] + CollapseGaps(s[1..])
  }

  /** The characters of `s` that are not white space, in order. */
  function Visible(s: string): (r: string)
    ensures |r| <= |s|
  {
    if |s| == 0 then "" else (if IsSpace(s[0]) then "" else [s[0]]) + Visible(s[1..])
  }

  lemma {:induction false} VisibleAppend(a: string, b: string)
    ensures Visible(a + b) == Visible(a) + Visible(b)
  {
    if |a| > 0 {
      assert (a + b)[0] == a[0];
      assert (a + b)[1..] == a[1..] + b;
      VisibleAppend(a[1..], b);
    } else {
      assert a + b == b;
    }
  }

  /** A run of white space has nothing visible. */
  lemma {:induction false} VisibleOfSpace(s: string)
    requires forall k :: 0 <= k < |s| ==> IsSpace(s[k])
    ensures Visible(s) == ""
  {
    if |s| > 0 {
      VisibleOfSpace(s[1..]);
    }
  }

  /** Text that starts `>`, nothing visible, `<` shows just `><` before the rest. */
  lemma GapVisible(gap: string, rest: string)
    requires Visible(gap) == ""
    ensures Visible(['>'] + (gap + (['<'] + rest))) == "><" + Visible(rest)
  {
    VisibleCons('<', rest);
    VisibleAppend(gap, ['<'] + rest);
    VisibleCons('>', gap + (['<'] + rest));
  }

  /** One character that is not the start of a gap is kept. */
  lemma VisibleCons(c: char, s: string)
    ensures Visible([c] + s) == (if IsSpace(c) then "" else [c]) + Visible(s)
  {
    assert ([c] + s)[1..] == s;
  }

  /** A run of white space has nothing visible. */
  lemma {:induction false} VisibleSpaceRun(s: string, from: nat)
    requires from <= |s|
    ensures Visible(s[from..from + SpaceRun(s, from)]) == ""
    decreases |s| - from
  {
    if from < |s| && IsSpace(s[from]) {
      var n := SpaceRun(s, from);
      VisibleSpaceRun(s, from + 1);
      assert s[from..from + n] == [s[from]] + s[from + 1..from + n];
      VisibleCons(s[from], s[from + 1..from + n]);
    }
  }

  /** A gap shows only the `>` and the `<` around it. */
  lemma GapShows(s: string)
    requires |s| > 0 && s[0] == '>' && SpaceRun(s, 1) > 0 && 1 + SpaceRun(s, 1) < |s| && s[1 + SpaceRun(s, 1)] == '<'
    ensures Visible(s) == "><" + Visible(s[2 + SpaceRun(s, 1)..])
  {
    var n := SpaceRun(s, 1);
    var rest := s[2 + n..];
    var gap := s[1..1 + n];
    assert s[1 + n..] == ['<'] + rest;
    assert s[1..] == gap + s[1 + n..];
    assert s == ['>'] + s[1..];
    VisibleSpaceRun(s, 1);
    GapVisible(gap, rest);
  }

  /** `><` shows as itself in front of any text. */
  lemma TagsVisible(t: string)
    ensures Visible("><" + t) == "><" + Visible(t)
  {
    VisibleCons('<', t);
    VisibleCons('>', ['<'] + t);
    assert "><" + t == ['>'] + (['<'] + t);
  }

  /** One collapsed gap: the text shows the same once the rest does. */
  lemma GapCase(s: string)
    requires |s| > 0 && s[0] == '>' && SpaceRun(s, 1) > 0 && 1 + SpaceRun(s, 1) < |s| && s[1 + SpaceRun(s, 1)] == '<'
    requires Visible(CollapseGaps(s[2 + SpaceRun(s, 1)..])) == Visible(s[2 + SpaceRun(s, 1)..])
    ensures Visible(CollapseGaps(s)) == Visible(s)
  {
    var rest := s[2 + SpaceRun(s, 1)..];
    GapShows(s);
    assert CollapseGaps(s) == "><" + CollapseGaps(rest);
    TagsVisible(CollapseGaps(rest));
  }

  /** One kept character: the text shows the same once the rest does. */
  lemma KeepCase(s: string)
    requires |s| > 0 && CollapseGaps(s) == [s[0]] + CollapseGaps(s[1..])
    requires Visible(CollapseGaps(s[1..])) == Visible(s[1..])
    ensures Visible(CollapseGaps(s)) == Visible(s)
  {
    VisibleCons(s[0], CollapseGaps(s[1..]));
    VisibleCons(s[0], s[1..]);
    assert [s[0]] + s[1..] == s;
  }

  /** Collapsing the gaps between tags removes white space only and never lengthens the text. */
  lemma {:induction false} CollapseGapsVisible(s: string)
    ensures Visible(CollapseGaps(s)) == Visible(s)
    ensures |CollapseGaps(s)| <= |s|
    decreases |s|
  {
    if |s| > 0 {
      if s[0] == '>' && SpaceRun(s, 1) > 0 && 1 + SpaceRun(s, 1) < |s| && s[1 + SpaceRun(s, 1)] == '<' {
        CollapseGapsVisible(s[2 + SpaceRun(s, 1)..]);
        GapCase(s);
      } else {
        CollapseGapsVisible(s[1..]);
        KeepCase(s);
      }
    }
  }

  /** Text without a `>` has no gap to collapse. */
  lemma {:induction false} CollapseGapsNoTag(s: string)
    requires '>' !in s
    ensures CollapseGaps(s) == s
    decreases |s|
  {
    if |s| > 0 {
      assert s[0] != '>' by { assert s[0] in s; }
      assert '>' !in s[1..] by {
        forall k | 0 <= k < |s[1..]| ensures s[1..][k] != '>' { assert s[1..][k] in s; }
      }
      CollapseGapsNoTag(s[1..]);
    }
  }
}
