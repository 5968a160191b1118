/**
  The iterator compiler `compile(html, items)`.

  With `{iter}…{/iter}` blocks, each record rebuilds the markup around every block:
  the trimmed text before the block, the block body expanded once per own key of the
  record (`{key}` becomes the key, `{value}` its value), then the trimmed text after the
  block. Without a block, every `{k}` placeholder becomes the value of key `k`.

  The block positions are those of the original markup and are reused, as in the
  library, for every block of every record.
 */
module Iterate {
  import opened JsString
  import opened JsValue
  import opened Markup

  const IterOpen := "{iter}"
  const IterClose := "{/iter}"
  const KeyHole := "{key}"
  const ValueHole := "{value}"

  /** One `{iter}…{/iter}` block: where its delimiters were found and its cleaned body. */
  datatype Iterator = Iterator(start: nat, end: nat, body: string)

  /**
    How the text after a block is cut. The library calls
    `substring(end + 7, length - 1)`: that drops the markup's last character when text
    follows the block, and swaps its arguments, keeping that character, when the block
    closes the markup. `ToEnd` keeps all of the text after the block.
   */
  datatype SuffixCut = Swapping | ToEnd

  /**
    `html.substring(start, end).replace('{iter}', '').replace('{/iter}', '')
    .replace(/>\s+</g, '><').trim()`.
   */
  function BlockBody(html: string, start: nat, end: nat): string {
    Trim(CollapseGaps(ReplaceFirst(ReplaceFirst(JsSubstring(html, start, end), IterOpen, ""), IterClose, "")))
  }

  /**
    The blocks of `html`: the k-th `{iter}` paired with the k-th `{/iter}`, as many as the
    rarer delimiter has occurrences.
   */
  function Iterators(html: string): seq<Iterator> {
    var pairs := Pairs(html, IterOpen, IterClose);
    seq(|pairs|, k requires 0 <= k < |pairs| =>
      Iterator(pairs[k].open, pairs[k].close, BlockBody(html, pairs[k].open, pairs[k].close)))
  }

  /**
    The blocks of `html` pair the k-th `{iter}` with the k-th `{/iter}`; there are as
    many as the rarer delimiter has occurrences.
   */
  lemma IteratorsPaired(html: string)
    ensures var opens, closes := Occurrences(html, IterOpen, 0), Occurrences(html, IterClose, 0);
      && |Iterators(html)| == (if |opens| < |closes| then |opens| else |closes|)
      && forall k :: 0 <= k < |Iterators(html)| ==>
           Iterators(html)[k] == Iterator(opens[k], closes[k], BlockBody(html, opens[k], closes[k]))
  {
    PairsAreZip(html, IterOpen, IterClose);
    ZipAt(Occurrences(html, IterOpen, 0), Occurrences(html, IterClose, 0));
  }

  /** The text a value is replaced by. */
  function ValueText(item: seq<Field>, k: string): string {
    ToText(Get(item, k))
  }

  /** One key's copy of a block body. */
  function ItemHtml(body: string, k: string, value: string): string {
    ReplaceAll(ReplaceAll(body, KeyHole, k), ValueHole, value)
  }

  /** The block body once per own key of the record, in key order. */
  function IterHtml(body: string, item: seq<Field>): string {
    Concat(Each(Keys(item), k => ItemHtml(body, k, ValueText(item, k))))
  }

  /** The text after a block that the rebuild keeps, before trimming. */
  function Suffix(template: string, end: nat, cut: SuffixCut): string {
    match cut
    case Swapping => JsSubstring(template, end + |IterClose|, |template| - 1)
    case ToEnd => if end + |IterClose| <= |template| then template[end + |IterClose|..] else ""
  }

  /**
    One block applied to the current markup: the trimmed text before `start`, the
    expanded block, the trimmed text after the block.
   */
  function Rebuild(template: string, it: Iterator, item: seq<Field>, cut: SuffixCut): string {
    var rebuilt := Trim(JsSubstring(template, 0, it.start)) + IterOpen + Trim(Suffix(template, it.end, cut));
    ReplaceFirst(rebuilt, IterOpen, IterHtml(it.body, item))
  }

  /** Every block applied in turn, each to the result of the one before. */
  function ApplyIterators(template: string, iters: seq<Iterator>, item: seq<Field>, cut: SuffixCut): string
    decreases |iters|
  {
    if |iters| == 0 then template
    else ApplyIterators(Rebuild(template, iters[0], item, cut), iters[1..], item, cut)
  }

  /** Every `{k}` replaced by the value of `k`, for each own key in key order. */
  function Substitute(template: string, item: seq<Field>): string {
    ReplaceEach(template, Keys(item), "{", "}", k => ValueText(item, k))
  }

  /** The fragment of one record. */
  function CompileItem(html: string, iters: seq<Iterator>, item: seq<Field>, cut: SuffixCut): string {
    if |iters| > 0 then ApplyIterators(html, iters, item, cut) else Substitute(html, item)
  }

  function CompileWith(html: string, items: seq<seq<Field>>, cut: SuffixCut): string {
    Concat(Each(items, item => CompileItem(html, Iterators(html), item, cut)))
  }

  /** `compile(html, items)` as the library computes it. */
  function Compile(html: string, items: seq<seq<Field>>): string {
    CompileWith(html, items, Swapping)
  }

  /** `compile` keeping all of the text after a block. */
  function CompileCorrected(html: string, items: seq<seq<Field>>): string {
    CompileWith(html, items, ToEnd)
  }

  /** The output is one fragment per record, in record order, and empty for no records. */
  lemma CompileConcat(html: string, a: seq<seq<Field>>, b: seq<seq<Field>>, cut: SuffixCut)
    ensures CompileWith(html, [], cut) == ""
    ensures CompileWith(html, a + b, cut) == CompileWith(html, a, cut) + CompileWith(html, b, cut)
  {
    var f := item => CompileItem(html, Iterators(html), item, cut);
    EachAppend(a, b, f);
    ConcatAppend(Each(a, f), Each(b, f));
  }

  /** The fragment of a single record is the record's compiled item. */
  lemma CompileOne(html: string, item: seq<Field>, cut: SuffixCut)
    ensures CompileWith(html, [item], cut) == CompileItem(html, Iterators(html), item, cut)
  {
    var f := item => CompileItem(html, Iterators(html), item, cut);
    EachOne(item, f);
    ConcatOne(f(item));
  }

  /**
    Without a block, markup built from brace-free text and `{name}` placeholders
    compiles, for each record, to the markup with every placeholder replaced by the
    value of its key, provided every placeholder names an own key and no key or value
    text holds a brace.
   */
  lemma SubstituteExpands(ps: seq<Piece>, item: seq<Field>)
    requires PlainPieces(ps)
    requires forall i :: 0 <= i < |Keys(item)| ==> Plain(Keys(item)[i]) && Plain(ValueText(item, Keys(item)[i]))
    requires forall i :: 0 <= i < |ps| && ps[i].Hole? ==> ps[i].name in Keys(item)
    ensures Substitute(Render(ps, "{", "}"), item) == Expand(ps, k => ValueText(item, k))
  {
    var fill := k => ValueText(item, k);
    assert Delimiters("{", "}");
    ReplaceEachExpands(ps, Keys(item), "{", "}", fill);
  }

  lemma NoBlockCompiles(ps: seq<Piece>, item: seq<Field>, cut: SuffixCut)
    requires |Iterators(Render(ps, "{", "}"))| == 0
    requires PlainPieces(ps)
    requires forall i :: 0 <= i < |Keys(item)| ==> Plain(Keys(item)[i]) && Plain(ValueText(item, Keys(item)[i]))
    requires forall i :: 0 <= i < |ps| && ps[i].Hole? ==> ps[i].name in Keys(item)
    ensures CompileWith(Render(ps, "{", "}"), [item], cut) == Expand(ps, k => ValueText(item, k))
  {
    CompileOne(Render(ps, "{", "}"), item, cut);
    SubstituteExpands(ps, item);
  }

  /** What `{key}` and `{value}` stand for in one key's copy of a block body. */
  function HoleFill(k: string, value: string): string -> string {
    n => if n == "key" then k else value
  }

  /** One key's copy is the replacement of the two placeholder names in turn. */
  lemma ItemHtmlReplaces(body: string, k: string, value: string)
    ensures ItemHtml(body, k, value) == ReplaceEach(body, ["key", "value"], "{", "}", HoleFill(k, value))
  {
    ReplaceEachTwo(body, "key", "value", "{", "}", HoleFill(k, value));
    assert "{" + "key" + "}" == KeyHole;
    assert "{" + "value" + "}" == ValueHole;
  }

  /**
    A block body made of brace-free text and the placeholders `{key}` and `{value}`
    becomes, for one key, the body with those placeholders replaced.
   */
  lemma ItemHtmlExpands(ps: seq<Piece>, k: string, value: string)
    requires PlainPieces(ps) && Plain(k) && Plain(value)
    requires forall i :: 0 <= i < |ps| && ps[i].Hole? ==> ps[i].name == "key" || ps[i].name == "value"
    ensures ItemHtml(Render(ps, "{", "}"), k, value) == Expand(ps, HoleFill(k, value))
  {
    HoleNamesPlain(ps, k, value);
    ItemHtmlReplaces(Render(ps, "{", "}"), k, value);
    ReplaceEachExpands(ps, ["key", "value"], "{", "}", HoleFill(k, value));
  }

  /** The side conditions of the expansion theorem for the two block placeholders. */
  lemma HoleNamesPlain(ps: seq<Piece>, k: string, value: string)
    requires Plain(k) && Plain(value)
    requires forall i :: 0 <= i < |ps| && ps[i].Hole? ==> ps[i].name == "key" || ps[i].name == "value"
    ensures Delimiters("{", "}")
    ensures var names := ["key", "value"];
      forall i :: 0 <= i < |names| ==> Plain(names[i]) && Plain(HoleFill(k, value)(names[i]))
    ensures forall i :: 0 <= i < |ps| && ps[i].Hole? ==> ps[i].name in ["key", "value"]
  {
    var names := ["key", "value"];
    assert Plain(names[0]) && Plain(names[1]);
  }

  /** No occurrence of `p` in `a` and `p` opens with a character it holds nowhere else: `p` is first found right after `a`. */
  lemma FirstAfter(a: string, p: string, b: string)
    requires |p| > 0 && forall k :: 1 <= k < |p| ==> p[k] != p[0]
    requires forall j :: !IsAt(a, p, j)
    ensures IndexOf(a + p + b, p, 0) == |a|
  {
    var s := a + p + b;
    assert s[|a|..|a| + |p|] == p;
    forall j | 0 <= j < |a|
      ensures !IsAt(s, p, j)
    {
      if j + |p| <= |a| {
        assert s[j..j + |p|] == a[j..j + |p|];
        assert !IsAt(a, p, j);
      } else {
        assert s[|a|] == p[0];
        assert j + |p| <= |s| ==> s[j..j + |p|][|a| - j] == s[|a|];
        assert p[|a| - j] != p[0];
      }
    }
    IndexOfIs(s, p, 0, |a|);
  }

  /** An occurrence of `p` in the trimmed `s` is an occurrence in `s`. */
  lemma TrimmedOccurrence(s: string, p: string, j: nat)
    requires IsAt(Trim(s), p, j)
    ensures exists i :: IsAt(s, p, i)
  {
    var r := Trim(s);
    var i: nat :| TrimmedAt(s, r, i);
    assert r[j..j + |p|] == s[i + j..i + j + |p|];
    assert IsAt(s, p, i + j);
  }

  /** Exactly one `{iter}`, at `s`, and exactly one `{/iter}`, at `e`, after it. */
  predicate OneBlock(html: string, s: nat, e: nat) {
    Occurrences(html, IterOpen, 0) == [s] && Occurrences(html, IterClose, 0) == [e] && s < e
  }

  lemma OneBlockFacts(html: string, s: nat, e: nat)
    requires OneBlock(html, s, e)
    ensures IsAt(html, IterOpen, s) && IsAt(html, IterClose, e) && s + |IterOpen| <= e
    ensures forall j :: j != s ==> !IsAt(html, IterOpen, j)
    ensures forall j :: j != e ==> !IsAt(html, IterClose, j)
  {
    OccurrencesAt(html, IterOpen, 0);
    OccurrencesAt(html, IterClose, 0);
    OccurrencesComplete(html, IterOpen, 0);
    OccurrencesComplete(html, IterClose, 0);
    assert Occurrences(html, IterOpen, 0)[0] == s;
    assert Occurrences(html, IterClose, 0)[0] == e;
    assert html[e] == html[e..e + |IterClose|][0] == '{';
    forall x | s < x < s + |IterOpen|
      ensures html[x] != '{'
    {
      assert html[x] == html[s..s + |IterOpen|][x - s];
    }
  }

  /** Removing the `{iter}` that opens the cut leaves the text strictly after it. */
  lemma StripOpen(html: string, s: nat, e: nat)
    requires IsAt(html, IterOpen, s) && s + |IterOpen| <= e <= |html|
    ensures ReplaceFirst(JsSubstring(html, s, e), IterOpen, "") == html[s + |IterOpen|..e]
  {
    var sub := JsSubstring(html, s, e);
    assert sub == html[s..e];
    assert sub[..|IterOpen|] == html[s..s + |IterOpen|];
    IndexOfIs(sub, IterOpen, 0, 0);
  }

  /** The text between the delimiters holds no `{/iter}` when `e` is its only position. */
  lemma NoCloseInside(html: string, s: nat, e: nat)
    requires s + |IterOpen| <= e <= |html|
    requires forall j :: j != e ==> !IsAt(html, IterClose, j)
    ensures IndexOf(html[s + |IterOpen|..e], IterClose, 0) == -1
  {
    var inner := html[s + |IterOpen|..e];
    forall j | 0 <= j
      ensures !IsAt(inner, IterClose, j)
    {
      var x := s + |IterOpen| + j;
      if j + |IterClose| <= |inner| {
        assert inner[j..j + |IterClose|] == html[x..x + |IterClose|];
        assert !IsAt(html, IterClose, x);
      }
    }
    assert IndexOf(inner, IterClose, 0) == -1;
  }

  /** Between an `{iter}` and the only `{/iter}` after it, the body is the text strictly between. */
  lemma BodyBetween(html: string, s: nat, e: nat)
    requires IsAt(html, IterOpen, s) && IsAt(html, IterClose, e) && s + |IterOpen| <= e
    requires forall j :: j != e ==> !IsAt(html, IterClose, j)
    ensures BlockBody(html, s, e) == Trim(CollapseGaps(html[s + |IterOpen|..e]))
  {
    StripOpen(html, s, e);
    NoCloseInside(html, s, e);
  }

  /** The blocks of markup with exactly one block. */
  lemma OneBlockIterators(html: string, s: nat, e: nat)
    requires OneBlock(html, s, e)
    ensures Iterators(html) == [Iterator(s, e, BlockBody(html, s, e))]
  {
    IteratorsPaired(html);
  }

  /** `{iter}` before the only one at `s` does not occur in the trimmed text before `s`. */
  lemma PrefixHasNoBlock(html: string, s: nat)
    requires s <= |html|
    requires forall j :: j != s ==> !IsAt(html, IterOpen, j)
    ensures forall j :: !IsAt(Trim(JsSubstring(html, 0, s)), IterOpen, j)
  {
    var pre := JsSubstring(html, 0, s);
    assert pre == html[..s];
    forall i | IsAt(pre, IterOpen, i)
      ensures false
    {
      assert pre[i..i + |IterOpen|] == html[i..i + |IterOpen|];
      assert IsAt(html, IterOpen, i);
    }
    forall j
      ensures !IsAt(Trim(pre), IterOpen, j)
    {
      if IsAt(Trim(pre), IterOpen, j) {
        TrimmedOccurrence(pre, IterOpen, j);
      }
    }
  }

  /** Replacing the first `{iter}` of `a + {iter} + b`, when `a` holds none, puts `r` between `a` and `b`. */
  lemma ReplaceFirstAfter(a: string, b: string, r: string)
    requires forall j :: !IsAt(a, IterOpen, j)
    ensures ReplaceFirst(a + IterOpen + b, IterOpen, r) == a + r + b
  {
    FirstAfter(a, IterOpen, b);
    assert (a + IterOpen + b)[..|a|] == a;
    assert (a + IterOpen + b)[|a| + |IterOpen|..] == b;
  }

  /** Rebuilding around a block whose prefix holds no `{iter}` puts the expansion between prefix and suffix. */
  lemma RebuildShape(template: string, it: Iterator, item: seq<Field>, cut: SuffixCut)
    requires forall j :: !IsAt(Trim(JsSubstring(template, 0, it.start)), IterOpen, j)
    ensures Rebuild(template, it, item, cut)
         == Trim(JsSubstring(template, 0, it.start)) + IterHtml(it.body, item) + Trim(Suffix(template, it.end, cut))
  {
    ReplaceFirstAfter(Trim(JsSubstring(template, 0, it.start)), Trim(Suffix(template, it.end, cut)), IterHtml(it.body, item));
  }

  /**
    The fragment of a record for markup with exactly one block: the trimmed text before
    `{iter}`, the body once per key of the record in key order, and the trimmed text
    the cut keeps after `{/iter}`.
   */
  lemma OneBlockCompiles(html: string, s: nat, e: nat, item: seq<Field>, cut: SuffixCut)
    requires OneBlock(html, s, e)
    ensures s + |IterOpen| <= e && e + |IterClose| <= |html|
      && CompileWith(html, [item], cut)
         == Trim(html[..s])
            + IterHtml(Trim(CollapseGaps(html[s + |IterOpen|..e])), item)
            + Trim(Suffix(html, e, cut))
  {
    var it := Iterator(s, e, BlockBody(html, s, e));
    OneBlockFacts(html, s, e);
    BodyBetween(html, s, e);
    OneBlockRebuilds(html, s, e, item, cut);
    PrefixHasNoBlock(html, s);
    RebuildShape(html, it, item, cut);
    assert JsSubstring(html, 0, s) == html[..s];
  }

  /** With exactly one block, a record's fragment is the one rebuild around it. */
  lemma OneBlockRebuilds(html: string, s: nat, e: nat, item: seq<Field>, cut: SuffixCut)
    requires OneBlock(html, s, e)
    ensures CompileWith(html, [item], cut) == Rebuild(html, Iterator(s, e, BlockBody(html, s, e)), item, cut)
  {
    var it := Iterator(s, e, BlockBody(html, s, e));
    OneBlockIterators(html, s, e);
    CompileOne(html, item, cut);
    assert ApplyIterators(html, [it], item, cut) == Rebuild(html, it, item, cut);
  }

  /** The two cuts after a block that closes the markup, trimmed. */
  lemma SuffixAtEnd(html: string, e: nat)
    requires IsAt(html, IterClose, e) && e + |IterClose| == |html|
    ensures Trim(Suffix(html, e, Swapping)) == "}"
    ensures Trim(Suffix(html, e, ToEnd)) == ""
  {
    assert html[|html| - 1] == html[e..e + |IterClose|][|IterClose| - 1];
    TrimNoSpace("}");
    TrimNoSpace("");
  }

  /**
    When `{/iter}` ends the markup, the library's cut swaps its arguments and keeps the
    markup's last character, the `}` of `{/iter}`: every fragment ends with a stray `}`.
   */
  lemma BlockAtEndLeavesBrace(html: string, s: nat, e: nat, item: seq<Field>)
    requires e + |IterClose| == |html| && OneBlock(html, s, e)
    ensures Compile(html, [item]) == Trim(html[..s]) + IterHtml(BlockBody(html, s, e), item) + "}"
  {
    OneBlockCuts(html, s, e, item, Swapping);
    OneBlockFacts(html, s, e);
    SuffixAtEnd(html, e);
  }

  /** The same markup compiled keeping the whole text after the block ends with the expanded block. */
  lemma BlockAtEndCorrected(html: string, s: nat, e: nat, item: seq<Field>)
    requires e + |IterClose| == |html| && OneBlock(html, s, e)
    ensures CompileCorrected(html, [item]) == Trim(html[..s]) + IterHtml(BlockBody(html, s, e), item)
  {
    OneBlockCuts(html, s, e, item, ToEnd);
    OneBlockFacts(html, s, e);
    SuffixAtEnd(html, e);
  }

  /** `OneBlockCompiles` with the body written as the block's cleaned body. */
  lemma OneBlockCuts(html: string, s: nat, e: nat, item: seq<Field>, cut: SuffixCut)
    requires OneBlock(html, s, e)
    ensures s <= |html|
      && CompileWith(html, [item], cut)
         == Trim(html[..s]) + IterHtml(BlockBody(html, s, e), item) + Trim(Suffix(html, e, cut))
  {
    assert BlockBody(html, s, e) == Trim(CollapseGaps(html[s + |IterOpen|..e])) by {
      OneBlockFacts(html, s, e);
      BodyBetween(html, s, e);
    }
    OneBlockCompiles(html, s, e, item, cut);
  }

  /** With text after the block, the library's cut stops one character short of the end. */
  lemma SuffixBeforeEnd(html: string, e: nat)
    requires e + |IterClose| < |html|
    ensures Suffix(html, e, Swapping) == html[e + |IterClose|..|html| - 1]
    ensures Suffix(html, e, ToEnd) == html[e + |IterClose|..]
  {
  }

  /**
    With text after the block, the library's fragment keeps that text (trimmed) without
    the markup's last character, and the corrected fragment keeps all of it.
   */
  lemma BlockBeforeText(html: string, s: nat, e: nat, item: seq<Field>)
    requires OneBlock(html, s, e) && e + |IterClose| < |html|
    ensures Compile(html, [item])
         == Trim(html[..s]) + IterHtml(BlockBody(html, s, e), item) + Trim(html[e + |IterClose|..|html| - 1])
    ensures CompileCorrected(html, [item])
         == Trim(html[..s]) + IterHtml(BlockBody(html, s, e), item) + Trim(html[e + |IterClose|..])
  {
    OneBlockCuts(html, s, e, item, Swapping);
    OneBlockCuts(html, s, e, item, ToEnd);
    SuffixBeforeEnd(html, e);
  }

  /**
    `compile('<ul>{iter}<li>{key}</li>{/iter}</ul>', …)`: the closing `</ul>` after the
    block loses its `>` in every fragment; the corrected cut keeps it.
   */
  lemma ClosingTagLosesLastChar(html: string, s: nat, e: nat, item: seq<Field>)
    requires OneBlock(html, s, e) && e + |IterClose| <= |html| && html[e + |IterClose|..] == "</ul>"
    ensures Compile(html, [item]) == Trim(html[..s]) + IterHtml(BlockBody(html, s, e), item) + "</ul"
    ensures CompileCorrected(html, [item]) == Trim(html[..s]) + IterHtml(BlockBody(html, s, e), item) + "</ul>"
  {
    ClosingTagTrimmed();
    DropLast(html, e + |IterClose|, "</ul", '>');
    assert Trim(html[e + |IterClose|..|html| - 1]) == "</ul";
    assert Trim(html[e + |IterClose|..]) == "</ul>";
    BlockBeforeText(html, s, e, item);
  }

  /** A text ending in `c`, cut one character short of its end, loses `c`. */
  lemma DropLast(html: string, from: nat, short: string, c: char)
    requires from <= |html| && html[from..] == short + [c]
    ensures html[from..|html| - 1] == short
  {
    assert html[from..|html| - 1] == html[from..][..|short|];
  }

  lemma ClosingTagTrimmed()
    ensures "</ul>" == "</ul" + ['>']
    ensures Trim("</ul") == "</ul" && Trim("</ul>") == "</ul>"
  {
    forall k | 0 <= k < |"</ul>"| ensures !IsSpace("</ul>"[k]) {
    }
    assert "</ul>"[..4] == "</ul";
    TrimNoSpace("</ul");
    TrimNoSpace("</ul>");
  }
}
