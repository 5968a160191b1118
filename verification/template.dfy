/**
  The template compiler of `ammo.template(html, items)`: it reads the identity token
  `id:<letters>` and the `{{name}}` observer placeholders from the markup, and builds
  one fragment per record, which it concatenates before removing every brace.

  The rendering and update operations of the returned instance work on the DOM and are
  not part of this model.
 */
module Template {
  import opened Wrappers
  import opened JsString
  import opened JsValue
  import opened Markup

  const ObserverOpen: string := "{{"
  const ObserverClose: string := "}}"
  const IdAttr: string := "data-ammo-id"
  const IdValueAttr: string := "data-ammo-id-value"
  const ObserverAttr: string := "data-ammo-observer"

  /** `html.match(identifierRegex)` is null, so reading `match[0]` throws a TypeError. */
  datatype TemplateError = MissingIdentifier

  predicate IsLetter(c: char) {
    'a' <= c <= 'z' || 'A' <= c <= 'Z'
  }

  /** The pattern `/id:[a-zA-Z]+/` matches at position `i`. */
  predicate TokenAt(html: string, i: int) {
    0 <= i && i + 4 <= |html| && html[i..i + 3] == "id:" && IsLetter(html[i + 3])
  }

  predicate HasToken(html: string) {
    exists j :: 0 <= j < |html| && TokenAt(html, j)
  }

  /** Number of consecutive letters of `s` from position `from`. */
  function LetterRun(s: string, from: nat): (n: nat)
    requires from <= |s|
    ensures from + n <= |s|
    ensures forall k :: from <= k < from + n ==> IsLetter(s[k])
    ensures from + n == |s| || !IsLetter(s[from + n])
    decreases |s| - from
  {
    if from == |s| || !IsLetter(s[from]) then 0 else 1 + LetterRun(s, from + 1)
  }

  /** A run of letters that is followed by a non-letter is the whole run. */
  lemma {:induction false} LetterRunExact(s: string, from: nat, n: nat)
    requires from + n <= |s|
    requires forall k :: from <= k < from + n ==> IsLetter(s[k])
    requires from + n == |s| || !IsLetter(s[from + n])
    ensures LetterRun(s, from) == n
    decreases n
  {
    if n > 0 {
      LetterRunExact(s, from + 1, n - 1);
    }
  }

  /** The leftmost position at or after `from` where the identity pattern matches. */
  function FirstToken(html: string, from: nat): (r: Option<nat>)
    ensures r.Some? ==> from <= r.value && TokenAt(html, r.value)
    ensures r.Some? ==> forall j :: from <= j < r.value ==> !TokenAt(html, j)
    ensures r.None? ==> forall j :: from <= j ==> !TokenAt(html, j)
    decreases |html| - from
  {
    if from + 4 > |html| then None
    else if TokenAt(html, from) then Some(from)
    else FirstToken(html, from + 1)
  }

  /** `html.match(identifierRegex)[0]`: the leftmost match, taking every following letter. */
  function MatchedToken(html: string): Option<string> {
    match FirstToken(html, 0)
    case None => None
    case Some(p) => Some(html[p..p + 3 + LetterRun(html, p + 3)])
  }

  /**
    The leftmost identity token of `html` starts at `p` and its letters spell `id`:
    `id` is the whole run of letters after `id:`.
   */
  predicate IdentityAt(html: string, p: nat, id: string) {
    && p + 3 + |id| <= |html|
    && |id| > 0
    && html[p..p + 3] == "id:"
    && html[p + 3..p + 3 + |id|] == id
    && (forall k :: 0 <= k < |id| ==> IsLetter(id[k]))
    && (p + 3 + |id| == |html| || !IsLetter(html[p + 3 + |id|]))
    && (forall j :: 0 <= j < p ==> !TokenAt(html, j))
  }

  /** The matched token is `id:` followed by the letters of the leftmost identity token. */
  lemma MatchedTokenIsIdentity(html: string, p: nat, id: string)
    requires IdentityAt(html, p, id)
    ensures FirstToken(html, 0) == Some(p)
    ensures MatchedToken(html) == Some("id:" + id)
  {
    assert html[p + 3] == id[0];
    assert TokenAt(html, p);
    LetterRunExact(html, p + 3, |id|);
    assert html[p..p + 3 + |id|] == html[p..p + 3] + html[p + 3..p + 3 + |id|];
  }

  /** The matched token holds its colon at index 2. */
  lemma ColonIndex(tag: string)
    requires |tag| >= 3 && tag[..3] == "id:"
    ensures IndexOf(tag, ":", 0) == 2
  {
    assert tag[0] == 'i' && tag[1] == 'd' && tag[2] == ':';
    assert tag[0..1] == ['i'] && tag[1..2] == ['d'] && tag[2..3] == [':'];
    assert IndexOf(tag, ":", 0) == IndexOf(tag, ":", 1) == IndexOf(tag, ":", 2);
  }

  /** Wherever the matched token text occurs, the identity pattern matches. */
  lemma TagOccurrenceIsToken(html: string, tag: string, j: int)
    requires |tag| >= 4 && tag[..3] == "id:" && IsLetter(tag[3])
    ensures IsAt(html, tag, j) ==> TokenAt(html, j)
  {
    if IsAt(html, tag, j) {
      assert html[j..j + |tag|] == tag;
      assert html[j..j + 3] == html[j..j + |tag|][..3];
      assert html[j + 3] == html[j..j + |tag|][3];
    }
  }

  /** Every identity token description names the leftmost match. */
  lemma IdentityUnique(html: string)
    ensures forall p: nat, id :: IdentityAt(html, p, id) ==>
      FirstToken(html, 0) == Some(p) && MatchedToken(html) == Some("id:" + id)
  {
    forall p: nat, id | IdentityAt(html, p, id)
      ensures FirstToken(html, 0) == Some(p) && MatchedToken(html) == Some("id:" + id)
    {
      MatchedTokenIsIdentity(html, p, id);
    }
  }

  lemma IdentityOfFirstToken(html: string)
    requires FirstToken(html, 0).Some?
    ensures var p := FirstToken(html, 0).value;
      IdentityAt(html, p, html[p + 3..p + 3 + LetterRun(html, p + 3)])
  {
    var p := FirstToken(html, 0).value;
    var n := LetterRun(html, p + 3);
    assert n > 0 by { assert IsLetter(html[p + 3]); }
  }

  /**
    `getIdentifier`: the letters after `id:` in the leftmost match of `/id:[a-zA-Z]+/`;
    markup without a match throws.
   */
  function GetIdentifier(html: string): (r: Result<string, TemplateError>)
    ensures r.Failure? <==> !HasToken(html)
    ensures r.Success? ==> exists p :: IdentityAt(html, p, r.value)
  {
    IdentityUnique(html);
    match MatchedToken(html)
    case None => Failure(MissingIdentifier)
    case Some(tag) =>
      var index := IndexOf(tag, ":", 0);
      IdentityOfFirstToken(html);
      var p := FirstToken(html, 0).value;
      ColonIndex(tag);
      assert tag[3..] == html[p + 3..p + 3 + LetterRun(html, p + 3)];
      assert IdentityAt(html, p, tag[3..]);
      assert JsSubstring(tag, index + 1, |tag|) == tag[3..];
      Success(JsSubstring(tag, index + 1, |tag|))
  }

  /** The two identity marker attributes written in place of the token. */
  function IdMarker(identifier: string, value: string): string {
    IdAttr + "=" + identifier + " " + IdValueAttr + "=" + value
  }

  /** `html.indexOf(tag)` finds the matched token where the pattern matched. */
  lemma IndexOfMatchedToken(html: string)
    requires MatchedToken(html).Some?
    ensures IndexOf(html, MatchedToken(html).value, 0) == FirstToken(html, 0).value
  {
    var tag := MatchedToken(html).value;
    var p := FirstToken(html, 0).value;
    IdentityOfFirstToken(html);
    assert IsAt(html, tag, p);
    assert tag[3] == html[p + 3];
    forall j | 0 <= j < p ensures !IsAt(html, tag, j) {
      TagOccurrenceIsToken(html, tag, j);
    }
    IndexOfIs(html, tag, 0, p);
  }

  /** The splice around the token at `p`, written with JavaScript's clamping `substring`. */
  lemma SpliceShape(html: string, p: nat, n: nat, marker: string)
    requires p + n <= |html| && n > 0
    ensures JsSubstring(html, 0, p - 1) + marker + JsSubstring(html, p + n + 1, |html|)
         == (if p == 0 then "" else html[..p - 1]) + marker + (if p + n == |html| then "" else html[p + n + 1..])
  {
  }

  /** The markup with the first occurrence of `tag`, widened by one character each side, replaced by `marker`. */
  function Splice(html: string, tag: string, marker: string): string {
    var index := IndexOf(html, tag, 0);
    JsSubstring(html, 0, index - 1) + marker + JsSubstring(html, index + |tag| + 1, |html|)
  }

  /** The splice around the leftmost identity token. */
  lemma SpliceAtIdentity(html: string, marker: string)
    ensures MatchedToken(html).None? <==> !HasToken(html)
    ensures forall p: nat, id :: IdentityAt(html, p, id) ==>
      && MatchedToken(html) == Some("id:" + id)
      && Splice(html, "id:" + id, marker)
         == (if p == 0 then "" else html[..p - 1]) + marker
            + (if p + 3 + |id| == |html| then "" else html[p + 3 + |id| + 1..])
  {
    IdentityUnique(html);
    forall p: nat, id | IdentityAt(html, p, id)
      ensures Splice(html, "id:" + id, marker)
           == (if p == 0 then "" else html[..p - 1]) + marker
              + (if p + 3 + |id| == |html| then "" else html[p + 3 + |id| + 1..])
    {
      SpliceAt(html, p, id, marker);
    }
  }

  lemma SpliceAt(html: string, p: nat, id: string, marker: string)
    requires IdentityAt(html, p, id)
    ensures Splice(html, "id:" + id, marker)
         == (if p == 0 then "" else html[..p - 1]) + marker
            + (if p + 3 + |id| == |html| then "" else html[p + 3 + |id| + 1..])
  {
    IdentityUnique(html);
    IndexOfMatchedToken(html);
    assert IndexOf(html, "id:" + id, 0) == p;
    SpliceShape(html, p, 3 + |id|, marker);
  }

  /**
    `setIdentifier`: the markup before the token without its last character, the two
    marker attributes with the value written verbatim, then the markup after the token
    without its first character.
   */
  function SetIdentifier(html: string, identifier: string, value: string): (r: Result<string, TemplateError>)
    ensures r.Failure? <==> !HasToken(html)
    ensures forall p: nat, id :: IdentityAt(html, p, id) ==>
      r == Success((if p == 0 then "" else html[..p - 1])
                   + IdMarker(identifier, value)
                   + (if p + 3 + |id| == |html| then "" else html[p + 3 + |id| + 1..]))
  {
    SpliceAtIdentity(html, IdMarker(identifier, value));
    match MatchedToken(html)
    case None => Failure(MissingIdentifier)
    case Some(tag) => Success(Splice(html, tag, IdMarker(identifier, value)))
  }

  /**
    `html.substring(start, end).replace('{{', '').replace('}}', '')`: the name read
    between the k-th opening and the k-th closing delimiter.
   */
  function ObserverName(html: string, start: nat, end: nat): string {
    ReplaceFirst(ReplaceFirst(JsSubstring(html, start, end), ObserverOpen, ""), ObserverClose, "")
  }

  /**
    `getObservers`: one name per pair of the k-th `{{` with the k-th `}}`, in source
    order; as many names as the rarer delimiter has occurrences.
   */
  function GetObservers(html: string): (r: seq<string>)
    ensures var opens, closes := Occurrences(html, ObserverOpen, 0), Occurrences(html, ObserverClose, 0);
      && |r| == (if |opens| < |closes| then |opens| else |closes|)
      && forall k :: 0 <= k < |r| ==> r[k] == ObserverName(html, opens[k], closes[k])
  {
    var pairs := Pairs(html, ObserverOpen, ObserverClose);
    PairsAreZip(html, ObserverOpen, ObserverClose);
    ZipAt(Occurrences(html, ObserverOpen, 0), Occurrences(html, ObserverClose, 0));
    seq(|pairs|, k requires 0 <= k < |pairs| => ObserverName(html, pairs[k].open, pairs[k].close))
  }

  /**
    Between an opening delimiter at `s` and a later closing one at `e`, with no other
    closing delimiter in between, the observer name is exactly the text strictly inside.
   */
  lemma ObserverNameInside(html: string, s: nat, e: nat)
    requires IsAt(html, ObserverOpen, s) && IsAt(html, ObserverClose, e) && s < e
    requires forall j :: s + 2 <= j < e ==> !IsAt(html, ObserverClose, j)
    ensures s + 2 <= e && ObserverName(html, s, e) == html[s + 2..e]
  {
    assert html[s + 1] == html[s..s + 2][1] == '{';
    assert html[e] == html[e..e + 2][0] == '}';
    var sub := JsSubstring(html, s, e);
    assert sub == html[s..e];
    assert IndexOf(sub, ObserverOpen, 0) == 0 by {
      assert sub[0..2] == html[s..s + 2];
    }
    var inner := ReplaceFirst(sub, ObserverOpen, "");
    assert inner == html[s + 2..e];
    forall j | 0 <= j ensures !IsAt(inner, ObserverClose, j) {
      if j + 2 <= |inner| {
        assert inner[j..j + 2] == html[s + 2 + j..s + 2 + j + 2];
        assert !IsAt(html, ObserverClose, s + 2 + j);
      }
    }
  }

  /**
    When the k-th `{{` precedes the k-th `}}` and no other `}}` lies between them, the
    k-th observer is exactly the text strictly between the two.
   */
  lemma ObserverBetweenDelimiters(html: string, k: nat, s: nat, e: nat)
    requires k < |GetObservers(html)|
    requires s == Occurrences(html, ObserverOpen, 0)[k] && e == Occurrences(html, ObserverClose, 0)[k]
    requires s < e && forall j :: s + 2 <= j < e ==> !IsAt(html, ObserverClose, j)
    ensures s + 2 <= e <= |html| && GetObservers(html)[k] == html[s + 2..e]
  {
    OccurrencesAt(html, ObserverOpen, 0);
    OccurrencesAt(html, ObserverClose, 0);
    ObserverNameInside(html, s, e);
  }

  /**
    Text that forms no observer delimiter with whatever surrounds it: no `{{` or `}}`
    inside, no leading `}` and no trailing `{`. Brace-free text is inert, and so is the
    `{id:name}` token.
   */
  predicate InertText(t: string) {
    && (|t| > 0 ==> t[0] != '}' && t[|t| - 1] != '{')
    && forall j :: 0 <= j < |t| ==> !IsAt(t, ObserverOpen, j) && !IsAt(t, ObserverClose, j)
  }

  /** Inert text pieces and brace-free placeholder names. */
  predicate InertPieces(ps: seq<Piece>) {
    forall i :: 0 <= i < |ps| ==> if ps[i].Text? then InertText(ps[i].text) else Plain(ps[i].name)
  }

  lemma PlainIsInert(ps: seq<Piece>)
    requires PlainPieces(ps)
    ensures InertPieces(ps)
  {
    forall i | 0 <= i < |ps| && ps[i].Text? ensures InertText(ps[i].text) {
      var t := ps[i].text;
      assert Plain(Content(ps[i]));
      if |t| > 0 {
        assert t[0] in t && t[|t| - 1] in t;
      }
      forall j | 0 <= j < |t| ensures !IsAt(t, ObserverOpen, j) && !IsAt(t, ObserverClose, j) {
        DoubleAt(t, ObserverOpen, '{', j);
        DoubleAt(t, ObserverClose, '}', j);
        if 0 <= j < |t| {
          assert t[j] in t;
        }
      }
    }
  }

  lemma InertTail(ps: seq<Piece>)
    requires |ps| > 0 && InertPieces(ps)
    ensures InertPieces(ps[1..])
  {
    forall i | 0 <= i < |ps| - 1 ensures ps[1..][i] == ps[i + 1] {
    }
  }

  /** Where each placeholder's `{{` lies when the pieces are rendered from position `o`. */
  function HoleOpens(ps: seq<Piece>, o: nat): seq<nat>
    decreases |ps|
  {
    if |ps| == 0 then []
    else match ps[0]
      case Text(t) => HoleOpens(ps[1..], o + |t|)
      case Hole(n) => [o] + HoleOpens(ps[1..], o + |n| + 4)
  }

  /** Where each placeholder's `}}` lies when the pieces are rendered from position `o`. */
  function HoleCloses(ps: seq<Piece>, o: nat): seq<nat>
    decreases |ps|
  {
    if |ps| == 0 then []
    else match ps[0]
      case Text(t) => HoleCloses(ps[1..], o + |t|)
      case Hole(n) => [o + |n| + 2] + HoleCloses(ps[1..], o + |n| + 4)
  }

  /** The pieces, rendered, fill `s` from position `o` to its end. */
  predicate RenderedAt(s: string, ps: seq<Piece>, o: nat)
    decreases |ps|
  {
    if |ps| == 0 then o == |s|
    else
      var w := PieceText(ps[0], ObserverOpen, ObserverClose);
      IsAt(s, w, o) && RenderedAt(s, ps[1..], o + |w|)
  }

  lemma {:induction false} RenderedAtRender(s: string, ps: seq<Piece>, o: nat)
    requires o <= |s| && s[o..] == Render(ps, ObserverOpen, ObserverClose)
    ensures RenderedAt(s, ps, o)
    decreases |ps|
  {
    if |ps| > 0 {
      var w := PieceText(ps[0], ObserverOpen, ObserverClose);
      SliceSplit(s, o, w, Render(ps[1..], ObserverOpen, ObserverClose));
      assert s[o..o + |w|] == w;
      RenderedAtRender(s, ps[1..], o + |w|);
    }
  }

  /** Rendered inert pieces never start with `}`. */
  lemma {:induction false} RenderedStart(s: string, ps: seq<Piece>, o: nat)
    requires InertPieces(ps) && RenderedAt(s, ps, o)
    ensures o <= |s| && (o == |s| || s[o] != '}')
    decreases |ps|
  {
    if |ps| > 0 {
      var w := PieceText(ps[0], ObserverOpen, ObserverClose);
      InertTail(ps);
      RenderedStart(s, ps[1..], o + |w|);
      if |w| > 0 {
        assert s[o] == s[o..o + |w|][0] == w[0];
      }
    }
  }

  /**
    The first piece rendered at `o`: its text lies at `o`, the other pieces follow it,
    and what follows does not start with `}`.
   */
  lemma PieceAt(s: string, ps: seq<Piece>, o: nat)
    requires |ps| > 0 && InertPieces(ps) && RenderedAt(s, ps, o)
    ensures var w := PieceText(ps[0], ObserverOpen, ObserverClose);
      && o + |w| <= |s|
      && (forall k :: 0 <= k < |w| ==> s[o + k] == w[k])
      && RenderedAt(s, ps[1..], o + |w|)
      && (o + |w| == |s| || s[o + |w|] != '}')
      && InertPieces(ps[1..])
  {
    var w := PieceText(ps[0], ObserverOpen, ObserverClose);
    forall k | 0 <= k < |w| ensures s[o + k] == w[k] {
      assert s[o..o + |w|][k] == s[o + k];
    }
    InertTail(ps);
    RenderedStart(s, ps[1..], o + |w|);
  }

  /** Inert text at `o` holds no delimiter, nor does its last character with what follows. */
  lemma TextHasNoDelimiter(s: string, o: nat, t: string)
    requires o + |t| <= |s| && InertText(t)
    requires forall k :: 0 <= k < |t| ==> s[o + k] == t[k]
    requires o + |t| == |s| || s[o + |t|] != '}'
    ensures forall j :: o <= j < o + |t| ==> !IsAt(s, ObserverOpen, j) && !IsAt(s, ObserverClose, j)
  {
    forall j | o <= j < o + |t| ensures !IsAt(s, ObserverOpen, j) && !IsAt(s, ObserverClose, j) {
      DoubleAt(s, ObserverOpen, '{', j);
      DoubleAt(s, ObserverClose, '}', j);
      DoubleAt(t, ObserverOpen, '{', j - o);
      DoubleAt(t, ObserverClose, '}', j - o);
      assert s[j] == t[j - o];
      if j + 1 < o + |t| {
        assert s[j + 1] == t[j - o + 1];
      }
    }
  }

  /** A placeholder at `o` has its `{{` at `o`, its `}}` after the name, and no other delimiter. */
  lemma HoleDelimiters(s: string, o: nat, n: string)
    requires Plain(n) && o + |n| + 4 <= |s|
    requires forall k :: 0 <= k < |n| + 4 ==> s[o + k] == (ObserverOpen + n + ObserverClose)[k]
    requires o + |n| + 4 == |s| || s[o + |n| + 4] != '}'
    ensures IsAt(s, ObserverOpen, o) && IsAt(s, ObserverClose, o + |n| + 2)
    ensures s[o + 2..o + |n| + 2] == n
    ensures forall j :: o < j < o + |n| + 4 ==> !IsAt(s, ObserverOpen, j)
    ensures forall j :: o <= j < o + |n| + 4 && j != o + |n| + 2 ==> !IsAt(s, ObserverClose, j)
  {
    var w := ObserverOpen + n + ObserverClose;
    var e := o + |n| + 2;
    assert forall k :: 0 <= k < |n| ==> s[o + 2 + k] == w[2 + k] == n[k];
    assert s[o] == w[0] == '{' && s[o + 1] == w[1] == '{';
    assert s[e] == w[|n| + 2] == '}' && s[e + 1] == w[|n| + 3] == '}';
    DoubleAt(s, ObserverOpen, '{', o);
    DoubleAt(s, ObserverClose, '}', e);
    forall j | o <= j < o + |n| + 4 ensures (j != o ==> !IsAt(s, ObserverOpen, j)) && (j != e ==> !IsAt(s, ObserverClose, j)) {
      DoubleAt(s, ObserverOpen, '{', j);
      DoubleAt(s, ObserverClose, '}', j);
      if o + 2 <= j < e {
        assert s[j] == n[j - o - 2];
        assert s[j] in n;
      }
      if j == o + 1 && |n| > 0 {
        assert s[j + 1] == n[0];
        assert s[j + 1] in n;
      }
    }
  }

  /** Inert text leaves the delimiter occurrences to what follows it. */
  lemma TextOccurrences(s: string, o: nat, t: string)
    requires o + |t| <= |s| && InertText(t)
    requires forall k :: 0 <= k < |t| ==> s[o + k] == t[k]
    requires o + |t| == |s| || s[o + |t|] != '}'
    ensures Occurrences(s, ObserverOpen, o) == Occurrences(s, ObserverOpen, o + |t|)
    ensures Occurrences(s, ObserverClose, o) == Occurrences(s, ObserverClose, o + |t|)
  {
    TextHasNoDelimiter(s, o, t);
    OccurrencesSkip(s, ObserverOpen, o, o + |t|);
    OccurrencesSkip(s, ObserverClose, o, o + |t|);
  }

  /** A placeholder adds its own `{{` and `}}` to the occurrences of what follows it. */
  lemma HoleOccurrences(s: string, o: nat, e: nat, f: nat, n: string)
    requires e == o + |n| + 2 && f == e + 2
    requires Plain(n) && f <= |s|
    requires forall k :: 0 <= k < |n| + 4 ==> s[o + k] == (ObserverOpen + n + ObserverClose)[k]
    requires f == |s| || s[f] != '}'
    ensures Occurrences(s, ObserverOpen, o) == [o] + Occurrences(s, ObserverOpen, f)
    ensures Occurrences(s, ObserverClose, o) == [e] + Occurrences(s, ObserverClose, f)
  {
    HoleDelimiters(s, o, n);
    OpenOccurrences(s, o, f);
    CloseOccurrences(s, o, e, f);
  }

  /** A `{{` at `o` and none after it before `f`. */
  lemma OpenOccurrences(s: string, o: nat, f: nat)
    requires o < f && IsAt(s, ObserverOpen, o)
    requires forall j :: o < j < f ==> !IsAt(s, ObserverOpen, j)
    ensures Occurrences(s, ObserverOpen, o) == [o] + Occurrences(s, ObserverOpen, f)
  {
    calc {
      Occurrences(s, ObserverOpen, o);
      { OccurrencesHit(s, ObserverOpen, o); }
      [o] + Occurrences(s, ObserverOpen, o + 1);
      { OccurrencesSkip(s, ObserverOpen, o + 1, f); }
      [o] + Occurrences(s, ObserverOpen, f);
    }
  }

  /** From `o` to `f`, a `}}` at `e` and nowhere else. */
  lemma CloseOccurrences(s: string, o: nat, e: nat, f: nat)
    requires o <= e && f == e + 2 && IsAt(s, ObserverClose, e)
    requires forall j :: o <= j < f && j != e ==> !IsAt(s, ObserverClose, j)
    ensures Occurrences(s, ObserverClose, o) == [e] + Occurrences(s, ObserverClose, f)
  {
    calc {
      Occurrences(s, ObserverClose, o);
      { OccurrencesSkip(s, ObserverClose, o, e); }
      Occurrences(s, ObserverClose, e);
      { OccurrencesHit(s, ObserverClose, e); }
      [e] + Occurrences(s, ObserverClose, e + 1);
      { OccurrencesSkip(s, ObserverClose, e + 1, f); }
      [e] + Occurrences(s, ObserverClose, f);
    }
  }

  /** A leading text piece rendered at `o` lies there whole, with no `}` right after it. */
  lemma TextLaid(s: string, ps: seq<Piece>, o: nat)
    requires |ps| > 0 && ps[0].Text? && InertPieces(ps) && RenderedAt(s, ps, o)
    ensures var t := ps[0].text;
      && InertText(t) && o + |t| <= |s|
      && (forall k :: 0 <= k < |t| ==> s[o + k] == t[k])
      && (o + |t| == |s| || s[o + |t|] != '}')
  {
    PieceAt(s, ps, o);
  }

  /**
    From position `o` of `s`, where the inert pieces `ps` are rendered, the `{{` and the
    `}}` occurrences are exactly those of the placeholders.
   */
  lemma {:induction false} ObserverOccurrences(s: string, ps: seq<Piece>, o: nat)
    requires InertPieces(ps) && RenderedAt(s, ps, o)
    ensures Occurrences(s, ObserverOpen, o) == HoleOpens(ps, o)
    ensures Occurrences(s, ObserverClose, o) == HoleCloses(ps, o)
    decreases |ps|
  {
    if |ps| > 0 {
      var o' := o + |PieceText(ps[0], ObserverOpen, ObserverClose)|;
      RenderedTail(s, ps, o);
      ObserverOccurrences(s, ps[1..], o');
      OccurrencesStep(s, ps, o, o');
    }
  }

  /** One step of `ObserverOccurrences`: the first piece puts its delimiters, if any, ahead. */
  lemma OccurrencesStep(s: string, ps: seq<Piece>, o: nat, o': nat)
    requires |ps| > 0 && InertPieces(ps) && RenderedAt(s, ps, o)
    requires o' == o + |PieceText(ps[0], ObserverOpen, ObserverClose)|
    requires Occurrences(s, ObserverOpen, o') == HoleOpens(ps[1..], o')
    requires Occurrences(s, ObserverClose, o') == HoleCloses(ps[1..], o')
    ensures Occurrences(s, ObserverOpen, o) == HoleOpens(ps, o)
    ensures Occurrences(s, ObserverClose, o) == HoleCloses(ps, o)
  {
    if ps[0].Hole? {
      HoleLaid(s, ps, o);
      HoleOccurrencesStep(s, ps, o, o');
    } else {
      TextLaid(s, ps, o);
      TextOccurrencesStep(s, ps, o, o');
    }
  }

  lemma HoleOccurrencesStep(s: string, ps: seq<Piece>, o: nat, o': nat)
    requires |ps| > 0 && ps[0].Hole? && o' == o + |ps[0].name| + 4
    requires var n := ps[0].name;
      && Plain(n) && o' <= |s|
      && (forall k :: 0 <= k < |n| + 4 ==> s[o + k] == (ObserverOpen + n + ObserverClose)[k])
      && (o' == |s| || s[o'] != '}')
    requires Occurrences(s, ObserverOpen, o') == HoleOpens(ps[1..], o')
    requires Occurrences(s, ObserverClose, o') == HoleCloses(ps[1..], o')
    ensures Occurrences(s, ObserverOpen, o) == HoleOpens(ps, o)
    ensures Occurrences(s, ObserverClose, o) == HoleCloses(ps, o)
  {
    var e := o + |ps[0].name| + 2;
    HoleOccurrences(s, o, e, o', ps[0].name);
    HoleListsCons(ps, o, e, o');
  }

  lemma TextOccurrencesStep(s: string, ps: seq<Piece>, o: nat, o': nat)
    requires |ps| > 0 && ps[0].Text? && o' == o + |ps[0].text|
    requires var t := ps[0].text;
      && InertText(t) && o' <= |s|
      && (forall k :: 0 <= k < |t| ==> s[o + k] == t[k])
      && (o' == |s| || s[o'] != '}')
    requires Occurrences(s, ObserverOpen, o') == HoleOpens(ps[1..], o')
    requires Occurrences(s, ObserverClose, o') == HoleCloses(ps[1..], o')
    ensures Occurrences(s, ObserverOpen, o) == HoleOpens(ps, o)
    ensures Occurrences(s, ObserverClose, o) == HoleCloses(ps, o)
  {
    TextOccurrences(s, o, ps[0].text);
    HoleListsText(ps, o);
  }

  /** The observer name read between a placeholder's delimiters is its name. */
  lemma HoleName(s: string, o: nat, e: nat, n: string)
    requires e == o + |n| + 2 && IsAt(s, ObserverOpen, o) && IsAt(s, ObserverClose, e)
    requires s[o + 2..e] == n
    requires forall j :: o + 2 <= j < e ==> !IsAt(s, ObserverClose, j)
    ensures ObserverName(s, o, e) == n
  {
    ObserverNameInside(s, o, e);
  }

  /** The pieces after the first are rendered right after it, and are inert too. */
  lemma RenderedTail(s: string, ps: seq<Piece>, o: nat)
    requires |ps| > 0 && InertPieces(ps) && RenderedAt(s, ps, o)
    ensures RenderedAt(s, ps[1..], o + |PieceText(ps[0], ObserverOpen, ObserverClose)|)
    ensures InertPieces(ps[1..])
  {
    InertTail(ps);
  }

  /** The names read between each paired `{{` and `}}` position. */
  function NamesBetween(html: string, opens: seq<nat>, closes: seq<nat>): (r: seq<string>)
    requires |opens| == |closes|
    ensures |r| == |opens|
    decreases |opens|
  {
    if |opens| == 0 then []
    else [ObserverName(html, opens[0], closes[0])] + NamesBetween(html, opens[1..], closes[1..])
  }

  /** The k-th name listed is the one read between the k-th pair of delimiters. */
  lemma {:induction false} NamesBetweenAt(html: string, opens: seq<nat>, closes: seq<nat>)
    requires |opens| == |closes|
    ensures forall k :: 0 <= k < |opens| ==>
      NamesBetween(html, opens, closes)[k] == ObserverName(html, opens[k], closes[k])
    decreases |opens|
  {
    if |opens| > 0 {
      NamesBetweenAt(html, opens[1..], closes[1..]);
    }
  }

  lemma NamesBetweenCons(html: string, x: nat, y: nat, opens: seq<nat>, closes: seq<nat>)
    requires |opens| == |closes|
    ensures NamesBetween(html, [x] + opens, [y] + closes) == [ObserverName(html, x, y)] + NamesBetween(html, opens, closes)
  {
    assert ([x] + opens)[1..] == opens && ([y] + closes)[1..] == closes;
  }

  /** When the two delimiters occur equally often, `getObservers` reads a name between each pair. */
  lemma GetObserversBetween(html: string)
    requires |Occurrences(html, ObserverOpen, 0)| == |Occurrences(html, ObserverClose, 0)|
    ensures GetObservers(html)
         == NamesBetween(html, Occurrences(html, ObserverOpen, 0), Occurrences(html, ObserverClose, 0))
  {
    NamesBetweenAt(html, Occurrences(html, ObserverOpen, 0), Occurrences(html, ObserverClose, 0));
  }

  /** Each placeholder's delimiters, from position `o` on, enclose its name. */
  predicate NamesRead(s: string, ps: seq<Piece>, o: nat)
  {
    && |HoleOpens(ps, o)| == |HoleCloses(ps, o)|
    && NamesBetween(s, HoleOpens(ps, o), HoleCloses(ps, o)) == HoleNames(ps)
  }

  /** The observer name read between each placeholder's delimiters is the placeholder's name. */
  lemma {:induction false} HoleObservers(s: string, ps: seq<Piece>, o: nat)
    requires InertPieces(ps) && RenderedAt(s, ps, o)
    ensures NamesRead(s, ps, o)
    decreases |ps|
  {
    if |ps| > 0 {
      var o' := o + |PieceText(ps[0], ObserverOpen, ObserverClose)|;
      RenderedTail(s, ps, o);
      HoleObservers(s, ps[1..], o');
      HoleObserversStep(s, ps, o, o');
    }
  }

  /** One step of `HoleObservers`: the first piece keeps the names read in order. */
  lemma HoleObserversStep(s: string, ps: seq<Piece>, o: nat, o': nat)
    requires |ps| > 0 && InertPieces(ps) && RenderedAt(s, ps, o)
    requires o' == o + |PieceText(ps[0], ObserverOpen, ObserverClose)|
    requires NamesRead(s, ps[1..], o')
    ensures NamesRead(s, ps, o)
  {
    if ps[0].Hole? {
      var e := o + |ps[0].name| + 2;
      LeadingName(s, ps, o, e);
      HoleObserversCons(s, ps, o, e, o');
    } else {
      assert o' == o + |ps[0].text|;
      TextNamesRead(s, ps, o, o');
    }
  }

  /** A leading text piece leaves the names read to the pieces after it. */
  lemma TextNamesRead(s: string, ps: seq<Piece>, o: nat, o': nat)
    requires |ps| > 0 && ps[0].Text? && o' == o + |ps[0].text|
    requires NamesRead(s, ps[1..], o')
    ensures NamesRead(s, ps, o)
  {
    HoleListsText(ps, o);
  }

  /** A leading placeholder rendered at `o` lies there whole, with no `}` right after it. */
  lemma HoleLaid(s: string, ps: seq<Piece>, o: nat)
    requires |ps| > 0 && ps[0].Hole? && InertPieces(ps) && RenderedAt(s, ps, o)
    ensures var n := ps[0].name;
      && Plain(n) && o + |n| + 4 <= |s|
      && (forall k :: 0 <= k < |n| + 4 ==> s[o + k] == (ObserverOpen + n + ObserverClose)[k])
      && (o + |n| + 4 == |s| || s[o + |n| + 4] != '}')
  {
    PieceAt(s, ps, o);
  }

  /** A leading placeholder rendered at `o` is read back by its own delimiters. */
  lemma LeadingName(s: string, ps: seq<Piece>, o: nat, e: nat)
    requires |ps| > 0 && ps[0].Hole? && InertPieces(ps) && RenderedAt(s, ps, o)
    requires e == o + |ps[0].name| + 2
    ensures ObserverName(s, o, e) == ps[0].name
  {
    HoleLaid(s, ps, o);
    HoleDelimiters(s, o, ps[0].name);
    HoleName(s, o, e, ps[0].name);
  }

  /** A leading placeholder heads the three lists. */
  lemma HoleListsCons(ps: seq<Piece>, o: nat, e: nat, f: nat)
    requires |ps| > 0 && ps[0].Hole? && e == o + |ps[0].name| + 2 && f == e + 2
    ensures HoleOpens(ps, o) == [o] + HoleOpens(ps[1..], f)
    ensures HoleCloses(ps, o) == [e] + HoleCloses(ps[1..], f)
    ensures HoleNames(ps) == [ps[0].name] + HoleNames(ps[1..])
  {
  }

  /** A leading text piece adds nothing to the three lists. */
  lemma HoleListsText(ps: seq<Piece>, o: nat)
    requires |ps| > 0 && ps[0].Text?
    ensures HoleOpens(ps, o) == HoleOpens(ps[1..], o + |ps[0].text|)
    ensures HoleCloses(ps, o) == HoleCloses(ps[1..], o + |ps[0].text|)
    ensures HoleNames(ps) == HoleNames(ps[1..])
  {
  }

  /** One step of `HoleObservers`: a leading placeholder heads all three lists. */
  lemma HoleObserversCons(s: string, ps: seq<Piece>, o: nat, e: nat, o': nat)
    requires |ps| > 0 && ps[0].Hole? && e == o + |ps[0].name| + 2 && o' == e + 2
    requires ObserverName(s, o, e) == ps[0].name
    requires NamesRead(s, ps[1..], o')
    ensures NamesRead(s, ps, o)
  {
    HoleListsCons(ps, o, e, o');
    NamesBetweenCons(s, o, e, HoleOpens(ps[1..], o'), HoleCloses(ps[1..], o'));
  }

  /**
    On markup made of inert text and `{{name}}` placeholders with brace-free names,
    `getObservers` lists the placeholder names, in markup order.
   */
  lemma ObserversOfPieces(ps: seq<Piece>)
    requires InertPieces(ps)
    ensures GetObservers(Render(ps, ObserverOpen, ObserverClose)) == HoleNames(ps)
  {
    var s := Render(ps, ObserverOpen, ObserverClose);
    assert s[0..] == s;
    RenderedAtRender(s, ps, 0);
    ObserverOccurrences(s, ps, 0);
    HoleObservers(s, ps, 0);
    GetObserversBetween(s);
  }

  /** `getTemplate`: the element that wraps an observed value. */
  function Span(name: string, value: string): string {
    "<span " + ObserverAttr + "=\"" + name + "\">" + value + "</span>"
  }

  /** What replaces the observer `name` for `item`. */
  function ObserverFill(item: seq<Field>): string -> string {
    name => Span(name, ToText(Get(item, name)))
  }

  /** Every `{{name}}` of every observer, in observer order, becomes its span. */
  function FillObservers(t: string, observers: seq<string>, item: seq<Field>): string {
    ReplaceEach(t, observers, ObserverOpen, ObserverClose, ObserverFill(item))
  }

  /**
    On markup made of plain text and `{{name}}` placeholders that all name observers,
    observer replacement puts each record value's span where its placeholder was, and
    changes nothing else.
   */
  lemma FillObserversExpands(ps: seq<Piece>, observers: seq<string>, item: seq<Field>)
    requires PlainPieces(ps)
    requires forall i :: 0 <= i < |observers| ==> Plain(observers[i]) && Plain(ObserverFill(item)(observers[i]))
    requires forall i :: 0 <= i < |ps| && ps[i].Hole? ==> ps[i].name in observers
    ensures FillObservers(Render(ps, ObserverOpen, ObserverClose), observers, item) == Expand(ps, ObserverFill(item))
  {
    ObserverDelimiters();
    ReplaceEachExpands(ps, observers, ObserverOpen, ObserverClose, ObserverFill(item));
  }

  lemma ObserverDelimiters()
    ensures Delimiters(ObserverOpen, ObserverClose)
  {
    assert ObserverOpen[0] == ObserverOpen[1] == '{';
    assert ObserverClose[0] == ObserverClose[1] == '}';
  }

  /**
    One record's copy of the markup: the identity splice around the matched token
    `tag`, then observer replacement.
   */
  function Fragment(html: string, tag: string, identifier: string, observers: seq<string>, item: seq<Field>): string {
    FillObservers(Splice(html, tag, IdMarker(identifier, ToText(Get(item, identifier)))), observers, item)
  }

  /** The splice inside a fragment is exactly what `setIdentifier` returns for the record. */
  lemma FragmentSetsIdentifier(html: string, identifier: string, observers: seq<string>, item: seq<Field>)
    requires HasToken(html)
    ensures MatchedToken(html).Some?
    ensures Fragment(html, MatchedToken(html).value, identifier, observers, item)
         == FillObservers(SetIdentifier(html, identifier, ToText(Get(item, identifier))).value, observers, item)
  {
    SpliceAtIdentity(html, IdMarker(identifier, ToText(Get(item, identifier))));
  }

  /** The fragments of all records, in record order. */
  function Fragments(html: string, tag: string, identifier: string, observers: seq<string>, items: seq<seq<Field>>): seq<string> {
    Each(items, item => Fragment(html, tag, identifier, observers, item))
  }

  /** `compiled.replace(/{/g, '').replace(/}/g, '')`. */
  function StripBraces(s: string): (r: string)
    ensures Plain(r)
    ensures Plain(s) ==> r == s
  {
    RemoveChar(RemoveChar(s, '{'), '}')
  }

  lemma StripBracesConcat(a: string, b: string)
    ensures StripBraces(a + b) == StripBraces(a) + StripBraces(b)
  {
    RemoveCharConcat(a, b, '{');
    RemoveCharConcat(RemoveChar(a, '{'), RemoveChar(b, '{'), '}');
  }

  /**
    The compiled string of `template(html, items)`: the identifier is read first, so
    markup without a token fails even for no records; the result holds no brace and is
    empty for no records.
   */
  function CompileTemplate(html: string, items: seq<seq<Field>>): (r: Result<string, TemplateError>)
    ensures r.Failure? <==> !HasToken(html)
    ensures r.Success? ==> Plain(r.value)
    ensures r.Success? && |items| == 0 ==> r.value == ""
  {
    SpliceAtIdentity(html, "");
    match (GetIdentifier(html), MatchedToken(html))
    case (Success(identifier), Some(tag)) =>
      Success(StripBraces(Concat(Fragments(html, tag, identifier, GetObservers(html), items))))
    case _ => Failure(MissingIdentifier)
  }

  /**
    Compiling two lists of records one after the other gives the concatenation of the
    two results: the output is one fragment per record, in record order.
   */
  lemma CompileTemplateConcat(html: string, a: seq<seq<Field>>, b: seq<seq<Field>>)
    requires HasToken(html)
    ensures CompileTemplate(html, a + b).Success?
    ensures CompileTemplate(html, a + b).value
         == CompileTemplate(html, a).value + CompileTemplate(html, b).value
  {
    SpliceAtIdentity(html, "");
    var identifier, tag := GetIdentifier(html).value, MatchedToken(html).value;
    var observers := GetObservers(html);
    var fa, fb := Fragments(html, tag, identifier, observers, a), Fragments(html, tag, identifier, observers, b);
    EachAppend(a, b, item => Fragment(html, tag, identifier, observers, item));
    ConcatAppend(fa, fb);
    StripBracesConcat(Concat(fa), Concat(fb));
  }

  /** Markup with the identity token, written with one character on each side, between two piece lists. */
  function TokenMarkup(pre: seq<Piece>, before: char, id: string, after: char, post: seq<Piece>): string {
    Render(pre, ObserverOpen, ObserverClose) + ([before] + "id:" + id + [after]) + Render(post, ObserverOpen, ObserverClose)
  }

  /** The token with its two neighbours is inert text when neither neighbour faces outward as a brace pair. */
  lemma TokenInert(before: char, id: string, after: char)
    requires before != '}' && after != '{'
    requires forall k :: 0 <= k < |id| ==> IsLetter(id[k])
    ensures InertText([before] + "id:" + id + [after])
  {
    var t := [before] + "id:" + id + [after];
    forall k | 1 <= k < |t| - 1 ensures t[k] != '{' && t[k] != '}' {
      if k >= 4 {
        assert t[k] == id[k - 4];
      }
    }
    forall j | 0 <= j < |t| ensures !IsAt(t, ObserverOpen, j) && !IsAt(t, ObserverClose, j) {
      DoubleAt(t, ObserverOpen, '{', j);
      DoubleAt(t, ObserverClose, '}', j);
    }
  }

  /** The markup around the token is the rendering of one inert piece list. */
  lemma TokenPieces(pre: seq<Piece>, before: char, id: string, after: char, post: seq<Piece>)
    requires PlainPieces(pre) && PlainPieces(post) && before != '}' && after != '{'
    requires forall k :: 0 <= k < |id| ==> IsLetter(id[k])
    ensures var qs := pre + [Text([before] + "id:" + id + [after])] + post;
      && TokenMarkup(pre, before, id, after, post) == Render(qs, ObserverOpen, ObserverClose)
      && InertPieces(qs)
  {
    var t := Text([before] + "id:" + id + [after]);
    var qs := pre + [t] + post;
    RenderAround(pre, t.text, post);
    PlainIsInert(pre);
    PlainIsInert(post);
    TokenInert(before, id, after);
    forall i | 0 <= i < |qs| ensures if qs[i].Text? then InertText(qs[i].text) else Plain(qs[i].name) {
      if i < |pre| {
        assert qs[i] == pre[i];
      } else if i > |pre| {
        assert qs[i] == post[i - |pre| - 1];
      }
    }
  }

  /** The identifier splice replaces the token and its two neighbours by the marker. */
  lemma SpliceToken(pre: seq<Piece>, before: char, id: string, after: char, post: seq<Piece>, marker: string)
    requires IdentityAt(TokenMarkup(pre, before, id, after, post), |Render(pre, ObserverOpen, ObserverClose)| + 1, id)
    ensures Splice(TokenMarkup(pre, before, id, after, post), "id:" + id, marker)
         == Render(pre, ObserverOpen, ObserverClose) + marker + Render(post, ObserverOpen, ObserverClose)
  {
    var a, b := Render(pre, ObserverOpen, ObserverClose), Render(post, ObserverOpen, ObserverClose);
    var m := [before] + "id:" + id + [after];
    var html := a + m + b;
    var p := |a| + 1;
    SpliceAt(html, p, id, marker);
    assert html[..p - 1] == a;
    assert html[p + 3 + |id| + 1..] == b;
  }

  lemma SpanPlain(name: string, value: string)
    requires Plain(name) && Plain(value)
    ensures Plain(Span(name, value))
  {
    PlainConcat("<span " + ObserverAttr + "=\"", name);
    PlainConcat("<span " + ObserverAttr + "=\"" + name, "\">");
    PlainConcat("<span " + ObserverAttr + "=\"" + name + "\">", value);
    PlainConcat("<span " + ObserverAttr + "=\"" + name + "\">" + value, "</span>");
  }

  lemma MarkerPlain(identifier: string, value: string)
    requires Plain(identifier) && Plain(value)
    ensures Plain(IdMarker(identifier, value))
  {
    PlainConcat(IdAttr + "=", identifier);
    PlainConcat(IdAttr + "=" + identifier, " " + IdValueAttr + "=");
    PlainConcat(IdAttr + "=" + identifier + " " + IdValueAttr + "=", value);
  }

  /** Brace-free names with brace-free values give brace-free spans. */
  lemma PlainFills(ps: seq<Piece>, item: seq<Field>)
    requires PlainPieces(ps)
    requires forall i :: 0 <= i < |ps| && ps[i].Hole? ==> Plain(ToText(Get(item, ps[i].name)))
    ensures forall i :: 0 <= i < |ps| && ps[i].Hole? ==> Plain(ObserverFill(item)(ps[i].name))
  {
    forall i | 0 <= i < |ps| && ps[i].Hole? ensures Plain(ObserverFill(item)(ps[i].name)) {
      assert Plain(Content(ps[i]));
      SpanPlain(ps[i].name, ToText(Get(item, ps[i].name)));
    }
  }

  /**
    Observer replacement on the spliced markup: with observers that name every
    placeholder, each brace-free and with a brace-free value, every placeholder becomes
    its span and the marker stays.
   */
  lemma FillAround(pre: seq<Piece>, marker: string, post: seq<Piece>, observers: seq<string>, item: seq<Field>)
    requires PlainPieces(pre) && PlainPieces(post) && Plain(marker)
    requires forall k :: 0 <= k < |observers| ==> Plain(observers[k]) && Plain(ToText(Get(item, observers[k])))
    requires forall i :: 0 <= i < |pre| && pre[i].Hole? ==> pre[i].name in observers
    requires forall i :: 0 <= i < |post| && post[i].Hole? ==> post[i].name in observers
    ensures FillObservers(Render(pre, ObserverOpen, ObserverClose) + marker + Render(post, ObserverOpen, ObserverClose), observers, item)
         == Expand(pre, ObserverFill(item)) + marker + Expand(post, ObserverFill(item))
  {
    var fill := ObserverFill(item);
    var rs := pre + [Text(marker)] + post;
    RenderAround(pre, marker, post);
    ExpandAround(pre, marker, post, fill);
    AroundPieces(pre, marker, post, observers);
    forall k | 0 <= k < |observers| ensures Plain(fill(observers[k])) {
      SpanPlain(observers[k], ToText(Get(item, observers[k])));
    }
    FillObserversExpands(rs, observers, item);
  }

  /** Rendering a text piece between two piece lists puts its text between their renderings. */
  lemma RenderAround(pre: seq<Piece>, marker: string, post: seq<Piece>)
    ensures Render(pre + [Text(marker)] + post, ObserverOpen, ObserverClose)
         == Render(pre, ObserverOpen, ObserverClose) + marker + Render(post, ObserverOpen, ObserverClose)
  {
    var m := [Text(marker)] + post;
    var a, b := Render(pre, ObserverOpen, ObserverClose), Render(post, ObserverOpen, ObserverClose);
    calc {
      Render(pre + [Text(marker)] + post, ObserverOpen, ObserverClose);
      { assert pre + [Text(marker)] + post == pre + m; }
      Render(pre + m, ObserverOpen, ObserverClose);
      { RenderAppend(pre, m, ObserverOpen, ObserverClose); }
      a + Render(m, ObserverOpen, ObserverClose);
      { assert m[0] == Text(marker) && m[1..] == post; }
      a + (marker + b);
      a + marker + b;
    }
  }

  /** Expanding a text piece between two piece lists puts its text between their expansions. */
  lemma ExpandAround(pre: seq<Piece>, marker: string, post: seq<Piece>, fill: string -> string)
    ensures Expand(pre + [Text(marker)] + post, fill) == Expand(pre, fill) + marker + Expand(post, fill)
  {
    var m := [Text(marker)] + post;
    var a, b := Expand(pre, fill), Expand(post, fill);
    calc {
      Expand(pre + [Text(marker)] + post, fill);
      { assert pre + [Text(marker)] + post == pre + m; }
      Expand(pre + m, fill);
      { ExpandAppend(pre, m, fill); }
      a + Expand(m, fill);
      { assert m[0] == Text(marker) && m[1..] == post; }
      a + (marker + b);
      a + marker + b;
    }
  }

  /** Brace-free pieces around a brace-free text stay brace-free, with the same placeholders. */
  lemma AroundPieces(pre: seq<Piece>, marker: string, post: seq<Piece>, observers: seq<string>)
    requires PlainPieces(pre) && PlainPieces(post) && Plain(marker)
    requires forall i :: 0 <= i < |pre| && pre[i].Hole? ==> pre[i].name in observers
    requires forall i :: 0 <= i < |post| && post[i].Hole? ==> post[i].name in observers
    ensures PlainPieces(pre + [Text(marker)] + post)
    ensures forall i :: 0 <= i < |pre + [Text(marker)] + post| && (pre + [Text(marker)] + post)[i].Hole? ==>
      (pre + [Text(marker)] + post)[i].name in observers
  {
    var rs := pre + [Text(marker)] + post;
    forall i | 0 <= i < |rs| ensures Plain(Content(rs[i])) && (rs[i].Hole? ==> rs[i].name in observers) {
      AroundAt(pre, Text(marker), post, i);
    }
  }

  /** Indexing into `pre + [x] + post`. */
  lemma AroundAt<T>(pre: seq<T>, x: T, post: seq<T>, i: nat)
    requires i < |pre| + 1 + |post|
    ensures (pre + [x] + post)[i] == if i < |pre| then pre[i] else if i == |pre| then x else post[i - |pre| - 1]
  {
  }

  /**
    `template(html, [item])` end to end, for markup made of brace-free text and
    `{{name}}` placeholders around one identity token `id:<letters>` that is written with
    one character on each side (as in `{id:name}`): the compiled string is the text
    before the token, the two identity marker attributes with the record's identifier
    value, and the text after the token, with every placeholder replaced by its span
    holding the record's value. Names and values must hold no brace.
   */
  lemma CompileOneRecord(pre: seq<Piece>, before: char, id: string, after: char, post: seq<Piece>, item: seq<Field>)
    requires PlainPieces(pre) && PlainPieces(post) && before != '}' && after != '{'
    requires IdentityAt(TokenMarkup(pre, before, id, after, post), |Render(pre, ObserverOpen, ObserverClose)| + 1, id)
    requires Plain(ToText(Get(item, id)))
    requires forall i :: 0 <= i < |pre| && pre[i].Hole? ==> Plain(ToText(Get(item, pre[i].name)))
    requires forall i :: 0 <= i < |post| && post[i].Hole? ==> Plain(ToText(Get(item, post[i].name)))
    ensures CompileTemplate(TokenMarkup(pre, before, id, after, post), [item])
         == Success(Expand(pre, ObserverFill(item)) + IdMarker(id, ToText(Get(item, id))) + Expand(post, ObserverFill(item)))
  {
    TokenFragment(pre, before, id, after, post, item);
    CompileOne(TokenMarkup(pre, before, id, after, post), |Render(pre, ObserverOpen, ObserverClose)| + 1, id, item);
  }

  /** The one record's fragment: the splice, then observer replacement of every placeholder. */
  lemma TokenFragment(pre: seq<Piece>, before: char, id: string, after: char, post: seq<Piece>, item: seq<Field>)
    requires PlainPieces(pre) && PlainPieces(post) && before != '}' && after != '{'
    requires IdentityAt(TokenMarkup(pre, before, id, after, post), |Render(pre, ObserverOpen, ObserverClose)| + 1, id)
    requires Plain(ToText(Get(item, id)))
    requires forall i :: 0 <= i < |pre| && pre[i].Hole? ==> Plain(ToText(Get(item, pre[i].name)))
    requires forall i :: 0 <= i < |post| && post[i].Hole? ==> Plain(ToText(Get(item, post[i].name)))
    ensures var html := TokenMarkup(pre, before, id, after, post);
      var fragment := Fragment(html, "id:" + id, id, GetObservers(html), item);
      && fragment == Expand(pre, ObserverFill(item)) + IdMarker(id, ToText(Get(item, id))) + Expand(post, ObserverFill(item))
      && Plain(fragment)
  {
    var html := TokenMarkup(pre, before, id, after, post);
    var marker := IdMarker(id, ToText(Get(item, id)));
    var t := Text([before] + "id:" + id + [after]);
    var qs := pre + [t] + post;
    TokenPieces(pre, before, id, after, post);
    ObserversOfPieces(qs);
    var observers := GetObservers(html);
    assert observers == HoleNames(qs);
    // Every observer names a placeholder of the text around the token.
    AroundObservers(pre, t, post, item);
    // The splice, then observer replacement.
    LettersPlain(id);
    MarkerPlain(id, ToText(Get(item, id)));
    SpliceToken(pre, before, id, after, post, marker);
    FillAround(pre, marker, post, observers, item);
    FragmentPlain(pre, marker, post, item);
  }

  /** The one identity token of the markup gives both the identifier and the matched tag. */
  lemma TokenIdentifier(html: string, p: nat, id: string)
    requires IdentityAt(html, p, id)
    ensures GetIdentifier(html) == Success(id) && MatchedToken(html) == Some("id:" + id)
  {
    MatchedTokenIsIdentity(html, p, id);
    IdentityUnique(html);
    var r := GetIdentifier(html).value;
    var p' :| IdentityAt(html, p', r);
    assert ("id:" + r)[3..] == r && ("id:" + id)[3..] == id;
  }

  /** Compiling one record is its fragment, when that fragment holds no brace to strip. */
  lemma CompileOne(html: string, p: nat, id: string, item: seq<Field>)
    requires IdentityAt(html, p, id)
    requires Plain(Fragment(html, "id:" + id, id, GetObservers(html), item))
    ensures CompileTemplate(html, [item]) == Success(Fragment(html, "id:" + id, id, GetObservers(html), item))
  {
    TokenIdentifier(html, p, id);
    var observers := GetObservers(html);
    EachOne(item, it => Fragment(html, "id:" + id, id, observers, it));
    ConcatOne(Fragment(html, "id:" + id, id, observers, item));
  }

  /** The placeholders around a text piece are brace-free, have brace-free values, and are all listed. */
  lemma AroundObservers(pre: seq<Piece>, t: Piece, post: seq<Piece>, item: seq<Field>)
    requires t.Text? && PlainPieces(pre) && PlainPieces(post)
    requires forall i :: 0 <= i < |pre| && pre[i].Hole? ==> Plain(ToText(Get(item, pre[i].name)))
    requires forall i :: 0 <= i < |post| && post[i].Hole? ==> Plain(ToText(Get(item, post[i].name)))
    ensures var names := HoleNames(pre + [t] + post);
      && (forall k :: 0 <= k < |names| ==> Plain(names[k]) && Plain(ToText(Get(item, names[k]))))
      && (forall i :: 0 <= i < |pre| && pre[i].Hole? ==> pre[i].name in names)
      && (forall i :: 0 <= i < |post| && post[i].Hole? ==> post[i].name in names)
  {
    AroundNames(pre, t, post, item);
    AroundHoles(pre, t, post);
  }

  /** Every placeholder name around a text piece is brace-free, with a brace-free value. */
  lemma AroundNames(pre: seq<Piece>, t: Piece, post: seq<Piece>, item: seq<Field>)
    requires t.Text? && PlainPieces(pre) && PlainPieces(post)
    requires forall i :: 0 <= i < |pre| && pre[i].Hole? ==> Plain(ToText(Get(item, pre[i].name)))
    requires forall i :: 0 <= i < |post| && post[i].Hole? ==> Plain(ToText(Get(item, post[i].name)))
    ensures var names := HoleNames(pre + [t] + post);
      forall k :: 0 <= k < |names| ==> Plain(names[k]) && Plain(ToText(Get(item, names[k])))
  {
    var qs := pre + [t] + post;
    var names := HoleNames(qs);
    HoleNamesOf(qs);
    forall k | 0 <= k < |names| ensures Plain(names[k]) && Plain(ToText(Get(item, names[k]))) {
      var i :| 0 <= i < |qs| && qs[i] == Hole(names[k]);
      AroundHole(pre, t, post, item, i);
    }
  }

  /** A placeholder around a text piece comes from one side or the other. */
  lemma AroundHole(pre: seq<Piece>, t: Piece, post: seq<Piece>, item: seq<Field>, i: nat)
    requires t.Text? && PlainPieces(pre) && PlainPieces(post)
    requires forall i :: 0 <= i < |pre| && pre[i].Hole? ==> Plain(ToText(Get(item, pre[i].name)))
    requires forall i :: 0 <= i < |post| && post[i].Hole? ==> Plain(ToText(Get(item, post[i].name)))
    requires i < |pre + [t] + post| && (pre + [t] + post)[i].Hole?
    ensures var n := (pre + [t] + post)[i].name; Plain(n) && Plain(ToText(Get(item, n)))
  {
    AroundAt(pre, t, post, i);
    if i < |pre| {
      assert Plain(Content(pre[i]));
    } else {
      assert Plain(Content(post[i - |pre| - 1]));
    }
  }

  /** Every placeholder on either side of a text piece is listed. */
  lemma AroundHoles(pre: seq<Piece>, t: Piece, post: seq<Piece>)
    ensures var names := HoleNames(pre + [t] + post);
      && (forall i :: 0 <= i < |pre| && pre[i].Hole? ==> pre[i].name in names)
      && (forall i :: 0 <= i < |post| && post[i].Hole? ==> post[i].name in names)
  {
    var qs := pre + [t] + post;
    forall i | 0 <= i < |pre| && pre[i].Hole? ensures pre[i].name in HoleNames(qs) {
      assert qs[i] == pre[i];
    }
    forall i | 0 <= i < |post| && post[i].Hole? ensures post[i].name in HoleNames(qs) {
      assert qs[|pre| + 1 + i] == post[i];
    }
  }

  /** Letters are not braces. */
  lemma LettersPlain(id: string)
    requires forall k :: 0 <= k < |id| ==> IsLetter(id[k])
    ensures Plain(id)
  {
    forall k | 0 <= k < |id| ensures id[k] != '{' && id[k] != '}' {
      assert IsLetter(id[k]);
    }
  }

  /** Brace-free expansions around a brace-free marker leave no brace. */
  lemma FragmentPlain(pre: seq<Piece>, marker: string, post: seq<Piece>, item: seq<Field>)
    requires PlainPieces(pre) && PlainPieces(post) && Plain(marker)
    requires forall i :: 0 <= i < |pre| && pre[i].Hole? ==> Plain(ToText(Get(item, pre[i].name)))
    requires forall i :: 0 <= i < |post| && post[i].Hole? ==> Plain(ToText(Get(item, post[i].name)))
    ensures Plain(Expand(pre, ObserverFill(item)) + marker + Expand(post, ObserverFill(item)))
  {
    var fill := ObserverFill(item);
    PlainFills(pre, item);
    PlainFills(post, item);
    ExpandPlain(pre, fill);
    ExpandPlain(post, fill);
    PlainConcat(Expand(pre, fill), marker);
    PlainConcat(Expand(pre, fill) + marker, Expand(post, fill));
  }
}
