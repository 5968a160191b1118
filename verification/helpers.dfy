/**
  The small pure helpers of the library: `filter` (indexed selection), `extend`
  (left-to-right property override) and `recurIter` (a counting loop driven by the
  handler's answers).
 */
module Helpers {
  import opened Wrappers
  import opened JsValue

  /** The exception a helper raises: reading a property of `undefined` or `null`. */
  datatype Thrown = TypeError

  /** One selected record and its position in the input array. */
  datatype Match = Match(index: nat, item: Value)

  /** `item[key] === value` for an item whose properties can be read. */
  predicate Selected(item: Value, key: string, value: Value) {
    Member(item, key).Some? && StrictEquals(Member(item, key).value, value)
  }

  /** An item whose property access throws. */
  predicate Nullish(item: Value) {
    item.Undefined? || item.Null?
  }

  /**
    `filter(items, key, value)` from position `from` on, for the selection `sel`: the
    `{index, item}` pairs of the selected items, in array order; reading a property of
    an `undefined` or `null` item throws.
   */
  function FilterFrom(items: seq<Value>, sel: Value -> bool, from: nat): (r: Result<seq<Match>, Thrown>)
    requires from <= |items|
    ensures r.Success? ==> forall m :: m in r.value ==> from <= m.index < |items|
    decreases |items| - from
  {
    if from == |items| then Success([])
    else
      var rest := FilterFrom(items, sel, from + 1);
      if Nullish(items[from]) || rest.Failure? then Failure(TypeError)
      else if sel(items[from]) then Success([Match(from, items[from])] + rest.value)
      else rest
  }

  /** `filter(items, key, value)`. */
  function Filter(items: seq<Value>, key: string, value: Value): Result<seq<Match>, Thrown> {
    FilterFrom(items, item => Selected(item, key, value), 0)
  }

  /** The reported indices, in report order. */
  function Indices(ms: seq<Match>): (r: seq<nat>)
    ensures |r| == |ms|
    ensures forall k :: 0 <= k < |ms| ==> r[k] == ms[k].index
  {
    seq(|ms|, k requires 0 <= k < |ms| => ms[k].index)
  }

  predicate StrictlyIncreasing(r: seq<nat>) {
    forall k, l :: 0 <= k < l < |r| ==> r[k] < r[l]
  }

  /** The selection throws exactly when some item from `from` on is `undefined` or `null`. */
  lemma {:induction false} FilterFails(items: seq<Value>, sel: Value -> bool, from: nat)
    requires from <= |items|
    ensures FilterFrom(items, sel, from).Failure? <==> exists i :: from <= i < |items| && Nullish(items[i])
    decreases |items| - from
  {
    if from < |items| {
      FilterFails(items, sel, from + 1);
    }
  }

  /** Every reported pair is a selected item at its original position. */
  lemma {:induction false} FilterSound(items: seq<Value>, sel: Value -> bool, from: nat)
    requires from <= |items|
    requires FilterFrom(items, sel, from).Success?
    ensures var ms := FilterFrom(items, sel, from).value;
      forall k :: 0 <= k < |ms| ==>
        && from <= ms[k].index < |items|
        && ms[k].item == items[ms[k].index]
        && sel(ms[k].item)
    decreases |items| - from
  {
    if from < |items| {
      var ms := FilterFrom(items, sel, from).value;
      var rs := FilterFrom(items, sel, from + 1).value;
      FilterSound(items, sel, from + 1);
      if sel(items[from]) {
        assert forall k :: 1 <= k < |ms| ==> ms[k] == rs[k - 1];
      } else {
        assert ms == rs;
      }
    }
  }

  /** The pairs are reported in increasing order of position. */
  lemma {:induction false} FilterOrdered(items: seq<Value>, sel: Value -> bool, from: nat)
    requires from <= |items|
    requires FilterFrom(items, sel, from).Success?
    ensures StrictlyIncreasing(Indices(FilterFrom(items, sel, from).value))
    decreases |items| - from
  {
    if from < |items| {
      var ms := FilterFrom(items, sel, from).value;
      var rs := FilterFrom(items, sel, from + 1).value;
      FilterOrdered(items, sel, from + 1);
      if sel(items[from]) {
        assert forall k :: 1 <= k < |ms| ==> ms[k] == rs[k - 1];
        assert forall k :: 0 <= k < |rs| ==> from < rs[k].index by {
          forall k | 0 <= k < |rs| ensures from < rs[k].index { assert rs[k] in rs; }
        }
      } else {
        assert ms == rs;
      }
    }
  }

  /** Every selected position from `from` on is reported. */
  lemma {:induction false} FilterComplete(items: seq<Value>, sel: Value -> bool, from: nat, i: nat)
    requires from <= i < |items| && sel(items[i])
    requires FilterFrom(items, sel, from).Success?
    ensures exists k ::
      0 <= k < |FilterFrom(items, sel, from).value| && FilterFrom(items, sel, from).value[k].index == i
    decreases |items| - from
  {
    var ms := FilterFrom(items, sel, from).value;
    if i == from {
      assert ms[0].index == i;
    } else {
      var rs := FilterFrom(items, sel, from + 1).value;
      FilterComplete(items, sel, from + 1, i);
      var k :| 0 <= k < |rs| && rs[k].index == i;
      if sel(items[from]) {
        assert ms[k + 1] == rs[k];
      } else {
        assert ms == rs;
      }
    }
  }

  /**
    `filter` throws exactly when an item is `undefined` or `null`; otherwise it reports,
    in increasing order of position, exactly the positions whose item has `key` strictly
    equal to `value`, each with that item.
   */
  lemma FilterExact(items: seq<Value>, key: string, value: Value)
    ensures Filter(items, key, value).Failure? <==> exists i :: 0 <= i < |items| && Nullish(items[i])
    ensures Filter(items, key, value).Success? ==>
      var ms := Filter(items, key, value).value;
      && StrictlyIncreasing(Indices(ms))
      && (forall k :: 0 <= k < |ms| ==>
            ms[k].index < |items| && ms[k].item == items[ms[k].index] && Selected(ms[k].item, key, value))
      && (forall i :: 0 <= i < |items| && Selected(items[i], key, value) ==>
            exists k :: 0 <= k < |ms| && ms[k].index == i)
  {
    var sel := item => Selected(item, key, value);
    FilterFails(items, sel, 0);
    if Filter(items, key, value).Success? {
      FilterSound(items, sel, 0);
      FilterOrdered(items, sel, 0);
      forall i | 0 <= i < |items| && Selected(items[i], key, value)
        ensures exists k :: 0 <= k < |Filter(items, key, value).value| && Filter(items, key, value).value[k].index == i
      {
        FilterComplete(items, sel, 0, i);
      }
    }
  }

  /**
    `Object.assign(target, source)` on an object target: each own property of the source,
    in order, is assigned to the target.
   */
  function PutAll(fields: seq<Field>, src: seq<Field>): seq<Field>
    decreases |src|
  {
    if |src| == 0 then fields
    else Put(PutAll(fields, src[..|src| - 1]), src[|src| - 1].key, src[|src| - 1].value)
  }

  /** The own properties of each extender, in argument order. */
  function Sources(extenders: seq<Value>): (r: seq<seq<Field>>)
    ensures |r| == |extenders|
    ensures forall i :: 0 <= i < |r| ==> r[i] == OwnFields(extenders[i])
  {
    seq(|extenders|, i requires 0 <= i < |extenders| => OwnFields(extenders[i]))
  }

  /** Each source assigned to the target in turn. */
  function AssignAll(target: seq<Field>, srcs: seq<seq<Field>>): seq<Field>
    decreases |srcs|
  {
    if |srcs| == 0 then target
    else PutAll(AssignAll(target, srcs[..|srcs| - 1]), srcs[|srcs| - 1])
  }

  /**
    An argument of `extend` after the target: a value, or the target object itself
    passed again. Objects are compared by identity, and the target is the only object
    `extend` writes into, so this is the only sharing that changes its result.
   */
  datatype Extender = Given(value: Value) | Itself

  /**
    `Object.assign(obj, obj)`: the property names are listed first, then each property
    is read from the object as it is at that moment and written back to it.
   */
  function AssignSelf(fields: seq<Field>, names: seq<string>): seq<Field>
    decreases |names|
  {
    if |names| == 0 then fields
    else AssignSelf(Put(fields, names[0], Get(fields, names[0])), names[1..])
  }

  /**
    `extend(target, e1, e2, …)`: the own properties of each extender assigned to the
    target in argument order, later extenders overriding earlier ones. An extender that
    is the target itself is read as it stands when its turn comes.
   */
  function Extend(target: seq<Field>, extenders: seq<Extender>): seq<Field>
    decreases |extenders|
  {
    if |extenders| == 0 then target
    else
      var before := Extend(target, extenders[..|extenders| - 1]);
      match extenders[|extenders| - 1]
      case Given(v) => PutAll(before, OwnFields(v))
      case Itself => AssignSelf(before, Keys(before))
  }

  /** The extenders that are not the target, in argument order. */
  function Givens(extenders: seq<Extender>): (r: seq<Value>)
    ensures |r| <= |extenders|
    decreases |extenders|
  {
    if |extenders| == 0 then []
    else
      var last := extenders[|extenders| - 1];
      Givens(extenders[..|extenders| - 1]) + if last.Given? then [last.value] else []
  }

  /** The source field for `k` that an assignment keeps: the last one. */
  function LastValue(src: seq<Field>, k: string): (r: Option<Value>)
    ensures r.None? <==> k !in Keys(src)
  {
    if |src| == 0 then None
    else if src[|src| - 1].key == k then Some(src[|src| - 1].value)
    else
      assert Keys(src) == Keys(src[..|src| - 1]) + [src[|src| - 1].key];
      LastValue(src[..|src| - 1], k)
  }

  /** After an assignment, a property holds the source's last value for it, or its old value when the source lacks it. */
  lemma {:induction false} PutAllGet(fields: seq<Field>, src: seq<Field>, k: string)
    ensures Get(PutAll(fields, src), k) == if LastValue(src, k).Some? then LastValue(src, k).value else Get(fields, k)
    decreases |src|
  {
    if |src| > 0 {
      PutAllGet(fields, src[..|src| - 1], k);
    }
  }

  /** The source a property's final value comes from: the last one that has it. */
  predicate LastDefiner(srcs: seq<seq<Field>>, k: string, j: nat) {
    && j < |srcs|
    && k in Keys(srcs[j])
    && forall i :: j < i < |srcs| ==> k !in Keys(srcs[i])
  }

  lemma {:induction false} AssignAllGetDefined(target: seq<Field>, srcs: seq<seq<Field>>, k: string, j: nat)
    requires LastDefiner(srcs, k, j)
    ensures Get(AssignAll(target, srcs), k) == LastValue(srcs[j], k).value
    decreases |srcs|
  {
    var n := |srcs| - 1;
    var init := srcs[..n];
    PutAllGet(AssignAll(target, init), srcs[n], k);
    if j < n {
      assert srcs[j] == init[j];
      assert LastDefiner(init, k, j) by {
        forall i | j < i < |init| ensures k !in Keys(init[i]) {
          assert init[i] == srcs[i];
        }
      }
      AssignAllGetDefined(target, init, k, j);
    }
  }

  lemma {:induction false} AssignAllGetUndefined(target: seq<Field>, srcs: seq<seq<Field>>, k: string)
    requires forall i :: 0 <= i < |srcs| ==> k !in Keys(srcs[i])
    ensures Get(AssignAll(target, srcs), k) == Get(target, k)
    decreases |srcs|
  {
    if |srcs| > 0 {
      var n := |srcs| - 1;
      var init := srcs[..n];
      assert forall i :: 0 <= i < |init| ==> k !in Keys(init[i]) by {
        forall i | 0 <= i < |init| ensures k !in Keys(init[i]) {
          assert init[i] == srcs[i];
        }
      }
      AssignAllGetUndefined(target, init, k);
      assert LastValue(srcs[n], k).None?;
      PutAllGet(AssignAll(target, init), srcs[n], k);
      assert AssignAll(target, srcs) == PutAll(AssignAll(target, init), srcs[n]);
    }
  }

  /** Writing a property's own value back to it changes nothing. */
  lemma {:induction false} PutOwn(fields: seq<Field>, k: string)
    requires k in Keys(fields)
    ensures Put(fields, k, Get(fields, k)) == fields
  {
    if fields[0].key != k {
      assert Keys(fields) == [fields[0].key] + Keys(fields[1..]);
      PutOwn(fields[1..], k);
    }
  }

  /** `Object.assign(obj, obj)` leaves the object as it was. */
  lemma {:induction false} AssignSelfSame(fields: seq<Field>, names: seq<string>)
    requires forall i :: 0 <= i < |names| ==> names[i] in Keys(fields)
    ensures AssignSelf(fields, names) == fields
    decreases |names|
  {
    if |names| > 0 {
      PutOwn(fields, names[0]);
      AssignSelfSame(fields, names[1..]);
    }
  }

  /**
    Passing the target again changes nothing, wherever it stands, so `extend` is the
    assignment of the other extenders alone.
   */
  lemma {:induction false} ExtendSkipsItself(target: seq<Field>, extenders: seq<Extender>)
    ensures Extend(target, extenders) == AssignAll(target, Sources(Givens(extenders)))
    decreases |extenders|
  {
    if |extenders| == 0 {
      assert Sources(Givens(extenders)) == [];
    } else {
      var n := |extenders| - 1;
      var init := extenders[..n];
      ExtendSkipsItself(target, init);
      var before := Extend(target, init);
      match extenders[n]
      case Itself =>
        AssignSelfSame(before, Keys(before));
        assert Givens(extenders) == Givens(init) + [];
        assert Givens(extenders) == Givens(init);
      case Given(v) =>
        calc {
          AssignAll(target, Sources(Givens(extenders)));
          { assert Givens(extenders) == Givens(init) + [v]; }
          AssignAll(target, Sources(Givens(init) + [v]));
          { SourcesSnoc(Givens(init), v); }
          AssignAll(target, Sources(Givens(init)) + [OwnFields(v)]);
          { AssignAllSnoc(target, Sources(Givens(init)), OwnFields(v)); }
          PutAll(AssignAll(target, Sources(Givens(init))), OwnFields(v));
        }
    }
  }

  lemma SourcesSnoc(values: seq<Value>, v: Value)
    ensures Sources(values + [v]) == Sources(values) + [OwnFields(v)]
  {
  }

  lemma AssignAllSnoc(target: seq<Field>, srcs: seq<seq<Field>>, src: seq<Field>)
    ensures AssignAll(target, srcs + [src]) == PutAll(AssignAll(target, srcs), src)
  {
    assert (srcs + [src])[..|srcs|] == srcs;
  }

  /**
    `extend(a, {x: 2}, a)`: the second `a` is read after `{x: 2}` was written into it, so
    it gives nothing new, and `x` ends as 2 even when `a` held `x: 1`.
   */
  lemma ExtendItselfLast(target: seq<Field>, extenders: seq<Extender>)
    ensures Extend(target, extenders + [Itself]) == Extend(target, extenders)
    ensures Extend([Field("x", Num(1))], [Given(Obj([Field("x", Num(2))])), Itself]) == [Field("x", Num(2))]
  {
    assert (extenders + [Itself])[..|extenders|] == extenders;
    var before := Extend(target, extenders);
    AssignSelfSame(before, Keys(before));
    var a := [Field("x", Num(1))];
    var once := [Given(Obj([Field("x", Num(2))]))];
    assert Extend(a, once) == [Field("x", Num(2))];
    assert (once + [Itself])[..1] == once;
    AssignSelfSame([Field("x", Num(2))], ["x"]);
  }

  /**
    After `extend`, a property has the value the last extender that owns it gives it,
    and keeps the target's value when no extender owns it. The target passed again as
    an extender is skipped: it holds what the earlier ones wrote.
   */
  lemma ExtendGet(target: seq<Field>, extenders: seq<Extender>, k: string)
    ensures forall j: nat :: LastDefiner(Sources(Givens(extenders)), k, j) ==>
      Get(Extend(target, extenders), k) == LastValue(OwnFields(Givens(extenders)[j]), k).value
    ensures (forall i :: 0 <= i < |Givens(extenders)| ==> k !in Keys(OwnFields(Givens(extenders)[i]))) ==>
      Get(Extend(target, extenders), k) == Get(target, k)
  {
    ExtendSkipsItself(target, extenders);
    var srcs := Sources(Givens(extenders));
    forall j: nat | LastDefiner(srcs, k, j)
      ensures Get(AssignAll(target, srcs), k) == LastValue(srcs[j], k).value
    {
      AssignAllGetDefined(target, srcs, k, j);
    }
    if forall i :: 0 <= i < |Givens(extenders)| ==> k !in Keys(OwnFields(Givens(extenders)[i])) {
      AssignAllGetUndefined(target, srcs, k);
    }
  }

  predicate IsPrefix(a: seq<string>, b: seq<string>) {
    |a| <= |b| && b[..|a|] == a
  }

  /** Assignment keeps the target's properties in their places and never lists a name twice. */
  lemma {:induction false} PutAllKeys(fields: seq<Field>, src: seq<Field>)
    ensures IsPrefix(Keys(fields), Keys(PutAll(fields, src)))
    ensures DistinctKeys(fields) ==> DistinctKeys(PutAll(fields, src))
    decreases |src|
  {
    if |src| > 0 {
      var before := PutAll(fields, src[..|src| - 1]);
      PutAllKeys(fields, src[..|src| - 1]);
      PutKeys(before, src[|src| - 1].key, src[|src| - 1].value);
      if DistinctKeys(fields) {
        PutDistinct(before, src[|src| - 1].key, src[|src| - 1].value);
      }
    }
  }

  lemma {:induction false} AssignAllKeys(target: seq<Field>, srcs: seq<seq<Field>>)
    ensures IsPrefix(Keys(target), Keys(AssignAll(target, srcs)))
    ensures DistinctKeys(target) ==> DistinctKeys(AssignAll(target, srcs))
    decreases |srcs|
  {
    if |srcs| > 0 {
      var n := |srcs| - 1;
      AssignAllKeys(target, srcs[..n]);
      PutAllKeys(AssignAll(target, srcs[..n]), srcs[n]);
    }
  }

  /** `extend` keeps the target's properties first, in their order, and never lists a name twice. */
  lemma ExtendKeys(target: seq<Field>, extenders: seq<Extender>)
    ensures IsPrefix(Keys(target), Keys(Extend(target, extenders)))
    ensures DistinctKeys(target) ==> DistinctKeys(Extend(target, extenders))
  {
    ExtendSkipsItself(target, extenders);
    AssignAllKeys(target, Sources(Givens(extenders)));
  }

  lemma {:induction false} AssignAllAppend(target: seq<Field>, a: seq<seq<Field>>, b: seq<seq<Field>>)
    ensures AssignAll(AssignAll(target, a), b) == AssignAll(target, a + b)
    decreases |b|
  {
    if |b| > 0 {
      var n := |b| - 1;
      AssignAllAppend(target, a, b[..n]);
      assert (a + b)[..|a + b| - 1] == a + b[..n];
    } else {
      assert a + b == a;
    }
  }

  /** Extending in two calls is extending once with all the extenders. */
  lemma ExtendAppend(target: seq<Field>, a: seq<Extender>, b: seq<Extender>)
    ensures Extend(Extend(target, a), b) == Extend(target, a + b)
  {
    var ga, gb := Givens(a), Givens(b);
    calc {
      Extend(Extend(target, a), b);
      { ExtendSkipsItself(Extend(target, a), b); }
      AssignAll(Extend(target, a), Sources(gb));
      { ExtendSkipsItself(target, a); }
      AssignAll(AssignAll(target, Sources(ga)), Sources(gb));
      { AssignAllAppend(target, Sources(ga), Sources(gb)); }
      AssignAll(target, Sources(ga) + Sources(gb));
      { assert Sources(ga + gb) == Sources(ga) + Sources(gb); }
      AssignAll(target, Sources(ga + gb));
      { GivensAppend(a, b); }
      AssignAll(target, Sources(Givens(a + b)));
      { ExtendSkipsItself(target, a + b); }
      Extend(target, a + b);
    }
  }

  lemma {:induction false} GivensAppend(a: seq<Extender>, b: seq<Extender>)
    ensures Givens(a + b) == Givens(a) + Givens(b)
    decreases |b|
  {
    if |b| == 0 {
      assert a + b == a;
    } else {
      var n := |b| - 1;
      assert (a + b)[..|a + b| - 1] == a + b[..n];
      GivensAppend(a, b[..n]);
    }
  }

  /** What the handler does with its continuation: recur, complete, or neither. */
  datatype Signal = Continue | Stop | Silent

  /** How a loop ended: `complete` was called, the handler never answered, or the bound ran out. */
  datatype RunEnd = Completed | Halted | OutOfFuel

  /** The indices handed to the handler, in order, and how the loop ended. */
  datatype IterRun = IterRun(visited: seq<int>, end: RunEnd)

  /**
    `recurIter(handler, complete, index)` with at most `fuel` handler calls: the handler
    receives `index`, `index + 1`, … while it answers with a truthy value; a falsy answer
    calls `complete`, and no answer ends the loop silently.
   */
  function RecurIter(handler: int -> Signal, index: int, fuel: nat): (r: IterRun)
    ensures |r.visited| <= fuel
    ensures forall i :: 0 <= i < |r.visited| ==> r.visited[i] == index + i
    ensures forall i :: 0 <= i < |r.visited| - 1 ==> handler(r.visited[i]) == Continue
    ensures r.end == Completed ==> |r.visited| > 0 && handler(index + |r.visited| - 1) == Stop
    ensures r.end == Halted ==> |r.visited| > 0 && handler(index + |r.visited| - 1) == Silent
    ensures r.end == OutOfFuel ==> |r.visited| == fuel && (fuel == 0 || handler(index + fuel - 1) == Continue)
    decreases fuel
  {
    if fuel == 0 then IterRun([], OutOfFuel)
    else
      match handler(index)
      case Stop => IterRun([index], Completed)
      case Silent => IterRun([index], Halted)
      case Continue =>
        var rest := RecurIter(handler, index + 1, fuel - 1);
        IterRun([index] + rest.visited, rest.end)
  }

  /** `index || 0`: a missing start index counts from zero. */
  function StartIndex(index: Option<int>): int {
    if index.Some? then index.value else 0
  }

  /**
    A handler that answers truthy for `n` indices and then falsy completes after exactly
    `n + 1` calls, given enough bound.
   */
  lemma {:induction false} RecurIterStops(handler: int -> Signal, index: int, n: nat, fuel: nat)
    requires forall i :: index <= i < index + n ==> handler(i) == Continue
    requires handler(index + n) == Stop
    requires n < fuel
    ensures RecurIter(handler, index, fuel) == IterRun(seq(n + 1, i => index + i), Completed)
    decreases n
  {
    if n > 0 {
      assert handler(index) == Continue;
      RecurIterStops(handler, index + 1, n - 1, fuel - 1);
      assert [index] + seq(n, i => index + 1 + i) == seq(n + 1, i => index + i);
    }
  }

  /** A loop that ended within its bound runs the same with any larger bound. */
  lemma {:induction false} RecurIterFuel(handler: int -> Signal, index: int, fuel: nat, more: nat)
    requires RecurIter(handler, index, fuel).end != OutOfFuel
    requires fuel <= more
    ensures RecurIter(handler, index, more) == RecurIter(handler, index, fuel)
    decreases fuel
  {
    if handler(index) == Continue {
      RecurIterFuel(handler, index + 1, fuel - 1, more - 1);
    }
  }
}
