/**
  JavaScript values as the library sees them: primitives, opaque functions, arrays and
  plain objects whose own properties are listed in `Object.keys` order.
 */
module JsValue {
  import opened Wrappers

  datatype Value =
    | Undefined
    | Null
    | Bool(b: bool)
    | Num(n: int)
    | Str(s: string)
    | Fn(ref: nat)
    | Arr(items: seq<Value>)
    | Obj(fields: seq<Field>)

  /** One own property of an object. */
  datatype Field = Field(key: string, value: Value)

  /** `Object.keys(obj)`. */
  function Keys(fields: seq<Field>): (r: seq<string>)
    ensures |r| == |fields|
    ensures forall i :: 0 <= i < |r| ==> r[i] == fields[i].key
  {
    if |fields| == 0 then [] else [fields[0].key] + Keys(fields[1..])
  }

  /** No property name is listed twice, as in every JavaScript object. */
  predicate DistinctKeys(fields: seq<Field>) {
    Distinct(Keys(fields))
  }

  predicate Distinct(names: seq<string>) {
    forall i, j :: 0 <= i < j < |names| ==> names[i] != names[j]
  }

  /** Appending a name that is not yet listed keeps the names distinct. */
  lemma DistinctAppend(names: seq<string>, k: string)
    requires Distinct(names) && k !in names
    ensures Distinct(names + [k])
  {
    var r := names + [k];
    forall i, j | 0 <= i < j < |r|
      ensures r[i] != r[j]
    {
      assert r[i] == names[i];
      if j == |names| {
        assert r[j] == k;
      } else {
        assert r[j] == names[j];
      }
    }
  }

  /** `obj[k]`: the value of the own property `k`, or `undefined` when there is none. */
  function Get(fields: seq<Field>, k: string): (v: Value)
    ensures k !in Keys(fields) ==> v == Undefined
    ensures DistinctKeys(fields) ==>
      forall i :: 0 <= i < |fields| && fields[i].key == k ==> v == fields[i].value
  {
    if |fields| == 0 then Undefined
    else if fields[0].key == k then fields[0].value
    else Get(fields[1..], k)
  }

  /**
    `obj[k] = v`: an existing property keeps its place and takes the new value; a new
    property is added after all existing ones.
   */
  function Put(fields: seq<Field>, k: string, v: Value): (r: seq<Field>)
    ensures Get(r, k) == v
    ensures forall k' :: k' != k ==> Get(r, k') == Get(fields, k')
  {
    if |fields| == 0 then [Field(k, v)]
    else if fields[0].key == k then [Field(k, v)] + fields[1..]
    else [fields[0]] + Put(fields[1..], k, v)
  }

  /** Assignment keeps the key order and appends a key that was not there. */
  lemma {:induction false} PutKeys(fields: seq<Field>, k: string, v: Value)
    ensures Keys(Put(fields, k, v)) == if k in Keys(fields) then Keys(fields) else Keys(fields) + [k]
  {
    if |fields| > 0 && fields[0].key != k {
      var rest := Put(fields[1..], k, v);
      PutKeys(fields[1..], k, v);
      assert Keys(fields) == [fields[0].key] + Keys(fields[1..]);
      assert Keys([fields[0]] + rest) == [fields[0].key] + Keys(rest);
    } else if |fields| > 0 {
      assert Keys(Put(fields, k, v)) == [k] + Keys(fields[1..]);
    }
  }

  /** Assignment never lists a property name twice. */
  lemma PutDistinct(fields: seq<Field>, k: string, v: Value)
    requires DistinctKeys(fields)
    ensures DistinctKeys(Put(fields, k, v))
  {
    PutKeys(fields, k, v);
    if k !in Keys(fields) {
      DistinctAppend(Keys(fields), k);
    }
  }

  /** JavaScript truthiness. */
  predicate Truthy(v: Value) {
    match v
    case Undefined => false
    case Null => false
    case Bool(b) => b
    case Num(n) => n != 0
    case Str(s) => |s| > 0
    case _ => true
  }

  predicate IsDigit(c: char) { '0' <= c <= '9' }

  /** Decimal digits of a natural number, without leading zeros. */
  function NatText(n: nat): (r: string)
    ensures |r| >= 1
    ensures forall i :: 0 <= i < |r| ==> IsDigit(r[i])
    ensures r[0] == '0' <==> n == 0
    decreases n
  {
    var d := ['0' + (n % 10) as char];
    if n < 10 then d else NatText(n / 10) + d
  }

  /** `String(n)` for an integer. */
  function IntText(n: int): string {
    if n < 0 then "-" + NatText(-n) else NatText(n)
  }

  /** `String(items)`: the elements' strings joined by commas, `undefined`/`null` as empty. */
  function JoinText(items: seq<Value>, from: nat): string
    requires from <= |items|
    decreases Arr(items), 0, |items| - from
  {
    if from == |items| then ""
    else
      var head := if items[from].Undefined? || items[from].Null? then "" else ToText(items[from]);
      if from + 1 == |items| then head else head + "," + JoinText(items, from + 1)
  }

  /**
    `String(v)`, the conversion a template literal or a string replacement applies.
    A function's source text is not part of the model: a function renders as "function".
   */
  function ToText(v: Value): string
    decreases v, 1, 0
  {
    match v
    case Undefined => "undefined"
    case Null => "null"
    case Bool(b) => if b then "true" else "false"
    case Num(n) => IntText(n)
    case Str(s) => s
    case Fn(_) => "function"
    case Arr(items) => JoinText(items, 0)
    case Obj(_) => "[object Object]"
  }

  function DigitValue(c: char): nat
    requires IsDigit(c)
  {
    c as int - '0' as int
  }

  lemma DigitChar(k: nat)
    requires k < 10
    ensures IsDigit('0' + k as char) && DigitValue('0' + k as char) == k
  {
  }

  /** The numeric value of a string of decimal digits. */
  function DigitsValue(s: string): nat
    requires forall i :: 0 <= i < |s| ==> IsDigit(s[i])
  {
    if |s| == 0 then 0 else 10 * DigitsValue(s[..|s| - 1]) + DigitValue(s[|s| - 1])
  }

  /** The largest array index plus one: `2^32 - 1`. */
  const MaxArrayLength: nat := 0xFFFF_FFFF

  /**
    The array index a property name denotes: the name must be the canonical decimal
    text of a number below `2^32 - 1` (no sign, no leading zero).
   */
  function ParseIndex(key: string): Option<nat> {
    if |key| == 0 || (exists i :: 0 <= i < |key| && !IsDigit(key[i])) then None
    else if key[0] == '0' && |key| > 1 then None
    else if DigitsValue(key) < MaxArrayLength then Some(DigitsValue(key))
    else None
  }

  lemma {:induction false} DigitsOfNatText(n: nat)
    ensures DigitsValue(NatText(n)) == n
    decreases n
  {
    var d := ['0' + (n % 10) as char];
    DigitChar(n % 10);
    if n >= 10 {
      var x := NatText(n / 10);
      DigitsOfNatText(n / 10);
      assert NatText(n) == x + d;
      assert (x + d)[..|x|] == x;
      assert DigitsValue(x + d) == 10 * DigitsValue(x) + DigitValue(d[0]);
    } else {
      assert NatText(n) == d;
      assert DigitsValue(d) == 10 * DigitsValue([]) + DigitValue(d[0]);
    }
  }

  /** Every array index written in decimal is read back as the same index. */
  lemma ParseNatText(n: nat)
    requires n < MaxArrayLength
    ensures ParseIndex(NatText(n)) == Some(n)
  {
    DigitsOfNatText(n);
  }

  /** A digit string without a leading zero has a positive value. */
  lemma {:induction false} DigitsPositive(s: string)
    requires |s| > 0 && (forall i :: 0 <= i < |s| ==> IsDigit(s[i])) && s[0] != '0'
    ensures DigitsValue(s) > 0
    decreases |s|
  {
    if |s| > 1 {
      DigitsPositive(s[..|s| - 1]);
    }
  }

  lemma {:induction false} NatTextOfDigits(s: string)
    requires |s| > 0 && (forall i :: 0 <= i < |s| ==> IsDigit(s[i]))
    requires s[0] != '0' || |s| == 1
    ensures NatText(DigitsValue(s)) == s
    decreases |s|
  {
    var t, c := s[..|s| - 1], s[|s| - 1];
    var v := DigitsValue(s);
    assert v == 10 * DigitsValue(t) + DigitValue(c);
    assert v % 10 == DigitValue(c) && v / 10 == DigitsValue(t);
    DigitChar(DigitValue(c));
    assert '0' + (v % 10) as char == c;
    if |s| == 1 {
      assert v < 10;
    } else {
      DigitsPositive(t);
      NatTextOfDigits(t);
      assert s == t + [c];
    }
  }

  /** A property name read as an array index is exactly the decimal text of that index. */
  lemma ParseIndexText(key: string)
    requires ParseIndex(key).Some?
    ensures NatText(ParseIndex(key).value) == key
  {
    NatTextOfDigits(key);
  }

  /** `v[key]`: property access. `None` is the TypeError of reading from `undefined` or `null`. */
  function Member(v: Value, key: string): (r: Option<Value>)
    ensures r.None? <==> v.Undefined? || v.Null?
    ensures v.Obj? ==> r == Some(Get(v.fields, key))
  {
    match v
    case Undefined => None
    case Null => None
    case Obj(fields) => Some(Get(fields, key))
    case Arr(items) =>
      if key == "length" then Some(Num(|items|))
      else if ParseIndex(key).Some? && ParseIndex(key).value < |items| then Some(items[ParseIndex(key).value])
      else Some(Undefined)
    case Str(s) =>
      if key == "length" then Some(Num(|s|))
      else if ParseIndex(key).Some? && ParseIndex(key).value < |s| then Some(Str([s[ParseIndex(key).value]]))
      else Some(Undefined)
    case _ => Some(Undefined)
  }

  /** The element fields `"0"`, `"1"`, … of an array or a string, in index order. */
  function IndexFields(items: seq<Value>): (r: seq<Field>)
    ensures |r| == |items|
    ensures forall i :: 0 <= i < |r| ==> r[i] == Field(NatText(i), items[i])
  {
    seq(|items|, i requires 0 <= i < |items| => Field(NatText(i), items[i]))
  }

  /** The characters of a string as one-character strings. */
  function Chars(s: string): (r: seq<Value>)
    ensures |r| == |s|
    ensures forall i :: 0 <= i < |s| ==> r[i] == Str([s[i]])
  {
    seq(|s|, i requires 0 <= i < |s| => Str([s[i]]))
  }

  /** The own enumerable properties `Object.assign` copies from a source value. */
  function OwnFields(v: Value): seq<Field> {
    match v
    case Obj(fields) => fields
    case Arr(items) => IndexFields(items)
    case Str(s) => IndexFields(Chars(s))
    case _ => []
  }

  /** `a === b`. Arrays and objects are compared by identity, which the model does not track: they are never equal. */
  predicate StrictEquals(a: Value, b: Value) {
    match (a, b)
    case (Undefined, Undefined) => true
    case (Null, Null) => true
    case (Bool(x), Bool(y)) => x == y
    case (Num(x), Num(y)) => x == y
    case (Str(x), Str(y)) => x == y
    case (Fn(x), Fn(y)) => x == y
    case _ => false
  }
}
