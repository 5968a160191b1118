/**
  The storage wrapper `store(key)`: one JSON document kept under one key of a
  string-valued key/value storage (the browser's `localStorage`), with item operations
  that read the document, change one property and write the whole document back.

  The storage is a map from keys to what `JSON.parse` makes of the stored text: a
  document, or text it rejects (what `JSON.stringify` of `undefined` or a function
  leaves behind). Writing a value stores its JSON image.
 */
module Store {
  import opened Wrappers
  import opened JsString
  import opened JsValue

  /** The parsed content of one storage entry. */
  datatype Cell = Stored(data: Value) | Unparsable

  type Storage = map<string, Cell>

  /**
    `InvalidKey` is the error object `store` returns for a key that is not a string;
    the others are thrown: `TypeError` by a property access on `undefined` or on a
    primitive in strict mode, `SyntaxError` by `JSON.parse`, `RangeError` by an invalid
    array length.
   */
  datatype StoreError = InvalidKey | TypeError | SyntaxError | RangeError

  /** `store(key)`: the storage key, which must be a string. */
  function Open(key: Value): (r: Result<string, StoreError>)
    ensures r.Success? <==> key.Str?
    ensures r.Success? ==> r.value == key.s
    ensures r.Failure? ==> r.error == InvalidKey
  {
    if key.Str? then Success(key.s) else Failure(InvalidKey)
  }

  /** Every object in `v`, at any depth, lists each property name once. */
  predicate WellFormed(v: Value) {
    match v
    case Arr(items) => forall i :: 0 <= i < |items| ==> WellFormed(items[i])
    case Obj(fields) => DistinctKeys(fields) && forall i :: 0 <= i < |fields| ==> WellFormed(fields[i].value)
    case _ => true
  }

  /** A value JSON can represent: no `undefined` and no function anywhere, objects well formed. */
  predicate JsonValue(v: Value) {
    match v
    case Undefined => false
    case Fn(_) => false
    case Arr(items) => forall i :: 0 <= i < |items| ==> JsonValue(items[i])
    case Obj(fields) => DistinctKeys(fields) && forall i :: 0 <= i < |fields| ==> JsonValue(fields[i].value)
    case _ => true
  }

  /**
    `JSON.parse(JSON.stringify(v))`: `undefined` and functions have no JSON text; inside
    an array they become `null`, inside an object their property is dropped.
   */
  function JsonCopy(v: Value): (r: Value)
    ensures r.Undefined? <==> v.Undefined? || v.Fn?
    ensures v.Arr? ==> r.Arr? && |r.items| == |v.items|
    ensures v.Obj? ==> r.Obj?
    decreases v, 1
  {
    match v
    case Undefined => Undefined
    case Fn(_) => Undefined
    case Arr(items) =>
      Arr(seq(|items|, i requires 0 <= i < |items| => Slot(JsonCopy(items[i]))))
    case Obj(fields) => Obj(JsonFields(fields, 0))
    case _ => v
  }

  /** An array element without JSON text is written as `null`. */
  function Slot(c: Value): Value {
    if c.Undefined? then Null else c
  }

  /** The JSON image of the properties from index `from` on: those without JSON text are dropped. */
  function JsonFields(fields: seq<Field>, from: nat): (r: seq<Field>)
    requires from <= |fields|
    ensures forall j :: 0 <= j < |r| ==> !r[j].value.Undefined?
    decreases Obj(fields), 0, |fields| - from
  {
    if from == |fields| then []
    else
      var c := JsonCopy(fields[from].value);
      (if c.Undefined? then [] else [Field(fields[from].key, c)]) + JsonFields(fields, from + 1)
  }

  /** The cell `setItem` of the storage writes: the JSON image, or text `JSON.parse` rejects. */
  function Encode(v: Value): (c: Cell)
    ensures c.Unparsable? <==> v.Undefined? || v.Fn?
  {
    if JsonCopy(v).Undefined? then Unparsable else Stored(JsonCopy(v))
  }

  /** Every stored document is a JSON value. */
  predicate Valid(st: Storage) {
    forall k :: k in st && st[k].Stored? ==> JsonValue(st[k].data)
  }

  /**
    `getData()`: a missing entry reads as `null`, and `null` is returned as `undefined`;
    text that is not JSON throws.
   */
  function GetData(st: Storage, key: string): (r: Result<Value, StoreError>)
    ensures r.Failure? <==> key in st && st[key].Unparsable?
    ensures r.Failure? ==> r.error == SyntaxError
    ensures r.Success? ==> !r.value.Null?
  {
    if key !in st then Success(Undefined)
    else match st[key]
      case Unparsable => Failure(SyntaxError)
      case Stored(d) => Success(if d.Null? then Undefined else d)
  }

  /** `setData(v)`: the entry becomes the JSON image of `v`; no other entry changes. */
  function SetData(st: Storage, key: string, v: Value): (st': Storage)
    ensures st'.Keys == st.Keys + {key}
    ensures forall k :: k in st && k != key ==> st'[k] == st[k]
  {
    st[key := Encode(v)]
  }

  /** `removeData()`: the entry is gone; no other entry changes. */
  function RemoveData(st: Storage, key: string): (st': Storage)
    ensures st'.Keys == st.Keys - {key}
    ensures forall k :: k in st' ==> st'[k] == st[k]
  {
    st - {key}
  }

  /** `getItem(itemKey)`: the property of the document; a missing document throws. */
  function GetItem(st: Storage, key: string, itemKey: Value): (r: Result<Value, StoreError>)
    ensures GetData(st, key).Failure? ==> r == Failure(SyntaxError)
    ensures GetData(st, key) == Success(Undefined) ==> r == Failure(TypeError)
    ensures r.Failure? ==> GetData(st, key).Failure? || GetData(st, key) == Success(Undefined)
  {
    match GetData(st, key)
    case Failure(e) => Failure(e)
    case Success(data) =>
      match Member(data, ToText(itemKey))
      case None => Failure(TypeError)
      case Some(x) => Success(x)
  }

  /**
    `ToNumber(v)`, for the integral numbers the model represents: `null` and `false` are
    0 and `true` is 1; a string is read without its surrounding white space, and then the
    empty string is 0 and a run of decimal digits is its value; an array is read as its
    `toString` text. `None` is `NaN`: `undefined`, plain objects (`"[object Object]"`),
    functions, and every other string.
   */
  function NumberOf(v: Value): Option<int> {
    match v
    case Null => Some(0)
    case Bool(b) => Some(if b then 1 else 0)
    case Num(n) => Some(n)
    case Str(s) => StringNumber(s)
    case Arr(_) => StringNumber(ToText(v))
    case _ => None
  }

  /** `ToNumber` of a string: blank is 0, trimmed decimal digits are their value. */
  function StringNumber(s: string): Option<int> {
    var t := Trim(s);
    if |t| == 0 then Some(0)
    else if forall i :: 0 <= i < |t| ==> IsDigit(t[i]) then Some(DigitsValue(t))
    else None
  }

  /**
    The new length an assignment to an array's `length` asks for: its `ToNumber`, which
    must equal its `ToUint32`, so an integer from 0 to 2^32 - 1.
   */
  function ArrayLength(v: Value): (r: Option<nat>)
    ensures r.Some? <==> NumberOf(v).Some? && 0 <= NumberOf(v).value <= MaxArrayLength
    ensures r.Some? ==> r.value == NumberOf(v).value
  {
    match NumberOf(v)
    case Some(n) => if 0 <= n <= MaxArrayLength then Some(n) else None
    case None => None
  }

  /**
    The lengths the conversion accepts: `true` is 1; `null`, `false` and `[]` are 0; a
    number's decimal text, as a string or as a one-element array, is that number; a
    negative number or one past `2^32 - 1` is refused, and so are `undefined`, plain
    objects and functions.
   */
  lemma ArrayLengthValues(n: nat, fields: seq<Field>, ref: nat)
    ensures ArrayLength(Bool(true)) == Some(1)
    ensures ArrayLength(Bool(false)) == Some(0) && ArrayLength(Null) == Some(0) && ArrayLength(Arr([])) == Some(0)
    ensures n <= MaxArrayLength ==> ArrayLength(Num(n)) == Some(n)
    ensures n <= MaxArrayLength ==> ArrayLength(Str(NatText(n))) == Some(n)
    ensures n <= MaxArrayLength ==> ArrayLength(Arr([Num(n)])) == Some(n)
    ensures ArrayLength(Num(-1 - n)).None? && ArrayLength(Num(MaxArrayLength + 1 + n)).None?
    ensures ArrayLength(Undefined).None? && ArrayLength(Obj(fields)).None? && ArrayLength(Fn(ref)).None?
  {
    BlankLength();
    DecimalLength(n);
  }

  /** An empty string, and so an empty array, converts to 0. */
  lemma BlankLength()
    ensures ArrayLength(Str("")) == Some(0) && ArrayLength(Arr([])) == Some(0)
  {
    TrimNoSpace("");
    assert ToText(Arr([])) == "";
  }

  /** A number's decimal text converts back to the number, alone or as a one-element array. */
  lemma DecimalLength(n: nat)
    ensures n <= MaxArrayLength ==> ArrayLength(Str(NatText(n))) == Some(n)
    ensures n <= MaxArrayLength ==> ArrayLength(Arr([Num(n)])) == Some(n)
  {
    NatTextNumber(n);
    OneNumberText(n);
  }

  /** `ToNumber` reads a number's decimal text back. */
  lemma NatTextNumber(n: nat)
    ensures StringNumber(NatText(n)) == Some(n)
  {
    var t := NatText(n);
    forall k | 0 <= k < |t| ensures !IsSpace(t[k]) {
      assert IsDigit(t[k]);
    }
    TrimNoSpace(t);
    DigitsOfNatText(n);
  }

  /** `String([n])` is the decimal text of `n`. */
  lemma OneNumberText(n: nat)
    ensures ToText(Arr([Num(n)])) == NatText(n)
  {
    var items := [Num(n)];
    assert JoinText(items, 0) == ToText(items[0]);
    assert ToText(items[0]) == IntText(n) == NatText(n);
  }

  /** `n` holes, which read as `undefined`. */
  function Holes(n: nat): (r: seq<Value>)
    ensures |r| == n && forall i :: 0 <= i < n ==> r[i] == Undefined
  {
    seq(n, _ => Undefined)
  }

  /**
    `data[key] = value` in strict mode, as far as the JSON image can see it: objects
    take the property; arrays take an element (growing with holes) or a new length;
    other array properties and properties of functions are invisible to JSON; writing to
    `undefined`, `null` or another primitive throws.
   */
  function Assign(data: Value, key: string, value: Value): (r: Result<Value, StoreError>)
    ensures r.Failure? <==> !(data.Obj? || data.Arr? || data.Fn?) || (data.Arr? && key == "length" && ArrayLength(value).None?)
    ensures data.Obj? ==> r == Success(Obj(Put(data.fields, key, value)))
  {
    match data
    case Obj(fields) => Success(Obj(Put(fields, key, value)))
    case Arr(items) =>
      if key == "length" then
        (match ArrayLength(value)
         case None => Failure(RangeError)
         case Some(n) => Success(Arr(if n <= |items| then items[..n] else items + Holes(n - |items|))))
      else
        (match ParseIndex(key)
         case None => Success(data)
         case Some(i) => Success(Arr(if i < |items| then items[i := value] else items + Holes(i - |items|) + [value])))
    case Fn(_) => Success(data)
    case _ => Failure(TypeError)
  }

  /** `setItem(itemKey, itemValue)`: reads the document, assigns the property and writes the document back. */
  function SetItem(st: Storage, key: string, itemKey: Value, itemValue: Value): (r: Result<Storage, StoreError>)
    ensures r.Success? ==> r.value.Keys == st.Keys + {key}
    ensures r.Success? ==> forall k :: k in st && k != key ==> r.value[k] == st[k]
    ensures GetData(st, key).Failure? ==> r == Failure(SyntaxError)
    ensures GetData(st, key) == Success(Undefined) ==> r == Failure(TypeError)
  {
    match GetData(st, key)
    case Failure(e) => Failure(e)
    case Success(data) =>
      match Assign(data, ToText(itemKey), itemValue)
      case Failure(e) => Failure(e)
      case Success(data') => Success(SetData(st, key, data'))
  }

  /** `removeItem(itemKey)`: `setItem` with `undefined`. */
  function RemoveItem(st: Storage, key: string, itemKey: Value): (r: Result<Storage, StoreError>)
    ensures r.Success? ==> r.value.Keys == st.Keys + {key}
    ensures r.Success? ==> forall k :: k in st && k != key ==> r.value[k] == st[k]
    ensures GetData(st, key).Failure? ==> r == Failure(SyntaxError)
    ensures GetData(st, key) == Success(Undefined) ==> r == Failure(TypeError)
  {
    SetItem(st, key, itemKey, Undefined)
  }

  // ---------------------------------------------------------------------------
  // The JSON image.

  /** Every JSON value is well formed. */
  lemma {:induction false} JsonIsWellFormed(v: Value)
    requires JsonValue(v)
    ensures WellFormed(v)
    decreases v
  {
    match v
    case Arr(items) =>
      forall i | 0 <= i < |items| ensures WellFormed(items[i]) {
        JsonIsWellFormed(items[i]);
      }
    case Obj(fields) =>
      forall i | 0 <= i < |fields| ensures WellFormed(fields[i].value) {
        JsonIsWellFormed(fields[i].value);
      }
    case _ =>
  }

  /** The JSON image of the properties keeps only names listed from `from` on. */
  lemma {:induction false} JsonFieldsKeys(fields: seq<Field>, from: nat)
    requires from <= |fields|
    ensures forall j :: 0 <= j < |JsonFields(fields, from)| ==> JsonFields(fields, from)[j].key in Keys(fields)[from..]
    decreases |fields| - from
  {
    if from < |fields| {
      JsonFieldsKeys(fields, from + 1);
      var rest := JsonFields(fields, from + 1);
      var r := JsonFields(fields, from);
      var c := JsonCopy(fields[from].value);
      assert Keys(fields)[from..] == [fields[from].key] + Keys(fields)[from + 1..];
      if c.Undefined? {
        assert r == rest;
      } else {
        assert r == [Field(fields[from].key, c)] + rest;
        KeysAmongCons(Field(fields[from].key, c), rest, Keys(fields)[from..]);
      }
    }
  }

  /** A property list whose names are all among `ks` keeps that with one more such property in front. */
  lemma KeysAmongCons(f: Field, rest: seq<Field>, ks: seq<string>)
    requires f.key in ks
    requires forall j :: 0 <= j < |rest| ==> rest[j].key in ks
    ensures forall j :: 0 <= j < |[f] + rest| ==> ([f] + rest)[j].key in ks
  {
    var r := [f] + rest;
    forall j | 0 <= j < |r|
      ensures r[j].key in ks
    {
      if j > 0 {
        assert r[j] == rest[j - 1];
      }
    }
  }

  /** The JSON image of an object that lists each name once lists each name once. */
  lemma {:induction false} JsonFieldsDistinct(fields: seq<Field>, from: nat)
    requires from <= |fields| && DistinctKeys(fields)
    ensures DistinctKeys(JsonFields(fields, from))
    decreases |fields| - from
  {
    if from < |fields| {
      JsonFieldsDistinct(fields, from + 1);
      var rest := JsonFields(fields, from + 1);
      var c := JsonCopy(fields[from].value);
      JsonFieldsStep(fields, from);
      if !c.Undefined? {
        JsonFieldsLater(fields, from);
        DistinctKeysCons(Field(fields[from].key, c), rest);
      }
    }
  }

  /** One step of the JSON image of the properties: the property at `from` is dropped or kept in front. */
  lemma JsonFieldsStep(fields: seq<Field>, from: nat)
    requires from < |fields|
    ensures var c := JsonCopy(fields[from].value);
      JsonFields(fields, from) == if c.Undefined? then JsonFields(fields, from + 1) else [Field(fields[from].key, c)] + JsonFields(fields, from + 1)
  {
    var rest := JsonFields(fields, from + 1);
    assert [] + rest == rest;
  }

  lemma DistinctKeysCons(f: Field, rest: seq<Field>)
    requires DistinctKeys(rest) && f.key !in Keys(rest)
    ensures DistinctKeys([f] + rest)
  {
    var names := Keys(rest);
    assert Keys([f] + rest) == [f.key] + names;
    var r := [f.key] + names;
    forall i, j | 0 <= i < j < |r| ensures r[i] != r[j] {
      assert r[j] == names[j - 1];
      if i > 0 {
        assert r[i] == names[i - 1];
      }
    }
  }

  /** The JSON image of a well-formed value is a JSON value, unless the value has no JSON text at all. */
  lemma {:induction false} JsonCopyIsJson(v: Value)
    requires WellFormed(v) && !v.Undefined? && !v.Fn?
    ensures JsonValue(JsonCopy(v))
    decreases v, 1
  {
    match v
    case Arr(items) =>
      var r := JsonCopy(v);
      forall i | 0 <= i < |items| ensures JsonValue(r.items[i]) {
        assert r.items[i] == Slot(JsonCopy(items[i]));
        if !items[i].Undefined? && !items[i].Fn? {
          JsonCopyIsJson(items[i]);
        }
      }
    case Obj(fields) =>
      JsonFieldsAreJson(fields, 0);
      JsonFieldsDistinct(fields, 0);
    case _ =>
  }

  lemma {:induction false} JsonFieldsAreJson(fields: seq<Field>, from: nat)
    requires from <= |fields|
    requires forall i :: 0 <= i < |fields| ==> WellFormed(fields[i].value)
    ensures forall j :: 0 <= j < |JsonFields(fields, from)| ==> JsonValue(JsonFields(fields, from)[j].value)
    decreases Obj(fields), 0, |fields| - from
  {
    if from < |fields| {
      JsonFieldsAreJson(fields, from + 1);
      var x := fields[from].value;
      if !x.Undefined? && !x.Fn? {
        JsonCopyIsJson(x);
      }
    }
  }

  /** `JSON.parse(JSON.stringify(v))` gives back every JSON value unchanged. */
  lemma {:induction false} JsonRoundTrip(v: Value)
    requires JsonValue(v)
    ensures JsonCopy(v) == v
    decreases v, 1
  {
    match v
    case Arr(items) =>
      var r := JsonCopy(v);
      forall i | 0 <= i < |items| ensures r.items[i] == items[i] {
        JsonRoundTrip(items[i]);
      }
    case Obj(fields) =>
      JsonFieldsRoundTrip(fields, 0);
      assert fields[0..] == fields;
    case _ =>
  }

  lemma {:induction false} JsonFieldsRoundTrip(fields: seq<Field>, from: nat)
    requires from <= |fields|
    requires forall i :: 0 <= i < |fields| ==> JsonValue(fields[i].value)
    ensures JsonFields(fields, from) == fields[from..]
    decreases Obj(fields), 0, |fields| - from
  {
    if from < |fields| {
      JsonFieldsRoundTrip(fields, from + 1);
      JsonRoundTrip(fields[from].value);
      SliceCons(fields, from);
    }
  }

  /** Writing a document's JSON image twice is writing it once. */
  lemma JsonCopyIdempotent(v: Value)
    requires WellFormed(v)
    ensures JsonCopy(JsonCopy(v)) == JsonCopy(v)
  {
    if !v.Undefined? && !v.Fn? {
      JsonCopyIsJson(v);
      JsonRoundTrip(JsonCopy(v));
    }
  }

  /** A suffix is its first element followed by the next suffix. */
  lemma SliceCons<T>(s: seq<T>, i: nat)
    requires i < |s|
    ensures s[i..] == [s[i]] + s[i + 1..]
  {
  }

  /** Reading a property of a list that starts with one given property. */
  lemma GetCons(f: Field, rest: seq<Field>, k: string)
    ensures Get([f] + rest, k) == if f.key == k then f.value else Get(rest, k)
  {
    assert ([f] + rest)[1..] == rest;
  }

  /** No name of the properties from `from + 1` on is the name at `from`, in an object that lists each name once. */
  lemma JsonFieldsLater(fields: seq<Field>, from: nat)
    requires from < |fields| && DistinctKeys(fields)
    ensures fields[from].key !in Keys(JsonFields(fields, from + 1))
  {
    JsonFieldsKeys(fields, from + 1);
    var rest := JsonFields(fields, from + 1);
    forall j | 0 <= j < |rest| ensures rest[j].key != fields[from].key {
      assert rest[j].key in Keys(fields)[from + 1..];
    }
  }

  /** Reading a property of the JSON image of an object is the JSON image of the property. */
  lemma {:induction false} GetJsonFields(fields: seq<Field>, from: nat, k: string)
    requires from <= |fields| && DistinctKeys(fields)
    ensures Get(JsonFields(fields, from), k) == JsonCopy(Get(fields[from..], k))
    decreases |fields| - from
  {
    if from < |fields| {
      var f := fields[from];
      var c := JsonCopy(f.value);
      var rest := JsonFields(fields, from + 1);
      GetJsonFields(fields, from + 1, k);
      SliceCons(fields, from);
      GetCons(f, fields[from + 1..], k);
      if c.Undefined? {
        assert JsonFields(fields, from) == rest;
        if f.key == k {
          JsonFieldsLater(fields, from);
        }
      } else {
        assert JsonFields(fields, from) == [Field(f.key, c)] + rest;
        GetCons(Field(f.key, c), rest, k);
      }
    }
  }

  // ---------------------------------------------------------------------------
  // The item operations.

  /** Writing a well-formed value keeps every stored document a JSON value. */
  lemma SetDataValid(st: Storage, key: string, v: Value)
    requires Valid(st) && WellFormed(v)
    ensures Valid(SetData(st, key, v))
  {
    if !v.Undefined? && !v.Fn? {
      JsonCopyIsJson(v);
    }
  }

  /** Assigning a well-formed value in a JSON document gives a well-formed document. */
  lemma AssignWellFormed(data: Value, key: string, value: Value)
    requires JsonValue(data) && WellFormed(value) && Assign(data, key, value).Success?
    ensures WellFormed(Assign(data, key, value).value)
  {
    JsonIsWellFormed(data);
    match data
    case Obj(fields) =>
      PutWellFormed(fields, key, value);
    case Arr(items) =>
      ArrayAssignWellFormed(items, key, value);
    case _ =>
  }

  lemma PutWellFormed(fields: seq<Field>, k: string, v: Value)
    requires WellFormed(Obj(fields)) && WellFormed(v)
    ensures WellFormed(Obj(Put(fields, k, v)))
  {
    var put := Put(fields, k, v);
    PutDistinct(fields, k, v);
    PutValues(fields, k, v);
    forall i | 0 <= i < |put| ensures WellFormed(put[i].value) {
      if put[i] != Field(k, v) {
        var j :| 0 <= j < |fields| && fields[j] == put[i];
      }
    }
  }

  lemma ArrayAssignWellFormed(items: seq<Value>, key: string, value: Value)
    requires WellFormed(Arr(items)) && WellFormed(value) && Assign(Arr(items), key, value).Success?
    ensures WellFormed(Assign(Arr(items), key, value).value)
  {
    var r := Assign(Arr(items), key, value).value;
    if key == "length" {
      var n := ArrayLength(value).value;
      if n <= |items| {
        assert r.items == items[..n];
      } else {
        assert r.items == items + Holes(n - |items|);
        assert forall j :: |items| <= j < |r.items| ==> r.items[j] == Undefined;
      }
    } else if ParseIndex(key).Some? {
      var i := ParseIndex(key).value;
      if i < |items| {
        assert r.items == items[i := value];
      } else {
        var grown := items + Holes(i - |items|) + [value];
        assert r.items == grown;
        assert forall j :: |items| <= j < i ==> grown[j] == Undefined;
      }
    }
  }

  /** Every property of an assignment's result is the assigned one or an old one. */
  lemma {:induction false} PutValues(fields: seq<Field>, k: string, v: Value)
    ensures forall i :: 0 <= i < |Put(fields, k, v)| ==> Put(fields, k, v)[i] == Field(k, v) || Put(fields, k, v)[i] in fields
  {
    var r := Put(fields, k, v);
    if |fields| > 0 && fields[0].key != k {
      var rest := Put(fields[1..], k, v);
      PutValues(fields[1..], k, v);
      assert r == [fields[0]] + rest;
      forall i | 0 <= i < |r|
        ensures r[i] == Field(k, v) || r[i] in fields
      {
        if i > 0 && rest[i - 1] != Field(k, v) {
          assert r[i] == rest[i - 1];
          var j :| 0 <= j < |fields[1..]| && fields[1..][j] == rest[i - 1];
          assert fields[j + 1] == r[i];
        }
      }
    } else if |fields| > 0 {
      assert r == [Field(k, v)] + fields[1..];
      forall i | 0 <= i < |r|
        ensures r[i] == Field(k, v) || r[i] in fields
      {
        if i > 0 {
          assert r[i] == fields[i];
        }
      }
    }
  }

  /** `setItem` and `removeItem` keep every stored document a JSON value. */
  lemma SetItemValid(st: Storage, key: string, itemKey: Value, itemValue: Value)
    requires Valid(st) && WellFormed(itemValue)
    requires SetItem(st, key, itemKey, itemValue).Success?
    ensures Valid(SetItem(st, key, itemKey, itemValue).value)
  {
    var data := GetData(st, key).value;
    AssignWellFormed(data, ToText(itemKey), itemValue);
    SetDataValid(st, key, Assign(data, ToText(itemKey), itemValue).value);
  }

  /** Without a stored document, `getItem` and `setItem` both throw a `TypeError`. */
  lemma NothingStored(st: Storage, key: string, itemKey: Value, itemValue: Value)
    requires key !in st || st[key] == Stored(Null)
    ensures GetItem(st, key, itemKey) == Failure(TypeError)
    ensures SetItem(st, key, itemKey, itemValue) == Failure(TypeError)
  {
  }

  /** `getItem` on a stored object reads the object's property. */
  lemma GetItemObj(st: Storage, key: string, fields: seq<Field>, itemKey: Value)
    requires key in st && st[key] == Stored(Obj(fields))
    ensures GetItem(st, key, itemKey) == Success(Get(fields, ToText(itemKey)))
  {
    assert GetData(st, key) == Success(Obj(fields));
  }

  /** `setItem` on a stored object writes back the JSON image of the object with the property assigned. */
  lemma SetItemObj(st: Storage, key: string, fields: seq<Field>, itemKey: Value, itemValue: Value)
    requires key in st && st[key] == Stored(Obj(fields))
    ensures SetItem(st, key, itemKey, itemValue)
         == Success(st[key := Stored(Obj(JsonFields(Put(fields, ToText(itemKey), itemValue), 0)))])
  {
    var put := Put(fields, ToText(itemKey), itemValue);
    assert GetData(st, key) == Success(Obj(fields));
    assert Assign(Obj(fields), ToText(itemKey), itemValue) == Success(Obj(put));
    assert Encode(Obj(put)) == Stored(Obj(JsonFields(put, 0)));
  }

  /** A property written into a stored object reads back as its JSON image. */
  lemma SetThenGetItem(st: Storage, key: string, fields: seq<Field>, itemKey: Value, itemValue: Value)
    requires key in st && st[key] == Stored(Obj(fields)) && DistinctKeys(fields)
    ensures SetItem(st, key, itemKey, itemValue).Success?
    ensures GetItem(SetItem(st, key, itemKey, itemValue).value, key, itemKey) == Success(JsonCopy(itemValue))
  {
    var k := ToText(itemKey);
    var put := Put(fields, k, itemValue);
    SetItemObj(st, key, fields, itemKey, itemValue);
    PutDistinct(fields, k, itemValue);
    GetJsonFields(put, 0, k);
    assert put[0..] == put;
    GetItemObj(SetItem(st, key, itemKey, itemValue).value, key, JsonFields(put, 0), itemKey);
  }

  /** A property of a JSON object reads as a JSON value or as `undefined`. */
  lemma GetJson(fields: seq<Field>, k: string)
    requires JsonValue(Obj(fields))
    ensures JsonCopy(Get(fields, k)) == Get(fields, k)
  {
    if k in Keys(fields) {
      var i :| 0 <= i < |fields| && fields[i].key == k by {
        assert k in Keys(fields);
      }
      JsonRoundTrip(fields[i].value);
    }
  }

  /** Writing one property of a stored object leaves every other property as it read before. */
  lemma SetItemOthers(st: Storage, key: string, fields: seq<Field>, itemKey: Value, itemValue: Value, other: Value)
    requires Valid(st) && key in st && st[key] == Stored(Obj(fields))
    requires ToText(other) != ToText(itemKey)
    ensures SetItem(st, key, itemKey, itemValue).Success?
    ensures GetItem(SetItem(st, key, itemKey, itemValue).value, key, other) == GetItem(st, key, other)
  {
    var k, o := ToText(itemKey), ToText(other);
    var put := Put(fields, k, itemValue);
    assert JsonValue(Obj(fields));
    SetItemObj(st, key, fields, itemKey, itemValue);
    PutDistinct(fields, k, itemValue);
    GetJsonFields(put, 0, o);
    assert put[0..] == put;
    GetJson(fields, o);
    GetItemObj(st, key, fields, other);
    GetItemObj(SetItem(st, key, itemKey, itemValue).value, key, JsonFields(put, 0), other);
  }

  /** After `removeItem` the property reads as `undefined` and is no longer among the document's properties. */
  lemma RemoveThenGetItem(st: Storage, key: string, fields: seq<Field>, itemKey: Value)
    requires key in st && st[key] == Stored(Obj(fields)) && DistinctKeys(fields)
    ensures RemoveItem(st, key, itemKey).Success?
    ensures GetItem(RemoveItem(st, key, itemKey).value, key, itemKey) == Success(Undefined)
    ensures var st' := RemoveItem(st, key, itemKey).value;
      st'[key].Stored? && st'[key].data.Obj? && ToText(itemKey) !in Keys(st'[key].data.fields)
  {
    SetThenGetItem(st, key, fields, itemKey, Undefined);
    var k := ToText(itemKey);
    var put := Put(fields, k, Undefined);
    var stored := JsonFields(put, 0);
    PutDistinct(fields, k, Undefined);
    JsonFieldsDistinct(put, 0);
    var st' := RemoveItem(st, key, itemKey).value;
    GetItemObj(st', key, stored, itemKey);
    assert Get(stored, k) == Undefined;
    forall j | 0 <= j < |stored| ensures stored[j].key != k {
      assert Get(stored, stored[j].key) == stored[j].value;
    }
  }

  /** An element written at an index of a stored array reads back as its JSON image, `null` when it has none. */
  lemma SetThenGetIndex(st: Storage, key: string, items: seq<Value>, index: nat, itemValue: Value)
    requires key in st && st[key] == Stored(Arr(items))
    requires index < MaxArrayLength
    ensures SetItem(st, key, Num(index), itemValue).Success?
    ensures GetItem(SetItem(st, key, Num(index), itemValue).value, key, Num(index)) == Success(Slot(JsonCopy(itemValue)))
  {
    var k := ToText(Num(index));
    assert k == NatText(index);
    ParseNatText(index);
    var items' := if index < |items| then items[index := itemValue] else items + Holes(index - |items|) + [itemValue];
    assert items'[index] == itemValue;
    assert Assign(Arr(items), k, itemValue) == Success(Arr(items'));
    var st' := SetData(st, key, Arr(items'));
    assert SetItem(st, key, Num(index), itemValue) == Success(st');
    var c := JsonCopy(Arr(items'));
    assert st'[key] == Stored(c);
    assert c.items[index] == Slot(JsonCopy(itemValue));
  }
}
