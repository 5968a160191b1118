/**
  The application registry `app(config)`: node families (named groups of functions),
  schemas (named lists of families), and the configuration object the application was
  created with. Every query and update is a pure function over `Registry`.

  Property names are the strings JavaScript converts keys to (`Key`); a family or node
  name may be any value.
 */
module Registry {
  import opened Wrappers
  import opened JsValue
  import opened Markup

  /** The application: its configuration, its node families and its schemas. */
  datatype Registry = Registry(config: Value, nodes: map<string, map<string, Value>>,
                               schemas: map<string, seq<Value>>)

  /** The error object `app` returns for a global application without a name. */
  datatype AppError = GlobalWithoutName

  /** A local application is handed back; a global one is installed under its name and `app` returns `undefined`. */
  datatype Created = Local(registry: Registry) | Installed(name: string, registry: Registry)

  /** The invocation `callNode` makes: the node function and the argument it passes. */
  datatype NodeCall = NodeCall(node: Value, params: Value)

  /** `getNodes`: one family's nodes, or the whole family table. */
  datatype NodesView = Family(members: map<string, Value>) | All(families: map<string, map<string, Value>>)

  /** The object `configure` returns: it adds nodes to one family. */
  datatype Builder = Builder(family: string)

  /** The property name a value stands for. */
  function Key(v: Value): string {
    ToText(v)
  }

  /** The schemas every application starts with. */
  function BuiltinSchemas(): (r: map<string, seq<Value>>)
    ensures r.Keys == {"default", "app"}
  {
    map["default" := [Str("events"), Str("renderers"), Str("actions")],
        "app" := [Str("events"), Str("actions"), Str("common"), Str("modules"), Str("core")]]
  }

  /** `typeof config === "object" && config !== null`. */
  predicate HasConfig(config: Value) {
    config.Obj? || config.Arr?
  }

  /** A property read that yields `undefined` where the library would throw. */
  function Read(v: Value, key: string): Value {
    match Member(v, key)
    case Some(x) => x
    case None => Undefined
  }

  /** `config.global` when it is a boolean, and only when there is a configuration object. */
  predicate IsGlobal(config: Value) {
    HasConfig(config) && Read(config, "global") == Bool(true)
  }

  /** The registry a new application starts from: `config || {}`, no families, the builtin schemas. */
  function Initial(config: Value): (r: Registry)
    ensures r.nodes == map[] && r.schemas == BuiltinSchemas()
    ensures Truthy(r.config)
  {
    Registry(if Truthy(config) then config else Obj([]), map[], BuiltinSchemas())
  }

  /**
    `app(config)`: a global application needs a truthy `name`; a global one is installed
    under that name, any other is returned to the caller.
   */
  function App(config: Value): (r: Result<Created, AppError>)
    ensures r.Failure? <==> IsGlobal(config) && !Truthy(Read(config, "name"))
    ensures r.Success? ==> r.value.registry == Initial(config)
    ensures r.Success? ==> (r.value.Installed? <==> IsGlobal(config))
    ensures r.Success? && r.value.Installed? ==> r.value.name == Key(Read(config, "name"))
  {
    if IsGlobal(config) && !Truthy(Read(config, "name")) then Failure(GlobalWithoutName)
    else if IsGlobal(config) then Success(Installed(Key(Read(config, "name")), Initial(config)))
    else Success(Local(Initial(config)))
  }

  /** The family names `augment` adds: each element of an array, or the one value as a string. */
  function FamilyNames(family: Value): (r: seq<string>)
    ensures family.Arr? ==> |r| == |family.items| && forall i :: 0 <= i < |r| ==> r[i] == Key(family.items[i])
    ensures !family.Arr? ==> r == [Key(family)]
  {
    if family.Arr? then seq(|family.items|, i requires 0 <= i < |family.items| => Key(family.items[i]))
    else [Key(family)]
  }

  /** Adds an empty family for every listed name not yet present. */
  function AddFamilies(nodes: map<string, map<string, Value>>, fs: seq<string>): (r: map<string, map<string, Value>>)
    ensures r.Keys == nodes.Keys + NameSet(fs)
    ensures forall f :: f in nodes ==> r[f] == nodes[f]
    ensures forall f :: f in r && f !in nodes ==> r[f] == map[]
    decreases |fs|
  {
    if |fs| == 0 then nodes
    else
      var next := if fs[0] in nodes then nodes else nodes[fs[0] := map[]];
      var r := AddFamilies(next, fs[1..]);
      assert NameSet(fs) == {fs[0]} + NameSet(fs[1..]);
      r
  }

  /** `augment(nodeFamily)`: makes sure every named family exists; existing families are kept as they are. */
  function Augment(r: Registry, family: Value): (r': Registry)
    ensures r'.config == r.config && r'.schemas == r.schemas
    ensures r'.nodes.Keys == r.nodes.Keys + NameSet(FamilyNames(family))
    ensures forall f :: f in r.nodes ==> r'.nodes[f] == r.nodes[f]
    ensures forall f :: f in r'.nodes && f !in r.nodes ==> r'.nodes[f] == map[]
  {
    r.(nodes := AddFamilies(r.nodes, FamilyNames(family)))
  }

  /** `addSchema(name, schema)`: registers an array under a new name; an existing name or a non-array is ignored. */
  function AddSchema(r: Registry, name: Value, schema: Value): (r': Registry)
    ensures r'.config == r.config && r'.nodes == r.nodes
    ensures forall s :: s in r.schemas ==> s in r'.schemas && r'.schemas[s] == r.schemas[s]
    ensures r'.schemas.Keys <= r.schemas.Keys + {Key(name)}
    ensures Key(name) in r'.schemas <==> Key(name) in r.schemas || schema.Arr?
    ensures Key(name) !in r.schemas && schema.Arr? ==> r'.schemas[Key(name)] == schema.items
  {
    if Key(name) !in r.schemas && schema.Arr? then r.(schemas := r.schemas[Key(name) := schema.items])
    else r
  }

  /** `schema(name)`: augments with the families a known schema lists; an unknown name changes nothing. */
  function Schema(r: Registry, name: Value): (r': Registry)
    ensures Key(name) !in r.schemas ==> r' == r
    ensures Key(name) in r.schemas ==> r' == Augment(r, Arr(r.schemas[Key(name)]))
  {
    if Key(name) in r.schemas then Augment(r, Arr(r.schemas[Key(name)])) else r
  }

  /**
    `addNode(family, name, func)`: registers a function in an existing family under a
    name the family does not hold yet; anything else leaves the registry as it was.
   */
  function AddNode(r: Registry, family: Value, name: Value, func: Value): (r': Registry)
    ensures r'.config == r.config && r'.schemas == r.schemas && r'.nodes.Keys == r.nodes.Keys
    ensures forall f, n :: f in r.nodes && n in r.nodes[f] ==> n in r'.nodes[f] && r'.nodes[f][n] == r.nodes[f][n]
    ensures r' != r <==> Key(family) in r.nodes && Key(name) !in r.nodes[Key(family)] && func.Fn?
    ensures r' != r ==> r'.nodes[Key(family)] == r.nodes[Key(family)][Key(name) := func]
  {
    var f, n := Key(family), Key(name);
    if f in r.nodes && n !in r.nodes[f] && func.Fn? then
      var r' := r.(nodes := r.nodes[f := r.nodes[f][n := func]]);
      assert n in r'.nodes[f];
      r'
    else r
  }

  /** `getNode(family, name)`: the registered function, or `false`. */
  function GetNode(r: Registry, family: Value, name: Value): (v: Value)
    ensures v.Fn? || v == Bool(false)
    ensures v.Fn? <==> Key(family) in r.nodes && Key(name) in r.nodes[Key(family)] && r.nodes[Key(family)][Key(name)].Fn?
    ensures v.Fn? ==> v == r.nodes[Key(family)][Key(name)]
  {
    Lookup(r.nodes, Key(family), Key(name))
  }

  /** The function registered under `n` in family `f`, or `false`. */
  function Lookup(nodes: map<string, map<string, Value>>, f: string, n: string): Value {
    if f in nodes && n in nodes[f] && nodes[f][n].Fn? then nodes[f][n] else Bool(false)
  }

  /** Registering under `nk` in family `fk` changes no lookup of another family or name. */
  lemma LookupAfterAdd(nodes: map<string, map<string, Value>>, fk: string, nk: string, func: Value, f: string, n: string)
    requires fk in nodes && (f != fk || n != nk)
    ensures Lookup(nodes[fk := nodes[fk][nk := func]], f, n) == Lookup(nodes, f, n)
  {
  }

  /** `nodeExists(family, name)`. */
  predicate NodeExists(r: Registry, family: Value, name: Value) {
    GetNode(r, family, name).Fn?
  }

  /** `callNode(family, name, params)`: calls a registered node with `params`, or `{}` when they are missing. */
  function CallNode(r: Registry, family: Value, name: Value, params: Value): (c: Option<NodeCall>)
    ensures c.Some? <==> NodeExists(r, family, name)
    ensures c.Some? ==> c.value.node == GetNode(r, family, name)
    ensures c.Some? ==> c.value.params == if params.Undefined? then Obj([]) else params
  {
    var node := GetNode(r, family, name);
    if Truthy(node) then Some(NodeCall(node, if params.Undefined? then Obj([]) else params)) else None
  }

  /** `getNodes(family)`: the family's nodes when the name is truthy and known, otherwise every family. */
  function GetNodes(r: Registry, family: Value): (v: NodesView)
    ensures v.Family? <==> Truthy(family) && Key(family) in r.nodes
    ensures v.Family? ==> v.members == r.nodes[Key(family)]
    ensures v.All? ==> v.families == r.nodes
  {
    if Truthy(family) && Key(family) in r.nodes then Family(r.nodes[Key(family)]) else All(r.nodes)
  }

  /** `configure(family)`: a builder for an existing family, or `false`. */
  function Configure(r: Registry, family: Value): (b: Option<Builder>)
    ensures b.Some? <==> Key(family) in r.nodes
    ensures b.Some? ==> b.value.family == Key(family)
  {
    if Key(family) in r.nodes then Some(Builder(Key(family))) else None
  }

  /** The builder's `node(name, func)`: `addNode` on the builder's family. */
  function BuilderNode(r: Registry, b: Builder, name: Value, func: Value): Registry {
    AddNode(r, Str(b.family), name, func)
  }

  /** `hasOwnProperty(key)` on a configuration value. */
  predicate HasOwn(v: Value, key: string) {
    key in Keys(OwnFields(v)) || ((v.Arr? || v.Str?) && key == "length")
  }

  /** `getConfig(name)`: the configuration's own property, or `false`. */
  function GetConfig(r: Registry, name: Value): (v: Value)
    ensures !HasOwn(r.config, Key(name)) ==> v == Bool(false)
    ensures r.config.Obj? && HasOwn(r.config, Key(name)) ==> v == Get(r.config.fields, Key(name))
  {
    if HasOwn(r.config, Key(name)) then Read(r.config, Key(name)) else Bool(false)
  }

  /** Every registered node is a function. */
  predicate Valid(r: Registry) {
    forall f, n :: f in r.nodes && n in r.nodes[f] ==> r.nodes[f][n].Fn?
  }

  /** A fresh application is valid. */
  lemma InitialValid(config: Value)
    ensures Valid(Initial(config))
  {
  }

  /** `augment` adds only empty families, so the registry stays valid. */
  lemma AugmentValid(r: Registry, family: Value)
    requires Valid(r)
    ensures Valid(Augment(r, family))
  {
    var aug := Augment(r, family);
    forall f, n | f in aug.nodes && n in aug.nodes[f] ensures aug.nodes[f][n].Fn? {
      assert aug.nodes[f] == if f in r.nodes then r.nodes[f] else map[];
    }
  }

  /** `schema` is `augment` or nothing, so the registry stays valid. */
  lemma SchemaValid(r: Registry, name: Value)
    requires Valid(r)
    ensures Valid(Schema(r, name))
  {
    if Key(name) in r.schemas {
      AugmentValid(r, Arr(r.schemas[Key(name)]));
    }
  }

  /** `addNode` stores only functions, so the registry stays valid. */
  lemma AddNodeValid(r: Registry, family: Value, name: Value, func: Value)
    requires Valid(r)
    ensures Valid(AddNode(r, family, name, func))
  {
    var add := AddNode(r, family, name, func);
    if add != r {
      forall f, n | f in add.nodes && n in add.nodes[f] ensures add.nodes[f][n].Fn? {
        if f == Key(family) && n == Key(name) {
        } else if f == Key(family) {
          assert add.nodes[f] == r.nodes[f][Key(name) := func];
        } else {
          assert add.nodes[f] == r.nodes[f];
        }
      }
    }
  }

  /** In a valid registry a node exists exactly when its name is registered in its family. */
  lemma NodeExistsIff(r: Registry, family: Value, name: Value)
    requires Valid(r)
    ensures NodeExists(r, family, name) <==> Key(family) in r.nodes && Key(name) in r.nodes[Key(family)]
  {
  }

  /** A function added under a fresh name in an existing family is what `getNode` then returns. */
  lemma AddThenGet(r: Registry, family: Value, name: Value, func: Value)
    requires Key(family) in r.nodes && Key(name) !in r.nodes[Key(family)] && func.Fn?
    ensures GetNode(AddNode(r, family, name, func), family, name) == func
  {
  }

  /** The first registration wins: adding under a name that exists leaves the node as it was. */
  lemma FirstAddWins(r: Registry, family: Value, name: Value, func: Value)
    requires NodeExists(r, family, name)
    ensures AddNode(r, family, name, func) == r
  {
  }

  /** Adding one node leaves every other lookup as it was. */
  lemma AddNodeOthers(r: Registry, family: Value, name: Value, func: Value, f: Value, n: Value)
    requires Key(f) != Key(family) || Key(n) != Key(name)
    ensures GetNode(AddNode(r, family, name, func), f, n) == GetNode(r, f, n)
  {
    var fk, nk := Key(family), Key(name);
    if fk in r.nodes && nk !in r.nodes[fk] && func.Fn? {
      var r' := AddNode(r, family, name, func);
      assert r'.nodes == r.nodes[fk := r.nodes[fk][nk := func]];
      LookupAfterAdd(r.nodes, fk, nk, func, Key(f), Key(n));
    }
  }

  /** `augment` twice with the same families is `augment` once. */
  lemma AugmentIdempotent(r: Registry, family: Value)
    ensures Augment(Augment(r, family), family) == Augment(r, family)
  {
    var once := Augment(r, family);
    var twice := Augment(once, family);
    assert twice.nodes.Keys == once.nodes.Keys;
    forall f | f in twice.nodes ensures twice.nodes[f] == once.nodes[f] {
    }
  }

  /** `augment` removes no node: every lookup that succeeded still succeeds with the same function. */
  lemma AugmentKeepsNodes(r: Registry, a: Value, family: Value, name: Value)
    requires NodeExists(r, family, name)
    ensures GetNode(Augment(r, a), family, name) == GetNode(r, family, name)
  {
  }

  /** Once a family is augmented, a function can be registered in it and looked up. */
  lemma AugmentThenAdd(r: Registry, family: Value, name: Value, func: Value)
    requires !family.Arr? && func.Fn?
    requires Key(family) !in r.nodes
    ensures GetNode(AddNode(Augment(r, family), family, name, func), family, name) == func
  {
    var aug := Augment(r, family);
    assert NameSet(FamilyNames(family)) == {Key(family)};
    assert aug.nodes[Key(family)] == map[];
    AddThenGet(aug, family, name, func);
  }

  /** `configure` hands back a builder exactly for the existing families, and its `node` is `addNode`. */
  lemma ConfigureNode(r: Registry, family: Value, name: Value, func: Value)
    requires Configure(r, family).Some?
    ensures BuilderNode(r, Configure(r, family).value, name, func) == AddNode(r, family, name, func)
  {
  }

  /** The family names the builtin `app` schema lists. */
  lemma AppFamilyNames()
    ensures FamilyNames(Arr(BuiltinSchemas()["app"])) == ["events", "actions", "common", "modules", "core"]
  {
    var names := FamilyNames(Arr(BuiltinSchemas()["app"]));
    assert |names| == 5;
    assert names[0] == "events" && names[1] == "actions" && names[2] == "common";
    assert names[3] == "modules" && names[4] == "core";
  }

  /** On a registry without families, `augment` creates exactly the named families, all empty. */
  lemma AugmentFresh(r: Registry, family: Value)
    requires r.nodes == map[]
    ensures Augment(r, family).nodes.Keys == NameSet(FamilyNames(family))
    ensures forall f :: f in Augment(r, family).nodes ==> Augment(r, family).nodes[f] == map[]
  {
  }

  /** The `app` schema on a fresh application creates exactly its five families, all empty. */
  lemma AppSchemaFamilies(config: Value)
    ensures var r := Schema(Initial(config), Str("app"));
      && r.nodes.Keys == {"events", "actions", "common", "modules", "core"}
      && forall f :: f in r.nodes ==> r.nodes[f] == map[]
  {
    var r0 := Initial(config);
    var family := Arr(BuiltinSchemas()["app"]);
    assert Key(Str("app")) == "app";
    assert Schema(r0, Str("app")) == Augment(r0, family);
    AugmentFresh(r0, family);
    AppFamilyNames();
    FiveNames("events", "actions", "common", "modules", "core");
  }

  lemma FiveNames(a: string, b: string, c: string, d: string, e: string)
    ensures NameSet([a, b, c, d, e]) == {a, b, c, d, e}
  {
    var names := [a, b, c, d, e];
    assert names[0] == a && names[1] == b && names[2] == c && names[3] == d && names[4] == e;
  }

  /** A schema, once registered, is never replaced. */
  lemma SchemaStays(r: Registry, name: Value, schema: Value, other: Value)
    requires Key(name) in r.schemas
    ensures AddSchema(r, name, other).schemas[Key(name)] == r.schemas[Key(name)]
  {
  }
}
