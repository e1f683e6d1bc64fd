/**
  * The two passes over the OpenAPI document: every operation gets the error responses its route declares, then only
  * the component schemas some operation reaches are kept. References between schemas may be cyclic.
  */
module OpenApi {
  import opened Text
  import opened Reachability
  import Sorting

  datatype Json =
    | Null | Bool(b: bool) | Num(n: int) | Str(s: string)
    | Arr(items: seq<Json>) | Obj(fields: map<string, Json>)

  const COMPONENT_SCHEMA_REF: string := "#/components/schemas/"
  const OPERATION_METHODS: seq<string> := ["get", "put", "post", "delete", "options", "head", "patch", "trace"]
  const OAUTH_SCHEMA: string := "OAuthError"
  const PROBLEM_SCHEMA: string := "Problem"

  // ---------------------------------------------------------------- references

  predicate IsReference(key: string, value: Json)
  {
    key == "$ref" && value.Str? && COMPONENT_SCHEMA_REF <= value.s
  }

  /** The schema names a value refers to, anywhere in it. */
  function Refs(node: Json): (r: set<string>)
    decreases node, 0
  {
    match node
    case Arr(items) => set i, n | 0 <= i < |items| && n in Refs(items[i]) :: n
    case Obj(fields) => set k, n | k in fields && n in FieldRefs(fields, k) :: n
    case _ => {}
  }

  function FieldRefs(fields: map<string, Json>, key: string): (r: set<string>)
    requires key in fields
    decreases fields[key], 1
  {
    if IsReference(key, fields[key]) then {fields[key].s[|COMPONENT_SCHEMA_REF|..]} else Refs(fields[key])
  }

  ghost function SchemaGraph(schemas: map<string, Json>): (g: Graph<string>)
  {
    map n | n in schemas :: Refs(schemas[n])
  }

  ghost function ItemRefs(items: seq<Json>, i: nat): (r: set<string>)
    requires i <= |items|
  {
    set j, n | 0 <= j < i && n in Refs(items[j]) :: n
  }

  ghost function KeyRefs(fields: map<string, Json>, keys: set<string>): (r: set<string>)
    requires keys <= fields.Keys
  {
    set k, n | k in keys && n in FieldRefs(fields, k) :: n
  }

  lemma NoRefs(node: Json)
    ensures node.Arr? ==> ItemRefs(node.items, 0) == {}
    ensures node.Obj? ==> KeyRefs(node.fields, {}) == {}
  {
  }

  lemma ItemsStep(items: seq<Json>, i: nat)
    requires i < |items|
    ensures ItemRefs(items, i + 1) == ItemRefs(items, i) + Refs(items[i])
  {
    hide Refs;
    forall n ensures n in ItemRefs(items, i + 1) <==> n in ItemRefs(items, i) || n in Refs(items[i]) {
    }
  }

  lemma KeysStep(fields: map<string, Json>, keys: set<string>, key: string)
    requires keys <= fields.Keys && key in fields
    ensures KeyRefs(fields, keys + {key}) == KeyRefs(fields, keys) + FieldRefs(fields, key)
  {
    hide FieldRefs;
    forall n ensures n in KeyRefs(fields, keys + {key}) <==> n in KeyRefs(fields, keys) || n in FieldRefs(fields, key) {
    }
  }

  lemma AllItems(node: Json)
    requires node.Arr?
    ensures ItemRefs(node.items, |node.items|) == Refs(node)
  {
    forall n ensures n in ItemRefs(node.items, |node.items|) <==> n in Refs(node) {
    }
  }

  lemma AllKeys(node: Json)
    requires node.Obj?
    ensures KeyRefs(node.fields, node.fields.Keys) == Refs(node)
  {
    hide FieldRefs;
    forall n ensures n in KeyRefs(node.fields, node.fields.Keys) <==> n in Refs(node) {
    }
  }

  /** The names the search has found. */
  class Search {
    const schemas: map<string, Json>
    var referenced: set<string>

    constructor (known: map<string, Json>)
      ensures schemas == known && referenced == {}
    {
      schemas, referenced := known, {};
    }

    /** Finds every schema `node` reaches that was not found before. */
    method Visit(node: Json)
      modifies this`referenced
      ensures Grown(SchemaGraph(schemas), old(referenced), Refs(node), referenced)
      decreases schemas.Keys - referenced, node, 2
    {
      match node {
        case Arr(items) => VisitItems(node);
        case Obj(fields) => VisitFields(node);
        case _ => GrownNothing(SchemaGraph(schemas), referenced, {});
      }
    }

    method VisitItems(node: Json)
      requires node.Arr?
      modifies this`referenced
      ensures Grown(SchemaGraph(schemas), old(referenced), Refs(node), referenced)
      decreases schemas.Keys - referenced, node, 1
    {
      hide Grown, Refs, ItemRefs, SchemaGraph;
      NoRefs(node);
      var items := node.items;
      ghost var g, done := SchemaGraph(schemas), {};
      GrownNothing(g, referenced, {});
      var i := 0;
      while i < |items|
        invariant 0 <= i <= |items|
        invariant done == ItemRefs(items, i)
        invariant old(referenced) <= referenced
        invariant Grown(g, old(referenced), done, referenced)
      {
        ghost var before := referenced;
        Visit(items[i]);
        GrownTwice(g, old(referenced), done, before, Refs(items[i]), referenced);
        GrownContains(g, before, Refs(items[i]), referenced);
        ItemsStep(items, i);
        done := done + Refs(items[i]);
        i := i + 1;
      }
      assert done == Refs(node) by { AllItems(node); }
    }

    method VisitFields(node: Json)
      requires node.Obj?
      modifies this`referenced
      ensures Grown(SchemaGraph(schemas), old(referenced), Refs(node), referenced)
      decreases schemas.Keys - referenced, node, 1
    {
      hide Grown, Refs, KeyRefs, SchemaGraph;
      NoRefs(node);
      assert node.fields.Keys - node.fields.Keys == {};
      var fields := node.fields;
      ghost var g, done := SchemaGraph(schemas), {};
      GrownNothing(g, referenced, {});
      var keys := fields.Keys;
      while keys != {}
        invariant keys <= fields.Keys
        invariant done == KeyRefs(fields, fields.Keys - keys)
        invariant old(referenced) <= referenced
        invariant Grown(g, old(referenced), done, referenced)
        decreases |keys|
      {
        var key :| key in keys;
        ghost var before := referenced;
        if IsReference(key, fields[key]) {
          Follow(fields[key].s[|COMPONENT_SCHEMA_REF|..], node);
        } else {
          Visit(fields[key]);
        }
        GrownTwice(g, old(referenced), done, before, FieldRefs(fields, key), referenced);
        GrownContains(g, before, FieldRefs(fields, key), referenced);
        KeysStep(fields, fields.Keys - keys, key);
        assert fields.Keys - (keys - {key}) == fields.Keys - keys + {key};
        done := done + FieldRefs(fields, key);
        keys := keys - {key};
      }
      assert fields.Keys - keys == fields.Keys;
      assert done == Refs(node) by { AllKeys(node); }
    }

    /** A reference, followed once. */
    method Follow(name: string, ghost node: Json)
      modifies this`referenced
      ensures Grown(SchemaGraph(schemas), old(referenced), {name}, referenced)
      decreases schemas.Keys - referenced, node, 0
    {
      hide Grown;
      ghost var g := SchemaGraph(schemas);
      if name in referenced {
        GrownNothing(g, referenced, {name});
      } else {
        referenced := referenced + {name};
        if name in schemas {
          Visit(schemas[name]);
        } else {
          GrownNothing(g, referenced, {});
        }
        GrownNode(g, old(referenced), name, referenced);
      }
    }
  }

  // ---------------------------------------------------------------- the document

  /** An operation: what the route transform left on it, its responses, and everything else it holds. */
  datatype Operation = Operation(
    statuses: Option<seq<nat>>, format: Option<string>, responses: Option<map<string, Json>>, rest: map<string, Json>)

  datatype PathItem = PathItem(operations: map<string, Operation>, rest: map<string, Json>)

  function Numbers(ns: seq<nat>): (r: seq<Json>)
    ensures |r| == |ns| && forall i :: 0 <= i < |ns| ==> r[i] == Num(ns[i])
  {
    if ns == [] then [] else [Num(ns[0])] + Numbers(ns[1..])
  }

  function OperationJson(op: Operation): (r: Json)
  {
    Obj(op.rest
        + (if op.statuses.Some? then map["x-qauth-error-statuses" := Arr(Numbers(op.statuses.value))] else map[])
        + (if op.format.Some? then map["x-qauth-error-format" := Str(op.format.value)] else map[])
        + (if op.responses.Some? then map["responses" := Obj(op.responses.value)] else map[]))
  }

  function PathItemJson(item: PathItem): (r: Json)
  {
    Obj(item.rest + map m | m in item.operations :: OperationJson(item.operations[m]))
  }

  function PathsJson(paths: map<string, PathItem>): (r: Json)
  {
    Obj(map p | p in paths :: PathItemJson(paths[p]))
  }

  /** `String(n)` of a non-negative integer. */
  function Decimal(n: nat): (s: string)
    ensures s != "" && (|s| == 1 <==> n < 10)
  {
    if n < 10 then ['0' + n as char] else Decimal(n / 10) + ['0' + (n % 10) as char]
  }

  /** The response an operation gets for an error status; `title` is the status phrase table. */
  function ErrorResponse(status: nat, oauth: bool, title: nat -> string): (r: Json)
  {
    var media := if oauth then "application/json" else "application/problem+json";
    var schema := if oauth then OAUTH_SCHEMA else PROBLEM_SCHEMA;
    Obj(map["description" := Str(title(status)),
            "content" := Obj(map[media := Obj(map["schema" := Obj(map["$ref" := Str(COMPONENT_SCHEMA_REF + schema)])])])])
  }

  /** The responses with an entry added for each status that has none. */
  function WithErrors(responses: map<string, Json>, statuses: seq<nat>, oauth: bool, title: nat -> string): (r: map<string, Json>)
    decreases |statuses|
  {
    if statuses == [] then responses
    else
      var key := Decimal(statuses[0]);
      WithErrors(if key in responses then responses else responses[key := ErrorResponse(statuses[0], oauth, title)],
                 statuses[1..], oauth, title)
  }

  function Documented(op: Operation, title: nat -> string): (r: Operation)
  {
    var statuses := if op.statuses.Some? then op.statuses.value else [];
    var responses := if op.responses.Some? then op.responses.value else map[];
    Operation(None, None, Some(WithErrors(responses, statuses, op.format == Some("oauth"), title)), op.rest)
  }

  /** A path item with the operations of `methods` documented. */
  function DocumentedItem(item: PathItem, methods: set<string>, title: nat -> string): (r: PathItem)
  {
    item.(operations := map m | m in item.operations ::
      if m in methods then Documented(item.operations[m], title) else item.operations[m])
  }

  function MethodSet(n: nat): (r: set<string>)
    requires n <= |OPERATION_METHODS|
  {
    set i | 0 <= i < n :: OPERATION_METHODS[i]
  }

  function DocumentedPaths(paths: map<string, PathItem>, title: nat -> string): (r: map<string, PathItem>)
  {
    map p | p in paths :: DocumentedItem(paths[p], MethodSet(|OPERATION_METHODS|), title)
  }

  class Document {
    var paths: map<string, PathItem>
    var schemas: map<string, Json>

    constructor (paths: map<string, PathItem>, schemas: map<string, Json>)
      ensures this.paths == paths && this.schemas == schemas
    {
      this.paths, this.schemas := paths, schemas;
    }

    /** The first pass: error responses, path by path and method by method. */
    method AddErrorResponses(title: nat -> string)
      modifies this`paths
      ensures paths == DocumentedPaths(old(paths), title)
    {
      hide DocumentedItem;
      ghost var was := paths;
      var todo := paths.Keys;
      while todo != {}
        invariant paths.Keys == was.Keys && todo <= was.Keys
        invariant forall p :: p in was ==>
          paths[p] == if p in todo then was[p] else DocumentedItem(was[p], MethodSet(|OPERATION_METHODS|), title)
        decreases |todo|
      {
        var path :| path in todo;
        var item := DocumentItem(paths[path], title);
        paths := paths[path := item];
        todo := todo - {path};
      }
    }

    /** The second pass: only the schemas the operations reach. */
    method KeepReferencedSchemas() returns (ghost closure: set<string>)
      modifies this`schemas
      ensures IsClosure(SchemaGraph(old(schemas)), Refs(PathsJson(paths)), closure)
      ensures schemas == Restricted(old(schemas), closure)
    {
      hide IsClosure, Grown, Refs;
      var search := new Search(schemas);
      search.Visit(PathsJson(paths));
      closure := search.referenced;
      GrownFromNothing(SchemaGraph(schemas), Refs(PathsJson(paths)), closure);
      schemas := Restricted(schemas, search.referenced);
    }
  }

  function Restricted(schemas: map<string, Json>, names: set<string>): (r: map<string, Json>)
  {
    map n | n in schemas && n in names :: schemas[n]
  }

  method DocumentItem(item: PathItem, title: nat -> string) returns (r: PathItem)
    ensures r == DocumentedItem(item, MethodSet(|OPERATION_METHODS|), title)
  {
    hide Documented, MethodSet;
    NoMethods(item, title);
    r := item;
    var i := 0;
    while i < |OPERATION_METHODS|
      invariant 0 <= i <= |OPERATION_METHODS|
      invariant r == DocumentedItem(item, MethodSet(i), title)
    {
      var m := OPERATION_METHODS[i];
      MethodStep(i);
      if m in r.operations {
        var op := DocumentOperation(item.operations[m], title);
        r := r.(operations := r.operations[m := op]);
      }
      assert r.operations == DocumentedItem(item, MethodSet(i + 1), title).operations by {
        assert r.operations.Keys == item.operations.Keys;
      }
      i := i + 1;
    }
  }

  lemma NoMethods(item: PathItem, title: nat -> string)
    ensures DocumentedItem(item, MethodSet(0), title) == item
  {
    assert DocumentedItem(item, MethodSet(0), title).operations == item.operations;
  }

  lemma MethodStep(i: nat)
    requires i < |OPERATION_METHODS|
    ensures MethodSet(i + 1) == MethodSet(i) + {OPERATION_METHODS[i]} && OPERATION_METHODS[i] !in MethodSet(i)
  {
    assert forall j, k :: 0 <= j < k < |OPERATION_METHODS| ==> OPERATION_METHODS[j] != OPERATION_METHODS[k];
  }

  method DocumentOperation(op: Operation, title: nat -> string) returns (r: Operation)
    ensures r == Documented(op, title)
  {
    hide Decimal, ErrorResponse;
    var statuses := if op.statuses.Some? then op.statuses.value else [];
    var oauth := op.format == Some("oauth");
    var responses := if op.responses.Some? then op.responses.value else map[];
    ghost var given := responses;
    var i := 0;
    while i < |statuses|
      invariant 0 <= i <= |statuses|
      invariant WithErrors(given, statuses, oauth, title) == WithErrors(responses, statuses[i..], oauth, title)
    {
      assert statuses[i..][0] == statuses[i] && statuses[i..][1..] == statuses[i + 1..];
      var key := Decimal(statuses[i]);
      if key !in responses {
        responses := responses[key := ErrorResponse(statuses[i], oauth, title)];
      }
      i := i + 1;
    }
    r := Operation(None, None, Some(responses), op.rest);
  }

  // ---------------------------------------------------------------- the statuses of a route

  datatype RouteConfig = RouteConfig(surface: Option<string>, rateLimitIsFalse: bool)

  ghost function StatusesOf(declared: Option<seq<nat>>, config: Option<RouteConfig>): (r: set<nat>)
  {
    (if declared.Some? then set s | s in declared.value else {})
    + (if config.Some? && config.value.rateLimitIsFalse then {} else {429})
    + (if config.Some? && config.value.surface == Some("none") then {} else {421, 500})
  }

  /** The declared statuses, 429 unless rate limiting is off, and 421 and 500 for a route of a realm, ascending. */
  method DocumentedErrorStatuses(declared: Option<seq<nat>>, config: Option<RouteConfig>) returns (r: seq<nat>)
    ensures forall s :: s in r <==> s in StatusesOf(declared, config)
    ensures forall i, j :: 0 <= i < j < |r| ==> r[i] < r[j]
  {
    var statuses: set<nat> := if declared.Some? then set s | s in declared.value else {};
    if !(config.Some? && config.value.rateLimitIsFalse) { statuses := statuses + {429}; }
    if !(config.Some? && config.value.surface == Some("none")) { statuses := statuses + {421, 500}; }
    assert statuses == StatusesOf(declared, config);
    r := Sorting.Ascending(statuses);
  }
}
