/**
  * What the two passes over the OpenAPI document promise, separately and one after the other: exactly the reachable
  * schemas are kept, every documented status has a response, nothing declared changes, and what an added response
  * refers to survives.
  */
module OpenApiProofs {
  import opened Text
  import opened Reachability
  import opened OpenApi

  // ---------------------------------------------------------------- the error responses

  /** Declared responses stay, every status gets one, and what is added is the error response of its status. */
  lemma {:induction false} ErrorsAreAdded(responses: map<string, Json>, statuses: seq<nat>, oauth: bool, title: nat -> string)
    ensures var r := WithErrors(responses, statuses, oauth, title);
            && (forall k :: k in responses ==> k in r && r[k] == responses[k])
            && (forall i :: 0 <= i < |statuses| ==> Decimal(statuses[i]) in r)
            && (forall k :: k in r && k !in responses ==>
                  exists i :: 0 <= i < |statuses| && k == Decimal(statuses[i]) && r[k] == ErrorResponse(statuses[i], oauth, title))
    decreases |statuses|
  {
    hide Decimal, ErrorResponse;
    if statuses != [] {
      var key := Decimal(statuses[0]);
      var next := if key in responses then responses else responses[key := ErrorResponse(statuses[0], oauth, title)];
      var tail := statuses[1..];
      ErrorsAreAdded(next, tail, oauth, title);
      var r := WithErrors(responses, statuses, oauth, title);
      assert r == WithErrors(next, tail, oauth, title);
      forall i | 0 <= i < |statuses| ensures Decimal(statuses[i]) in r {
        if i > 0 { assert Decimal(tail[i - 1]) in r; }
      }
      forall k | k in r && k !in responses
        ensures exists i :: 0 <= i < |statuses| && k == Decimal(statuses[i]) && r[k] == ErrorResponse(statuses[i], oauth, title)
      {
        if k == key {
          assert r[k] == next[k] == ErrorResponse(statuses[0], oauth, title);
        } else {
          var i :| 0 <= i < |tail| && k == Decimal(tail[i]) && r[k] == ErrorResponse(tail[i], oauth, title);
          assert statuses[i + 1] == tail[i];
        }
      }
    }
  }

  /** Two statuses never share a response key. */
  lemma {:induction false} DecimalIsInjective(a: nat, b: nat)
    requires Decimal(a) == Decimal(b)
    ensures a == b
  {
    var s, t := Decimal(a), Decimal(b);
    assert s[|s| - 1] == '0' + (a % 10) as char && t[|t| - 1] == '0' + (b % 10) as char;
    if a >= 10 {
      assert s[..|s| - 1] == Decimal(a / 10) && t[..|t| - 1] == Decimal(b / 10);
      DecimalIsInjective(a / 10, b / 10);
    }
  }

  /** What an added response holds: the media type and the shared schema of its format. */
  ghost function ResponseOf(description: string, media: string, reference: string): (r: Json)
  {
    Obj(map["description" := Str(description), "content" := Obj(map[media := Obj(map["schema" := Obj(map["$ref" := Str(reference)])])])])
  }

  /** On an OAuth endpoint it is JSON with the OAuth error, elsewhere a problem document. */
  lemma AddedResponseIs(responses: map<string, Json>, statuses: seq<nat>, oauth: bool, title: nat -> string, key: string)
    requires var r := WithErrors(responses, statuses, oauth, title); key in r && key !in responses
    ensures exists i :: 0 <= i < |statuses| && key == Decimal(statuses[i]) &&
                        WithErrors(responses, statuses, oauth, title)[key] ==
                        if oauth then ResponseOf(title(statuses[i]), "application/json", "#/components/schemas/OAuthError")
                        else ResponseOf(title(statuses[i]), "application/problem+json", "#/components/schemas/Problem")
  {
    ErrorsAreAdded(responses, statuses, oauth, title);
    hide WithErrors, Decimal;
    var i :| 0 <= i < |statuses| && key == Decimal(statuses[i]) &&
             WithErrors(responses, statuses, oauth, title)[key] == ErrorResponse(statuses[i], oauth, title);
    assert "#/components/schemas/" + "OAuthError" == "#/components/schemas/OAuthError";
    assert "#/components/schemas/" + "Problem" == "#/components/schemas/Problem";
  }

  ghost function ValueOf(s: string): (n: int)
    requires forall i :: 0 <= i < |s| ==> '0' <= s[i] <= '9'
  {
    if s == "" then 0 else 10 * ValueOf(s[..|s| - 1]) + (s[|s| - 1] as int - '0' as int)
  }

  /** The key of a status is its decimal notation. */
  lemma {:induction false} DecimalMeans(n: nat)
    ensures var s := Decimal(n);
            && (forall i :: 0 <= i < |s| ==> '0' <= s[i] <= '9')
            && ValueOf(s) == n && s != "" && (s[0] == '0' ==> s == "0")
  {
    var s := Decimal(n);
    if n < 10 {
      assert s[..0] == "" && ValueOf("") == 0;
    } else {
      DecimalMeans(n / 10);
      var high := Decimal(n / 10);
      assert s == high + ['0' + (n % 10) as char] && s[..|s| - 1] == high && s[|s| - 1] == '0' + (n % 10) as char;
      assert forall i :: 0 <= i < |high| ==> s[i] == high[i];
      NotZero(n / 10);
    }
  }

  lemma NotZero(n: nat)
    requires n > 0
    ensures Decimal(n) != "0"
  {
  }

  // ---------------------------------------------------------------- which schemas are kept

  /** The kept schemas are exactly the defined ones some chain of references from the paths reaches, unchanged. */
  lemma KeptMeansReachable(paths: map<string, PathItem>, schemas: map<string, Json>, closure: set<string>, name: string)
    requires IsClosure(SchemaGraph(schemas), Refs(PathsJson(paths)), closure)
    ensures name in Restricted(schemas, closure) <==>
            name in schemas && exists walk :: IsWalk(SchemaGraph(schemas), Refs(PathsJson(paths)), walk, name)
    ensures name in Restricted(schemas, closure) ==> Restricted(schemas, closure)[name] == schemas[name]
  {
    hide IsClosure, IsWalk, Refs;
    ClosureIsReachable(SchemaGraph(schemas), Refs(PathsJson(paths)), closure, name);
  }

  /** Keeping the reachable schemas twice is keeping them once. */
  lemma KeepingIsIdempotent(seeds: set<string>, schemas: map<string, Json>, closure: set<string>, again: set<string>)
    requires IsClosure(SchemaGraph(schemas), seeds, closure)
    requires IsClosure(SchemaGraph(Restricted(schemas, closure)), seeds, again)
    ensures again == closure
    ensures Restricted(Restricted(schemas, closure), again) == Restricted(schemas, closure)
  {
    hide Refs;
    var g, h := SchemaGraph(schemas), SchemaGraph(Restricted(schemas, closure));
    forall n | n in closure ensures Succ(h, n) == Succ(g, n) {
    }
    assert Closed(h, closure);
    assert again <= closure;
    var both := again * closure;
    assert Closed(g, both);
    assert closure <= both;
  }

  /** What counts as a reference: a `$ref` member with the path of a component schema. */
  lemma ReferenceMeans(fields: map<string, Json>, key: string)
    requires key in fields
    ensures forall name :: key == "$ref" && fields[key] == Str("#/components/schemas/" + name) ==> FieldRefs(fields, key) == {name}
    ensures (forall name :: !(key == "$ref" && fields[key] == Str("#/components/schemas/" + name))) ==> FieldRefs(fields, key) == Refs(fields[key])
  {
    hide Refs;
    if IsReference(key, fields[key]) {
      var name := fields[key].s[|COMPONENT_SCHEMA_REF|..];
      assert fields[key].s == "#/components/schemas/" + name;
    }
  }

  /** The names some member of an object refers to. */
  ghost predicate MemberRefers(fields: map<string, Json>, keys: set<string>, name: string)
    requires keys <= fields.Keys
  {
    exists k :: k in keys && name in FieldRefs(fields, k)
  }

  /** An operation refers to what its responses refer to, and its other members. */
  lemma OperationRefs(op: Operation, name: string)
    ensures name in Refs(OperationJson(op)) <==>
            || (op.responses.Some? && MemberRefers(op.responses.value, op.responses.value.Keys, name))
            || MemberRefers(op.rest, op.rest.Keys - Written(op), name)
  {
    hide Refs, FieldRefs;
    var fields := OperationJson(op).fields;
    ObjectRefs(fields, name);
    if op.responses.Some? { ObjectRefs(op.responses.value, name); }
    forall k | k in fields
      ensures k in Written(op) ==> (name in FieldRefs(fields, k) <==> k == "responses" && name in Refs(Obj(op.responses.value)))
      ensures k !in Written(op) ==> k in op.rest && FieldRefs(fields, k) == FieldRefs(op.rest, k)
    {
      WrittenRefs(op, k, name);
    }
    assert op.responses.Some? ==> "responses" in fields;
    assert forall k :: k in op.rest ==> k in fields;
  }

  /** The members an operation has apart from the rest. */
  ghost function Written(op: Operation): (r: set<string>)
  {
    (if op.statuses.Some? then {"x-qauth-error-statuses"} else {}) + (if op.format.Some? then {"x-qauth-error-format"} else {})
    + (if op.responses.Some? then {"responses"} else {})
  }

  lemma WrittenRefs(op: Operation, k: string, name: string)
    requires k in OperationJson(op).fields
    ensures var fields := OperationJson(op).fields;
            && (k in Written(op) ==> (name in FieldRefs(fields, k) <==> k == "responses" && name in Refs(Obj(op.responses.value))))
            && (k !in Written(op) ==> k in op.rest && FieldRefs(fields, k) == FieldRefs(op.rest, k))
  {
    var fields := OperationJson(op).fields;
    if k == "x-qauth-error-statuses" && op.statuses.Some? {
      NumbersReferNowhere(op.statuses.value);
      assert fields[k] == Arr(Numbers(op.statuses.value));
    }
  }

  lemma NumbersReferNowhere(ns: seq<nat>)
    ensures Refs(Arr(Numbers(ns))) == {}
  {
  }

  lemma ObjectRefs(fields: map<string, Json>, name: string)
    ensures name in Refs(Obj(fields)) <==> MemberRefers(fields, fields.Keys, name)
  {
    hide FieldRefs;
  }

  /** The paths refer to what their operations and the other members of the path items refer to. */
  lemma PathsRefs(paths: map<string, PathItem>, name: string)
    ensures name in Refs(PathsJson(paths)) <==>
            exists p :: p in paths &&
              var item := paths[p];
              || (exists m :: m in item.operations && name in Refs(OperationJson(item.operations[m])))
              || MemberRefers(item.rest, item.rest.Keys - item.operations.Keys, name)
  {
    hide Refs, FieldRefs, OperationJson, PathItemJson;
    var fields := PathsJson(paths).fields;
    ObjectRefs(fields, name);
    forall p | p in paths
      ensures name in FieldRefs(fields, p) <==>
              || (exists m :: m in paths[p].operations && name in Refs(OperationJson(paths[p].operations[m])))
              || MemberRefers(paths[p].rest, paths[p].rest.Keys - paths[p].operations.Keys, name)
    {
      ItemRefs(paths[p], name);
      PlainField(fields, p);
    }
  }

  lemma PlainField(fields: map<string, Json>, key: string)
    requires key in fields && fields[key].Obj?
    ensures FieldRefs(fields, key) == Refs(fields[key])
  {
  }

  lemma ItemRefs(item: PathItem, name: string)
    ensures PathItemJson(item).Obj?
    ensures name in Refs(PathItemJson(item)) <==>
            || (exists m :: m in item.operations && name in Refs(OperationJson(item.operations[m])))
            || MemberRefers(item.rest, item.rest.Keys - item.operations.Keys, name)
  {
    hide Refs, FieldRefs, OperationJson;
    var fields := PathItemJson(item).fields;
    ObjectRefs(fields, name);
    forall m | m in item.operations ensures FieldRefs(fields, m) == Refs(OperationJson(item.operations[m])) {
      OperationIsObject(item.operations[m]);
      PlainField(fields, m);
    }
    forall k | k in item.rest && k !in item.operations ensures FieldRefs(fields, k) == FieldRefs(item.rest, k) {
      SameField(fields, item.rest, k);
    }
  }

  lemma SameField(a: map<string, Json>, b: map<string, Json>, key: string)
    requires key in a && key in b && a[key] == b[key]
    ensures FieldRefs(a, key) == FieldRefs(b, key)
  {
    hide Refs;
  }

  // ---------------------------------------------------------------- references through an object

  /** A field that is not itself a reference passes its references on. */
  lemma FieldIsVisited(fields: map<string, Json>, key: string)
    requires key in fields && fields[key].Obj?
    ensures Refs(fields[key]) <= Refs(Obj(fields))
  {
    assert FieldRefs(fields, key) == Refs(fields[key]);
  }

  lemma ReferenceIsFound(schema: string)
    ensures schema in Refs(Obj(map["$ref" := Str(COMPONENT_SCHEMA_REF + schema)]))
  {
    var fields := map["$ref" := Str(COMPONENT_SCHEMA_REF + schema)];
    assert (COMPONENT_SCHEMA_REF + schema)[|COMPONENT_SCHEMA_REF|..] == schema;
    assert "$ref" in fields && schema in FieldRefs(fields, "$ref");
  }

  lemma SingleField(key: string, value: Json)
    requires value.Obj?
    ensures Refs(value) <= Refs(Obj(map[key := value]))
  {
    hide Refs;
    FieldIsVisited(map[key := value], key);
  }

  lemma ErrorResponseRefers(status: nat, oauth: bool, title: nat -> string)
    ensures (if oauth then OAUTH_SCHEMA else PROBLEM_SCHEMA) in Refs(ErrorResponse(status, oauth, title))
  {
    hide Refs;
    var schema := if oauth then OAUTH_SCHEMA else PROBLEM_SCHEMA;
    var media := if oauth then "application/json" else "application/problem+json";
    var ref := Obj(map["$ref" := Str(COMPONENT_SCHEMA_REF + schema)]);
    ReferenceIsFound(schema);
    SingleField("schema", ref);
    SingleField(media, Obj(map["schema" := ref]));
    FieldIsVisited(ErrorResponse(status, oauth, title).fields, "content");
  }

  lemma OperationRefers(op: Operation, key: string, name: string)
    requires op.responses.Some? && key in op.responses.value && op.responses.value[key].Obj?
    requires name in Refs(op.responses.value[key])
    ensures name in Refs(OperationJson(op))
  {
    hide Refs;
    FieldIsVisited(op.responses.value, key);
    FieldIsVisited(OperationJson(op).fields, "responses");
  }

  lemma PathsRefer(paths: map<string, PathItem>, path: string, m: string, name: string)
    requires path in paths && m in paths[path].operations && name in Refs(OperationJson(paths[path].operations[m]))
    ensures name in Refs(PathsJson(paths))
  {
    hide Refs, OperationJson;
    OperationIsObject(paths[path].operations[m]);
    FieldIsVisited(PathItemJson(paths[path]).fields, m);
    FieldIsVisited(PathsJson(paths).fields, path);
  }

  lemma OperationIsObject(op: Operation)
    ensures OperationJson(op).Obj?
  {
  }

  // ---------------------------------------------------------------- both passes

  /**
    * After both passes: each documented operation has a response for every status its route documents, keeps its
    * declared responses as they were, carries neither extension key, and the shared error schema an added response
    * refers to is still there if it was registered.
    */
  lemma DocumentIsComplete(
    paths: map<string, PathItem>, schemas: map<string, Json>, title: nat -> string, closure: set<string>, path: string, m: string)
    requires path in paths && m in paths[path].operations
    requires m in {"get", "put", "post", "delete", "options", "head", "patch", "trace"}
    requires IsClosure(SchemaGraph(schemas), Refs(PathsJson(DocumentedPaths(paths, title))), closure)
    ensures var before, after := paths[path].operations[m], DocumentedPaths(paths, title)[path].operations[m];
            var declared := if before.responses.Some? then before.responses.value else map[];
            var shared := if before.format == Some("oauth") then "OAuthError" else "Problem";
            && after.responses.Some? && after.statuses.None? && after.format.None? && after.rest == before.rest
            && (forall k :: k in declared ==> k in after.responses.value && after.responses.value[k] == declared[k])
            && (before.statuses.Some? ==> forall i :: 0 <= i < |before.statuses.value| ==> Decimal(before.statuses.value[i]) in after.responses.value)
            && (after.responses.value.Keys != declared.Keys && shared in schemas ==> shared in Restricted(schemas, closure))
  {
    hide Refs, IsClosure, Decimal, ErrorResponse, OperationJson, MethodSet, Restricted, PathsJson;
    var before, after := paths[path].operations[m], DocumentedPaths(paths, title)[path].operations[m];
    var declared := if before.responses.Some? then before.responses.value else map[];
    var statuses := if before.statuses.Some? then before.statuses.value else [];
    var oauth := before.format == Some("oauth");
    ErrorsAreAdded(declared, statuses, oauth, title);
    assert m in MethodSet(|OPERATION_METHODS|) by { MethodsAre(); }
    var r := after.responses.value;
    assert r == WithErrors(declared, statuses, oauth, title);
    if r.Keys != declared.Keys {
      assert declared.Keys <= r.Keys;
      var k :| k in r && k !in declared;
      var i :| 0 <= i < |statuses| && k == Decimal(statuses[i]) && r[k] == ErrorResponse(statuses[i], oauth, title);
      AddedResponseSurvives(DocumentedPaths(paths, title), schemas, closure, path, m, k, statuses[i], oauth, title);
    }
  }

  /** The operations of a path item are those under these eight names. */
  lemma MethodsAre()
    ensures MethodSet(|OPERATION_METHODS|) == {"get", "put", "post", "delete", "options", "head", "patch", "trace"}
  {
    var all := {"get", "put", "post", "delete", "options", "head", "patch", "trace"};
    var methods := OPERATION_METHODS;
    assert forall i :: 0 <= i < |methods| ==> methods[i] in all;
    assert methods[0] == "get" && methods[1] == "put" && methods[2] == "post" && methods[3] == "delete" &&
           methods[4] == "options" && methods[5] == "head" && methods[6] == "patch" && methods[7] == "trace";
  }

  /** A member under any other name is left as it was. */
  lemma OthersAreLeft(paths: map<string, PathItem>, title: nat -> string, path: string, m: string)
    requires path in paths
    ensures path in DocumentedPaths(paths, title) && DocumentedPaths(paths, title)[path].rest == paths[path].rest
    ensures m in paths[path].operations && m !in {"get", "put", "post", "delete", "options", "head", "patch", "trace"} ==>
              m in DocumentedPaths(paths, title)[path].operations &&
              DocumentedPaths(paths, title)[path].operations[m] == paths[path].operations[m]
  {
    MethodsAre();
    hide Documented, MethodSet;
  }

  lemma AddedResponseSurvives(
    paths: map<string, PathItem>, schemas: map<string, Json>, closure: set<string>,
    path: string, m: string, key: string, status: nat, oauth: bool, title: nat -> string)
    requires path in paths && m in paths[path].operations
    requires var op := paths[path].operations[m];
             op.responses.Some? && key in op.responses.value && op.responses.value[key] == ErrorResponse(status, oauth, title)
    requires IsClosure(SchemaGraph(schemas), Refs(PathsJson(paths)), closure)
    ensures var shared := if oauth then OAUTH_SCHEMA else PROBLEM_SCHEMA;
            shared in schemas ==> shared in Restricted(schemas, closure)
  {
    hide Refs, OperationJson;
    var shared := if oauth then OAUTH_SCHEMA else PROBLEM_SCHEMA;
    ErrorResponseRefers(status, oauth, title);
    OperationRefers(paths[path].operations[m], key, shared);
    PathsRefer(paths, path, m, shared);
  }
}
