/**
  * How an error is serialized for the log. Errors are the nodes of a finite heap and may refer to each other in
  * cycles: through `cause`, through `errors`, through any other field, or through a list in a field.
  */
module LogErrors {
  import opened Text

  /** A value an error holds; `Object` is any object that is neither an error nor a list, with its own members. */
  datatype Value = Err(id: nat) | List(items: seq<Value>) | Object(members: seq<Field>) | Text(s: string)

  datatype Field = Field(key: string, value: Value)

  datatype ErrorNode = ErrorNode(
    typeName: string, name: Option<string>, message: string, stack: Option<string>,
    cause: Option<Value>, errors: Option<Value>,
    /** The SQL, for a failed query: an error with a string `query` and `params`. */
    query: Option<string>,
    /** The own enumerable fields, in order. */
    entries: seq<Field>)

  type Heap = map<nat, ErrorNode>

  predicate IsErrorLike(heap: Heap, v: Value) { v.Err? && v.id in heap }

  /** A serialized value: an expanded error, an error seen before, a command's name, a list, or a value as it is. */
  datatype Out =
    | Node(id: nat, typeName: string, message: string, stack: string, fields: seq<OutField>)
    | Circular
    | CommandName(name: string)
    | Items(items: seq<Out>)
    | Raw(value: Value)

  /** Assignments in order: a later one of the same key wins, and type, message and stack win over all. */
  datatype OutField = OutField(key: string, out: Out)

  // ---------------------------------------------------------------- one link of a cause chain

  function LoggableMessage(e: ErrorNode): (s: string)
  {
    if e.query.Some? then "Failed query: " + e.query.value else e.message
  }

  /** `String.prototype.replace` of the first occurrence of a text. */
  function ReplaceFirst(s: string, pattern: string, replacement: string): (r: string)
  {
    var k := IndexOf(s, pattern);
    if k < 0 then s else s[..k] + replacement + s[k + |pattern|..]
  }

  function LoggableStack(e: ErrorNode): (s: string)
  {
    var stack := if e.stack.Some? then e.stack.value else "";
    if e.query.Some? then ReplaceFirst(stack, e.message, LoggableMessage(e)) else stack
  }

  /** The errors of the cause chain from `id`, up to one met before. */
  function Links(heap: Heap, id: nat, met: set<nat>): (r: seq<nat>)
    requires id in heap
    decreases heap.Keys - met
  {
    if id in met then []
    else
      var cause := heap[id].cause;
      [id] + (if cause.Some? && IsErrorLike(heap, cause.value) then Links(heap, cause.value.id, met + {id}) else [])
  }

  function Messages(heap: Heap, links: seq<nat>): (r: seq<string>)
    requires forall i :: 0 <= i < |links| ==> links[i] in heap
    ensures |r| == |links| && forall i :: 0 <= i < |links| ==> r[i] == LoggableMessage(heap[links[i]])
  {
    if links == [] then [] else [LoggableMessage(heap[links[0]])] + Messages(heap, links[1..])
  }

  function Stacks(heap: Heap, links: seq<nat>): (r: seq<string>)
    requires forall i :: 0 <= i < |links| ==> links[i] in heap
    ensures |r| == |links| && forall i :: 0 <= i < |links| ==> r[i] == LoggableStack(heap[links[i]])
  {
    if links == [] then [] else [LoggableStack(heap[links[0]])] + Stacks(heap, links[1..])
  }

  lemma {:induction false} LinksAreErrors(heap: Heap, id: nat, met: set<nat>)
    requires id in heap
    ensures forall i :: 0 <= i < |Links(heap, id, met)| ==> Links(heap, id, met)[i] in heap && Links(heap, id, met)[i] !in met
    decreases heap.Keys - met
  {
    if id !in met {
      var cause := heap[id].cause;
      if cause.Some? && IsErrorLike(heap, cause.value) { LinksAreErrors(heap, cause.value.id, met + {id}); }
    }
  }

  function ChainMessage(heap: Heap, id: nat): (s: string)
    requires id in heap
  {
    LinksAreErrors(heap, id, {});
    Join(Messages(heap, Links(heap, id, {})), ": ")
  }

  function ChainStack(heap: Heap, id: nat): (s: string)
    requires id in heap
  {
    LinksAreErrors(heap, id, {});
    Join(Stacks(heap, Links(heap, id, {})), "\ncaused by: ")
  }

  /** The walk along the cause chain. */
  method WalkChain(heap: Heap, id: nat) returns (message: string, stack: string)
    requires id in heap
    ensures message == ChainMessage(heap, id) && stack == ChainStack(heap, id)
  {
    hide LoggableMessage, LoggableStack, Join, Links, Messages, Stacks;
    LinksAreErrors(heap, id, {});
    NoLinks(heap);
    ghost var all := Links(heap, id, {});
    var messages: seq<string>, stacks: seq<string>, chain: set<nat> := [], [], {};
    ghost var taken: seq<nat> := [];
    var link := Err(id);
    while IsErrorLike(heap, link) && link.id !in chain
      invariant chain <= heap.Keys
      invariant forall i :: 0 <= i < |taken| ==> taken[i] in heap
      invariant messages == Messages(heap, taken) && stacks == Stacks(heap, taken)
      invariant all == taken + (if IsErrorLike(heap, link) then Links(heap, link.id, chain) else [])
      decreases heap.Keys - chain
    {
      var e := heap[link.id];
      AppendLink(heap, taken, link.id);
      LinksStep(heap, link.id, chain, taken);
      chain := chain + {link.id};
      messages := messages + [LoggableMessage(e)];
      stacks := stacks + [LoggableStack(e)];
      taken := taken + [link.id];
      link := if e.cause.Some? then e.cause.value else Text("");
    }
    if IsErrorLike(heap, link) { LinksStep(heap, link.id, chain, taken); }
    assert all == taken;
    message := Join(messages, ": ");
    stack := Join(stacks, "\ncaused by: ");
  }

  lemma NoLinks(heap: Heap)
    ensures Messages(heap, []) == [] && Stacks(heap, []) == []
  {
  }

  lemma LinksStep(heap: Heap, id: nat, met: set<nat>, taken: seq<nat>)
    requires id in heap
    ensures id in met ==> taken + Links(heap, id, met) == taken
    ensures id !in met ==>
              var cause := heap[id].cause;
              taken + Links(heap, id, met) ==
              taken + [id] + (if cause.Some? && IsErrorLike(heap, cause.value) then Links(heap, cause.value.id, met + {id}) else [])
  {
  }

  lemma AppendLink(heap: Heap, links: seq<nat>, id: nat)
    requires id in heap && forall i :: 0 <= i < |links| ==> links[i] in heap
    ensures forall i :: 0 <= i < |links + [id]| ==> (links + [id])[i] in heap
    ensures Messages(heap, links + [id]) == Messages(heap, links) + [LoggableMessage(heap[id])]
    ensures Stacks(heap, links + [id]) == Stacks(heap, links) + [LoggableStack(heap[id])]
  {
    hide LoggableMessage, LoggableStack;
  }

  // ---------------------------------------------------------------- fields

  predicate IsList(v: Option<Value>) { v.Some? && v.value.List? }

  /** A field that never reaches the log. */
  predicate Dropped(e: ErrorNode, key: string)
  {
    key == "cause" || key == "rawPacket" || (key == "errors" && IsList(e.errors)) || (key == "params" && e.query.Some?)
  }

  /** The `name` among the members of an object, when it is a string. */
  function NameMember(members: seq<Field>): (r: Option<string>)
  {
    if members == [] then None
    else if members[0].key != "name" then NameMember(members[1..])
    else if members[0].value.Text? then Some(members[0].value.s) else None
  }

  /** `name` of a command value, when it is an object with a string `name`. */
  function NameOf(heap: Heap, v: Value): (r: Option<string>)
  {
    if v.Object? then NameMember(v.members) else if IsErrorLike(heap, v) then heap[v.id].name else None
  }

  // ---------------------------------------------------------------- the serializer, as values

  /** The errors expanded by a call are added to those visited before. */
  function SerializeError(heap: Heap, id: nat, visited: set<nat>): (r: (Out, set<nat>))
    requires id in heap && id !in visited
    ensures visited + {id} <= r.1 && r.0.Node?
    decreases heap.Keys - visited, 0
  {
    var e := heap[id];
    var (listed, v1) := if IsList(e.errors) then SerializeItems(heap, e.errors.value.items, visited + {id}) else ([], visited + {id});
    var aggregate := if IsList(e.errors) then [OutField("aggregateErrors", Items(listed))] else [];
    var (fields, v2) := SerializeFields(heap, e, e.entries, v1);
    (Node(id, e.typeName, ChainMessage(heap, id), ChainStack(heap, id), aggregate + fields), v2)
  }

  function SerializeItems(heap: Heap, items: seq<Value>, visited: set<nat>): (r: (seq<Out>, set<nat>))
    ensures visited <= r.1
    decreases heap.Keys - visited, 2, |items|
  {
    if items == [] then ([], visited)
    else
      var (out, v1) := SerializeItem(heap, items[0], visited);
      var (rest, v2) := SerializeItems(heap, items[1..], v1);
      ([out] + rest, v2)
  }

  function SerializeItem(heap: Heap, item: Value, visited: set<nat>): (r: (Out, set<nat>))
    ensures visited <= r.1
    decreases heap.Keys - visited, 1
  {
    if !IsErrorLike(heap, item) then (Raw(item), visited)
    else if item.id in visited then (Circular, visited)
    else SerializeError(heap, item.id, visited)
  }

  /** What one field contributes: at most one assignment. */
  function SerializeField(heap: Heap, e: ErrorNode, f: Field, visited: set<nat>): (r: (seq<OutField>, set<nat>))
    ensures visited <= r.1 && |r.0| <= 1
    decreases heap.Keys - visited, 3
  {
    if Dropped(e, f.key) then ([], visited)
    else if f.key == "command" then
      var name := NameOf(heap, f.value);
      (if name.Some? then [OutField(f.key, CommandName(name.value))] else [], visited)
    else if IsErrorLike(heap, f.value) then
      if f.value.id in visited then ([], visited)
      else
        var (out, v) := SerializeError(heap, f.value.id, visited);
        ([OutField(f.key, out)], v)
    else if f.value.List? then
      var (outs, v) := SerializeItems(heap, f.value.items, visited);
      ([OutField(f.key, Items(outs))], v)
    else ([OutField(f.key, Raw(f.value))], visited)
  }

  function SerializeFields(heap: Heap, e: ErrorNode, entries: seq<Field>, visited: set<nat>): (r: (seq<OutField>, set<nat>))
    ensures visited <= r.1
    decreases heap.Keys - visited, 4, |entries|
  {
    if entries == [] then ([], visited)
    else
      var (first, v1) := SerializeField(heap, e, entries[0], visited);
      var (rest, v2) := SerializeFields(heap, e, entries[1..], v1);
      (first + rest, v2)
  }

  /** `serializeErrorForLog`: a value that is no error is passed through. */
  function SerializeForLog(heap: Heap, v: Value): (r: Out)
  {
    if IsErrorLike(heap, v) then SerializeError(heap, v.id, {}).0 else Raw(v)
  }

  // ---------------------------------------------------------------- the serializer

  method SerializeErrorList(heap: Heap, items: seq<Value>, visited: set<nat>) returns (outs: seq<Out>, seen: set<nat>)
    ensures (outs, seen) == SerializeItems(heap, items, visited)
    decreases heap.Keys - visited, 1
  {
    hide SerializeError, SerializeItems;
    outs, seen := [], visited;
    ghost var all := SerializeItems(heap, items, visited);
    assert items[0..] == items && [] + all.0 == all.0;
    var i := 0;
    while i < |items|
      invariant 0 <= i <= |items| && visited <= seen
      invariant all.0 == outs + SerializeItems(heap, items[i..], seen).0 && all.1 == SerializeItems(heap, items[i..], seen).1
    {
      ItemsStep(heap, items, i, outs, seen);
      var out: Out;
      if !IsErrorLike(heap, items[i]) {
        out := Raw(items[i]);
      } else if items[i].id in seen {
        out := Circular;
      } else {
        out, seen := SerializeErrorLike(heap, items[i].id, seen);
      }
      outs := outs + [out];
      i := i + 1;
    }
    ItemsEnd(heap, items, outs, seen);
  }

  lemma ItemsStep(heap: Heap, items: seq<Value>, i: nat, outs: seq<Out>, seen: set<nat>)
    requires i < |items|
    ensures var r := SerializeItems(heap, items[i..], seen);
            var (out, after) := SerializeItem(heap, items[i], seen);
            var next := SerializeItems(heap, items[i + 1..], after);
            outs + r.0 == outs + [out] + next.0 && r.1 == next.1
  {
    hide SerializeItem;
    assert items[i..][0] == items[i] && items[i..][1..] == items[i + 1..];
  }

  lemma ItemsEnd(heap: Heap, items: seq<Value>, outs: seq<Out>, seen: set<nat>)
    ensures outs + SerializeItems(heap, items[|items|..], seen).0 == outs && SerializeItems(heap, items[|items|..], seen).1 == seen
  {
    assert items[|items|..] == [];
  }

  method SerializeErrorLike(heap: Heap, id: nat, visited: set<nat>) returns (out: Out, seen: set<nat>)
    requires id in heap && id !in visited
    ensures (out, seen) == SerializeError(heap, id, visited)
    decreases heap.Keys - visited, 0
  {
    hide SerializeItems, SerializeField, ChainMessage, ChainStack;
    var e := heap[id];
    seen := visited + {id};
    var message, stack := WalkChain(heap, id);
    var fields: seq<OutField> := [];
    if IsList(e.errors) {
      var listed;
      listed, seen := SerializeErrorList(heap, e.errors.value.items, seen);
      fields := [OutField("aggregateErrors", Items(listed))];
    }
    ghost var aggregate, v1 := fields, seen;
    assert e.entries[0..] == e.entries;
    var i := 0;
    while i < |e.entries|
      invariant 0 <= i <= |e.entries| && visited + {id} <= seen
      invariant var r := SerializeFields(heap, e, e.entries[i..], seen);
                var all := SerializeFields(heap, e, e.entries, v1);
                aggregate + all.0 == fields + r.0 && all.1 == r.1
    {
      assert e.entries[i..][0] == e.entries[i] && e.entries[i..][1..] == e.entries[i + 1..];
      var more;
      ghost var before := seen;
      more, seen := SerializeOneField(heap, e, e.entries[i], seen);
      assert fields + (more + SerializeFields(heap, e, e.entries[i + 1..], seen).0) ==
             fields + more + SerializeFields(heap, e, e.entries[i + 1..], seen).0;
      fields := fields + more;
      i := i + 1;
    }
    assert e.entries[i..] == [] && fields + [] == fields;
    out := Node(id, e.typeName, message, stack, fields);
  }

  method SerializeOneField(heap: Heap, e: ErrorNode, f: Field, visited: set<nat>) returns (more: seq<OutField>, seen: set<nat>)
    ensures (more, seen) == SerializeField(heap, e, f, visited)
    decreases heap.Keys - visited, 2
  {
    hide SerializeItems, SerializeError;
    more, seen := [], visited;
    if Dropped(e, f.key) { return; }
    if f.key == "command" {
      var name := NameOf(heap, f.value);
      if name.Some? { more := [OutField(f.key, CommandName(name.value))]; }
      return;
    }
    if IsErrorLike(heap, f.value) {
      if f.value.id !in seen {
        var out;
        out, seen := SerializeErrorLike(heap, f.value.id, seen);
        more := [OutField(f.key, out)];
      }
      return;
    }
    if f.value.List? {
      var outs;
      outs, seen := SerializeErrorList(heap, f.value.items, seen);
      more := [OutField(f.key, Items(outs))];
    } else {
      more := [OutField(f.key, Raw(f.value))];
    }
  }
}
