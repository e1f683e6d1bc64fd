/**
  * What the error serializer promises on every finite graph of errors: it expands exactly the errors it reaches, each
  * once, and no expanded error carries what may not be logged.
  */
module LogErrorsProofs {
  import opened Text
  import opened Reachability
  import opened LogErrors

  // ---------------------------------------------------------------- the cause chain

  /** The chain starts at the error, follows `cause`, repeats nothing, and stops only where it must. */
  ghost predicate IsChain(heap: Heap, links: seq<nat>, met: set<nat>)
  {
    && (forall i :: 0 <= i < |links| ==> links[i] in heap && links[i] !in met)
    && (forall i, j :: 0 <= i < j < |links| ==> links[i] != links[j])
    && (forall i :: 0 < i < |links| ==> heap[links[i - 1]].cause == Some(Err(links[i])))
    && (links != [] ==>
          var cause := heap[links[|links| - 1]].cause;
          cause.Some? && IsErrorLike(heap, cause.value) ==> cause.value.id in met || cause.value.id in links)
  }

  lemma {:induction false} LinksAreTheChain(heap: Heap, id: nat, met: set<nat>)
    requires id in heap
    ensures IsChain(heap, Links(heap, id, met), met)
    ensures id !in met ==> Links(heap, id, met) != [] && Links(heap, id, met)[0] == id
    decreases heap.Keys - met
  {
    if id !in met {
      var cause := heap[id].cause;
      if cause.Some? && IsErrorLike(heap, cause.value) {
        LinksAreTheChain(heap, cause.value.id, met + {id});
        var rest := Links(heap, cause.value.id, met + {id});
        assert Links(heap, id, met) == [id] + rest;
        hide Links;
        LongerChain(heap, id, met, rest);
      }
    }
  }

  lemma LongerChain(heap: Heap, id: nat, met: set<nat>, rest: seq<nat>)
    requires id in heap && id !in met && IsChain(heap, rest, met + {id})
    requires var cause := heap[id].cause;
             && cause.Some? && IsErrorLike(heap, cause.value)
             && (cause.value.id in met + {id} ==> rest == []) && (rest != [] ==> rest[0] == cause.value.id)
             && (rest == [] ==> cause.value.id in met + {id})
    ensures IsChain(heap, [id] + rest, met)
  {
    var links := [id] + rest;
    assert forall i :: 0 < i < |links| ==> links[i] == rest[i - 1];
    assert forall x :: x in links <==> x == id || x in rest;
    forall i | 0 < i < |links| ensures heap[links[i - 1]].cause == Some(Err(links[i])) {
      if i > 1 { assert heap[rest[i - 2]].cause == Some(Err(rest[i - 1])); }
    }
  }

  /**
    * The logged message joins one message per link of the chain; a failed query contributes its SQL and nothing else.
    */
  lemma MessageOfChain(heap: Heap, id: nat)
    requires id in heap
    ensures var links := Links(heap, id, {});
            && IsChain(heap, links, {}) && links != [] && links[0] == id
            && ChainMessage(heap, id) == Join(Messages(heap, links), ": ")
            && forall i :: 0 <= i < |links| ==>
                 Messages(heap, links)[i] == (if heap[links[i]].query.Some? then "Failed query: " + heap[links[i]].query.value else heap[links[i]].message)
  {
    hide Links, Join;
    LinksAreTheChain(heap, id, {});
    LinksAreErrors(heap, id, {});
  }

  /** The first occurrence of `pattern` in `s` is at `k`. */
  ghost predicate FirstAt(s: string, pattern: string, k: int)
  {
    At(s, pattern, k) && forall i :: At(s, pattern, i) ==> k <= i
  }

  /** What one error adds to the logged message: a failed query its SQL, any other error its message. */
  ghost predicate IsMessagePart(e: ErrorNode, part: string)
  {
    match e.query
    case Some(query) => part == "Failed query: " + query
    case None => part == e.message
  }

  /**
    * What one error adds to the logged stack: its stack, in which the first occurrence of a failed query's message has
    * become the SQL alone.
    */
  ghost predicate IsStackPart(e: ErrorNode, part: string)
  {
    var text := match e.stack { case Some(stack) => stack case None => "" };
    match e.query
    case None => part == text
    case Some(query) =>
      && (forall k :: FirstAt(text, e.message, k) ==> part == text[..k] + "Failed query: " + query + text[k + |e.message|..])
      && ((forall k :: !At(text, e.message, k)) ==> part == text)
  }

  /** The logged texts of an error join one part for each link of its cause chain. */
  ghost predicate SafeTexts(heap: Heap, id: nat, message: string, stack: string)
  {
    exists links: seq<nat>, messages: seq<string>, stacks: seq<string> ::
      && IsChain(heap, links, {}) && links != [] && links[0] == id
      && |messages| == |links| && |stacks| == |links|
      && (forall i :: 0 <= i < |links| ==> IsMessagePart(heap[links[i]], messages[i]) && IsStackPart(heap[links[i]], stacks[i]))
      && message == Join(messages, ": ") && stack == Join(stacks, "\ncaused by: ")
  }

  lemma PartsOfOne(e: ErrorNode)
    ensures IsMessagePart(e, LoggableMessage(e)) && IsStackPart(e, LoggableStack(e))
  {
    if e.query.Some? {
      var text := if e.stack.Some? then e.stack.value else "";
      forall k | FirstAt(text, e.message, k)
        ensures LoggableStack(e) == text[..k] + "Failed query: " + e.query.value + text[k + |e.message|..]
      {
        assert k == IndexOf(text, e.message);
        assert text[..k] + ("Failed query: " + e.query.value) == text[..k] + "Failed query: " + e.query.value;
      }
    }
  }

  /** On every heap the logged message and stack are made of those parts. */
  lemma TextsOfChain(heap: Heap, id: nat)
    requires id in heap
    ensures SafeTexts(heap, id, ChainMessage(heap, id), ChainStack(heap, id))
  {
    hide Links, Join, LoggableMessage, LoggableStack, IsMessagePart, IsStackPart;
    LinksAreTheChain(heap, id, {});
    LinksAreErrors(heap, id, {});
    var links := Links(heap, id, {});
    forall i | 0 <= i < |links|
      ensures IsMessagePart(heap[links[i]], Messages(heap, links)[i]) && IsStackPart(heap[links[i]], Stacks(heap, links)[i])
    {
      PartsOfOne(heap[links[i]]);
    }
  }

  /** A failed query whose stack holds its message, after a head without it, is logged with the SQL in its place. */
  lemma FailedQueryStack(heap: Heap, id: nat, head: string, rest: string)
    requires id in heap && heap[id].query.Some? && heap[id].stack == Some(head + heap[id].message + rest)
    requires FirstAt(head + heap[id].message + rest, heap[id].message, |head|)
    requires heap[id].cause.Some? ==> !IsErrorLike(heap, heap[id].cause.value)
    ensures var out := SerializeForLog(heap, Err(id));
            out.stack == head + "Failed query: " + heap[id].query.value + rest && out.message == "Failed query: " + heap[id].query.value
  {
    var e := heap[id];
    assert Links(heap, id, {}) == [id];
    PartsOfOne(e);
    var text := head + e.message + rest;
    assert text[..|head|] == head && text[|head| + |e.message|..] == rest;
    hide LoggableMessage, LoggableStack, SerializeItems, SerializeFields;
    assert Messages(heap, [id]) == [LoggableMessage(e)] && Stacks(heap, [id]) == [LoggableStack(e)];
  }

  /** The string a command value has as its name: the first member of that key, or the name of an error. */
  ghost predicate HasName(heap: Heap, v: Value, name: string)
  {
    match v
    case Object(members) =>
      exists i :: 0 <= i < |members| && members[i] == Field("name", Text(name)) && forall j :: 0 <= j < i ==> members[j].key != "name"
    case Err(id) => id in heap && heap[id].name == Some(name)
    case _ => false
  }

  lemma {:induction false} FirstName(members: seq<Field>, name: string)
    ensures NameMember(members) == Some(name) <==>
            exists i :: 0 <= i < |members| && members[i] == Field("name", Text(name)) && forall j :: 0 <= j < i ==> members[j].key != "name"
  {
    if members != [] {
      var rest := members[1..];
      FirstName(rest, name);
      if members[0].key == "name" {
        if members[0].value == Text(name) { assert members[0] == Field("name", Text(name)); }
      } else {
        if i :| 0 <= i < |rest| && rest[i] == Field("name", Text(name)) && forall j :: 0 <= j < i ==> rest[j].key != "name" {
          assert members[i + 1] == rest[i];
          assert forall j :: 0 <= j < i + 1 ==> members[j].key != "name" by {
            assert forall j :: 0 < j < i + 1 ==> members[j] == rest[j - 1];
          }
        }
        if i :| 0 <= i < |members| && members[i] == Field("name", Text(name)) && forall j :: 0 <= j < i ==> members[j].key != "name" {
          assert rest[i - 1] == members[i];
          assert forall j :: 0 <= j < i - 1 ==> rest[j] == members[j + 1];
        }
      }
    }
  }

  lemma NameIsRead(heap: Heap, v: Value, name: string)
    ensures NameOf(heap, v) == Some(name) <==> HasName(heap, v, name)
  {
    hide NameMember;
    if v.Object? { FirstName(v.members, name); }
  }

  // ---------------------------------------------------------------- which errors are expanded

  /** The errors expanded in an output, in the order they appear. */
  function Ids(out: Out): (r: seq<nat>)
    decreases out
  {
    match out
    case Node(id, _, _, _, fields) => [id] + FieldIds(fields)
    case Items(items) => ItemIds(items)
    case _ => []
  }

  function ItemIds(items: seq<Out>): (r: seq<nat>)
    decreases items
  {
    if items == [] then [] else Ids(items[0]) + ItemIds(items[1..])
  }

  function FieldIds(fields: seq<OutField>): (r: seq<nat>)
    decreases fields
  {
    if fields == [] then [] else Ids(fields[0].out) + FieldIds(fields[1..])
  }

  /** The errors a list holds itself. */
  ghost function ItemEdges(heap: Heap, items: seq<Value>): (r: set<nat>)
  {
    set i | 0 <= i < |items| && IsErrorLike(heap, items[i]) :: items[i].id
  }

  /** The errors a field leads to: those of a field that is not dropped and is no command. */
  ghost function FieldEdges(heap: Heap, e: ErrorNode, f: Field): (r: set<nat>)
  {
    if Dropped(e, f.key) || f.key == "command" then {}
    else if IsErrorLike(heap, f.value) then {f.value.id}
    else if f.value.List? then ItemEdges(heap, f.value.items)
    else {}
  }

  ghost function EntryEdges(heap: Heap, e: ErrorNode, entries: seq<Field>): (r: set<nat>)
  {
    if entries == [] then {} else FieldEdges(heap, e, entries[0]) + EntryEdges(heap, e, entries[1..])
  }

  ghost function Edges(heap: Heap, e: ErrorNode): (r: set<nat>)
  {
    (if IsList(e.errors) then ItemEdges(heap, e.errors.value.items) else {}) + EntryEdges(heap, e, e.entries)
  }

  ghost function ErrorGraph(heap: Heap): (g: Graph<nat>) { map id | id in heap :: Edges(heap, heap[id]) }

  /** A call that had visited `before` expanded `ids`, each once and none visited before. */
  ghost predicate Expands(heap: Heap, before: set<nat>, ids: seq<nat>, after: set<nat>)
  {
    && (forall i :: 0 <= i < |ids| ==> ids[i] in heap && ids[i] !in before)
    && (forall i, j :: 0 <= i < j < |ids| ==> ids[i] != ids[j])
    && after == before + Elements(ids)
  }

  /** A call from `before` sent to `seeds` expanded what it had to, once, and nothing more. */
  ghost predicate Covers(heap: Heap, before: set<nat>, seeds: set<nat>, ids: seq<nat>, after: set<nat>)
  {
    Expands(heap, before, ids, after) && Grown(ErrorGraph(heap), before, seeds, after)
  }

  lemma CoversNothing(heap: Heap, before: set<nat>, seeds: set<nat>)
    requires seeds <= before
    ensures Covers(heap, before, seeds, [], before)
  {
    hide ErrorGraph;
    GrownNothing(ErrorGraph(heap), before, seeds);
  }

  lemma CoversTwice(heap: Heap, a: set<nat>, s: set<nat>, ids: seq<nat>, b: set<nat>, t: set<nat>, more: seq<nat>, c: set<nat>)
    requires Covers(heap, a, s, ids, b) && Covers(heap, b, t, more, c)
    ensures Covers(heap, a, s + t, ids + more, c)
  {
    hide ErrorGraph, Grown;
    GrownTwice(ErrorGraph(heap), a, s, b, t, c);
    forall i, j | 0 <= i < j < |ids + more| ensures (ids + more)[i] != (ids + more)[j] {
      if i < |ids| <= j {
        assert ids[i] in Elements(ids);
      }
    }
  }

  lemma CoversNode(heap: Heap, before: set<nat>, id: nat, ids: seq<nat>, after: set<nat>)
    requires id in heap && id !in before && Covers(heap, before + {id}, Edges(heap, heap[id]), ids, after)
    ensures Covers(heap, before, {id}, [id] + ids, after)
  {
    hide Grown, Edges;
    assert Succ(ErrorGraph(heap), id) == Edges(heap, heap[id]);
    GrownNode(ErrorGraph(heap), before, id, after);
  }

  lemma {:induction false} ErrorIsCovered(heap: Heap, id: nat, visited: set<nat>)
    requires id in heap && id !in visited
    ensures var (out, after) := SerializeError(heap, id, visited); Covers(heap, visited, {id}, Ids(out), after)
    decreases heap.Keys - visited, 0
  {
    hide Covers, ChainMessage, ChainStack, SerializeItems, SerializeFields, ItemEdges, EntryEdges;
    var e := heap[id];
    var start := visited + {id};
    var (out, after) := SerializeError(heap, id, visited);
    var listed, v1 := [], start;
    var edges := {};
    CoversNothing(heap, start, {});
    if IsList(e.errors) {
      ItemsAreCovered(heap, e.errors.value.items, start);
      var r := SerializeItems(heap, e.errors.value.items, start);
      listed, v1, edges := r.0, r.1, ItemEdges(heap, e.errors.value.items);
    }
    FieldsAreCovered(heap, e, e.entries, v1);
    var (fields, v2) := SerializeFields(heap, e, e.entries, v1);
    NoIds();
    CoversTwice(heap, start, edges, ItemIds(listed), v1, EntryEdges(heap, e, e.entries), FieldIds(fields), v2);
    NodeIds(out, listed, fields, IsList(e.errors));
    CoversNode(heap, visited, id, ItemIds(listed) + FieldIds(fields), v2);
  }

  lemma NoIds()
    ensures ItemIds([]) == [] && FieldIds([]) == []
  {
  }

  lemma NodeIds(out: Out, listed: seq<Out>, fields: seq<OutField>, aggregate: bool)
    requires out.Node? && (!aggregate ==> listed == [])
    requires out.fields == (if aggregate then [OutField("aggregateErrors", Items(listed))] else []) + fields
    ensures Ids(out) == [out.id] + (ItemIds(listed) + FieldIds(fields))
  {
    if aggregate {
      assert out.fields[1..] == fields && out.fields[0].out == Items(listed);
      assert Ids(Items(listed)) == ItemIds(listed);
      assert FieldIds(out.fields) == ItemIds(listed) + FieldIds(fields);
    } else {
      NoIds();
      assert out.fields == fields && [] + FieldIds(fields) == FieldIds(fields);
    }
  }

  lemma {:induction false} ItemIsCovered(heap: Heap, item: Value, visited: set<nat>)
    ensures var (out, after) := SerializeItem(heap, item, visited);
            Covers(heap, visited, if IsErrorLike(heap, item) then {item.id} else {}, Ids(out), after)
    decreases heap.Keys - visited, 1
  {
    hide Covers, SerializeError;
    if IsErrorLike(heap, item) && item.id !in visited {
      ErrorIsCovered(heap, item.id, visited);
    } else {
      CoversNothing(heap, visited, if IsErrorLike(heap, item) then {item.id} else {});
    }
  }

  lemma {:induction false} ItemsAreCovered(heap: Heap, items: seq<Value>, visited: set<nat>)
    ensures var (outs, after) := SerializeItems(heap, items, visited); Covers(heap, visited, ItemEdges(heap, items), ItemIds(outs), after)
    decreases heap.Keys - visited, 2, |items|
  {
    hide Covers, ItemEdges, SerializeItem, Ids;
    ItemEdgesStep(heap, items);
    if items == [] {
      CoversNothing(heap, visited, {});
    } else {
      ItemIsCovered(heap, items[0], visited);
      var (first, v1) := SerializeItem(heap, items[0], visited);
      ItemsAreCovered(heap, items[1..], v1);
      var (rest, v2) := SerializeItems(heap, items[1..], v1);
      var edge := if IsErrorLike(heap, items[0]) then {items[0].id} else {};
      CoversTwice(heap, visited, edge, Ids(first), v1, ItemEdges(heap, items[1..]), ItemIds(rest), v2);
      assert ([first] + rest)[1..] == rest;
    }
  }

  lemma ItemEdgesStep(heap: Heap, items: seq<Value>)
    ensures items == [] ==> ItemEdges(heap, items) == {}
    ensures items != [] ==>
              ItemEdges(heap, items) == (if IsErrorLike(heap, items[0]) then {items[0].id} else {}) + ItemEdges(heap, items[1..])
  {
    if items != [] {
      var rest := items[1..];
      forall x ensures x in ItemEdges(heap, items) <==> (IsErrorLike(heap, items[0]) && x == items[0].id) || x in ItemEdges(heap, rest) {
        if x in ItemEdges(heap, items) {
          var i :| 0 <= i < |items| && IsErrorLike(heap, items[i]) && items[i].id == x;
          if i > 0 { assert rest[i - 1] == items[i]; }
        }
        if x in ItemEdges(heap, rest) {
          var i :| 0 <= i < |rest| && IsErrorLike(heap, rest[i]) && rest[i].id == x;
          assert items[i + 1] == rest[i];
        }
      }
    }
  }

  lemma {:induction false} FieldIsCovered(heap: Heap, e: ErrorNode, f: Field, visited: set<nat>)
    ensures var (more, after) := SerializeField(heap, e, f, visited); Covers(heap, visited, FieldEdges(heap, e, f), FieldIds(more), after)
    decreases heap.Keys - visited, 3
  {
    hide Covers, ItemEdges, SerializeError, SerializeItems;
    CoversNothing(heap, visited, {});
    NoIds();
    if !Dropped(e, f.key) && f.key != "command" {
      if IsErrorLike(heap, f.value) {
        if f.value.id in visited {
          CoversNothing(heap, visited, {f.value.id});
        } else {
          ErrorIsCovered(heap, f.value.id, visited);
          OneFieldIds(f.key, SerializeError(heap, f.value.id, visited).0);
        }
      } else if f.value.List? {
        ItemsAreCovered(heap, f.value.items, visited);
        OneFieldIds(f.key, Items(SerializeItems(heap, f.value.items, visited).0));
      } else {
        OneFieldIds(f.key, Raw(f.value));
      }
    } else if f.key == "command" && NameOf(heap, f.value).Some? {
      OneFieldIds(f.key, CommandName(NameOf(heap, f.value).value));
    }
  }

  lemma OneFieldIds(key: string, out: Out)
    ensures FieldIds([OutField(key, out)]) == Ids(out)
    ensures out.Items? ==> FieldIds([OutField(key, out)]) == ItemIds(out.items)
    ensures out.Raw? || out.CommandName? ==> FieldIds([OutField(key, out)]) == []
  {
    var fields := [OutField(key, out)];
    assert fields[1..] == [];
    assert FieldIds(fields) == Ids(out) + FieldIds([]);
  }

  lemma {:induction false} FieldsAreCovered(heap: Heap, e: ErrorNode, entries: seq<Field>, visited: set<nat>)
    ensures var (fields, after) := SerializeFields(heap, e, entries, visited);
            Covers(heap, visited, EntryEdges(heap, e, entries), FieldIds(fields), after)
    decreases heap.Keys - visited, 4, |entries|
  {
    hide Covers, SerializeField, FieldEdges;
    if entries == [] {
      CoversNothing(heap, visited, {});
    } else {
      FieldIsCovered(heap, e, entries[0], visited);
      var (first, v1) := SerializeField(heap, e, entries[0], visited);
      FieldsAreCovered(heap, e, entries[1..], v1);
      var (rest, v2) := SerializeFields(heap, e, entries[1..], v1);
      CoversTwice(heap, visited, FieldEdges(heap, e, entries[0]), FieldIds(first), v1, EntryEdges(heap, e, entries[1..]), FieldIds(rest), v2);
      FieldIdsAppend(first, rest);
    }
  }

  lemma {:induction false} FieldIdsAppend(a: seq<OutField>, b: seq<OutField>)
    ensures FieldIds(a + b) == FieldIds(a) + FieldIds(b)
  {
    hide Ids, FieldIds;
    FieldIdsHead(a);
    FieldIdsHead(a + b);
    if a == [] {
      assert a + b == b;
    } else {
      FieldIdsAppend(a[1..], b);
      assert (a + b)[0] == a[0] && (a + b)[1..] == a[1..] + b;
    }
  }

  lemma FieldIdsHead(fields: seq<OutField>)
    ensures FieldIds(fields) == if fields == [] then [] else Ids(fields[0].out) + FieldIds(fields[1..])
  {
    hide Ids;
  }

  /**
    * On every heap, cyclic or not, the serializer expands exactly the errors that fields and lists lead to from the
    * logged one, each exactly once.
    */
  lemma ExpandsReachableOnce(heap: Heap, id: nat)
    requires id in heap
    ensures var ids := Ids(SerializeForLog(heap, Err(id)));
            && IsClosure(ErrorGraph(heap), {id}, Elements(ids))
            && (forall i, j :: 0 <= i < j < |ids| ==> ids[i] != ids[j])
            && (forall i :: 0 <= i < |ids| ==> ids[i] in heap)
  {
    hide Grown, IsClosure, ErrorGraph, SerializeError;
    ErrorIsCovered(heap, id, {});
    var (out, after) := SerializeError(heap, id, {});
    assert after == Elements(Ids(out));
    GrownFromNothing(ErrorGraph(heap), {id}, after);
  }

  // ---------------------------------------------------------------- what an expanded error shows

  /** A list shows each entry: an error expanded or marked as seen, anything else as it is. */
  ghost predicate ShowsItem(heap: Heap, item: Value, out: Out)
  {
    match out
    case Node(id, _, _, _, _) => item == Err(id)
    case Circular => IsErrorLike(heap, item)
    case Raw(v) => v == item && !IsErrorLike(heap, item)
    case _ => false
  }

  ghost predicate Shows(heap: Heap, value: Value, out: Out)
  {
    match out
    case Node(id, _, _, _, _) => value == Err(id)
    case Items(outs) => value.List? && |outs| == |value.items| && forall i :: 0 <= i < |outs| ==> ShowsItem(heap, value.items[i], outs[i])
    case Raw(v) => v == value && !IsErrorLike(heap, value) && !value.List?
    case CommandName(name) => HasName(heap, value, name)
    case Circular => false
  }

  /** A field of an expanded error: nothing secret under its key, and its value as it may be shown. */
  ghost predicate SafeField(heap: Heap, e: ErrorNode, entries: seq<Field>, f: OutField)
  {
    && f.key != "cause" && f.key != "rawPacket" && (f.key == "params" ==> e.query.None?)
    && !(f.key == "errors" && e.errors.Some? && e.errors.value.List?)
    && (f.key == "command" <==> f.out.CommandName?)
    && exists i :: 0 <= i < |entries| && entries[i].key == f.key && Shows(heap, entries[i].value, f.out)
  }

  ghost predicate IsAggregate(heap: Heap, e: ErrorNode, f: OutField)
  {
    f.key == "aggregateErrors" && IsList(e.errors) && Shows(heap, e.errors.value, f.out)
  }

  /** Every field that must be shown is: it may not be logged, is a command without a name, an error, or present. */
  ghost predicate Present(heap: Heap, e: ErrorNode, entry: Field, fields: seq<OutField>)
  {
    || entry.key == "cause" || entry.key == "rawPacket" || (entry.key == "params" && e.query.Some?)
    || (entry.key == "errors" && e.errors.Some? && e.errors.value.List?)
    || IsErrorLike(heap, entry.value)
    || (entry.key == "command" && forall name :: !HasName(heap, entry.value, name))
    || exists i :: 0 <= i < |fields| && fields[i].key == entry.key && Shows(heap, entry.value, fields[i].out)
  }

  ghost predicate DistinctKeys(entries: seq<Field>) { forall i, j :: 0 <= i < j < |entries| ==> entries[i].key != entries[j].key }

  /** No two of the assignments from `from` on have one key. */
  ghost predicate DistinctFields(fields: seq<OutField>, from: nat)
  {
    forall i, j :: from <= i < j < |fields| ==> fields[i].key != fields[j].key
  }

  ghost predicate SafeNode(heap: Heap, n: Out)
    requires n.Node?
  {
    && n.id in heap && n.typeName == heap[n.id].typeName
    && SafeTexts(heap, n.id, n.message, n.stack)
    && (forall i :: (if IsList(heap[n.id].errors) then 1 else 0) <= i < |n.fields| ==>
          SafeField(heap, heap[n.id], heap[n.id].entries, n.fields[i]))
    && (IsList(heap[n.id].errors) ==> n.fields != [] && IsAggregate(heap, heap[n.id], n.fields[0]))
    && (DistinctKeys(heap[n.id].entries) ==> DistinctFields(n.fields, if IsList(heap[n.id].errors) then 1 else 0))
    && (forall i :: 0 <= i < |heap[n.id].entries| ==> Present(heap, heap[n.id], heap[n.id].entries[i], n.fields))
  }

  /** Every error expanded anywhere in an output is safe. */
  ghost predicate Safe(heap: Heap, out: Out)
    decreases out
  {
    match out
    case Node(_, _, _, _, fields) => SafeNode(heap, out) && forall i :: 0 <= i < |fields| ==> Safe(heap, fields[i].out)
    case Items(items) => forall i :: 0 <= i < |items| ==> Safe(heap, items[i])
    case _ => true
  }

  ghost predicate AllSafe(heap: Heap, outs: seq<Out>) { forall i :: 0 <= i < |outs| ==> Safe(heap, outs[i]) }

  ghost predicate FieldsSafe(heap: Heap, fields: seq<OutField>) { forall i :: 0 <= i < |fields| ==> Safe(heap, fields[i].out) }

  lemma {:induction false} ErrorIsSafe(heap: Heap, id: nat, visited: set<nat>)
    requires id in heap && id !in visited
    ensures Safe(heap, SerializeError(heap, id, visited).0) && SerializeError(heap, id, visited).0.id == id
    decreases heap.Keys - visited, 0
  {
    hide ChainMessage, ChainStack, SerializeItems, SerializeFields, SafeField, Shows, Present, DistinctKeys, DistinctFields;
    var e := heap[id];
    var start := visited + {id};
    var out := SerializeError(heap, id, visited).0;
    var aggregate, v1 := [], start;
    if IsList(e.errors) {
      ItemsAreSafe(heap, e.errors.value.items, start);
      var r := SerializeItems(heap, e.errors.value.items, start);
      aggregate, v1 := [OutField("aggregateErrors", Items(r.0))], r.1;
    }
    FieldsAreSafe(heap, e, e.entries, v1);
    NodeIsSafe(heap, out, aggregate, SerializeFields(heap, e, e.entries, v1).0);
  }

  lemma NodeIsSafe(heap: Heap, out: Out, aggregate: seq<OutField>, fields: seq<OutField>)
    requires out.Node? && out.id in heap && out.fields == aggregate + fields
    requires out == Node(out.id, heap[out.id].typeName, ChainMessage(heap, out.id), ChainStack(heap, out.id), out.fields)
    requires FieldsSafe(heap, aggregate) && FieldsSafe(heap, fields)
    requires var e := heap[out.id];
             && (if IsList(e.errors) then |aggregate| == 1 && IsAggregate(heap, e, aggregate[0]) else aggregate == [])
             && (forall i :: 0 <= i < |fields| ==> SafeField(heap, e, e.entries, fields[i]))
             && (forall i :: 0 <= i < |e.entries| ==> Present(heap, e, e.entries[i], fields))
             && (DistinctKeys(e.entries) ==> DistinctFields(fields, 0))
    ensures Safe(heap, out)
  {
    hide ChainMessage, ChainStack, SafeTexts, SafeField, IsAggregate, Present, DistinctKeys;
    TextsOfChain(heap, out.id);
    var e, skip := heap[out.id], |aggregate|;
    assert forall i :: skip <= i < |out.fields| ==> out.fields[i] == fields[i - skip];
    forall i | 0 <= i < |e.entries| ensures Present(heap, e, e.entries[i], out.fields) {
      PresentInLonger(heap, e, e.entries[i], aggregate, fields);
    }
  }

  lemma PresentInLonger(heap: Heap, e: ErrorNode, entry: Field, before: seq<OutField>, fields: seq<OutField>)
    requires Present(heap, e, entry, fields)
    ensures Present(heap, e, entry, before + fields)
  {
    hide Shows;
    if exists i :: 0 <= i < |fields| && fields[i].key == entry.key && Shows(heap, entry.value, fields[i].out) {
      var i :| 0 <= i < |fields| && fields[i].key == entry.key && Shows(heap, entry.value, fields[i].out);
      assert (before + fields)[|before| + i] == fields[i];
    }
  }

  lemma PresentInFirst(heap: Heap, e: ErrorNode, entry: Field, fields: seq<OutField>, after: seq<OutField>)
    requires Present(heap, e, entry, fields)
    ensures Present(heap, e, entry, fields + after)
  {
    hide Shows;
    if exists i :: 0 <= i < |fields| && fields[i].key == entry.key && Shows(heap, entry.value, fields[i].out) {
      var i :| 0 <= i < |fields| && fields[i].key == entry.key && Shows(heap, entry.value, fields[i].out);
      assert (fields + after)[i] == fields[i];
    }
  }

  lemma {:induction false} ItemIsSafe(heap: Heap, item: Value, visited: set<nat>)
    ensures Safe(heap, SerializeItem(heap, item, visited).0) && ShowsItem(heap, item, SerializeItem(heap, item, visited).0)
    decreases heap.Keys - visited, 1
  {
    hide SerializeError, Safe;
    if IsErrorLike(heap, item) && item.id !in visited {
      ErrorIsSafe(heap, item.id, visited);
    } else {
      LeavesAreSafe(heap, SerializeItem(heap, item, visited).0);
    }
  }

  lemma {:induction false} ItemsAreSafe(heap: Heap, items: seq<Value>, visited: set<nat>)
    ensures var outs := SerializeItems(heap, items, visited).0;
            AllSafe(heap, outs) && Shows(heap, List(items), Items(outs))
    decreases heap.Keys - visited, 2, |items|
  {
    hide SerializeItem, Safe, ShowsItem;
    if items != [] {
      ItemIsSafe(heap, items[0], visited);
      var (first, v1) := SerializeItem(heap, items[0], visited);
      ItemsAreSafe(heap, items[1..], v1);
      var rest := SerializeItems(heap, items[1..], v1).0;
      var outs := SerializeItems(heap, items, visited).0;
      assert outs == [first] + rest;
      forall i | 0 <= i < |outs| ensures Safe(heap, outs[i]) && ShowsItem(heap, items[i], outs[i]) {
        if i > 0 { assert outs[i] == rest[i - 1] && items[i] == items[1..][i - 1]; }
      }
    }
  }

  lemma LeavesAreSafe(heap: Heap, out: Out)
    ensures !out.Node? && !out.Items? ==> Safe(heap, out)
  {
  }

  lemma {:induction false} FieldIsSafe(heap: Heap, e: ErrorNode, f: Field, visited: set<nat>)
    ensures var more := SerializeField(heap, e, f, visited).0;
            && FieldsSafe(heap, more) && (forall i :: 0 <= i < |more| ==> SafeField(heap, e, [f], more[i]))
            && Present(heap, e, f, more)
    decreases heap.Keys - visited, 3
  {
    hide SerializeError, SerializeItems, SafeNode, NameOf, HasName;
    var more := SerializeField(heap, e, f, visited).0;
    var name := NameOf(heap, f.value);
    forall n ensures name == Some(n) <==> HasName(heap, f.value, n) { NameIsRead(heap, f.value, n); }
    if !Dropped(e, f.key) && f.key != "command" {
      if IsErrorLike(heap, f.value) {
        if f.value.id !in visited { ErrorIsSafe(heap, f.value.id, visited); }
      } else if f.value.List? {
        ItemsAreSafe(heap, f.value.items, visited);
        assert f.value == List(f.value.items);
      }
    }
    if more != [] {
      assert more[0].key == f.key && Shows(heap, [f][0].value, more[0].out);
    }
  }

  lemma {:induction false} FieldsAreSafe(heap: Heap, e: ErrorNode, entries: seq<Field>, visited: set<nat>)
    ensures var fields := SerializeFields(heap, e, entries, visited).0;
            && FieldsSafe(heap, fields) && (forall i :: 0 <= i < |fields| ==> SafeField(heap, e, entries, fields[i]))
            && (forall i :: 0 <= i < |entries| ==> Present(heap, e, entries[i], fields))
            && (DistinctKeys(entries) ==> DistinctFields(fields, 0))
    decreases heap.Keys - visited, 4, |entries|
  {
    hide SerializeField, Safe, Shows, SafeField, Present;
    if entries != [] {
      FieldIsSafe(heap, e, entries[0], visited);
      var (first, v1) := SerializeField(heap, e, entries[0], visited);
      FieldsAreSafe(heap, e, entries[1..], v1);
      var rest := SerializeFields(heap, e, entries[1..], v1).0;
      var fields := SerializeFields(heap, e, entries, visited).0;
      assert fields == first + rest;
      if DistinctKeys(entries) { OneMoreKey(heap, e, entries, first, rest); }
      forall i | 0 <= i < |fields| ensures Safe(heap, fields[i].out) && SafeField(heap, e, entries, fields[i]) {
        if i < |first| {
          SafeInLonger(heap, e, [], [entries[0]], entries[1..], first[i]);
        } else {
          SafeInLonger(heap, e, [entries[0]], entries[1..], [], rest[i - |first|]);
        }
        assert [] + [entries[0]] + entries[1..] == entries && [entries[0]] + entries[1..] + [] == entries;
      }
      forall i | 0 <= i < |entries| ensures Present(heap, e, entries[i], fields) {
        if i == 0 {
          PresentInFirst(heap, e, entries[0], first, rest);
        } else {
          assert entries[i] == entries[1..][i - 1];
          PresentInLonger(heap, e, entries[i], first, rest);
        }
      }
    }
  }

  lemma OneMoreKey(heap: Heap, e: ErrorNode, entries: seq<Field>, first: seq<OutField>, rest: seq<OutField>)
    requires entries != [] && DistinctKeys(entries) && |first| <= 1
    requires forall i :: 0 <= i < |first| ==> SafeField(heap, e, [entries[0]], first[i])
    requires forall i :: 0 <= i < |rest| ==> SafeField(heap, e, entries[1..], rest[i])
    requires DistinctKeys(entries[1..]) ==> DistinctFields(rest, 0)
    ensures DistinctFields(first + rest, 0)
  {
    hide Shows;
    forall i | 0 <= i < |rest| ensures rest[i].key != entries[0].key {
      var tail := entries[1..];
      assert SafeField(heap, e, tail, rest[i]);
      var k :| 0 <= k < |tail| && tail[k].key == rest[i].key && Shows(heap, tail[k].value, rest[i].out);
      assert tail[k] == entries[k + 1];
    }
    assert forall i :: 0 <= i < |first| ==> first[i].key == entries[0].key;
  }

  lemma SafeInLonger(heap: Heap, e: ErrorNode, before: seq<Field>, entries: seq<Field>, after: seq<Field>, f: OutField)
    requires SafeField(heap, e, entries, f)
    ensures SafeField(heap, e, before + entries + after, f)
  {
    hide Shows;
    var i :| 0 <= i < |entries| && entries[i].key == f.key && Shows(heap, entries[i].value, f.out);
    assert (before + entries + after)[|before| + i] == entries[i];
  }

  /**
    * No expanded error carries a failed query's `params`, a `rawPacket`, a raw `cause` or more of a `command` than its
    * name; the message and the first place where a stack repeats it hold the SQL of a failed query alone; no error is copied out raw as a field or as an entry of a list; every other field is there as it was.
    */
  lemma SerializedIsSafe(heap: Heap, v: Value)
    ensures Safe(heap, SerializeForLog(heap, v))
  {
    hide SerializeError;
    if IsErrorLike(heap, v) {
      ErrorIsSafe(heap, v.id, {});
    } else {
      LeavesAreSafe(heap, SerializeForLog(heap, v));
    }
  }

  // ---------------------------------------------------------------- errors the serializer does not look for

  /** An error is somewhere in the value. */
  ghost predicate HoldsError(heap: Heap, v: Value)
  {
    match v
    case Err(id) => id in heap
    case List(items) => exists i :: 0 <= i < |items| && HoldsError(heap, items[i])
    case Object(members) => exists i :: 0 <= i < |members| && HoldsError(heap, members[i].value)
    case Text(_) => false
  }

  /** A list entry that is no error and holds one: an object or another list. */
  ghost predicate EntryHides(heap: Heap, v: Value) { (v.List? || v.Object?) && HoldsError(heap, v) }

  /** A field value that holds an error out of the serializer's sight: in an object, or in an entry of a list. */
  ghost predicate ValueHides(heap: Heap, v: Value)
  {
    if v.List? then exists i :: 0 <= i < |v.items| && EntryHides(heap, v.items[i]) else v.Object? && HoldsError(heap, v)
  }

  /** The output itself, not an error expanded in it, copies an error as it is. */
  ghost predicate CopiesError(heap: Heap, out: Out)
  {
    match out
    case Raw(v) => HoldsError(heap, v)
    case Items(outs) => exists i :: 0 <= i < |outs| && outs[i].Raw? && HoldsError(heap, outs[i].value)
    case _ => false
  }

  /** An entry of a serialized list is a raw value with an error in it exactly when it is an object or a list with one in it. */
  lemma RawEntries(heap: Heap, items: seq<Value>, visited: set<nat>, i: nat)
    requires i < |items|
    ensures var outs := SerializeItems(heap, items, visited).0;
            && |outs| == |items|
            && (CopiesError(heap, outs[i]) <==> EntryHides(heap, items[i]))
  {
    hide SerializeItems, AllSafe, HoldsError;
    ItemsAreSafe(heap, items, visited);
    var outs := SerializeItems(heap, items, visited).0;
    assert ShowsItem(heap, items[i], outs[i]);
    NoErrorInText(heap, items[i]);
  }

  lemma NoErrorInText(heap: Heap, v: Value)
    ensures v.Text? || (v.Err? && !IsErrorLike(heap, v)) ==> !HoldsError(heap, v)
  {
  }

  /** A field contributes a raw error exactly when it is shown, is no command, and its value hides one. */
  lemma RawFields(heap: Heap, e: ErrorNode, f: Field, visited: set<nat>)
    ensures var more := SerializeField(heap, e, f, visited).0;
            (more != [] && CopiesError(heap, more[0].out)) <==> !Dropped(e, f.key) && f.key != "command" && ValueHides(heap, f.value)
  {
    hide SerializeItems, SerializeError, HoldsError;
    NoErrorInText(heap, f.value);
    if f.value.List? {
      var items := f.value.items;
      var outs := SerializeItems(heap, items, visited).0;
      forall i | 0 <= i < |items| ensures |outs| == |items| && (CopiesError(heap, outs[i]) <==> EntryHides(heap, items[i]))
                                          && !outs[i].Items? {
        RawEntries(heap, items, visited, i);
        ItemsAreSafe(heap, items, visited);
        assert ShowsItem(heap, items[i], outs[i]);
      }
      ItemsAreSafe(heap, items, visited);
    }
  }

  /** The error has its `errors`, or a field it shows, that hides an error. */
  ghost predicate Leaks(heap: Heap, id: nat)
  {
    && id in heap
    && var e := heap[id];
       || (IsList(e.errors) && ValueHides(heap, e.errors.value))
       || exists i :: 0 <= i < |e.entries| && Leaky(heap, e, e.entries[i])
  }

  ghost predicate Leaky(heap: Heap, e: ErrorNode, f: Field)
  {
    !Dropped(e, f.key) && f.key != "command" && ValueHides(heap, f.value)
  }

  /** Somewhere in the output an error is copied as it is. */
  ghost predicate HoldsRaw(heap: Heap, out: Out)
    decreases out
  {
    match out
    case Node(_, _, _, _, fields) => exists i :: 0 <= i < |fields| && HoldsRaw(heap, fields[i].out)
    case Items(items) => exists i :: 0 <= i < |items| && HoldsRaw(heap, items[i])
    case Raw(v) => HoldsError(heap, v)
    case _ => false
  }

  lemma {:induction false} InItemIds(items: seq<Out>, x: nat)
    ensures x in ItemIds(items) <==> exists i :: 0 <= i < |items| && x in Ids(items[i])
  {
    hide Ids;
    if items != [] {
      InItemIds(items[1..], x);
      assert forall i :: 0 < i < |items| ==> items[i] == items[1..][i - 1];
      if i :| 0 <= i < |items[1..]| && x in Ids(items[1..][i]) { assert x in Ids(items[i + 1]); }
    }
  }

  lemma {:induction false} InFieldIds(fields: seq<OutField>, x: nat)
    ensures x in FieldIds(fields) <==> exists i :: 0 <= i < |fields| && x in Ids(fields[i].out)
  {
    hide Ids;
    if fields != [] {
      InFieldIds(fields[1..], x);
      assert forall i :: 0 < i < |fields| ==> fields[i] == fields[1..][i - 1];
      if i :| 0 <= i < |fields[1..]| && x in Ids(fields[1..][i].out) { assert x in Ids(fields[i + 1].out); }
    }
  }

  /** A leaking error is expanded somewhere in the output. */
  ghost predicate ExpandsLeak(heap: Heap, out: Out) { exists x :: x in Ids(out) && Leaks(heap, x) }

  /** What a field shows holds a raw error exactly when its value hides one or a leaking error is expanded in it. */
  lemma {:induction false} RawInShown(heap: Heap, value: Value, out: Out)
    requires Safe(heap, out) && Shows(heap, value, out) && !out.CommandName?
    ensures HoldsRaw(heap, out) <==> ValueHides(heap, value) || ExpandsLeak(heap, out)
    decreases out, 1
  {
    hide HoldsError, Leaks;
    NoErrorInText(heap, value);
    match out
    case Node(_, _, _, _, _) => RawInNode(heap, out);
    case Raw(_) =>
    case Items(outs) =>
      assert Ids(out) == ItemIds(outs);
      forall x ensures x in Ids(out) <==> exists i :: 0 <= i < |outs| && x in Ids(outs[i]) { InItemIds(outs, x); }
      forall i | 0 <= i < |outs| ensures HoldsRaw(heap, outs[i]) <==> EntryHides(heap, value.items[i]) || ExpandsLeak(heap, outs[i]) {
        assert ShowsItem(heap, value.items[i], outs[i]);
        NoErrorInText(heap, value.items[i]);
        if outs[i].Node? { RawInNode(heap, outs[i]); }
      }
      RawInItems(heap, value, outs);
  }

  lemma RawInItems(heap: Heap, value: Value, outs: seq<Out>)
    requires value.List? && |outs| == |value.items|
    requires forall i :: 0 <= i < |outs| ==> (HoldsRaw(heap, outs[i]) <==> EntryHides(heap, value.items[i]) || ExpandsLeak(heap, outs[i]))
    ensures HoldsRaw(heap, Items(outs)) <==> ValueHides(heap, value) || ExpandsLeak(heap, Items(outs))
  {
    hide HoldsError, Leaks, EntryHides;
    var out := Items(outs);
    forall x ensures x in Ids(out) <==> exists i :: 0 <= i < |outs| && x in Ids(outs[i]) { InItemIds(outs, x); }
    if ValueHides(heap, value) {
      var i :| 0 <= i < |outs| && EntryHides(heap, value.items[i]);
      assert HoldsRaw(heap, out.items[i]);
    }
    if ExpandsLeak(heap, out) {
      var x :| x in Ids(out) && Leaks(heap, x);
      var i :| 0 <= i < |outs| && x in Ids(outs[i]);
      assert HoldsRaw(heap, out.items[i]);
    }
    if HoldsRaw(heap, out) {
      var i :| 0 <= i < |outs| && HoldsRaw(heap, out.items[i]);
      assert EntryHides(heap, value.items[i]) || ExpandsLeak(heap, outs[i]);
    }
  }

  /** The value a field of an expanded error shows: that of one of its entries, or its list of errors. */
  lemma ShownValue(heap: Heap, out: Out, i: nat) returns (value: Value)
    requires out.Node? && SafeNode(heap, out) && i < |out.fields| && !out.fields[i].out.CommandName?
    ensures Shows(heap, value, out.fields[i].out)
    ensures ValueHides(heap, value) ==> Leaks(heap, out.id)
  {
    hide Shows, ValueHides, Present, SafeTexts;
    var e, f := heap[out.id], out.fields[i];
    if SafeField(heap, e, e.entries, f) {
      var k :| 0 <= k < |e.entries| && e.entries[k].key == f.key && Shows(heap, e.entries[k].value, f.out);
      value := e.entries[k].value;
      assert ValueHides(heap, value) ==> Leaky(heap, e, e.entries[k]);
    } else {
      value := e.errors.value;
    }
  }

  /** A leaking error shows the value that leaks. */
  lemma LeakIsShown(heap: Heap, out: Out) returns (value: Value, i: nat)
    requires out.Node? && SafeNode(heap, out) && Leaks(heap, out.id)
    ensures ValueHides(heap, value) && i < |out.fields| && Shows(heap, value, out.fields[i].out) && !out.fields[i].out.CommandName?
  {
    hide HoldsError, SafeTexts;
    var e := heap[out.id];
    if IsList(e.errors) && ValueHides(heap, e.errors.value) {
      value, i := e.errors.value, 0;
    } else {
      var k :| 0 <= k < |e.entries| && Leaky(heap, e, e.entries[k]);
      value := e.entries[k].value;
      assert Present(heap, e, e.entries[k], out.fields);
      i :| 0 <= i < |out.fields| && out.fields[i].key == e.entries[k].key && Shows(heap, value, out.fields[i].out);
    }
  }

  /** An expanded error holds a raw error exactly when it, or an error expanded in it, leaks one. */
  lemma {:induction false} RawInNode(heap: Heap, out: Out)
    requires Safe(heap, out) && out.Node?
    ensures HoldsRaw(heap, out) <==> ExpandsLeak(heap, out)
    decreases out, 0
  {
    hide HoldsError, Shows, ValueHides, SafeNode, Leaks;
    var fields := out.fields;
    assert Ids(out) == [out.id] + FieldIds(fields);
    if HoldsRaw(heap, out) {
      var i :| 0 <= i < |fields| && HoldsRaw(heap, fields[i].out);
      var value := ShownValue(heap, out, i);
      RawInShown(heap, value, fields[i].out);
      if Leaks(heap, out.id) {
        assert out.id in Ids(out);
      } else {
        var x :| x in Ids(fields[i].out) && Leaks(heap, x);
        InFieldIds(fields, x);
      }
    }
    if ExpandsLeak(heap, out) {
      var x :| x in Ids(out) && Leaks(heap, x);
      if x == out.id {
        var value, i := LeakIsShown(heap, out);
        RawInShown(heap, value, fields[i].out);
      } else {
        InFieldIds(fields, x);
        var i :| 0 <= i < |fields| && x in Ids(fields[i].out);
        var value := ShownValue(heap, out, i);
        RawInShown(heap, value, fields[i].out);
      }
    }
  }

  /** The value leads to a leaking error, or holds an error and is none. */
  ghost predicate LeaksFrom(heap: Heap, v: Value)
  {
    if IsErrorLike(heap, v) then exists walk, id :: IsWalk(ErrorGraph(heap), {v.id}, walk, id) && Leaks(heap, id)
    else HoldsError(heap, v)
  }

  /**
    * The serializer assigns an error as it is, somewhere, exactly when an error that fields and lists lead to from the
    * logged one has a field that hides an error in an object or in a list within a list.
    */
  lemma RawErrorsAssigned(heap: Heap, v: Value)
    ensures HoldsRaw(heap, SerializeForLog(heap, v)) <==> LeaksFrom(heap, v)
  {
    hide SerializeError, ErrorGraph, IsWalk, Leaks, Safe, IsClosure;
    if IsErrorLike(heap, v) {
      var out := SerializeForLog(heap, v);
      SerializedIsSafe(heap, v);
      RawInNode(heap, out);
      ExpandsReachableOnce(heap, v.id);
      forall x ensures x in Ids(out) <==> exists walk :: IsWalk(ErrorGraph(heap), {v.id}, walk, x) {
        ClosureIsReachable(ErrorGraph(heap), {v.id}, Elements(Ids(out)), x);
      }
      if walk, id :| IsWalk(ErrorGraph(heap), {v.id}, walk, id) && Leaks(heap, id) {
        assert id in Ids(out);
      }
    }
  }

  // ---------------------------------------------------------------- assignments that are written over

  /** The assignment is what the log shows under its key: no later one and none of the three fixed members replaces it. */
  predicate Written(fields: seq<OutField>, i: nat)
    requires i < |fields|
  {
    && fields[i].key != "type" && fields[i].key != "message" && fields[i].key != "stack"
    && forall j :: i < j < |fields| ==> fields[j].key != fields[i].key
  }

  /** An error is copied as it is in what the log shows. */
  ghost predicate ShowsRaw(heap: Heap, out: Out)
    decreases out
  {
    match out
    case Node(_, _, _, _, fields) => exists i :: 0 <= i < |fields| && Written(fields, i) && ShowsRaw(heap, fields[i].out)
    case Items(items) => exists i :: 0 <= i < |items| && ShowsRaw(heap, items[i])
    case Raw(v) => HoldsError(heap, v)
    case _ => false
  }

  /**
    * What the serializer writes over holds no error: an own field called `type`, `message` or `stack`, and the list of
    * errors when there is an own field `aggregateErrors`. An object has no two fields of one name.
    */
  ghost predicate QuietError(heap: Heap, e: ErrorNode)
  {
    && DistinctKeys(e.entries)
    && forall i :: 0 <= i < |e.entries| ==>
         && (e.entries[i].key in ["type", "message", "stack"] ==> !HoldsError(heap, e.entries[i].value))
         && (e.entries[i].key == "aggregateErrors" && IsList(e.errors) ==> !HoldsError(heap, e.errors.value))
  }

  ghost predicate Quiet(heap: Heap) { forall id :: id in heap ==> QuietError(heap, heap[id]) }

  /** What is shown of a value without errors holds none. */
  lemma QuietIsSilent(heap: Heap, value: Value, out: Out)
    requires Shows(heap, value, out) && !HoldsError(heap, value) && Safe(heap, out)
    ensures !HoldsRaw(heap, out)
  {
    hide SafeTexts, SafeField, Present;
    if out.Items? {
      forall i | 0 <= i < |out.items| ensures !HoldsRaw(heap, out.items[i]) {
        assert ShowsItem(heap, value.items[i], out.items[i]) && !HoldsError(heap, value.items[i]) && Safe(heap, out.items[i]);
      }
    }
  }

  /** An assignment that holds a raw error is not written over. */
  lemma RawIsWritten(heap: Heap, out: Out, i: nat)
    requires Quiet(heap) && out.Node? && Safe(heap, out) && i < |out.fields| && HoldsRaw(heap, out.fields[i].out)
    ensures Written(out.fields, i)
  {
    hide Shows, Present, HoldsError, HoldsRaw, SafeTexts;
    var e, fields := heap[out.id], out.fields;
    var skip := if IsList(e.errors) then 1 else 0;
    assert QuietError(heap, e) && Safe(heap, fields[i].out);
    if i >= skip {
      var m := EntryOf(heap, e, fields[i]);
      if fields[i].key in ["type", "message", "stack"] { QuietIsSilent(heap, e.entries[m].value, fields[i].out); }
    } else {
      forall j | i < j < |fields| ensures fields[j].key != "aggregateErrors" {
        var m := EntryOf(heap, e, fields[j]);
        if fields[j].key == "aggregateErrors" { QuietIsSilent(heap, e.errors.value, fields[i].out); }
      }
    }
  }

  lemma EntryOf(heap: Heap, e: ErrorNode, f: OutField) returns (m: nat)
    requires SafeField(heap, e, e.entries, f)
    ensures m < |e.entries| && e.entries[m].key == f.key && Shows(heap, e.entries[m].value, f.out)
  {
    m :| 0 <= m < |e.entries| && e.entries[m].key == f.key && Shows(heap, e.entries[m].value, f.out);
  }

  /** What is shown was assigned, and what was assigned is shown when nothing that holds an error is written over. */
  lemma {:induction false} ShownIsAssigned(heap: Heap, out: Out)
    requires Safe(heap, out)
    ensures ShowsRaw(heap, out) ==> HoldsRaw(heap, out)
    ensures Quiet(heap) ==> (ShowsRaw(heap, out) <==> HoldsRaw(heap, out))
    decreases out
  {
    hide HoldsError, SafeNode, Written, Quiet;
    match out
    case Node(_, _, _, _, fields) =>
      forall i | 0 <= i < |fields|
        ensures ShowsRaw(heap, fields[i].out) ==> HoldsRaw(heap, fields[i].out)
        ensures Quiet(heap) && HoldsRaw(heap, fields[i].out) ==> Written(fields, i) && ShowsRaw(heap, fields[i].out)
      {
        ShownIsAssigned(heap, fields[i].out);
        if Quiet(heap) && HoldsRaw(heap, fields[i].out) { RawIsWritten(heap, out, i); }
      }
    case Items(items) =>
      forall i | 0 <= i < |items|
        ensures ShowsRaw(heap, items[i]) ==> HoldsRaw(heap, items[i])
        ensures Quiet(heap) ==> (ShowsRaw(heap, items[i]) <==> HoldsRaw(heap, items[i]))
      {
        ShownIsAssigned(heap, items[i]);
      }
    case _ =>
  }

  /**
    * The log shows an error as it is only when an error that fields and lists lead to from the logged one hides one in
    * an object or in a list within a list; and it does so exactly then when nothing that holds an error is written over.
    */
  lemma RawErrorsInLog(heap: Heap, v: Value)
    ensures ShowsRaw(heap, SerializeForLog(heap, v)) ==> LeaksFrom(heap, v)
    ensures Quiet(heap) ==> (ShowsRaw(heap, SerializeForLog(heap, v)) <==> LeaksFrom(heap, v))
  {
    hide SerializeForLog, LeaksFrom, Quiet, Safe, ShowsRaw, HoldsRaw;
    SerializedIsSafe(heap, v);
    ShownIsAssigned(heap, SerializeForLog(heap, v));
    RawErrorsAssigned(heap, v);
  }

  // ---------------------------------------------------------------- inputs

  /** A failed query with its parameters as an own field. */
  function FailedQuery(): (e: ErrorNode)
  {
    ErrorNode("DrizzleQueryError", None, "Failed query: insert\nparams: secret", None, None, None, Some("insert"),
              [Field("params", List([Text("secret")]))])
  }

  function ErrorWith(errors: Option<Value>, entries: seq<Field>): (e: ErrorNode)
  {
    ErrorNode("AggregateError", None, "several", None, None, errors, None, entries)
  }

  /**
    * A failed query reaches the log with its parameters through an object in `errors`, through an object in a field
    * and through a list in a list, and through none of them when it is an entry itself.
    */
  lemma RawErrorInputs(shape: Value, errors: Option<Value>, entries: seq<Field>)
    requires shape in [Object([Field("inner", Err(1))]), List([Err(1)]), Err(1)]
    requires (errors == Some(List([shape])) && entries == [])
          || (errors == None && entries == [Field("previousErrors", List([shape]))])
          || (errors == None && shape.Object? && entries == [Field("detail", shape)])
    ensures var heap := map[0 := ErrorWith(errors, entries), 1 := FailedQuery()];
            ShowsRaw(heap, SerializeForLog(heap, Err(0))) <==> shape != Err(1)
  {
    hide ErrorGraph, SerializeForLog, ShowsRaw, ValueHides, HoldsError;
    var heap := map[0 := ErrorWith(errors, entries), 1 := FailedQuery()];
    assert Quiet(heap);
    RawErrorsInLog(heap, Err(0));
    ShapeHides(heap, shape);
    assert !Leaks(heap, 1);
    if shape != Err(1) {
      assert IsWalk(ErrorGraph(heap), {0}, [0], 0);
      assert entries != [] ==> Leaky(heap, heap[0], heap[0].entries[0]);
    }
  }

  lemma ShapeHides(heap: Heap, shape: Value)
    requires 1 in heap && shape in [Object([Field("inner", Err(1))]), List([Err(1)]), Err(1)]
    ensures ValueHides(heap, List([shape])) <==> shape != Err(1)
    ensures shape.Object? ==> ValueHides(heap, shape)
  {
    assert shape.Object? ==> HoldsError(heap, shape.members[0].value);
    assert shape.List? ==> HoldsError(heap, shape.items[0]);
    assert shape != Err(1) ==> EntryHides(heap, List([shape]).items[0]);
  }

  /** A failed query inside an own field `type` is assigned and then written over: the log does not show it. */
  lemma OverwrittenInput()
    ensures var heap := map[0 := ErrorWith(None, [Field("type", Object([Field("inner", Err(1))]))]), 1 := FailedQuery()];
            var out := SerializeForLog(heap, Err(0));
            HoldsRaw(heap, out) && !ShowsRaw(heap, out) && LeaksFrom(heap, Err(0))
  {
    var entry := Field("type", Object([Field("inner", Err(1))]));
    var heap := map[0 := ErrorWith(None, [entry]), 1 := FailedQuery()];
    var out := SerializeForLog(heap, Err(0));
    assert HoldsError(heap, entry.value) by { assert HoldsError(heap, entry.value.members[0].value); }
    RawErrorsAssigned(heap, Err(0));
    assert LeaksFrom(heap, Err(0)) by {
      hide ErrorGraph;
      assert IsWalk(ErrorGraph(heap), {0}, [0], 0);
      assert Leaky(heap, heap[0], heap[0].entries[0]);
    }
    TypeIsAssigned(heap, entry);
  }

  lemma TypeIsAssigned(heap: Heap, entry: Field)
    requires 0 in heap && heap[0] == ErrorWith(None, [entry]) && entry.key == "type"
    ensures var out := SerializeForLog(heap, Err(0));
            out.Node? && forall i :: 0 <= i < |out.fields| ==> out.fields[i].key == "type"
  {
    hide ChainMessage, ChainStack;
    SerializedIsSafe(heap, Err(0));
    var out := SerializeForLog(heap, Err(0));
    forall i | 0 <= i < |out.fields| ensures out.fields[i].key == "type" {
      assert SafeField(heap, heap[0], heap[0].entries, out.fields[i]);
    }
  }
}
