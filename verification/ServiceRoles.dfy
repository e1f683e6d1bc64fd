/**
  * Which plugins and repositories a process builds for its service roles: the plugins its roles and their routes
  * name, and everything those need. The route manifest, the role table, the dependency table and the job list are
  * parameters.
  */
module ServiceRoles {
  import opened Reachability

  datatype RouteModule = RouteModule(roles: seq<string>, plugins: seq<string>, repositories: seq<string>)

  datatype Job = Job(role: string, repositories: seq<string>)

  datatype Manifest = Manifest(
    routes: seq<RouteModule>,
    rolePlugins: string -> seq<string>,
    roleRepositories: string -> seq<string>,
    dependencies: map<string, seq<string>>,
    pluginRepositories: map<string, seq<string>>,
    jobs: seq<Job>,
    coreRepositories: seq<string>,
    /** Every plugin and every repository, in the order they are listed. */
    pluginOrder: seq<string>,
    repositoryOrder: seq<string>)

  function Dependencies(m: Manifest): (g: Graph<string>)
  {
    map p | p in m.dependencies :: Elements(m.dependencies[p])
  }

  /** Some role of the module is among `roles`. */
  predicate Serves(entry: RouteModule, roles: seq<string>)
  {
    exists i :: 0 <= i < |entry.roles| && entry.roles[i] in roles
  }

  /** What a list names for the process, list entry by list entry. */
  function RoutePlugins(routes: seq<RouteModule>, roles: seq<string>): (r: set<string>)
    ensures forall p :: p in r <==> exists e :: e in routes && Serves(e, roles) && p in e.plugins
  {
    if routes == [] then {}
    else
      var e := routes[|routes| - 1];
      assert forall x :: x in routes <==> x in routes[..|routes| - 1] || x == e;
      RoutePlugins(routes[..|routes| - 1], roles) + (if Serves(e, roles) then Elements(e.plugins) else {})
  }

  function RolePlugins(m: Manifest, roles: seq<string>): (r: set<string>)
    ensures forall p :: p in r <==> exists role :: role in roles && p in m.rolePlugins(role)
  {
    if roles == [] then {}
    else
      var last := roles[|roles| - 1];
      assert forall x :: x in roles <==> x in roles[..|roles| - 1] || x == last;
      RolePlugins(m, roles[..|roles| - 1]) + Elements(m.rolePlugins(last))
  }

  /** The plugins the roles and their routes name themselves. */
  function Seeds(m: Manifest, roles: seq<string>): (r: set<string>)
  {
    RoutePlugins(m.routes, roles) + RolePlugins(m, roles)
  }

  /** `order`, without the names that are not in `chosen`. */
  function InOrder(order: seq<string>, chosen: set<string>): (r: seq<string>)
    ensures forall x :: x in r <==> x in order && x in chosen
  {
    if order == [] then []
    else
      assert forall x :: x in order <==> x == order[0] || x in order[1..];
      (if order[0] in chosen then [order[0]] else []) + InOrder(order[1..], chosen)
  }

  /** The chosen names stand in the list as often and in the order they stand in `order`. */
  ghost predicate ArePlaces<T(!new)>(order: seq<T>, chosen: set<T>, from: nat, names: seq<T>, places: seq<nat>)
  {
    && |places| == |names|
    && (forall i, j :: 0 <= i < j < |places| ==> places[i] < places[j])
    && (forall i :: 0 <= i < |places| ==> from <= places[i] < |order| && names[i] == order[places[i]])
    && (forall k :: from <= k < |order| ==> (order[k] in chosen <==> k in places))
  }

  lemma {:induction false} PlacesFrom(order: seq<string>, chosen: set<string>, from: nat) returns (places: seq<nat>)
    requires from <= |order|
    ensures ArePlaces(order, chosen, from, InOrder(order[from..], chosen), places)
    decreases |order| - from
  {
    hide ArePlaces;
    var tail := order[from..];
    if from == |order| {
      places := [];
      NoPlaces(order, chosen);
    } else {
      var rest := PlacesFrom(order, chosen, from + 1);
      PlacesStep(order, chosen, from, InOrder(order[from + 1..], chosen), rest);
      places := if order[from] in chosen then [from] + rest else rest;
      assert tail[0] == order[from] && tail[1..] == order[from + 1..];
      var names := InOrder(tail[1..], chosen);
      assert InOrder(tail, chosen) == if order[from] in chosen then [order[from]] + names else [] + names;
      assert [] + names == names;
    }
  }

  lemma NoPlaces(order: seq<string>, chosen: set<string>)
    ensures ArePlaces(order, chosen, |order|, [], [])
  {
  }

  lemma PlacesStep<T(!new)>(order: seq<T>, chosen: set<T>, from: nat, names: seq<T>, places: seq<nat>)
    requires from < |order| && ArePlaces(order, chosen, from + 1, names, places)
    ensures if order[from] in chosen then ArePlaces(order, chosen, from, [order[from]] + names, [from] + places)
            else ArePlaces(order, chosen, from, names, places)
  {
    var more := [from] + places;
    assert forall k :: k in more <==> k == from || k in places;
    assert forall i :: 0 < i < |more| ==> more[i] == places[i - 1] && ([order[from]] + names)[i] == names[i - 1];
  }

  lemma InOrderPlaces(order: seq<string>, chosen: set<string>) returns (places: seq<nat>)
    ensures ArePlaces(order, chosen, 0, InOrder(order, chosen), places)
  {
    places := PlacesFrom(order, chosen, 0);
    assert order[0..] == order;
  }

  /** The set a run of `pluginsFor` fills. */
  class PluginSet {
    const m: Manifest
    var plugins: set<string>

    constructor (manifest: Manifest)
      ensures m == manifest && plugins == {}
    {
      m, plugins := manifest, {};
    }

    /** Adds a plugin and what it needs, once; dependencies may be cyclic. */
    method Add(plugin: string, ghost universe: set<string>)
      requires plugin in universe && plugins <= universe && Closed(Dependencies(m), universe)
      modifies this`plugins
      ensures Grown(Dependencies(m), old(plugins), {plugin}, plugins) && plugins <= universe
      decreases universe - plugins, 1
    {
      hide Grown;
      ghost var g := Dependencies(m);
      if plugin in plugins {
        GrownNothing(g, plugins, {plugin});
        return;
      }
      plugins := plugins + {plugin};
      var needed := if plugin in m.dependencies then m.dependencies[plugin] else [];
      assert Elements(needed) == Succ(g, plugin);
      AddAll(needed, universe);
      GrownNode(g, old(plugins), plugin, plugins);
    }

    method AddAll(names: seq<string>, ghost universe: set<string>)
      requires Elements(names) <= universe && plugins <= universe && Closed(Dependencies(m), universe)
      modifies this`plugins
      ensures Grown(Dependencies(m), old(plugins), Elements(names), plugins) && plugins <= universe
      decreases universe - plugins, 2, |names|
    {
      hide Grown;
      ghost var g := Dependencies(m);
      if names == [] {
        GrownNothing(g, plugins, {});
        assert Elements(names) == {};
      } else {
        var first, rest := names[0], names[1..];
        assert Elements(names) == {first} + Elements(rest);
        Add(first, universe);
        ghost var middle := plugins;
        GrownContains(g, old(plugins), {first}, middle);
        AddAll(rest, universe);
        GrownTwice(g, old(plugins), {first}, middle, Elements(rest), plugins);
      }
    }
  }

  /** Every plugin name the manifest mentions. */
  ghost function Mentioned(m: Manifest, roles: seq<string>): (r: set<string>)
    ensures Seeds(m, roles) <= r && Closed(Dependencies(m), r)
  {
    Seeds(m, roles) + (set p, q | p in m.dependencies && q in m.dependencies[p] :: q)
  }

  lemma RoutePluginsStep(routes: seq<RouteModule>, roles: seq<string>, i: nat)
    requires i < |routes|
    ensures RoutePlugins(routes[..i + 1], roles) ==
            RoutePlugins(routes[..i], roles) + (if Serves(routes[i], roles) then Elements(routes[i].plugins) else {})
    ensures Serves(routes[i], roles) ==> Elements(routes[i].plugins) <= RoutePlugins(routes, roles)
  {
    assert routes[..i + 1][..i] == routes[..i];
    assert routes[i] in routes;
  }

  lemma RolePluginsStep(m: Manifest, roles: seq<string>, i: nat)
    requires i < |roles|
    ensures RolePlugins(m, roles[..i + 1]) == RolePlugins(m, roles[..i]) + Elements(m.rolePlugins(roles[i]))
    ensures Elements(m.rolePlugins(roles[i])) <= RolePlugins(m, roles)
  {
    assert roles[..i + 1][..i] == roles[..i];
    assert roles[i] in roles;
  }

  method AddRoutes(s: PluginSet, roles: seq<string>, ghost universe: set<string>)
    requires RoutePlugins(s.m.routes, roles) <= universe && Closed(Dependencies(s.m), universe)
    requires s.plugins == {}
    modifies s
    ensures s.plugins <= universe
    ensures Grown(Dependencies(s.m), {}, RoutePlugins(s.m.routes, roles), s.plugins)
  {
    hide Grown, RoutePlugins, Elements, Closed, Dependencies, Serves;
    var routes := s.m.routes;
    ghost var g := Dependencies(s.m);
    NoPlugins(s.m, roles);
    assert routes[..0] == [];
    GrownNothing(g, {}, {});
    var i := 0;
    while i < |routes|
      invariant 0 <= i <= |routes| && s.plugins <= universe
      invariant Grown(g, {}, RoutePlugins(routes[..i], roles), s.plugins)
    {
      RoutePluginsStep(routes, roles, i);
      if Serves(routes[i], roles) {
        ghost var before := s.plugins;
        s.AddAll(routes[i].plugins, universe);
        GrownTwice(g, {}, RoutePlugins(routes[..i], roles), before, Elements(routes[i].plugins), s.plugins);
      } else {
        assert RoutePlugins(routes[..i], roles) + {} == RoutePlugins(routes[..i], roles);
      }
      i := i + 1;
    }
    assert routes[..i] == routes;
  }

  lemma NoPlugins(m: Manifest, roles: seq<string>)
    ensures RoutePlugins([], roles) == {} && RolePlugins(m, []) == {}
  {
  }

  method AddRoles(s: PluginSet, roles: seq<string>, ghost routed: set<string>, ghost universe: set<string>)
    requires RolePlugins(s.m, roles) <= universe && s.plugins <= universe && Closed(Dependencies(s.m), universe)
    requires Grown(Dependencies(s.m), {}, routed, s.plugins)
    modifies s
    ensures Grown(Dependencies(s.m), {}, routed + RolePlugins(s.m, roles), s.plugins)
  {
    hide Grown, RolePlugins, Elements, Closed, Dependencies;
    ghost var g := Dependencies(s.m);
    NoPlugins(s.m, roles);
    assert roles[..0] == [] && routed + {} == routed;
    var i := 0;
    while i < |roles|
      invariant 0 <= i <= |roles| && s.plugins <= universe
      invariant Grown(g, {}, routed + RolePlugins(s.m, roles[..i]), s.plugins)
    {
      RolePluginsStep(s.m, roles, i);
      var names := s.m.rolePlugins(roles[i]);
      ghost var before, known := s.plugins, RolePlugins(s.m, roles[..i]);
      s.AddAll(names, universe);
      GrownTwice(g, {}, routed + known, before, Elements(names), s.plugins);
      assert routed + known + Elements(names) == routed + (known + Elements(names));
      i := i + 1;
    }
    assert roles[..i] == roles;
  }

  /** The plugins of a process, in registration order, and the set they are chosen from. */
  method PluginsFor(m: Manifest, roles: seq<string>) returns (r: seq<string>, ghost closure: set<string>)
    ensures IsClosure(Dependencies(m), Seeds(m, roles), closure)
    ensures r == InOrder(m.pluginOrder, closure)
  {
    hide Grown, IsClosure, Closed;
    ghost var universe := Mentioned(m, roles);
    var s := new PluginSet(m);
    AddRoutes(s, roles, universe);
    AddRoles(s, roles, RoutePlugins(m.routes, roles), universe);
    closure := s.plugins;
    GrownFromNothing(Dependencies(m), Seeds(m, roles), closure);
    r := InOrder(m.pluginOrder, s.plugins);
  }

  // ---------------------------------------------------------------- repositories

  function RouteRepositories(routes: seq<RouteModule>, roles: seq<string>): (r: set<string>)
  {
    set e, p | e in routes && Serves(e, roles) && p in e.repositories :: p
  }

  function PluginRepositories(m: Manifest, plugins: seq<string>): (r: set<string>)
  {
    set q, p | q in plugins && q in m.pluginRepositories && p in m.pluginRepositories[q] :: p
  }

  function JobRepositories(jobs: seq<Job>, roles: seq<string>): (r: set<string>)
  {
    set j, p | j in jobs && j.role in roles && p in j.repositories :: p
  }

  function RoleRepositories(m: Manifest, roles: seq<string>): (r: set<string>)
  {
    set role, p | role in roles && p in m.roleRepositories(role) :: p
  }

  /** The repositories the process uses, given the plugins it registers. */
  function Used(m: Manifest, roles: seq<string>, plugins: seq<string>): (r: set<string>)
  {
    Elements(m.coreRepositories) + RouteRepositories(m.routes, roles) + PluginRepositories(m, plugins)
    + JobRepositories(m.jobs, roles) + RoleRepositories(m, roles)
  }

  method UsedByRoutes(routes: seq<RouteModule>, roles: seq<string>) returns (used: set<string>)
    ensures used == RouteRepositories(routes, roles)
  {
    hide Serves;
    used := {};
    var i := 0;
    while i < |routes|
      invariant 0 <= i <= |routes| && used == RouteRepositories(routes[..i], roles)
    {
      assert routes[..i + 1] == routes[..i] + [routes[i]];
      if Serves(routes[i], roles) { used := used + Elements(routes[i].repositories); }
      i := i + 1;
    }
    assert routes[..i] == routes;
  }

  method UsedByPlugins(m: Manifest, plugins: seq<string>) returns (used: set<string>)
    ensures used == PluginRepositories(m, plugins)
  {
    used := {};
    var i := 0;
    while i < |plugins|
      invariant 0 <= i <= |plugins| && used == PluginRepositories(m, plugins[..i])
    {
      assert plugins[..i + 1] == plugins[..i] + [plugins[i]];
      if plugins[i] in m.pluginRepositories { used := used + Elements(m.pluginRepositories[plugins[i]]); }
      i := i + 1;
    }
    assert plugins[..i] == plugins;
  }

  method UsedByJobs(jobs: seq<Job>, roles: seq<string>) returns (used: set<string>)
    ensures used == JobRepositories(jobs, roles)
  {
    used := {};
    var i := 0;
    while i < |jobs|
      invariant 0 <= i <= |jobs| && used == JobRepositories(jobs[..i], roles)
    {
      assert jobs[..i + 1] == jobs[..i] + [jobs[i]];
      if jobs[i].role in roles { used := used + Elements(jobs[i].repositories); }
      i := i + 1;
    }
    assert jobs[..i] == jobs;
  }

  method UsedByRoles(m: Manifest, roles: seq<string>) returns (used: set<string>)
    ensures used == RoleRepositories(m, roles)
  {
    used := {};
    var i := 0;
    while i < |roles|
      invariant 0 <= i <= |roles| && used == RoleRepositories(m, roles[..i])
    {
      assert roles[..i + 1] == roles[..i] + [roles[i]];
      used := used + Elements(m.roleRepositories(roles[i]));
      i := i + 1;
    }
    assert roles[..i] == roles;
  }

  method RepositoriesFor(m: Manifest, roles: seq<string>) returns (r: seq<string>, ghost closure: set<string>)
    ensures IsClosure(Dependencies(m), Seeds(m, roles), closure)
    ensures r == InOrder(m.repositoryOrder, Used(m, roles, InOrder(m.pluginOrder, closure)))
  {
    hide IsClosure, RouteRepositories, PluginRepositories, JobRepositories, RoleRepositories, Seeds, Dependencies;
    var used := Elements(m.coreRepositories);
    var routed := UsedByRoutes(m.routes, roles);
    var plugins, c := PluginsFor(m, roles);
    closure := c;
    var plugged := UsedByPlugins(m, plugins);
    var jobs := UsedByJobs(m.jobs, roles);
    var own := UsedByRoles(m, roles);
    r := InOrder(m.repositoryOrder, used + routed + plugged + jobs + own);
  }

  // ---------------------------------------------------------------- a process with the roles of two

  lemma ServesUnion(e: RouteModule, a: seq<string>, b: seq<string>)
    ensures Serves(e, a + b) <==> Serves(e, a) || Serves(e, b)
  {
    if Serves(e, a) {
      var i :| 0 <= i < |e.roles| && e.roles[i] in a;
      assert e.roles[i] in a + b;
    }
    if Serves(e, b) {
      var i :| 0 <= i < |e.roles| && e.roles[i] in b;
      assert e.roles[i] in a + b;
    }
  }

  lemma SeedsOfUnion(m: Manifest, a: seq<string>, b: seq<string>)
    ensures Seeds(m, a + b) == Seeds(m, a) + Seeds(m, b)
  {
    forall e: RouteModule ensures Serves(e, a + b) <==> Serves(e, a) || Serves(e, b) { ServesUnion(e, a, b); }
    hide Serves;
    assert RoutePlugins(m.routes, a + b) == RoutePlugins(m.routes, a) + RoutePlugins(m.routes, b);
    assert RolePlugins(m, a + b) == RolePlugins(m, a) + RolePlugins(m, b);
  }

  /**
    * The plugins and repositories of a process that holds two lists of roles are the union of what each list needs,
    * listed in the same fixed order.
    */
  lemma RolesAddUp(m: Manifest, a: seq<string>, b: seq<string>, s: set<string>, t: set<string>, both: set<string>)
    requires IsClosure(Dependencies(m), Seeds(m, a), s) && IsClosure(Dependencies(m), Seeds(m, b), t)
    requires IsClosure(Dependencies(m), Seeds(m, a + b), both)
    ensures both == s + t
    ensures forall p :: p in InOrder(m.pluginOrder, both) <==> p in InOrder(m.pluginOrder, s) || p in InOrder(m.pluginOrder, t)
    ensures Used(m, a + b, InOrder(m.pluginOrder, both)) ==
            Used(m, a, InOrder(m.pluginOrder, s)) + Used(m, b, InOrder(m.pluginOrder, t))
  {
    hide IsClosure;
    SeedsOfUnion(m, a, b);
    ClosureOfUnion(Dependencies(m), Seeds(m, a), Seeds(m, b), s, t);
    ClosureIsUnique(Dependencies(m), Seeds(m, a + b), both, s + t);
    UsedOfUnion(m, a, b, InOrder(m.pluginOrder, s), InOrder(m.pluginOrder, t), InOrder(m.pluginOrder, both));
  }

  lemma UsedOfUnion(m: Manifest, a: seq<string>, b: seq<string>, p: seq<string>, q: seq<string>, both: seq<string>)
    requires forall x :: x in both <==> x in p || x in q
    ensures Used(m, a + b, both) == Used(m, a, p) + Used(m, b, q)
  {
    forall e: RouteModule ensures Serves(e, a + b) <==> Serves(e, a) || Serves(e, b) { ServesUnion(e, a, b); }
    hide Serves;
    assert RouteRepositories(m.routes, a + b) == RouteRepositories(m.routes, a) + RouteRepositories(m.routes, b);
    assert PluginRepositories(m, both) == PluginRepositories(m, p) + PluginRepositories(m, q);
    assert JobRepositories(m.jobs, a + b) == JobRepositories(m.jobs, a) + JobRepositories(m.jobs, b);
    assert RoleRepositories(m, a + b) == RoleRepositories(m, a) + RoleRepositories(m, b);
  }

  // ---------------------------------------------------------------- what a process starts from

  /** The plugins named for the process: by a route module that shares a role with it, or by one of its roles. */
  lemma SeedsMean(m: Manifest, roles: seq<string>, p: string)
    ensures p in Seeds(m, roles) <==>
            || (exists e, role :: e in m.routes && role in e.roles && role in roles && p in e.plugins)
            || (exists role :: role in roles && p in m.rolePlugins(role))
  {
    if p in RoutePlugins(m.routes, roles) {
      var e :| e in m.routes && Serves(e, roles) && p in e.plugins;
      var i :| 0 <= i < |e.roles| && e.roles[i] in roles;
      assert e.roles[i] in e.roles;
    }
    if e, role :| e in m.routes && role in e.roles && role in roles && p in e.plugins {
      var i :| 0 <= i < |e.roles| && e.roles[i] == role;
      assert Serves(e, roles);
    }
  }

  /** The repositories it uses: the core ones, and those of such route modules, its plugins, its jobs and its roles. */
  lemma UsedMeans(m: Manifest, roles: seq<string>, plugins: seq<string>, p: string)
    ensures p in Used(m, roles, plugins) <==>
            || p in m.coreRepositories
            || (exists e, role :: e in m.routes && role in e.roles && role in roles && p in e.repositories)
            || (exists q :: q in plugins && q in m.pluginRepositories && p in m.pluginRepositories[q])
            || (exists j :: j in m.jobs && j.role in roles && p in j.repositories)
            || (exists role :: role in roles && p in m.roleRepositories(role))
  {
    if p in RouteRepositories(m.routes, roles) {
      var e :| e in m.routes && Serves(e, roles) && p in e.repositories;
      var i :| 0 <= i < |e.roles| && e.roles[i] in roles;
      assert e.roles[i] in e.roles;
    }
    if e, role :| e in m.routes && role in e.roles && role in roles && p in e.repositories {
      var i :| 0 <= i < |e.roles| && e.roles[i] == role;
      assert Serves(e, roles);
    }
  }
}
