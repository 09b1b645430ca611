/** The aggregated tool list that a client sees, and where a call of a listed tool goes. */
module ToolCatalog {
  import opened Common
  import opened Namespacing

  /** A tool as JSON: its `name` and `description` members when they are strings, and everything else. */
  datatype Tool = Tool(name: Option<string>, description: Option<string>, rest: string)

  datatype Leaf = Leaf(alias: string, health: Health, tools: seq<Tool>)

  /** The registry at one moment. */
  type Registry = map<string, Leaf>

  predicate IsHealthy(leaf: Leaf) {
    !leaf.health.Unhealthy?
  }

  /** Leaves are registered under their configured alias. */
  predicate WellKeyed(registry: Registry) {
    forall a :: a in registry ==> registry[a].alias == a
  }

  // ---------- Who may see what ----------

  datatype Identity = Anonymous | Admin | Client(index: nat)

  datatype RequestContext = RequestContext(identity: Identity, allowed: Option<seq<string>>)

  predicate AllowsAlias(ctx: RequestContext, alias: string) {
    || alias == FEDERATION
    || ctx.allowed.None?
    || "*" in ctx.allowed.value
    || alias in ctx.allowed.value
  }

  datatype ClientConfig = ClientConfig(token: string, allowedServers: seq<string>)

  /** Resolves a bearer token: the admin token first, then the first client that has it. */
  method Resolve(presented: string, adminToken: string, clients: seq<ClientConfig>)
    returns (ctx: Option<RequestContext>)
    ensures ctx.None? <==> presented != adminToken && forall i :: 0 <= i < |clients| ==> clients[i].token != presented
    ensures ctx.Some? && presented == adminToken ==> forall a :: AllowsAlias(ctx.value, a)
    ensures ctx.Some? && presented != adminToken ==>
              && ctx.value.identity.Client?
              && var i := ctx.value.identity.index;
              && i < |clients| && clients[i].token == presented
              && (forall j :: 0 <= j < i ==> clients[j].token != presented)
              && forall a :: AllowsAlias(ctx.value, a) <==>
                   a == FEDERATION || "*" in clients[i].allowedServers || a in clients[i].allowedServers
  {
    if presented == adminToken {
      return Some(RequestContext(Admin, None));
    }
    for i := 0 to |clients|
      invariant forall j :: 0 <= j < i ==> clients[j].token != presented
    {
      if clients[i].token == presented {
        var allowed := if "*" in clients[i].allowedServers then None else Some(clients[i].allowedServers);
        return Some(RequestContext(Client(i), allowed));
      }
    }
    return None;
  }

  // ---------- The list ----------

  const NATIVE: seq<string> := ["list_servers", "server_info", "refresh", "search_tools", "topology"]

  function NativeTool(name: string): Tool {
    Tool(Some(Namespaced(FEDERATION, name)), Some("[federation] " + name), name)
  }

  function NativeTools(): seq<Tool> {
    seq(|NATIVE|, i requires 0 <= i < |NATIVE| => NativeTool(NATIVE[i]))
  }

  /** A leaf's tool under its namespaced name; a tool without a name is dropped. */
  function NamespaceTool(alias: string, tool: Tool): Option<Tool> {
    match tool.name
    case None => None
    case Some(name) =>
      var description := match tool.description { case Some(d) => d case None => "" };
      Some(Tool(Some(Namespaced(alias, name)), Some("[" + alias + "] " + description), tool.rest))
  }

  function LeafTools(alias: string, tools: seq<Tool>): seq<Tool> {
    if tools == [] then []
    else
      var front := LeafTools(alias, tools[..|tools| - 1]);
      match NamespaceTool(alias, tools[|tools| - 1])
      case Some(t) => front + [t]
      case None => front
  }

  function AllLeafTools(leaves: seq<Leaf>): seq<Tool> {
    if leaves == [] then []
    else AllLeafTools(leaves[..|leaves| - 1]) + LeafTools(leaves[|leaves| - 1].alias, leaves[|leaves| - 1].tools)
  }

  function HealthyOnly(leaves: seq<Leaf>): seq<Leaf> {
    if leaves == [] then []
    else
      var front, last := HealthyOnly(leaves[..|leaves| - 1]), leaves[|leaves| - 1];
      if IsHealthy(last) then front + [last] else front
  }

  predicate DistinctAliases(leaves: seq<Leaf>) {
    forall i, j :: 0 <= i < j < |leaves| ==> leaves[i].alias != leaves[j].alias
  }

  /** The order in which the registry happens to list its leaves. */
  ghost predicate Lists(order: seq<Leaf>, registry: Registry) {
    && WellKeyed(registry)
    && DistinctAliases(order)
    && (forall l :: l in order ==> l.alias in registry && registry[l.alias] == l)
    && (forall a :: a in registry ==> registry[a] in order)
  }

  method HealthyLeaves(order: seq<Leaf>) returns (healthy: seq<Leaf>)
    ensures healthy == HealthyOnly(order)
  {
    healthy := [];
    for i := 0 to |order|
      invariant healthy == HealthyOnly(order[..i])
    {
      assert order[..i + 1][..i] == order[..i];
      if IsHealthy(order[i]) {
        healthy := healthy + [order[i]];
      }
    }
    assert order[..|order|] == order;
  }

  method AggregatedTools(order: seq<Leaf>) returns (all: seq<Tool>)
    ensures all == NativeTools() + AllLeafTools(HealthyOnly(order))
  {
    all := NativeTools();
    var leaves := HealthyLeaves(order);
    for i := 0 to |leaves|
      invariant all == NativeTools() + AllLeafTools(leaves[..i])
    {
      ghost var before := all;
      var leaf := leaves[i];
      for j := 0 to |leaf.tools|
        invariant all == before + LeafTools(leaf.alias, leaf.tools[..j])
      {
        assert leaf.tools[..j + 1][..j] == leaf.tools[..j];
        var namespaced := NamespaceTool(leaf.alias, leaf.tools[j]);
        if namespaced.Some? {
          all := all + [namespaced.value];
        }
      }
      assert leaf.tools[..|leaf.tools|] == leaf.tools;
      assert leaves[..i + 1][..i] == leaves[..i];
    }
    assert leaves[..|leaves|] == leaves;
  }

  predicate ToolAllowed(ctx: RequestContext, name: string) {
    match Parse(name)
    case Some((alias, _)) => AllowsAlias(ctx, alias)
    case None => true
  }

  predicate Keeps(ctx: RequestContext, tool: Tool) {
    match tool.name
    case Some(name) => ToolAllowed(ctx, name)
    case None => true
  }

  function Retained(ctx: RequestContext, tools: seq<Tool>): seq<Tool> {
    if tools == [] then []
    else
      var front, last := Retained(ctx, tools[..|tools| - 1]), tools[|tools| - 1];
      if Keeps(ctx, last) then front + [last] else front
  }

  /** The tool list of one client. */
  function ListFor(ctx: RequestContext, order: seq<Leaf>): seq<Tool> {
    Retained(ctx, NativeTools() + AllLeafTools(HealthyOnly(order)))
  }

  method ToolsList(ctx: RequestContext, order: seq<Leaf>) returns (tools: seq<Tool>)
    ensures tools == ListFor(ctx, order)
  {
    var all := AggregatedTools(order);
    if ctx.allowed.None? {
      UnrestrictedKeepsAll(ctx, all);
      return all;
    }
    tools := [];
    for i := 0 to |all|
      invariant tools == Retained(ctx, all[..i])
    {
      assert all[..i + 1][..i] == all[..i];
      if Keeps(ctx, all[i]) {
        tools := tools + [all[i]];
      }
    }
    assert all[..|all|] == all;
  }

  lemma {:induction false} UnrestrictedKeepsAll(ctx: RequestContext, tools: seq<Tool>)
    requires ctx.allowed.None?
    ensures Retained(ctx, tools) == tools
    decreases |tools|
  {
    if tools != [] { UnrestrictedKeepsAll(ctx, tools[..|tools| - 1]); }
  }

  // ---------- The call ----------

  datatype Destination = Native(tool: string) | AtLeaf(alias: string, tool: string)

  datatype CallError = InvalidToolName | AccessDenied | UnknownLeaf | LeafUnhealthy | ToolNotFound

  /** A native handler is found by its exact name. Some of them check their arguments further. */
  function HandleNative(tool: string): Result<Destination, CallError> {
    if || tool == "list_servers" || tool == "topology" || tool == "server_info"
       || tool == "refresh" || tool == "search_tools"
    then Ok(Native(tool))
    else Err(ToolNotFound)
  }

  function Route(registry: Registry, name: string): Result<Destination, CallError> {
    match Parse(name)
    case None => Err(CallError.InvalidToolName)
    case Some((alias, tool)) =>
      if alias == FEDERATION then HandleNative(tool)
      else if alias !in registry then Err(CallError.UnknownLeaf)
      else if !IsHealthy(registry[alias]) then Err(CallError.LeafUnhealthy)
      else Ok(AtLeaf(alias, tool))
  }

  function Call(registry: Registry, ctx: RequestContext, name: string): Result<Destination, CallError> {
    var parsed := Parse(name);
    if parsed.Some? && !AllowsAlias(ctx, parsed.value.0) then Err(AccessDenied) else Route(registry, name)
  }

  // ---------- What is in the list ----------

  /** The leaf advertises a tool of this name, and `t` is that tool: the same but for the name, and for the
      description, which is marked with the alias. */
  predicate Advertises(leaf: Leaf, name: string, t: Tool) {
    exists s :: s in leaf.tools && Shows(s, leaf.alias, name, t)
  }

  predicate Shows(s: Tool, alias: string, name: string, t: Tool) {
    && s.name == Some(name) && t.rest == s.rest
    && t.description == Some("[" + alias + "] " + if s.description.Some? then s.description.value else "")
  }

  lemma {:induction false} InLeafTools(alias: string, tools: seq<Tool>, t: Tool)
    ensures t in LeafTools(alias, tools) <==> exists s :: s in tools && NamespaceTool(alias, s) == Some(t)
    decreases |tools|
  {
    if tools != [] {
      var front, last := tools[..|tools| - 1], tools[|tools| - 1];
      InLeafTools(alias, front, t);
      assert tools == front + [last];
    }
  }

  lemma {:induction false} InAllLeafTools(leaves: seq<Leaf>, t: Tool)
    ensures t in AllLeafTools(leaves) <==> exists l :: l in leaves && t in LeafTools(l.alias, l.tools)
    decreases |leaves|
  {
    if leaves != [] {
      var front, last := leaves[..|leaves| - 1], leaves[|leaves| - 1];
      InAllLeafTools(front, t);
      assert leaves == front + [last];
    }
  }

  lemma {:induction false} InHealthyOnly(leaves: seq<Leaf>, l: Leaf)
    ensures l in HealthyOnly(leaves) <==> l in leaves && IsHealthy(l)
    decreases |leaves|
  {
    if leaves != [] {
      var front, last := leaves[..|leaves| - 1], leaves[|leaves| - 1];
      InHealthyOnly(front, l);
      assert leaves == front + [last];
    }
  }

  lemma {:induction false} InRetained(ctx: RequestContext, tools: seq<Tool>, t: Tool)
    ensures t in Retained(ctx, tools) <==> t in tools && Keeps(ctx, t)
    decreases |tools|
  {
    if tools != [] {
      var front, last := tools[..|tools| - 1], tools[|tools| - 1];
      InRetained(ctx, front, t);
      assert tools == front + [last];
    }
  }

  lemma NativeIsRoutable()
    ensures WellFormed(FEDERATION)
  {
    assert FEDERATION[9] == 'n';
  }

  predicate AllRoutable(registry: Registry) {
    forall a :: a in registry ==> Routable(a)
  }

  /** A listed tool is one of the native tools or a tool of a healthy leaf under its namespaced name. */
  lemma ListedOrigin(ctx: RequestContext, order: seq<Leaf>, t: Tool)
    requires t in ListFor(ctx, order)
    ensures Keeps(ctx, t)
    ensures || (exists n :: n in NATIVE && t == NativeTool(n))
            || (exists l, s :: l in order && IsHealthy(l) && s in l.tools && NamespaceTool(l.alias, s) == Some(t))
  {
    var leaves := HealthyOnly(order);
    InRetained(ctx, NativeTools() + AllLeafTools(leaves), t);
    if t in AllLeafTools(leaves) {
      InAllLeafTools(leaves, t);
      var l :| l in leaves && t in LeafTools(l.alias, l.tools);
      InHealthyOnly(order, l);
      InLeafTools(l.alias, l.tools, t);
    } else {
      var i :| 0 <= i < |NATIVE| && NativeTools()[i] == t;
      assert NATIVE[i] in NATIVE && t == NativeTool(NATIVE[i]);
    }
  }

  /** Theorem: every tool in a client's list, called in the same registry state, is not denied and reaches
      the healthy leaf that advertises it, under its original name, or one of the five native handlers. */
  lemma ListedToolIsReached(registry: Registry, ctx: RequestContext, order: seq<Leaf>, t: Tool)
    requires Lists(order, registry) && AllRoutable(registry)
    requires t in ListFor(ctx, order)
    ensures t.name.Some?
    ensures match Call(registry, ctx, t.name.value)
            case Err(_) => false
            case Ok(Native(n)) => n in NATIVE && t.name.value == Namespaced(FEDERATION, n)
            case Ok(AtLeaf(a, n)) =>
              && a in registry && registry[a].health != Unhealthy && Advertises(registry[a], n, t)
              && AllowsAlias(ctx, a) && t.name.value == Namespaced(a, n)
  {
    ListedOrigin(ctx, order, t);
    if n :| n in NATIVE && t == NativeTool(n) {
      NativeIsRoutable();
      PrintedNameParses(FEDERATION, n);
    } else {
      var l, s :| l in order && IsHealthy(l) && s in l.tools && NamespaceTool(l.alias, s) == Some(t);
      assert Routable(l.alias);
      PrintedNameParses(l.alias, s.name.value);
      assert Shows(s, l.alias, s.name.value, t);
    }
  }

  lemma NamespacedKept(ctx: RequestContext, alias: string, s: Tool)
    requires Routable(alias) && s.name.Some?
    ensures Keeps(ctx, NamespaceTool(alias, s).value) <==> AllowsAlias(ctx, alias)
  {
    PrintedNameParses(alias, s.name.value);
  }

  /** Theorem: each named tool of each healthy leaf is listed for exactly the clients that may use the leaf. */
  lemma AllowedToolIsListed(registry: Registry, ctx: RequestContext, order: seq<Leaf>, a: string, s: Tool)
    requires Lists(order, registry) && AllRoutable(registry)
    requires a in registry && registry[a].health != Unhealthy && s in registry[a].tools && s.name.Some?
    ensures NamespaceTool(a, s).value in ListFor(ctx, order) <==> AllowsAlias(ctx, a)
  {
    var l, t := registry[a], NamespaceTool(a, s).value;
    InHealthyOnly(order, l);
    InLeafTools(a, l.tools, t);
    InAllLeafTools(HealthyOnly(order), t);
    InRetained(ctx, NativeTools() + AllLeafTools(HealthyOnly(order)), t);
    assert Routable(a);
    NamespacedKept(ctx, a, s);
  }

  /** The five native tools are in every client's list. */
  lemma NativeToolsAreListed(ctx: RequestContext, order: seq<Leaf>, name: string)
    requires || name == "list_servers" || name == "server_info" || name == "refresh"
             || name == "search_tools" || name == "topology"
    ensures exists t :: t in ListFor(ctx, order) && t.name == Some("federation__" + name)
  {
    var i := if name == NATIVE[0] then 0 else if name == NATIVE[1] then 1 else if name == NATIVE[2] then 2
             else if name == NATIVE[3] then 3 else 4;
    assert NATIVE[i] == name && NativeTools()[i] == NativeTool(name);
    var t, all := NativeTool(name), NativeTools() + AllLeafTools(HealthyOnly(order));
    assert all[i] == t;
    NativeIsRoutable();
    PrintedNameParses(FEDERATION, name);
    InRetained(ctx, all, t);
    assert FEDERATION + SEPARATOR == "federation__";
  }

  /** What the filter removes from the full list is what a call of it would be denied. */
  lemma HiddenToolIsDenied(registry: Registry, ctx: RequestContext, order: seq<Leaf>, t: Tool)
    requires t.name.Some? && t in NativeTools() + AllLeafTools(HealthyOnly(order))
    ensures t !in ListFor(ctx, order) <==> Call(registry, ctx, t.name.value) == Err(AccessDenied)
  {
    InRetained(ctx, NativeTools() + AllLeafTools(HealthyOnly(order)), t);
  }

  /** Theorem: a call of a healthy leaf's tool under its namespaced name goes to that leaf, under the tool's
      own name, exactly when the leaf's alias is well-formed and is not the native prefix. */
  lemma ReachesHomeIff(registry: Registry, a: string, tool: string)
    requires a in registry && registry[a].health != Unhealthy
    ensures Route(registry, Namespaced(a, tool)) == Ok(AtLeaf(a, tool)) <==> Routable(a)
  {
    RoundTripIff(a, tool);
  }

  /** Theorem: how a call of any name ends. A name without separator is invalid. Otherwise its alias decides: one that
      the client may not use is denied; `federation` leads to the five native handlers; any other to the leaf of that
      alias, unless there is none or it is unhealthy. */
  lemma CallOutcome(registry: Registry, ctx: RequestContext, alias: string, tool: string)
    requires WellFormed(alias)
    ensures var r := Call(registry, ctx, alias + "__" + tool);
            var allowed := || alias == "federation" || ctx.allowed == None
                           || "*" in ctx.allowed.value || alias in ctx.allowed.value;
            && (r == Err(AccessDenied) <==> !allowed)
            && (allowed && alias == "federation" ==>
                  var native := || tool == "list_servers" || tool == "server_info" || tool == "refresh"
                                || tool == "search_tools" || tool == "topology";
                  r == if native then Ok(Native(tool)) else Err(ToolNotFound))
            && (allowed && alias != "federation" ==>
                  && (r == Err(CallError.UnknownLeaf) <==> alias !in registry)
                  && (r == Err(CallError.LeafUnhealthy) <==> alias in registry && registry[alias].health == Unhealthy)
                  && (r == Ok(AtLeaf(alias, tool)) <==> alias in registry && registry[alias].health != Unhealthy))
  {
    PrintedNameParses(alias, tool);
    assert alias + "__" + tool == Namespaced(alias, tool);
  }

  lemma NamelessCall(registry: Registry, ctx: RequestContext, name: string)
    ensures Call(registry, ctx, name) == Err(CallError.InvalidToolName)
            <==> forall i :: 0 <= i < |name| - 1 ==> !(name[i] == '_' && name[i + 1] == '_')
  {
    ParsedNamePrints(name);
    if Parse(name).None? {
      forall i | 0 <= i < |name| - 1
        ensures !(name[i] == '_' && name[i + 1] == '_')
      {
        assert !SeparatorAt(name, i);
      }
    } else {
      var (alias, tool) := Parse(name).value;
      assert name[|alias|] == '_' && name[|alias| + 1] == '_';
    }
  }

  // ---------- No duplicates ----------

  /** No two of the tools share a name. */
  predicate DistinctNames(tools: seq<Tool>) {
    forall i, j :: 0 <= i < j < |tools| && tools[i].name.Some? ==> tools[i].name != tools[j].name
  }

  /** The tool's name, if it has one, is not among these. */
  predicate NewName(tools: seq<Tool>, t: Tool) {
    t.name.Some? ==> forall s :: s in tools ==> s.name != t.name
  }

  lemma DistinctAppend(tools: seq<Tool>, t: Tool)
    ensures DistinctNames(tools + [t]) <==> DistinctNames(tools) && NewName(tools, t)
  {
    var more := tools + [t];
    if DistinctNames(more) {
      forall i, j | 0 <= i < j < |tools| && tools[i].name.Some?
        ensures tools[i].name != tools[j].name
      {
        assert more[i] == tools[i] && more[j] == tools[j];
      }
      forall s | s in tools && t.name.Some?
        ensures s.name != t.name
      {
        var i :| 0 <= i < |tools| && tools[i] == s;
        assert more[i] == s && more[|tools|] == t;
      }
    }
  }

  lemma {:induction false} DistinctConcat(a: seq<Tool>, b: seq<Tool>)
    requires DistinctNames(a) && DistinctNames(b)
    requires forall t :: t in b ==> NewName(a, t)
    ensures DistinctNames(a + b)
    decreases |b|
  {
    if b == [] {
      assert a + b == a;
    } else {
      var front, last := b[..|b| - 1], b[|b| - 1];
      assert b == front + [last];
      DistinctAppend(front, last);
      DistinctConcat(a, front);
      DistinctAppend(a + front, last);
      assert a + b == (a + front) + [last];
      assert NewName(a, last);
    }
  }

  /** Namespacing keeps a leaf's names apart. */
  lemma {:induction false} LeafNamesDistinct(alias: string, tools: seq<Tool>)
    requires WellFormed(alias) && DistinctNames(tools)
    ensures DistinctNames(LeafTools(alias, tools))
    decreases |tools|
  {
    if tools != [] {
      var front, last := tools[..|tools| - 1], tools[|tools| - 1];
      assert tools == front + [last];
      DistinctAppend(front, last);
      LeafNamesDistinct(alias, front);
      if last.name.Some? {
        var t := NamespaceTool(alias, last).value;
        DistinctAppend(LeafTools(alias, front), t);
        forall u | u in LeafTools(alias, front)
          ensures u.name != t.name
        {
          InLeafTools(alias, front, u);
          var s :| s in front && NamespaceTool(alias, s) == Some(u);
          assert s.name != last.name;
          NamesAreUnambiguous(alias, s.name.value, alias, last.name.value);
        }
      }
    }
  }

  /** The names of tools from leaves with these aliases. */
  predicate NamedUnder(t: Tool, aliases: set<string>) {
    t.name.Some? && Parse(t.name.value).Some? && Parse(t.name.value).value.0 in aliases
  }

  lemma {:induction false} LeafNamesUnder(alias: string, tools: seq<Tool>)
    requires WellFormed(alias)
    ensures forall t :: t in LeafTools(alias, tools) ==> NamedUnder(t, {alias})
    decreases |tools|
  {
    if tools != [] {
      LeafNamesUnder(alias, tools[..|tools| - 1]);
      var last := tools[|tools| - 1];
      if last.name.Some? { PrintedNameParses(alias, last.name.value); }
    }
  }

  lemma ApartByAlias(a: seq<Tool>, b: seq<Tool>, aliases: set<string>, others: set<string>)
    requires forall t :: t in a ==> NamedUnder(t, aliases)
    requires forall t :: t in b ==> NamedUnder(t, others)
    requires aliases !! others
    ensures forall t :: t in b ==> NewName(a, t)
  {
    forall t, s | t in b && s in a
      ensures s.name != t.name
    {
      assert NamedUnder(s, aliases) && NamedUnder(t, others);
    }
  }

  function Aliases(leaves: seq<Leaf>): set<string> {
    set l | l in leaves :: l.alias
  }

  lemma {:induction false} AllLeafNamesDistinct(leaves: seq<Leaf>)
    requires DistinctAliases(leaves)
    requires forall l :: l in leaves ==> WellFormed(l.alias) && DistinctNames(l.tools)
    ensures DistinctNames(AllLeafTools(leaves))
    ensures forall t :: t in AllLeafTools(leaves) ==> NamedUnder(t, Aliases(leaves))
    decreases |leaves|
  {
    if leaves != [] {
      var front, last := leaves[..|leaves| - 1], leaves[|leaves| - 1];
      assert leaves == front + [last];
      AllLeafNamesDistinct(front);
      assert last in leaves;
      LeafNamesDistinct(last.alias, last.tools);
      LeafNamesUnder(last.alias, last.tools);
      ApartByAlias(AllLeafTools(front), LeafTools(last.alias, last.tools), Aliases(front), {last.alias});
      DistinctConcat(AllLeafTools(front), LeafTools(last.alias, last.tools));
      assert Aliases(leaves) == Aliases(front) + {last.alias};
    }
  }

  lemma {:induction false} HealthyStayDistinct(leaves: seq<Leaf>)
    requires DistinctAliases(leaves)
    ensures DistinctAliases(HealthyOnly(leaves))
    decreases |leaves|
  {
    if leaves != [] {
      var front, last := leaves[..|leaves| - 1], leaves[|leaves| - 1];
      HealthyStayDistinct(front);
      forall l | l in HealthyOnly(front)
        ensures l.alias != last.alias
      {
        InHealthyOnly(front, l);
        var i :| 0 <= i < |front| && front[i] == l;
        assert leaves[i] == l;
      }
    }
  }

  lemma NativeNamesDistinct()
    ensures DistinctNames(NativeTools())
    ensures forall t :: t in NativeTools() ==> NamedUnder(t, {FEDERATION})
  {
    NativeIsRoutable();
    var tools := NativeTools();
    forall i | 0 <= i < |tools|
      ensures Parse(tools[i].name.value) == Some((FEDERATION, NATIVE[i]))
    {
      PrintedNameParses(FEDERATION, NATIVE[i]);
    }
    forall i, j | 0 <= i < j < |tools|
      ensures tools[i].name != tools[j].name
    {
      assert NATIVE[i] != NATIVE[j];
    }
  }

  lemma {:induction false} RetainedStayDistinct(ctx: RequestContext, tools: seq<Tool>)
    requires DistinctNames(tools)
    ensures DistinctNames(Retained(ctx, tools))
    decreases |tools|
  {
    if tools != [] {
      var front, last := tools[..|tools| - 1], tools[|tools| - 1];
      assert tools == front + [last];
      DistinctAppend(front, last);
      RetainedStayDistinct(ctx, front);
      DistinctAppend(Retained(ctx, front), last);
      forall s | s in Retained(ctx, front)
        ensures s in front
      {
        InRetained(ctx, front, s);
      }
    }
  }

  /** Theorem: when each leaf's own names are distinct, a client's list has no duplicate. */
  lemma ListHasNoDuplicates(registry: Registry, ctx: RequestContext, order: seq<Leaf>)
    requires Lists(order, registry) && AllRoutable(registry)
    requires forall a :: a in registry ==> DistinctNames(registry[a].tools)
    ensures DistinctNames(ListFor(ctx, order))
  {
    var leaves := HealthyOnly(order);
    HealthyStayDistinct(order);
    forall l | l in leaves
      ensures Routable(l.alias) && DistinctNames(l.tools)
    {
      InHealthyOnly(order, l);
    }
    AllLeafNamesDistinct(leaves);
    NativeNamesDistinct();
    assert FEDERATION !in Aliases(leaves);
    ApartByAlias(NativeTools(), AllLeafTools(leaves), {FEDERATION}, Aliases(leaves));
    DistinctConcat(NativeTools(), AllLeafTools(leaves));
    RetainedStayDistinct(ctx, NativeTools() + AllLeafTools(leaves));
  }
}
