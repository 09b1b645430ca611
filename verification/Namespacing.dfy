/** Namespaced names `alias__tool`: printing, parsing, and peeling through nested federations. */
module Namespacing {
  import opened Common

  const SEPARATOR := "__"

  function Namespaced(alias: string, tool: string): string {
    alias + SEPARATOR + tool
  }

  /** Splits at the first separator. */
  function Parse(name: string): Option<(string, string)> {
    if |name| < 2 then None
    else if name[0] == '_' && name[1] == '_' then Some(("", name[2..]))
    else match Parse(name[1..])
      case None => None
      case Some((alias, tool)) => Some(([name[0]] + alias, tool))
  }

  predicate SeparatorAt(s: string, i: int) {
    0 <= i < |s| - 1 && s[i] == '_' && s[i + 1] == '_'
  }

  /** No separator inside, and no underscore at the end. */
  predicate WellFormed(alias: string) {
    && (forall i :: 0 <= i < |alias| ==> !SeparatorAt(alias, i))
    && !(alias != "" && alias[|alias| - 1] == '_')
  }

  /** The first separator of a name whose alias is well-formed is the printed one. */
  lemma {:induction false} PrintedNameParses(alias: string, tool: string)
    requires WellFormed(alias)
    ensures Parse(Namespaced(alias, tool)) == Some((alias, tool))
    decreases |alias|
  {
    var name := Namespaced(alias, tool);
    if alias == "" {
      assert name[2..] == tool;
    } else {
      assert name[1..] == Namespaced(alias[1..], tool);
      assert WellFormed(alias[1..]) by {
        forall i | 0 <= i < |alias| - 1
          ensures !SeparatorAt(alias[1..], i)
        {
          assert !SeparatorAt(alias, i + 1);
        }
      }
      assert !SeparatorAt(alias, 0);
      PrintedNameParses(alias[1..], tool);
      assert [name[0]] + alias[1..] == alias;
    }
  }

  /** What is parsed prints back, and its alias is well-formed. A name without separator is not parsed. */
  lemma {:induction false} ParsedNamePrints(name: string)
    ensures match Parse(name)
            case Some((alias, tool)) => name == Namespaced(alias, tool) && WellFormed(alias)
            case None => forall i :: 0 <= i < |name| ==> !SeparatorAt(name, i)
    decreases |name|
  {
    if |name| >= 2 {
      if SeparatorAt(name, 0) {
        assert name == Namespaced("", name[2..]);
      } else {
        ParsedNamePrints(name[1..]);
        match Parse(name[1..])
        case None =>
          forall i | 0 <= i < |name|
            ensures !SeparatorAt(name, i)
          {
            assert i > 0 ==> !SeparatorAt(name[1..], i - 1);
          }
        case Some((alias, tool)) =>
          var longer := [name[0]] + alias;
          assert name == Namespaced(longer, tool);
          forall i | 0 <= i < |longer|
            ensures !SeparatorAt(longer, i)
          {
            assert i > 0 ==> !SeparatorAt(alias, i - 1);
          }
      }
    }
  }

  /** Theorem: for every tool, parsing gives back the alias and the tool exactly when the alias is well-formed. */
  lemma RoundTripIff(alias: string, tool: string)
    ensures Parse(Namespaced(alias, tool)) == Some((alias, tool)) <==> WellFormed(alias)
  {
    if WellFormed(alias) {
      PrintedNameParses(alias, tool);
    } else {
      ParsedNamePrints(Namespaced(alias, tool));
    }
  }

  /** Different aliases or tools never share a printed name, as long as the aliases are well-formed. */
  lemma NamesAreUnambiguous(a: string, s: string, b: string, t: string)
    requires WellFormed(a) && WellFormed(b)
    ensures Namespaced(a, s) == Namespaced(b, t) <==> a == b && s == t
  {
    PrintedNameParses(a, s);
    PrintedNameParses(b, t);
  }

  /** Without that, they do: an alias that ends in an underscore takes it from the tool's name. */
  lemma TrailingUnderscoreCollides(alias: string, tool: string)
    requires WellFormed(alias) && alias != ""
    ensures Namespaced(alias + "_", tool) == Namespaced(alias, "_" + tool)
    ensures Parse(Namespaced(alias + "_", tool)) == Some((alias, "_" + tool))
  {
    assert Namespaced(alias + "_", tool) == Namespaced(alias, "_" + tool);
    PrintedNameParses(alias, "_" + tool);
  }

  // ---------- Nested federations ----------

  type NodeId = nat

  /** A leaf as a federation's registry holds it: where it is, and whether it counts as healthy. */
  datatype Member = Member(id: NodeId, healthy: bool)

  datatype Node = Server | Federation(leaves: map<string, Member>)

  type Graph = map<NodeId, Node>

  const FEDERATION := "federation"

  datatype RouteError = InvalidToolName | UnknownLeaf | LeafUnhealthy | Unreachable

  /** Where a call ends: at a server under a tool name, or at a federation as one of its own tools. */
  datatype Delivery = AtServer(id: NodeId, tool: string) | AtFederation(id: NodeId, native: string)

  /** Calls the tool `name` at node `at`: every federation on the way parses off one alias. */
  function Deliver(g: Graph, at: NodeId, name: string): Result<Delivery, RouteError>
    decreases |name|
  {
    if at !in g then Err(Unreachable)
    else match g[at]
      case Server => Ok(AtServer(at, name))
      case Federation(leaves) =>
        match Parse(name)
        case None => Err(InvalidToolName)
        case Some((alias, tool)) =>
          if alias == FEDERATION then Ok(AtFederation(at, tool))
          else if alias !in leaves then Err(UnknownLeaf)
          else if !leaves[alias].healthy then Err(LeafUnhealthy)
          else
            ParsedNamePrints(name);
            Deliver(g, leaves[alias].id, tool)
  }

  /** The name of `tool` as it is seen through a chain of federations. */
  function Stacked(path: seq<string>, tool: string): string {
    if path == [] then tool else Namespaced(path[0], Stacked(path[1..], tool))
  }

  /** The aliases lead from one node to another through healthy members. */
  predicate Leads(g: Graph, at: NodeId, path: seq<string>, target: NodeId)
    decreases |path|
  {
    if path == [] then at == target
    else
      && at in g && g[at].Federation?
      && path[0] in g[at].leaves && g[at].leaves[path[0]].healthy
      && Leads(g, g[at].leaves[path[0]].id, path[1..], target)
  }

  predicate Routable(alias: string) {
    WellFormed(alias) && alias != FEDERATION
  }

  /** Theorem: a stacked name is peeled hop by hop. Whatever the rest of the name is, calling it at the
      start is calling the rest at the node that the path leads to. */
  lemma {:induction false} PeeledHopByHop(g: Graph, at: NodeId, path: seq<string>, target: NodeId, rest: string)
    requires Leads(g, at, path, target)
    requires forall a :: a in path ==> Routable(a)
    ensures Deliver(g, at, Stacked(path, rest)) == Deliver(g, target, rest)
    decreases |path|
  {
    if path != [] {
      assert Routable(path[0]);
      PrintedNameParses(path[0], Stacked(path[1..], rest));
      PeeledHopByHop(g, g[at].leaves[path[0]].id, path[1..], target, rest);
    }
  }

  /** A call that arrives was stacked along a path of routable aliases; nothing else arrives. */
  lemma {:induction false} DeliveriesAreStacked(g: Graph, at: NodeId, name: string) returns (path: seq<string>)
    requires Deliver(g, at, name).Ok?
    ensures forall a :: a in path ==> Routable(a)
    ensures Leads(g, at, path, Deliver(g, at, name).value.id)
    ensures match Deliver(g, at, name).value
            case AtServer(_, tool) => name == Stacked(path, tool)
            case AtFederation(_, native) => name == Stacked(path, Namespaced(FEDERATION, native))
    decreases |name|
  {
    path := [];
    if g[at].Federation? {
      ParsedNamePrints(name);
      var (alias, tool) := Parse(name).value;
      if alias != FEDERATION {
        var rest := DeliveriesAreStacked(g, g[at].leaves[alias].id, tool);
        path := [alias] + rest;
        assert path[1..] == rest;
      }
    }
  }
}
