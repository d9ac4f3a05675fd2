/**
 * The weight of a group: the heaviest of the group's own weight nodes, or,
 * when it has none, the weight the configuration assigns to the group's
 * lower-cased name, or else an explicit null result. The value is memoised
 * in a cache cell that an invalidation empties.
 */
module Weight {
  import opened Wrappers
  import NodeComparator

  /** A weight node: its weight and the context it was granted in (ignored here). */
  datatype WeightNode = WeightNode(weight: int, contexts: NodeComparator.ContextSet)

  /** A group as `supply` sees it: its name and its own non-expired weight nodes, in iteration order. */
  datatype Group = Group(name: string, weightNodes: seq<WeightNode>)

  /** The outcome of a weight lookup, with its provenance. `NullResult` is not a weight of 0. */
  datatype IntegerResult = FromNode(node: WeightNode) | FromConfig(value: int) | NullResult
  {
    /** The integer a non-null result carries. */
    function IntResult(): int
      requires !NullResult?
    {
      match this
      case FromNode(n) => n.weight
      case FromConfig(v) => v
    }
  }

  /** `Character.toLowerCase` restricted to ASCII letters. */
  function LowerChar(c: char): char
  {
    if 'A' <= c <= 'Z' then (c as int - 'A' as int + 'a' as int) as char else c
  }

  /** The group name lower-cased, as the configuration's keys are. */
  function ToLowerAscii(s: string): (r: string)
    ensures |r| == |s|
    ensures forall i :: 0 <= i < |s| ==> r[i] == LowerChar(s[i])
    ensures forall i :: 0 <= i < |r| ==> !('A' <= r[i] <= 'Z')
  {
    if s == [] then [] else [LowerChar(s[0])] + ToLowerAscii(s[1..])
  }

  /** The node the scan in `supply` keeps: a later node replaces the kept one
      only when its weight is strictly greater. */
  function HeaviestNode(nodes: seq<WeightNode>): Option<WeightNode>
  {
    if nodes == [] then None
    else
      var kept := HeaviestNode(nodes[..|nodes| - 1]);
      var n := nodes[|nodes| - 1];
      if kept.None? || n.weight > kept.value.weight then Some(n) else kept
  }

  /** Index `i` holds a node of maximum weight, and no earlier node weighs as much. */
  ghost predicate IsFirstHeaviest(nodes: seq<WeightNode>, i: int)
  {
    && 0 <= i < |nodes|
    && (forall j :: 0 <= j < |nodes| ==> nodes[j].weight <= nodes[i].weight)
    && (forall j :: 0 <= j < i ==> nodes[j].weight < nodes[i].weight)
  }

  /** The scan finds a node exactly when there is one, and the node it keeps is the
      first of those of maximum weight. */
  lemma {:induction false} HeaviestNodeIsFirstMaximum(nodes: seq<WeightNode>)
    ensures HeaviestNode(nodes).Some? <==> |nodes| > 0
    ensures HeaviestNode(nodes).Some? ==>
      exists i :: IsFirstHeaviest(nodes, i) && nodes[i] == HeaviestNode(nodes).value
  {
    if nodes != [] {
      var prefix := nodes[..|nodes| - 1];
      var last := |nodes| - 1;
      HeaviestNodeIsFirstMaximum(prefix);
      assert forall j :: 0 <= j < last ==> prefix[j] == nodes[j];
      if prefix == [] {
        assert IsFirstHeaviest(nodes, 0);
      } else {
        var k :| IsFirstHeaviest(prefix, k) && prefix[k] == HeaviestNode(prefix).value;
        if nodes[last].weight > prefix[k].weight {
          FirstHeaviestExtendedByHeavier(nodes, k);
        } else {
          FirstHeaviestExtendedByLighter(nodes, k);
        }
      }
    }
  }

  lemma FirstHeaviestExtendedByHeavier(nodes: seq<WeightNode>, k: int)
    requires |nodes| > 1 && IsFirstHeaviest(nodes[..|nodes| - 1], k)
    requires nodes[|nodes| - 1].weight > nodes[k].weight
    ensures IsFirstHeaviest(nodes, |nodes| - 1)
  {
    var prefix := nodes[..|nodes| - 1];
    forall j | 0 <= j < |nodes| - 1 ensures nodes[j].weight < nodes[|nodes| - 1].weight {
      assert prefix[j] == nodes[j];
    }
  }

  lemma FirstHeaviestExtendedByLighter(nodes: seq<WeightNode>, k: int)
    requires |nodes| > 1 && IsFirstHeaviest(nodes[..|nodes| - 1], k)
    requires nodes[|nodes| - 1].weight <= nodes[k].weight
    ensures IsFirstHeaviest(nodes, k)
  {
    var prefix := nodes[..|nodes| - 1];
    assert prefix[k] == nodes[k];
    forall j | 0 <= j < |nodes| - 1 ensures nodes[j].weight <= nodes[k].weight {
      assert prefix[j] == nodes[j];
    }
    forall j | 0 <= j < k ensures nodes[j].weight < nodes[k].weight {
      assert prefix[j] == nodes[j];
    }
  }

  /** What `supply` computes for a group under a configuration of group weights. */
  function WeightOf(group: Group, configWeights: map<string, int>): IntegerResult
  {
    match HeaviestNode(group.weightNodes)
    case Some(n) => FromNode(n)
    case None =>
      var key := ToLowerAscii(group.name);
      if key in configWeights then FromConfig(configWeights[key]) else NullResult
  }

  /** With weight nodes present the result comes from the first node of maximum weight. */
  lemma WeightOfNodes(group: Group, configWeights: map<string, int>)
    requires |group.weightNodes| > 0
    ensures WeightOf(group, configWeights).FromNode?
    ensures forall n :: n in group.weightNodes ==> n.weight <= WeightOf(group, configWeights).IntResult()
    ensures exists i :: IsFirstHeaviest(group.weightNodes, i)
                     && group.weightNodes[i] == WeightOf(group, configWeights).node
  {
    HeaviestNodeIsFirstMaximum(group.weightNodes);
  }

  /** The configuration is consulted only when the group has no weight nodes. */
  lemma WeightOfIgnoresConfigWhenNodesExist(group: Group, config1: map<string, int>, config2: map<string, int>)
    requires |group.weightNodes| > 0
    ensures WeightOf(group, config1) == WeightOf(group, config2)
  {
  }

  /** Without weight nodes: the configured weight of the lower-cased name, else the null result. */
  lemma WeightOfFallback(group: Group, configWeights: map<string, int>)
    requires |group.weightNodes| == 0
    ensures ToLowerAscii(group.name) in configWeights ==>
      WeightOf(group, configWeights) == FromConfig(configWeights[ToLowerAscii(group.name)])
    ensures ToLowerAscii(group.name) !in configWeights ==> WeightOf(group, configWeights) == NullResult
  {
  }

  /** The result is null only when there is neither a weight node nor a configured weight. */
  lemma WeightOfNullOnlyWithoutSources(group: Group, configWeights: map<string, int>)
    ensures WeightOf(group, configWeights).NullResult? <==>
      |group.weightNodes| == 0 && ToLowerAscii(group.name) !in configWeights
  {
  }

  /** `supply`: scans the weight nodes keeping the first heaviest, then falls back to the configuration. */
  method Supply(group: Group, configWeights: map<string, int>) returns (result: IntegerResult)
    ensures result == WeightOf(group, configWeights)
  {
    var nodes := group.weightNodes;
    var weight: Option<IntegerResult> := None;
    for i := 0 to |nodes|
      invariant weight.None? <==> HeaviestNode(nodes[..i]).None?
      invariant weight.Some? ==> weight.value == FromNode(HeaviestNode(nodes[..i]).value)
    {
      assert nodes[..i + 1][..i] == nodes[..i];
      var n := nodes[i];
      if weight.None? || n.weight > weight.value.IntResult() {
        weight := Some(FromNode(n));
      }
    }
    assert nodes[..|nodes|] == nodes;
    if weight.None? {
      var key := ToLowerAscii(group.name);
      if key in configWeights {
        weight := Some(FromConfig(configWeights[key]));
      }
    }
    result := if weight.Some? then weight.value else NullResult;
  }

  /** The memoising cell of one group's weight: filled on the first `Get`, emptied by `Invalidate`. */
  class WeightCache {
    var cached: Option<IntegerResult>
    /** The group and configuration the cached value was computed from. */
    ghost var source: Option<(Group, map<string, int>)>

    ghost predicate Valid()
      reads this
    {
      && (cached.Some? <==> source.Some?)
      && (cached.Some? ==> cached.value == WeightOf(source.value.0, source.value.1))
    }

    constructor ()
      ensures Valid() && cached == None
    {
      cached := None;
      source := None;
    }

    /** Returns the memoised weight, computing it from the group's current state when the cell is empty. */
    method Get(group: Group, configWeights: map<string, int>) returns (r: IntegerResult)
      requires Valid()
      modifies this
      ensures Valid()
      ensures old(cached).Some? ==> r == old(cached).value && cached == old(cached) && source == old(source)
      ensures old(cached).None? ==> r == WeightOf(group, configWeights) && source == Some((group, configWeights))
      ensures cached == Some(r)
    {
      if cached.None? {
        var value := Supply(group, configWeights);
        cached := Some(value);
        source := Some((group, configWeights));
      }
      r := cached.value;
    }

    /** Empties the cell, so the next `Get` recomputes. */
    method Invalidate()
      modifies this
      ensures Valid() && cached == None
    {
      cached := None;
      source := None;
    }
  }

  /** Weights 5 and 10 give the weight-10 node, whatever the contexts. */
  lemma HeaviestOfTwoExample()
    ensures WeightOf(Group("admin", [WeightNode(5, {}), WeightNode(10, {NodeComparator.Context("server", "x")})]), map[])
         == FromNode(WeightNode(10, {NodeComparator.Context("server", "x")}))
  {
    var server := NodeComparator.Context("server", "x");
    var nodes := [WeightNode(5, {}), WeightNode(10, {server})];
    assert nodes[..1] == [WeightNode(5, {})];
    assert [WeightNode(5, {})][..0] == [];
    assert HeaviestNode([WeightNode(5, {})]) == Some(WeightNode(5, {}));
    assert HeaviestNode(nodes) == Some(WeightNode(10, {server}));
    assert ToLowerAscii("admin") == "admin";
  }

  /** Without nodes the configured weight of the lower-cased name applies, else the null result. */
  lemma ConfigFallbackExample()
    ensures WeightOf(Group("Test", []), map["test" := 7]) == FromConfig(7)
    ensures WeightOf(Group("Test", []), map["other" := 7]) == NullResult
  {
    assert ToLowerAscii("Test") == "test";
  }
}
