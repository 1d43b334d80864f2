/**
 * The subcomponent registry of the subcomponents layout demo as the demo keeps
 * it: a mutable array of records `{nodes, layout}` and, on every node, a `tag`
 * (the index of its record, or null) and a style class.  The node fields are
 * kept here as two maps keyed by node.
 */
module Subcomponents {
  import opened SubcomponentsSpec
  import SubcomponentsProperties

  class Registry<N(==), L> {
    var subcomponents: seq<Subcomponent<N, L>>
    var tags: map<N, Option<nat>>
    var classes: map<N, string>

    /** The current state as a value, the form the specification functions take. */
    function Snapshot(): Table<N, L>
      reads this
    {
      Table(subcomponents, tags, classes)
    }

    /** An empty registry over nodes whose tags the graph builder has already set. */
    constructor (initialTags: map<N, Option<nat>>)
      ensures Snapshot() == Table([], initialTags, map[])
    {
      subcomponents := [];
      tags := initialTags;
      classes := map[];
    }

    /**
     * `createSubcomponent(nodes, layout)`: reuses the first record that is empty
     * or holds only given nodes, or appends one, and moves the nodes into it.
     */
    method CreateSubcomponent(nodes: seq<N>, layout: L)
      modifies this
      ensures Snapshot() == Create(old(Snapshot()), nodes, layout)
      ensures |nodes| == 0 ==> Snapshot() == old(Snapshot())
      ensures |nodes| > 0 ==>
        subcomponents[ChosenSlot(old(Snapshot()), nodes)] == Subcomponent(nodes, layout) &&
        forall n :: n in nodes ==> TagOf(Snapshot(), n) == Some(ChosenSlot(old(Snapshot()), nodes))
      ensures Consistent(old(Snapshot())) ==> Consistent(Snapshot())
    {
      if |nodes| > 0 {
        ghost var before := Snapshot();
        var index := FindIndex(subcomponents, nodes);
        if index < 0 {
          subcomponents := subcomponents + [Subcomponent([], layout)];
          index := |subcomponents| - 1;
        } else {
          subcomponents := subcomponents[index := Subcomponent([], layout)];
        }
        assert Snapshot() == Reset(before, nodes, layout) && index == ChosenSlot(before, nodes);
        MoveNodes(index, nodes);
        SubcomponentsProperties.CreatePlacesNodes(before, nodes, layout);
        if Consistent(before) {
          SubcomponentsProperties.CreatePreservesConsistent(before, nodes, layout);
        }
      }
    }

    /**
     * The loop of `createSubcomponent`: each node is spliced out of the record
     * its tag names (when that tag is truthy, names a record and is not
     * `index`), appended to record `index`, tagged and coloured.
     */
    method MoveNodes(index: nat, nodes: seq<N>)
      requires index < |subcomponents|
      modifies this
      ensures Snapshot() == MoveAll(old(Snapshot()), index, nodes)
    {
      ghost var start := Snapshot();
      for k := 0 to |nodes|
        invariant index < |subcomponents| == |start.records|
        invariant Snapshot() == MoveAll(start, index, nodes[..k])
      {
        ghost var prev := Snapshot();
        var node := nodes[k];
        var oldIndex := TagOf(Snapshot(), node);
        // a tag of 0 is falsy, so record 0 is never looked up
        var oldSubcomponent :=
          if oldIndex.Some? && oldIndex.value != 0 && oldIndex.value < |subcomponents|
          then Some(subcomponents[oldIndex.value]) else None;
        if oldSubcomponent.Some? && index != oldIndex.value {
          var oldNodes := oldSubcomponent.value.nodes;
          var nodeIndex := IndexOf(oldNodes, node);
          subcomponents := subcomponents[oldIndex.value :=
            oldSubcomponent.value.(nodes := SpliceOne(oldNodes, nodeIndex))];
        }
        subcomponents := subcomponents[index :=
          subcomponents[index].(nodes := subcomponents[index].nodes + [node])];
        tags := tags[node := Some(index)];
        classes := classes[node := ColorOf(index)];
        assert Snapshot() == MoveStep(prev, index, node);
        assert nodes[..k + 1][..k] == nodes[..k];
      }
      assert nodes[..|nodes|] == nodes;
    }

    /**
     * `removeSubcomponent(nodes)`: takes each tagged node out of the record its
     * tag names and nulls the tag.  `thrown` reports the TypeError raised when a
     * tag names no record; the nodes before that one stay processed.
     */
    method RemoveSubcomponent(nodes: seq<N>) returns (thrown: bool)
      modifies this
      ensures RemoveAll(old(Snapshot()), nodes) == Run(Snapshot(), thrown)
      ensures |subcomponents| == old(|subcomponents|)
      ensures thrown <==> exists n :: n in nodes && TagOutOfRange(old(Snapshot()), n)
      ensures Consistent(old(Snapshot())) ==> !thrown && Consistent(Snapshot())
    {
      ghost var before := Snapshot();
      thrown := false;
      var k := 0;
      while k < |nodes| && !thrown
        invariant 0 <= k <= |nodes|
        invariant RemoveAll(before, nodes[..k]) == Run(Snapshot(), thrown)
      {
        var node := nodes[k];
        var tag := TagOf(Snapshot(), node);
        if tag.Some? {
          if tag.value >= |subcomponents| {
            // subcomponents[node.tag] is undefined and reading its nodes throws
            thrown := true;
          } else {
            var subcomponentNodes := subcomponents[tag.value].nodes;
            subcomponents := subcomponents[tag.value :=
              subcomponents[tag.value].(nodes := SpliceOne(subcomponentNodes, IndexOf(subcomponentNodes, node)))];
            tags := tags[node := None];
            classes := classes[node := ""];
          }
        }
        assert nodes[..k + 1][..k] == nodes[..k];
        k := k + 1;
      }
      if thrown {
        SubcomponentsProperties.RemoveAllStopsAtThrow(before, nodes, k);
      } else {
        assert nodes[..k] == nodes;
      }
      SubcomponentsProperties.RemoveThrowsIff(before, nodes);
      if Consistent(before) {
        SubcomponentsProperties.RemovePreservesConsistent(before, nodes);
      }
    }
  }
}
