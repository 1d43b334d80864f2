/**
 * The subcomponent registry of the subcomponents layout demo, stated on values.
 *
 * The demo keeps a module-level array of subcomponent records `{nodes, layout}`;
 * each node's `tag` holds the index of the record it was last assigned to, or
 * null, and its style class shows the record's palette colour.  A `Table` is a
 * snapshot of all three: the records, the tag of every node and the style class
 * of every node the registry has coloured.  `Create` and `RemoveAll` are the
 * effects of `createSubcomponent` and `removeSubcomponent`, step by step as the
 * source's loops perform them; the lemmas below state what those effects are.
 */
module SubcomponentsSpec {

  datatype Option<T> = None | Some(value: T)

  /** One entry of the registry: the nodes of a subcomponent and its layout algorithm. */
  datatype Subcomponent<N, L> = Subcomponent(nodes: seq<N>, layout: L)

  /** The registry, the `tag` field of every node and the style class of every node. */
  datatype Table<N, L> = Table(
    records: seq<Subcomponent<N, L>>,
    tags: map<N, Option<nat>>,
    classes: map<N, string>)

  /** `node.tag`: a node that was never tagged has tag null. */
  function TagOf<N, L>(t: Table<N, L>, n: N): (r: Option<nat>)
    ensures n !in t.tags ==> r == None
    ensures r.Some? ==> n in t.tags && t.tags[n] == r
    ensures n in t.tags ==> r == t.tags[n]
  {
    if n in t.tags then t.tags[n] else None
  }

  /** The style class the registry has given a node, if any. */
  function ClassOf<N, L>(t: Table<N, L>, n: N): Option<string>
  {
    if n in t.classes then Some(t.classes[n]) else None
  }

  // ---------------------------------------------------------------------------
  // The colour palette
  // ---------------------------------------------------------------------------

  /** The palette of css classes; note that "demo-palette-31" is listed twice. */
  const Colors: seq<string> := [
    "demo-palette-11", "demo-palette-12", "demo-palette-13", "demo-palette-14",
    "demo-palette-15", "demo-palette-21", "demo-palette-22", "demo-palette-24",
    "demo-palette-25", "demo-palette-31", "demo-palette-31", "demo-palette-33",
    "demo-palette-34", "demo-palette-35"]

  /** The css class of the subcomponent at `index`: the palette is reused cyclically. */
  function ColorOf(index: nat): (c: string)
    ensures c in Colors
    ensures index < |Colors| ==> c == Colors[index]
  {
    var k := index % |Colors|;
    assert index < |Colors| ==> k == index;
    Colors[k]
  }

  // ---------------------------------------------------------------------------
  // The array operations the source uses: indexOf, splice(start, 1), findIndex
  // ---------------------------------------------------------------------------

  /** `Array.prototype.indexOf`: the first position of `x`, or -1. */
  function IndexOf<N(==)>(s: seq<N>, x: N): (i: int)
    ensures -1 <= i < |s|
    ensures i < 0 <==> x !in s
    ensures 0 <= i ==> s[i] == x && x !in s[..i]
  {
    if |s| == 0 then -1
    else if s[0] == x then 0
    else
      var j := IndexOf(s[1..], x);
      if j < 0 then -1 else j + 1
  }

  /**
   * `Array.prototype.splice(start, 1)`: a negative start counts from the end,
   * a start past the end deletes nothing.
   */
  function SpliceOne<N>(s: seq<N>, start: int): (r: seq<N>)
    ensures |r| == if s == [] || start >= |s| then |s| else |s| - 1
  {
    var at := if start < 0 then (if |s| + start < 0 then 0 else |s| + start)
              else (if start < |s| then start else |s|);
    if at < |s| then s[..at] + s[at + 1..] else s
  }

  /**
   * `s.splice(s.indexOf(x), 1)`, the removal both operations perform: it drops
   * one element of a non-empty list even when `x` is absent.
   */
  function RemoveOne<N(==)>(s: seq<N>, x: N): (r: seq<N>)
    ensures |r| == if s == [] then 0 else |s| - 1
  {
    SpliceOne(s, IndexOf(s, x))
  }

  /**
   * `findIndex`'s test: the record is empty or all its nodes are among the new
   * ones.  The emptiness test is subsumed: the test holds exactly when every
   * node of the record is given.
   */
  predicate Reusable<N(==), L>(c: Subcomponent<N, L>, nodes: seq<N>): (b: bool)
    ensures b <==> forall j :: 0 <= j < |c.nodes| ==> c.nodes[j] in nodes
  {
    |c.nodes| == 0 || forall n :: n in c.nodes ==> n in nodes
  }

  /** `Array.prototype.findIndex` with the test `Reusable`. */
  function FindIndex<N(==), L>(records: seq<Subcomponent<N, L>>, nodes: seq<N>): (i: int)
    ensures -1 <= i < |records|
    ensures 0 <= i ==> Reusable(records[i], nodes)
    ensures forall j :: 0 <= j < |records| && (i < 0 || j < i) ==> !Reusable(records[j], nodes)
  {
    if |records| == 0 then -1
    else if Reusable(records[0], nodes) then 0
    else
      var j := FindIndex(records[1..], nodes);
      if j < 0 then -1 else j + 1
  }

  // ---------------------------------------------------------------------------
  // createSubcomponent
  // ---------------------------------------------------------------------------

  /**
   * The index `createSubcomponent` fills: the first reusable record, or the
   * index a newly appended record gets.
   */
  function ChosenSlot<N(==), L>(t: Table<N, L>, nodes: seq<N>): (i: nat)
    ensures i <= |t.records|
    ensures i < |t.records| ==> Reusable(t.records[i], nodes)
    ensures forall j :: 0 <= j < i ==> !Reusable(t.records[j], nodes)
  {
    var found := FindIndex(t.records, nodes);
    if found < 0 then |t.records| else found
  }

  /** The registry once the chosen slot is an empty record with the new layout. */
  function Reset<N(==), L>(t: Table<N, L>, nodes: seq<N>, layout: L): (r: Table<N, L>)
    ensures |r.records| == if ChosenSlot(t, nodes) < |t.records| then |t.records| else |t.records| + 1
    ensures ChosenSlot(t, nodes) < |r.records|
  {
    var i := ChosenSlot(t, nodes);
    if i < |t.records| then t.(records := t.records[i := Subcomponent([], layout)])
    else t.(records := t.records + [Subcomponent([], layout)])
  }

  /**
   * The condition under which the loop body splices `node` out of its old record:
   * the old tag is truthy (non-null and non-zero), names an existing record and
   * differs from the chosen index.
   */
  predicate SplicesOld<N, L>(t: Table<N, L>, i: nat, node: N): (b: bool)
    ensures b <==> TagOf(t, node).Some? && !TagOutOfRange(t, node) &&
                   TagOf(t, node) != Some(0) && TagOf(t, node) != Some(i)
  {
    var prev := TagOf(t, node);
    prev.Some? && prev.value != 0 && prev.value < |t.records| && prev.value != i
  }

  /** One iteration of the loop of `createSubcomponent` for `node`, filling record `i`. */
  function MoveStep<N(==), L>(t: Table<N, L>, i: nat, node: N): (r: Table<N, L>)
    requires i < |t.records|
    ensures |r.records| == |t.records|
    ensures r.records[i] == t.records[i].(nodes := t.records[i].nodes + [node])
    ensures SplicesOld(t, i, node) ==>
      var k := TagOf(t, node).value;
      r.records[k] == t.records[k].(nodes := RemoveOne(t.records[k].nodes, node))
    ensures forall j :: 0 <= j < |t.records| && j != i ==>
      (SplicesOld(t, i, node) && j == TagOf(t, node).value) || r.records[j] == t.records[j]
    ensures TagOf(r, node) == Some(i) && ClassOf(r, node) == Some(ColorOf(i))
    ensures r.tags - {node} == t.tags - {node} && r.classes - {node} == t.classes - {node}
  {
    var recs :=
      if SplicesOld(t, i, node) then
        var k := TagOf(t, node).value;
        t.records[k := t.records[k].(nodes := RemoveOne(t.records[k].nodes, node))]
      else t.records;
    Table(recs[i := recs[i].(nodes := recs[i].nodes + [node])],
          t.tags[node := Some(i)],
          t.classes[node := ColorOf(i)])
  }

  /** The loop of `createSubcomponent` after it has visited every node of `ns`, in order. */
  function MoveAll<N(==), L>(t: Table<N, L>, i: nat, ns: seq<N>): (r: Table<N, L>)
    requires i < |t.records|
    ensures |r.records| == |t.records|
    decreases |ns|
  {
    if |ns| == 0 then t
    else MoveStep(MoveAll(t, i, ns[..|ns| - 1]), i, ns[|ns| - 1])
  }

  /**
   * The effect of `createSubcomponent(nodes, layout)`: nothing for no nodes,
   * otherwise one more record exactly when no record is reusable.
   */
  function Create<N(==), L>(t: Table<N, L>, nodes: seq<N>, layout: L): (r: Table<N, L>)
    ensures |nodes| == 0 ==> r == t
    ensures |nodes| > 0 ==>
      ChosenSlot(t, nodes) < |r.records| &&
      |r.records| == if ChosenSlot(t, nodes) < |t.records| then |t.records| else |t.records| + 1
  {
    if |nodes| == 0 then t
    else MoveAll(Reset(t, nodes, layout), ChosenSlot(t, nodes), nodes)
  }

  // ---------------------------------------------------------------------------
  // removeSubcomponent
  // ---------------------------------------------------------------------------

  /**
   * The state after a run of `removeSubcomponent`'s loop; `thrown` when the loop
   * stopped because `subcomponents[node.tag]` was undefined (a TypeError), in
   * which case `table` holds the effect of the nodes before that one.
   */
  datatype Run<N, L> = Run(table: Table<N, L>, thrown: bool)

  /** A tag that names no record of the registry. */
  predicate TagOutOfRange<N, L>(t: Table<N, L>, n: N)
  {
    TagOf(t, n).Some? && TagOf(t, n).value >= |t.records|
  }

  /** One iteration of `removeSubcomponent`'s loop for `node`. */
  function RemoveStep<N(==), L>(t: Table<N, L>, node: N): (r: Run<N, L>)
    ensures |r.table.records| == |t.records|
    ensures r.thrown <==> TagOutOfRange(t, node)
    ensures TagOf(t, node).None? || r.thrown ==> r.table == t
    ensures TagOf(t, node).Some? && !r.thrown ==>
      var k := TagOf(t, node).value;
      && r.table.records[k] == t.records[k].(nodes := RemoveOne(t.records[k].nodes, node))
      && (forall j :: 0 <= j < |t.records| && j != k ==> r.table.records[j] == t.records[j])
      && TagOf(r.table, node) == None && ClassOf(r.table, node) == Some("")
    ensures r.table.tags - {node} == t.tags - {node}
    ensures r.table.classes - {node} == t.classes - {node}
  {
    match TagOf(t, node)
    case None => Run(t, false)
    case Some(k) =>
      if k >= |t.records| then Run(t, true)
      else
        var recs := t.records[k := t.records[k].(nodes := RemoveOne(t.records[k].nodes, node))];
        Run(Table(recs, t.tags[node := None], t.classes[node := ""]), false)
  }

  /** The effect of `removeSubcomponent(ns)`: the loop stops at the first thrown error. */
  function RemoveAll<N(==), L>(t: Table<N, L>, ns: seq<N>): (r: Run<N, L>)
    ensures |r.table.records| == |t.records|
    decreases |ns|
  {
    if |ns| == 0 then Run(t, false)
    else
      var p := RemoveAll(t, ns[..|ns| - 1]);
      if p.thrown then p else RemoveStep(p.table, ns[|ns| - 1])
  }

  // ---------------------------------------------------------------------------
  // The registry invariant
  // ---------------------------------------------------------------------------

  /** Every non-null tag names an existing record. */
  ghost predicate TagsInRange<N, L>(t: Table<N, L>)
  {
    forall n :: n in t.tags && t.tags[n].Some? ==> t.tags[n].value < |t.records|
  }

  /**
   * Every non-null tag names an existing record that lists the node.  (The
   * converse does not hold: record 0 may keep nodes that moved elsewhere.)
   */
  ghost predicate Consistent<N, L>(t: Table<N, L>)
  {
    forall n :: n in t.tags && t.tags[n].Some? ==>
      t.tags[n].value < |t.records| && n in t.records[t.tags[n].value].nodes
  }
}
