/**
 * The part of the intersection detection demo that is its own logic: turning
 * the state of the option controls into the options of the library's
 * intersection algorithm, and sorting the reported intersections into the four
 * counters of the information panel.
 */
module IntersectionOptions {

  /** The item kinds the library's item-type flags name (a flag set is a set of kinds). */
  datatype ItemType = Node | Edge | Label

  const All: set<ItemType> := {Node, Edge, Label}

  /** The option controls: the considered-items select and the four checkboxes. */
  datatype Controls = Controls(
    consideredItems: string,
    labelOwner: bool,
    sourceTarget: bool,
    groupContent: bool,
    itemGeometry: bool)

  /** The options set on the intersection algorithm before it runs. */
  datatype Options = Options(
    consideredItemTypes: set<ItemType>,
    independentItems: set<ItemType>,
    considerItemGeometry: bool)

  /**
   * The item types the considered-items select stands for; "all" and every
   * value the select does not list give all of them.
   */
  function ConsideredItemTypes(value: string): (r: set<ItemType>)
    ensures r != {}
    ensures Node in r <==> value != "edges" && value != "labels"
    ensures Edge in r <==> value != "nodes" && value != "labels" && value != "nodes-and-labels"
    ensures Label in r <==> value != "nodes" && value != "edges" && value != "nodes-and-edges"
  {
    match value
    case "nodes" => {Node}
    case "edges" => {Edge}
    case "labels" => {Label}
    case "nodes-and-edges" => {Node, Edge}
    case "nodes-and-labels" => {Node, Label}
    case _ => All
  }

  /**
   * The option setup of `runIntersectionAlgorithm`: the independent items start
   * empty and gain one flag per checked box.
   */
  method ConfigureIntersections(controls: Controls) returns (options: Options)
    ensures options.consideredItemTypes == ConsideredItemTypes(controls.consideredItems)
    ensures Label in options.independentItems <==> controls.labelOwner
    ensures Edge in options.independentItems <==> controls.sourceTarget
    ensures Node in options.independentItems <==> controls.groupContent
    ensures options.considerItemGeometry == controls.itemGeometry
  {
    var considered := ConsideredItemTypes(controls.consideredItems);
    var independentItems: set<ItemType> := {};
    if controls.labelOwner {
      independentItems := independentItems + {Label};
    }
    if controls.sourceTarget {
      independentItems := independentItems + {Edge};
    }
    if controls.groupContent {
      independentItems := independentItems + {Node};
    }
    options := Options(considered, independentItems, controls.itemGeometry);
  }
}

module IntersectionTally {

  /** The kind of a graph item an intersection reports; `Other` covers ports and the rest. */
  datatype ItemKind = Node | Edge | Label | Other

  /** One reported intersection between two items. */
  datatype Intersection = Intersection(item1: ItemKind, item2: ItemKind)

  /** The four counters of the information panel. */
  datatype Category = NodeNode | NodeEdge | EdgeEdge | LabelIntersection

  /** The numbers the information panel shows. */
  datatype InfoPanel = InfoPanel(
    total: nat, nodeNode: nat, nodeEdge: nat, edgeEdge: nat, labels: nat)

  /** The counter an intersection goes to: the `if` chain of the panel update. */
  function Classify(x: Intersection): (c: Category)
    ensures c == NodeNode <==> x.item1 == Node && x.item2 == Node
    ensures c == EdgeEdge <==> x.item1 == Edge && x.item2 == Edge
    ensures c == NodeEdge <==> {x.item1, x.item2} == {Node, Edge}
    ensures c == LabelIntersection <==> !(x.item1 in {Node, Edge} && x.item2 in {Node, Edge})
  {
    if x.item1 == Node && x.item2 == Node then NodeNode
    else if x.item1 == Edge && x.item2 == Edge then EdgeEdge
    else if (x.item1 == Edge && x.item2 == Node) || (x.item1 == Node && x.item2 == Edge) then NodeEdge
    else LabelIntersection
  }

  /** The same intersection with its items in the other order. */
  function Swap(x: Intersection): Intersection
  {
    Intersection(x.item2, x.item1)
  }

  /** The number of intersections that go to counter `c`. */
  function Count(xs: seq<Intersection>, c: Category): (n: nat)
    ensures n <= |xs|
    decreases |xs|
  {
    if |xs| == 0 then 0
    else Count(xs[..|xs| - 1], c) + (if Classify(xs[|xs| - 1]) == c then 1 else 0)
  }

  /** The order of the two items does not matter. */
  lemma ClassifySymmetric(x: Intersection)
    ensures Classify(Swap(x)) == Classify(x)
  {
  }

  /** Every intersection lands in exactly one counter, so the counters add up to the total. */
  lemma {:induction false} CountsPartition(xs: seq<Intersection>)
    ensures Count(xs, NodeNode) + Count(xs, NodeEdge) + Count(xs, EdgeEdge) +
            Count(xs, LabelIntersection) == |xs|
    decreases |xs|
  {
    if |xs| > 0 {
      CountsPartition(xs[..|xs| - 1]);
    }
  }

  /** Swapping the items of every intersection leaves every counter as it was. */
  lemma {:induction false} CountSwapped(xs: seq<Intersection>, c: Category)
    ensures Count(seq(|xs|, i requires 0 <= i < |xs| => Swap(xs[i])), c) == Count(xs, c)
    decreases |xs|
  {
    var ys := seq(|xs|, i requires 0 <= i < |xs| => Swap(xs[i]));
    if |xs| > 0 {
      var pre := xs[..|xs| - 1];
      CountSwapped(pre, c);
      assert ys[..|ys| - 1] == seq(|pre|, i requires 0 <= i < |pre| => Swap(pre[i]));
      ClassifySymmetric(xs[|xs| - 1]);
    }
  }

  /**
   * `updateIntersectionInfoPanel`: one pass over the intersections, counting
   * each into the counter `Classify` picks; the total is the list's length.
   */
  method UpdateIntersectionInfoPanel(intersections: seq<Intersection>) returns (panel: InfoPanel)
    ensures panel.total == |intersections|
    ensures panel.nodeNode == Count(intersections, NodeNode)
    ensures panel.nodeEdge == Count(intersections, NodeEdge)
    ensures panel.edgeEdge == Count(intersections, EdgeEdge)
    ensures panel.labels == Count(intersections, LabelIntersection)
    ensures panel.nodeNode + panel.nodeEdge + panel.edgeEdge + panel.labels == panel.total
  {
    var nodeNodeIntersections, nodeEdgeIntersections := 0, 0;
    var edgeEdgeIntersections, labelIntersections := 0, 0;
    for k := 0 to |intersections|
      invariant nodeNodeIntersections == Count(intersections[..k], NodeNode)
      invariant nodeEdgeIntersections == Count(intersections[..k], NodeEdge)
      invariant edgeEdgeIntersections == Count(intersections[..k], EdgeEdge)
      invariant labelIntersections == Count(intersections[..k], LabelIntersection)
    {
      var item1 := intersections[k].item1;
      var item2 := intersections[k].item2;
      if item1 == Node && item2 == Node {
        nodeNodeIntersections := nodeNodeIntersections + 1;
      } else if item1 == Edge && item2 == Edge {
        edgeEdgeIntersections := edgeEdgeIntersections + 1;
      } else if (item1 == Edge && item2 == Node) || (item1 == Node && item2 == Edge) {
        nodeEdgeIntersections := nodeEdgeIntersections + 1;
      } else {
        labelIntersections := labelIntersections + 1;
      }
      assert intersections[..k + 1][..k] == intersections[..k];
    }
    assert intersections[..|intersections|] == intersections;
    CountsPartition(intersections);
    panel := InfoPanel(|intersections|, nodeNodeIntersections, nodeEdgeIntersections,
                       edgeEdgeIntersections, labelIntersections);
  }
}
