/**
 * The two select boxes of the subcomponents layout demo: the layout algorithm a
 * new subcomponent gets and the orientation it is given.  Both are `switch`
 * statements whose `default` label shares the branch of the first case, so any
 * value the select does not list falls back to a tree layout, top to bottom.
 */
module LayoutSelection {

  /** The layout algorithms the demo offers; their configuration is library state. */
  datatype LayoutAlgorithm = Tree | Organic | Orthogonal | Hierarchic

  datatype LayoutOrientation = TopToBottom | BottomToTop | LeftToRight | RightToLeft

  /** The option value of the layout select that names each algorithm. */
  function AlgorithmName(a: LayoutAlgorithm): string
  {
    match a
    case Tree => "tree"
    case Organic => "organic"
    case Orthogonal => "orthogonal"
    case Hierarchic => "hierarchic"
  }

  /** The option value of the orientation select that names each orientation. */
  function OrientationName(o: LayoutOrientation): string
  {
    match o
    case TopToBottom => "top-to-bottom"
    case BottomToTop => "bottom-to-top"
    case LeftToRight => "left-to-right"
    case RightToLeft => "right-to-left"
  }

  /**
   * `getLayoutAlgorithm`: the algorithm the layout select names; any other
   * value gives the tree layout, exactly like "tree".
   */
  function LayoutAlgorithmFor(value: string): (a: LayoutAlgorithm)
    ensures AlgorithmName(a) == value || a == Tree
    ensures a == Tree <==> value != "organic" && value != "orthogonal" && value != "hierarchic"
  {
    match value
    case "organic" => Organic
    case "orthogonal" => Orthogonal
    case "hierarchic" => Hierarchic
    case _ => Tree
  }

  /**
   * `getLayoutOrientation`: the orientation the orientation select names; any
   * other value gives top to bottom, exactly like "top-to-bottom".
   */
  function LayoutOrientationFor(value: string): (o: LayoutOrientation)
    ensures OrientationName(o) == value || o == TopToBottom
    ensures o == TopToBottom <==>
      value != "bottom-to-top" && value != "left-to-right" && value != "right-to-left"
  {
    match value
    case "bottom-to-top" => BottomToTop
    case "left-to-right" => LeftToRight
    case "right-to-left" => RightToLeft
    case _ => TopToBottom
  }

  /** Every listed option value selects the algorithm it names. */
  lemma AlgorithmNamesSelect(a: LayoutAlgorithm)
    ensures LayoutAlgorithmFor(AlgorithmName(a)) == a
  {
  }

  /** Every listed option value selects the orientation it names. */
  lemma OrientationNamesSelect(o: LayoutOrientation)
    ensures LayoutOrientationFor(OrientationName(o)) == o
  {
  }
}
