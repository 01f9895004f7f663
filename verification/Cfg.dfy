/** The successor relation that the dominator analyses read from a graph. */
module Cfgs {
  import opened Walks

  datatype Option<+T> = None | Some(value: T)

  /** A control-flow graph: each node's targets in the order its iterator yields them, repeats included. */
  datatype Cfg = Cfg(succ: map<Node, seq<Node>>) {

    /** A node the graph does not hold has no successors. */
    function Successors(n: Node): seq<Node> {
      if n in succ then succ[n] else []
    }

    ghost function Edges(): (e: Rel)
      ensures forall v: Node, w: Node :: (v, w) in e <==> w in Successors(v)
    {
      set v, w | v in succ && w in succ[v] :: (v, w)
    }

    /** The edges with both ends in `nodes`. */
    ghost function Induced(nodes: set<Node>): (e: Rel)
      ensures forall v: Node, w: Node :: (v, w) in e <==> v in nodes && w in nodes && w in Successors(v)
    {
      set v, w | v in succ && w in succ[v] && v in nodes && w in nodes :: (v, w)
    }
  }
}
