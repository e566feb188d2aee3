/** The node record of the search tree, its shared sentinel, and the memory of a set of nodes.
    Pointers stay pointers: every node is an object, and NILNODE is one more object that all trees share. */
module SbtNodes {

  type Score = real

  datatype Color = Red | Black

  datatype Side = L | R {
    function Other(): Side { if this == L then R else L }
  }

  class SbtNode {
    var parent: SbtNode?
    var left: SbtNode?
    var right: SbtNode?
    var key: Score
    var color: Color
    const owner: object?  // what container_of(this) gives

    /** mk_tstn: a red node without a parent whose children are both NILNODE. */
    constructor (key: Score, nil: SbtNode, owner: object?)
      ensures View() == Cell(null, nil, nil, key, Red) && this.owner == owner
    {
      this.parent, this.left, this.right, this.key, this.color, this.owner := null, nil, nil, key, Red, owner;
    }

    /** NILNODE itself. */
    constructor Sentinel()
      ensures View() == Cell(null, null, null, 0.0, Black)
    {
      parent, left, right, key, color, owner := null, null, null, 0.0, Black, null;
    }

    ghost function View(): Cell
      reads this
    {
      Cell(parent, left, right, key, color)
    }

    method SetLeft(c: SbtNode?, ghost s: set<SbtNode>)
      requires this in s
      modifies this`left
      ensures Snap(s) == old(Snap(s))[this := old(Snap(s)[this]).(left := c)]
    {
      left := c;
    }

    method SetRight(c: SbtNode?, ghost s: set<SbtNode>)
      requires this in s
      modifies this`right
      ensures Snap(s) == old(Snap(s))[this := old(Snap(s)[this]).(right := c)]
    {
      right := c;
    }

    method SetParent(p: SbtNode?, ghost s: set<SbtNode>)
      requires this in s
      modifies this`parent
      ensures Snap(s) == old(Snap(s))[this := old(Snap(s)[this]).(parent := p)]
    {
      parent := p;
    }

    method SetColor(c: Color, ghost s: set<SbtNode>)
      requires this in s
      modifies this`color
      ensures Snap(s) == old(Snap(s))[this := old(Snap(s)[this]).(color := c)]
    {
      color := c;
    }
  }

  predicate IsNull(n: SbtNode?, nil: SbtNode) {
    n == null || n == nil
  }

  /** What one node holds, as a value. */
  datatype Cell = Cell(parent: SbtNode?, left: SbtNode?, right: SbtNode?, key: Score, color: Color) {
    function Child(d: Side): SbtNode? { if d == L then left else right }

    function WithChild(d: Side, c: SbtNode?): Cell {
      if d == L then this.(left := c) else this.(right := c)
    }
  }

  type Mem = map<SbtNode, Cell>

  ghost function Snap(s: set<SbtNode>): Mem
    reads s
  {
    map n | n in s :: n.View()
  }
}
