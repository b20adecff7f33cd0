/** The A* search of PathManager.cs: a grid of Node objects wired 6-connected,
    searched one expansion per Step from the top-left node towards End. */
module PathFinding {
  import opened Lists
  import opened Grid

  /** float.MaxValue, the initial FScore of the start node. */
  const FloatMax: real := 340282346638528859811704183484516925440.0

  /** One grid cell: its coordinates and adjacency, and the search's scratch fields. */
  class Node {
    var NeighboringNodes: seq<Node>
    var Previous: Node?
    var FScore: real
    var GScore: int
    const Row: int
    const Column: int
    var IsObstacle: bool

    constructor (row: int, column: int)
      ensures Row == row && Column == column
      ensures NeighboringNodes == [] && Previous == null && FScore == 0.0 && GScore == 0 && !IsObstacle
    {
      NeighboringNodes := [];
      FScore := 0.0;
      GScore := 0;
      Row := row;
      Column := column;
      Previous := null;
      IsObstacle := false;
    }

    method AddNeighboringNode(node: Node)
      modifies this`NeighboringNodes
      ensures NeighboringNodes == old(NeighboringNodes) + [node]
    {
      NeighboringNodes := NeighboringNodes + [node];
    }
  }

  /** The (row, column) cell of each node of a list. */
  function Coords(s: seq<Node>): (r: seq<Cell>)
    ensures |r| == |s|
    ensures forall k :: 0 <= k < |s| ==> r[k] == (s[k].Row, s[k].Column)
  {
    if s == [] then [] else Coords(s[..|s| - 1]) + [(s[|s| - 1].Row, s[|s| - 1].Column)]
  }

  lemma CoordsSnoc(s: seq<Node>, x: Node)
    ensures Coords(s + [x]) == Coords(s) + [(x.Row, x.Column)]
  {
    assert (s + [x])[..|s|] == s;
  }

  /** Nodes with distinct cells are distinct nodes. */
  lemma CoordsNoDup(s: seq<Node>)
    requires NoDup(Coords(s))
    ensures NoDup(s)
  {
    var c := Coords(s);
    forall a, b | 0 <= a < b < |s| ensures s[a] != s[b] {
      assert c[a] != c[b];
    }
  }

  predicate Within(s: seq<Node>, nodes: set<Node>) {
    forall x :: x in s ==> x in nodes
  }

  /** The first k of the six guarded AddNeighboringNode calls of Awake for the node at (i, j). */
  function WiredPrefix(m: seq<seq<Node>>, i: int, j: int, height: int, width: int, k: nat): (r: seq<Node>)
    requires Shaped(m, height, width) && InBounds((i, j), height, width) && k <= 6
  {
    if k == 0 then []
    else
      var c := NeighborCell(i, j, k - 1);
      var s := WiredPrefix(m, i, j, height, width, k - 1);
      if Guard(i, j, height, width, k - 1) then s + [m[c.0][c.1]] else s
  }

  function AdjacentNodes(m: seq<seq<Node>>, i: int, j: int, height: int, width: int): seq<Node>
    requires Shaped(m, height, width) && InBounds((i, j), height, width)
  {
    WiredPrefix(m, i, j, height, width, 6)
  }

  lemma {:induction false} WiredPrefixCoords(m: seq<seq<Node>>, i: int, j: int, height: int, width: int, nodes: set<Node>, k: nat)
    requires Placed(m, height, width, nodes) && InBounds((i, j), height, width) && k <= 6
    ensures Coords(WiredPrefix(m, i, j, height, width, k)) == CellPrefix(i, j, height, width, k)
    ensures Within(WiredPrefix(m, i, j, height, width, k), nodes)
  {
    if k > 0 {
      WiredPrefixCoords(m, i, j, height, width, nodes, k - 1);
      var c := NeighborCell(i, j, k - 1);
      if Guard(i, j, height, width, k - 1) {
        CoordsSnoc(WiredPrefix(m, i, j, height, width, k - 1), m[c.0][c.1]);
      }
    }
  }

  lemma AdjacentNodesCoords(m: seq<seq<Node>>, i: int, j: int, height: int, width: int, nodes: set<Node>)
    requires Placed(m, height, width, nodes) && InBounds((i, j), height, width)
    ensures Coords(AdjacentNodes(m, i, j, height, width)) == AdjacentCells(i, j, height, width)
    ensures Within(AdjacentNodes(m, i, j, height, width), nodes)
  {
    WiredPrefixCoords(m, i, j, height, width, nodes, 6);
    CellPrefixAll(i, j, height, width);
  }

  /** Height rows of Width entries each. */
  predicate Shaped<T>(m: seq<seq<T>>, height: int, width: int) {
    |m| == height && forall i :: 0 <= i < height ==> |m[i]| == width
  }

  /** A height x width matrix whose node at [i][j] has Row i and Column j and belongs to `nodes`. */
  predicate Placed(m: seq<seq<Node>>, height: int, width: int, nodes: set<Node>) {
    Shaped(m, height, width) &&
    forall i, j :: 0 <= i < height && 0 <= j < width ==>
      m[i][j].Row == i && m[i][j].Column == j && m[i][j] in nodes
  }

  /** Placed, and every node of `nodes` stands in the matrix at its own cell. */
  predicate IsGrid(m: seq<seq<Node>>, height: int, width: int, nodes: set<Node>) {
    Placed(m, height, width, nodes) &&
    forall n :: n in nodes ==> 0 <= n.Row < height && 0 <= n.Column < width && m[n.Row][n.Column] == n
  }

  /** Every node's neighbour list is what the second double loop of Awake gives it. */
  ghost predicate Wired(m: seq<seq<Node>>, height: int, width: int, nodes: set<Node>)
    requires IsGrid(m, height, width, nodes)
    reads nodes`NeighboringNodes
  {
    forall i, j :: 0 <= i < height && 0 <= j < width ==>
      m[i][j].NeighboringNodes == AdjacentNodes(m, i, j, height, width)
  }

  /** Index of the first entry with the least key: the scan in Update keeps the first strictly smaller key it meets. */
  function FirstMinimal(keys: seq<real>): (k: nat)
    requires |keys| > 0
    ensures k < |keys|
    ensures forall j :: 0 <= j < |keys| ==> keys[k] <= keys[j]
    ensures forall j :: 0 <= j < k ==> keys[k] < keys[j]
  {
    if |keys| == 1 then 0
    else
      var k := FirstMinimal(keys[..|keys| - 1]);
      if keys[|keys| - 1] < keys[k] then |keys| - 1 else k
  }

  ghost function FScores(s: seq<Node>): (r: seq<real>)
    reads s
    ensures |r| == |s| && forall k :: 0 <= k < |s| ==> r[k] == s[k].FScore
  {
    seq(|s|, k requires 0 <= k < |s| reads s => s[k].FScore)
  }

  /** Whether one round of relaxation from `current` updates neighbour n, given the open and closed lists
      at the start of the round: n is a neighbour, neither closed nor an obstacle, and either new to
      the open list or reached more cheaply than before. */
  ghost predicate Relaxes(current: Node, n: Node, open: seq<Node>, closed: seq<Node>)
    reads current`NeighboringNodes, current`GScore, n`IsObstacle, n`GScore
  {
    n in current.NeighboringNodes && n !in closed && !n.IsObstacle &&
    (n in open ==> current.GScore + 1 < n.GScore)
  }

  /** The neighbours a relaxation round appends to the open list, in neighbour order. */
  ghost function Discovered(nbrs: seq<Node>, open: seq<Node>, closed: seq<Node>): (r: seq<Node>)
    reads nbrs`IsObstacle
    ensures |r| <= |nbrs|
  {
    if nbrs == [] then []
    else
      var n := nbrs[|nbrs| - 1];
      if n !in open && n !in closed && !n.IsObstacle then Discovered(nbrs[..|nbrs| - 1], open, closed) + [n]
      else Discovered(nbrs[..|nbrs| - 1], open, closed)
  }

  /** The GScore of each node of a list. */
  ghost function GScores(s: seq<Node>): (r: seq<int>)
    reads s
    ensures |r| == |s| && forall k :: 0 <= k < |s| ==> r[k] == s[k].GScore
  {
    if s == [] then [] else GScores(s[..|s| - 1]) + [s[|s| - 1].GScore]
  }

  /** The parent of each node of a list. */
  ghost function Parents(s: seq<Node>): (r: seq<Node?>)
    reads s
    ensures |r| == |s| && forall k :: 0 <= k < |s| ==> r[k] == s[k].Previous
  {
    if s == [] then [] else Parents(s[..|s| - 1]) + [s[|s| - 1].Previous]
  }

  /** Both directions: a node is appended iff it is a neighbour in neither list and not an obstacle. */
  lemma {:induction false} DiscoveredMember(nbrs: seq<Node>, open: seq<Node>, closed: seq<Node>, x: Node)
    ensures x in Discovered(nbrs, open, closed) <==> x in nbrs && x !in open && x !in closed && !x.IsObstacle
  {
    if nbrs != [] {
      var init := nbrs[..|nbrs| - 1];
      DiscoveredMember(init, open, closed, x);
      assert nbrs == init + [nbrs[|nbrs| - 1]];
    }
  }

  /** One more neighbour: the list appended so far grows by that neighbour if it qualifies. Only the
      obstacle flags of the neighbours matter, so the other fields may have changed meanwhile. */
  twostate lemma DiscoveredSnoc(nbrs: seq<Node>, new i: nat, new open: seq<Node>, new closed: seq<Node>)
    requires old(allocated(open)) && old(allocated(closed))
    requires i < |nbrs|
    requires unchanged(nbrs`IsObstacle)
    ensures Discovered(nbrs[..i + 1], open, closed) ==
      old(Discovered(nbrs[..i], open, closed)) +
      (if nbrs[i] !in open && nbrs[i] !in closed && !nbrs[i].IsObstacle then [nbrs[i]] else [])
  {
    assert nbrs[..i + 1][..i] == nbrs[..i];
  }

  /** In a duplicate-free neighbour list, the i-th neighbour is not among those appended before it. */
  lemma DiscoveredNotYet(nbrs: seq<Node>, i: nat, open: seq<Node>, closed: seq<Node>)
    requires NoDup(nbrs) && i < |nbrs|
    ensures nbrs[i] !in Discovered(nbrs[..i], open, closed)
  {
    DiscoveredMember(nbrs[..i], open, closed, nbrs[i]);
  }

  /** The index of the last true entry of flags, or -1 if there is none. */
  function LastTrue(flags: seq<bool>): (r: int)
    ensures -1 <= r < |flags|
    ensures r >= 0 ==> flags[r]
    ensures forall k :: r < k < |flags| ==> !flags[k]
  {
    if flags == [] then -1
    else if flags[|flags| - 1] then |flags| - 1
    else LastTrue(flags[..|flags| - 1])
  }

  /** One more flag: the last true index becomes i if flag i is set, and stays otherwise. */
  lemma LastTrueSnoc(flags: seq<bool>, i: nat)
    requires i < |flags|
    ensures LastTrue(flags[..i + 1]) == if flags[i] then i else LastTrue(flags[..i])
  {
    assert flags[..i + 1][..i] == flags[..i];
  }

  /** For each neighbour of current, in order, whether a relaxation round from current updates it. */
  ghost function RelaxFlags(current: Node, open: seq<Node>, closed: seq<Node>): (r: seq<bool>)
    reads current, current.NeighboringNodes
    ensures |r| == |current.NeighboringNodes|
    ensures forall k :: 0 <= k < |r| ==> r[k] == Relaxes(current, current.NeighboringNodes[k], open, closed)
  {
    seq(|current.NeighboringNodes|, k requires 0 <= k < |current.NeighboringNodes| reads current, current.NeighboringNodes =>
      Relaxes(current, current.NeighboringNodes[k], open, closed))
  }

  /** The flags depend only on current and its neighbours. */
  twostate lemma RelaxFlagsFrame(current: Node, new open: seq<Node>, new closed: seq<Node>)
    requires old(allocated(open)) && old(allocated(closed))
    requires unchanged(current) && unchanged(current.NeighboringNodes)
    ensures RelaxFlags(current, open, closed) == old(RelaxFlags(current, open, closed))
  {
  }

  class PathManager {
    const Width: int
    const Height: int
    /** Vector2.magnitude of the difference vector (dx, dy); the float square root is not modelled. */
    const Magnitude: (int, int) -> real
    const NodeMatrix: seq<seq<Node>>
    /** The nodes of NodeMatrix, as a set. */
    ghost const Nodes: set<Node>
    const Start: Node?
    const End: Node?
    var OptimalPath: seq<Node>
    var OpenSet: seq<Node>
    var ClosedSet: seq<Node>
    var CurrentGScore: int

    function GetDistanceBetween(first: Node, second: Node): real {
      Magnitude(second.Column - first.Column, second.Row - first.Row)
    }

    /** The topology built by Awake: a Height x Width matrix of distinct nodes, 6-connected, with Start
        at the top-left and End at the bottom-right corner. */
    ghost predicate Built()
      reads Nodes`NeighboringNodes
    {
      0 < Width && 0 < Height &&
      IsGrid(NodeMatrix, Height, Width, Nodes) &&
      |Nodes| == Width * Height &&
      Wired(NodeMatrix, Height, Width, Nodes) &&
      Start == NodeMatrix[0][0] && End == NodeMatrix[Height - 1][Width - 1]
    }

    /** What the search relies on of the graph Awake built: Width * Height nodes, Start and End among
        them and traversable, and every neighbour list a duplicate-free list of other grid nodes. */
    ghost predicate GraphValid()
      reads Nodes`NeighboringNodes, Nodes`IsObstacle
    {
      0 < Width && 0 < Height && |Nodes| == Width * Height &&
      Start != null && End != null && Start in Nodes && End in Nodes &&
      !Start.IsObstacle && !End.IsObstacle &&
      forall n {:trigger WellWired(n)} :: n in Nodes ==> WellWired(n)
    }

    /** n's neighbour list is a duplicate-free list of other grid nodes. */
    ghost predicate WellWired(n: Node)
      reads n`NeighboringNodes
    {
      Within(n.NeighboringNodes, Nodes) && NoDup(n.NeighboringNodes) && n !in n.NeighboringNodes
    }

    /** The grid Awake builds, with traversable corners, is a graph the search can run on. */
    lemma BuiltGraphValid()
      requires Built() && !Start.IsObstacle && !End.IsObstacle
      ensures GraphValid()
    {
      forall n | n in Nodes ensures WellWired(n) {
        NeighborsOf(n);
      }
    }

    /** Along Previous links GScore drops by exactly one and never goes below zero. */
    ghost predicate ParentLinked()
      reads Nodes`GScore, Nodes`Previous
    {
      forall n {:trigger Linked(n)} :: n in Nodes ==> Linked(n)
    }

    /** n's GScore is not negative, and n's parent, if any, is a grid node one step cheaper. */
    ghost predicate Linked(n: Node)
      reads n`Previous, Nodes`GScore
    {
      (n in Nodes ==> n.GScore >= 0) &&
      (n.Previous != null ==> n.Previous in Nodes && (n in Nodes ==> n.GScore == n.Previous.GScore + 1))
    }

    /** The invariants of the open/closed bookkeeping that every step keeps. */
    ghost predicate SearchValid()
      reads this`OpenSet, this`ClosedSet, Nodes`NeighboringNodes, Nodes`GScore, Nodes`Previous, Nodes`IsObstacle
    {
      Start != null && Start in Nodes && ListsValid() && LinksValid()
    }

    /** Both lists hold distinct traversable grid nodes, no node is in both, and Start is in one of them. */
    ghost predicate ListsValid()
      reads this`OpenSet, this`ClosedSet, Nodes`IsObstacle
    {
      (forall n {:trigger OpenOk(n)} :: n in OpenSet ==> OpenOk(n)) &&
      (forall n {:trigger ClosedOk(n)} :: n in ClosedSet ==> ClosedOk(n)) &&
      NoDup(OpenSet) && NoDup(ClosedSet) &&
      (Start in OpenSet || Start in ClosedSet)
    }

    /** What holds of each open node: a traversable grid node that is not closed. */
    ghost predicate OpenOk(n: Node)
      reads this`ClosedSet, Nodes`IsObstacle
    {
      n in Nodes && !n.IsObstacle && n !in ClosedSet
    }

    /** What holds of each closed node: a traversable grid node. */
    ghost predicate ClosedOk(n: Node)
      reads Nodes`IsObstacle
    {
      n in Nodes && !n.IsObstacle
    }

    /** Start has GScore 0 and no parent; every other open or closed node has a parent, and every parent
        is a closed node neighbouring its child (ParentLinked: one step cheaper). */
    ghost predicate LinksValid()
      reads this`OpenSet, this`ClosedSet, Nodes`NeighboringNodes, Nodes`GScore, Nodes`Previous
    {
      Start != null && Start in Nodes &&
      Start.GScore == 0 && Start.Previous == null &&
      ParentLinked() &&
      forall n {:trigger Parented(n)} :: n in Nodes ==> Parented(n)
    }

    /** n's parent, if any, is a closed neighbour of n; an open or closed node without one is Start. */
    ghost predicate Parented(n: Node)
      reads this`OpenSet, this`ClosedSet, n`Previous, Nodes`NeighboringNodes
    {
      (n.Previous != null ==> n.Previous in ClosedSet && (n.Previous in Nodes ==> n in n.Previous.NeighboringNodes)) &&
      (n.Previous == null && (n in OpenSet || n in ClosedSet) ==> n == Start)
    }

    ghost predicate Valid()
      reads this`OpenSet, this`ClosedSet, Nodes`NeighboringNodes, Nodes`IsObstacle, Nodes`GScore, Nodes`Previous
    {
      GraphValid() && SearchValid()
    }

    /** The list PushPath builds from n: n, then Previous after Previous until a node without one. */
    ghost function Chain(n: Node): (r: seq<Node>)
      requires n in Nodes && ParentLinked()
      reads Nodes`GScore, Nodes`Previous
      ensures |r| >= 1 && r[0] == n
      decreases n.GScore
    {
      assert Linked(n);
      if n.Previous == null then [n] else [n] + Chain(n.Previous)
    }

    /** The chain is a walk along Previous links through grid nodes, ending at a node without a parent. */
    lemma {:induction false} ChainLinks(n: Node)
      requires n in Nodes && ParentLinked()
      ensures Chain(n)[|Chain(n)| - 1].Previous == null
      ensures forall k {:trigger Chain(n)[k].Previous} :: 0 <= k < |Chain(n)| - 1 ==> Chain(n)[k + 1] == Chain(n)[k].Previous
      ensures forall k :: 0 <= k < |Chain(n)| ==> Chain(n)[k] in Nodes
      decreases n.GScore
    {
      assert Linked(n);
      if n.Previous != null {
        ChainLinks(n.Previous);
        assert Chain(n) == [n] + Chain(n.Previous);
        forall k | 1 <= k < |Chain(n)| ensures Chain(n)[k] == Chain(n.Previous)[k - 1] {}
      }
    }

    /** The node the scan in Update picks: the first entry of OpenSet with the least FScore. */
    ghost function Selected(): (c: Node)
      requires OpenSet != []
      reads this`OpenSet, OpenSet
      ensures c in OpenSet
    {
      OpenSet[FirstMinimal(FScores(OpenSet))]
    }

    /** The step has nothing left to do: the open list is empty or the node it picks is End. */
    ghost predicate Terminal()
      reads this`OpenSet, OpenSet
    {
      OpenSet == [] || Selected() == End
    }

    /** The state Awake leaves behind: the built grid, only Start open, nothing closed, no parent
        links, every GScore 0, Start's FScore float.MaxValue and every other FScore 0, and the
        obstacle draws kept everywhere except at Start and End. */
    ghost predicate Initial(obstacle: (int, int) -> bool)
      reads this, Nodes
    {
      Built() && OpenSet == [Start] && ClosedSet == [] && CurrentGScore == 0 && OptimalPath == [] &&
      Start.FScore == FloatMax &&
      forall n :: n in Nodes ==>
        n.Previous == null && n.GScore == 0 && (n != Start ==> n.FScore == 0.0) &&
        n.IsObstacle == (obstacle(n.Row, n.Column) && n != Start && n != End)
    }

    /** The state Awake leaves behind meets every invariant of the search. */
    lemma InitialValid(obstacle: (int, int) -> bool)
      requires Initial(obstacle)
      ensures Valid()
    {
      BuiltGraphValid();
    }

    /** Awake: build the matrix, wire the neighbours, seed the search. End is taken at the bottom-right
        cell (see EndCell); a grid with no rows or no columns is left empty. */
    constructor (width: int, height: int, obstacle: (int, int) -> bool, magnitude: (int, int) -> real)
      ensures Width == width && Height == height && Magnitude == magnitude
      ensures OptimalPath == [] && CurrentGScore == 0
      ensures width <= 0 || height <= 0 ==>
        NodeMatrix == [] && Nodes == {} && Start == null && End == null && OpenSet == [] && ClosedSet == []
      ensures width > 0 && height > 0 ==> Initial(obstacle) && Valid() && fresh(Nodes)
    {
      Width, Height, Magnitude := width, height, magnitude;
      OptimalPath := [];
      CurrentGScore := 0;
      if width <= 0 || height <= 0 {
        NodeMatrix, Nodes, Start, End := [], {}, null, null;
        OpenSet, ClosedSet := [], [];
      } else {
        var matrix, nodes := BuildGrid(width, height, obstacle);
        var corner := EndCell(width, height);
        NodeMatrix, Nodes, Start, End := matrix, nodes, matrix[0][0], matrix[corner.0][corner.1];
        ClosedSet := [];
        OpenSet := [matrix[0][0]];
      }
      new;
      if width > 0 && height > 0 {
        InitialValid(obstacle);
      }
    }

    /** The body of Awake on a grid with rows and columns: create the nodes, wire them, and seed the
        start and end corners. */
    static method BuildGrid(width: int, height: int, obstacle: (int, int) -> bool)
      returns (matrix: seq<seq<Node>>, ghost nodes: set<Node>)
      requires width > 0 && height > 0
      ensures IsGrid(matrix, height, width, nodes) && fresh(nodes) && |nodes| == height * width
      ensures Wired(matrix, height, width, nodes)
      ensures matrix[0][0].FScore == FloatMax
      ensures forall n :: n in nodes ==>
        n.Previous == null && n.GScore == 0 && (n != matrix[0][0] ==> n.FScore == 0.0) &&
        n.IsObstacle == (obstacle(n.Row, n.Column) && n != matrix[0][0] && n != matrix[height - 1][width - 1])
    {
      matrix, nodes := CreateNodes(height, width, obstacle);
      WireNeighbors(matrix, height, width, nodes);
      var corner := EndCell(width, height);
      SeedEndpoints(matrix[0][0], matrix[corner.0][corner.1]);
    }

    /** The last lines of Awake: Start gets GScore 0 and FScore float.MaxValue; Start and End are cleared
        of obstacles whatever the draw gave them. */
    static method SeedEndpoints(start: Node, end: Node)
      modifies start`GScore, start`FScore, start`IsObstacle, end`IsObstacle
      ensures start.GScore == 0 && start.FScore == FloatMax && !start.IsObstacle && !end.IsObstacle
      ensures start != end ==> end.GScore == old(end.GScore) && end.FScore == old(end.FScore)
    {
      start.GScore := 0;
      start.FScore := FloatMax;
      start.IsObstacle := false;
      end.IsObstacle := false;
    }

    /** The first double loop of Awake: Height rows of Width fresh nodes, obstacle flags from the draws. */
    static method CreateNodes(height: int, width: int, obstacle: (int, int) -> bool)
      returns (matrix: seq<seq<Node>>, ghost nodes: set<Node>)
      requires height > 0 && width > 0
      ensures IsGrid(matrix, height, width, nodes) && fresh(nodes) && |nodes| == height * width
      ensures forall n :: n in nodes ==>
        n.NeighboringNodes == [] && n.Previous == null && n.GScore == 0 && n.FScore == 0.0 &&
        n.IsObstacle == obstacle(n.Row, n.Column)
    {
      matrix := [];
      nodes := {};
      for i := 0 to height
        invariant |matrix| == i
        invariant forall a :: 0 <= a < i ==> |matrix[a]| == width
        invariant forall a, b :: 0 <= a < i && 0 <= b < width ==>
          matrix[a][b].Row == a && matrix[a][b].Column == b && matrix[a][b] in nodes
        invariant forall n :: n in nodes ==> 0 <= n.Row < i && 0 <= n.Column < width && matrix[n.Row][n.Column] == n
        invariant fresh(nodes) && |nodes| == i * width
        invariant forall n :: n in nodes ==>
          n.NeighboringNodes == [] && n.Previous == null && n.GScore == 0 && n.FScore == 0.0 &&
          n.IsObstacle == obstacle(n.Row, n.Column)
      {
        var nodeRow, rowNodes := CreateRow(i, width, obstacle);
        assert nodes !! rowNodes;
        assert |nodes + rowNodes| == i * width + width == (i + 1) * width;
        matrix := matrix + [nodeRow];
        nodes := nodes + rowNodes;
      }
    }

    /** The inner loop of the first double loop: row i, nodes (i, 0) .. (i, width - 1). */
    static method CreateRow(i: int, width: int, obstacle: (int, int) -> bool)
      returns (nodeRow: seq<Node>, ghost rowNodes: set<Node>)
      requires width > 0
      ensures |nodeRow| == width && fresh(rowNodes) && |rowNodes| == width
      ensures forall b :: 0 <= b < width ==> nodeRow[b].Row == i && nodeRow[b].Column == b && nodeRow[b] in rowNodes
      ensures forall n :: n in rowNodes ==> n.Row == i && 0 <= n.Column < width && nodeRow[n.Column] == n
      ensures forall n :: n in rowNodes ==>
        n.NeighboringNodes == [] && n.Previous == null && n.GScore == 0 && n.FScore == 0.0 &&
        n.IsObstacle == obstacle(n.Row, n.Column)
    {
      nodeRow := [];
      rowNodes := {};
      for j := 0 to width
        invariant |nodeRow| == j && fresh(rowNodes) && |rowNodes| == j
        invariant forall b :: 0 <= b < j ==> nodeRow[b].Row == i && nodeRow[b].Column == b && nodeRow[b] in rowNodes
        invariant forall n :: n in rowNodes ==> n.Row == i && 0 <= n.Column < j && nodeRow[n.Column] == n
        invariant forall n :: n in rowNodes ==>
          n.NeighboringNodes == [] && n.Previous == null && n.GScore == 0 && n.FScore == 0.0 &&
          n.IsObstacle == obstacle(n.Row, n.Column)
      {
        var node := new Node(i, j);
        node.IsObstacle := obstacle(i, j);
        nodeRow := nodeRow + [node];
        rowNodes := rowNodes + {node};
      }
    }

    /** The second double loop of Awake: each node gets its in-bounds neighbours in the fixed order
        up, left, right, down, down-right, up-left. */
    static method WireNeighbors(matrix: seq<seq<Node>>, height: int, width: int, ghost nodes: set<Node>)
      requires height > 0 && width > 0 && IsGrid(matrix, height, width, nodes)
      requires forall n :: n in nodes ==> n.NeighboringNodes == []
      modifies nodes`NeighboringNodes
      ensures Wired(matrix, height, width, nodes)
    {
      for i := 0 to height
        invariant forall a, b :: 0 <= a < height && 0 <= b < width ==>
          matrix[a][b].NeighboringNodes == (if a < i then AdjacentNodes(matrix, a, b, height, width) else [])
      {
        for j := 0 to width
          invariant forall a, b :: 0 <= a < height && 0 <= b < width ==>
            matrix[a][b].NeighboringNodes ==
              (if a < i || (a == i && b < j) then AdjacentNodes(matrix, a, b, height, width) else [])
        {
          WireNode(matrix, height, width, i, j, matrix[i][j]);
        }
      }
    }

    /** The six guarded AddNeighboringNode calls for the node at (i, j). */
    static method WireNode(matrix: seq<seq<Node>>, height: int, width: int, i: int, j: int, currentNode: Node)
      requires Shaped(matrix, height, width) && InBounds((i, j), height, width)
      requires currentNode == matrix[i][j] && currentNode.NeighboringNodes == []
      modifies currentNode`NeighboringNodes
      ensures currentNode.NeighboringNodes == AdjacentNodes(matrix, i, j, height, width)
    {
      ghost var m, h, w := matrix, height, width;
      if i > 0 {
        currentNode.AddNeighboringNode(matrix[i - 1][j]);
      }
      assert currentNode.NeighboringNodes == WiredPrefix(m, i, j, h, w, 1);
      if j > 0 {
        currentNode.AddNeighboringNode(matrix[i][j - 1]);
      }
      assert currentNode.NeighboringNodes == WiredPrefix(m, i, j, h, w, 2);
      if j < width - 1 {
        currentNode.AddNeighboringNode(matrix[i][j + 1]);
      }
      assert currentNode.NeighboringNodes == WiredPrefix(m, i, j, h, w, 3);
      if i < height - 1 {
        currentNode.AddNeighboringNode(matrix[i + 1][j]);
      }
      assert currentNode.NeighboringNodes == WiredPrefix(m, i, j, h, w, 4);
      if i < height - 1 && j < width - 1 {
        currentNode.AddNeighboringNode(matrix[i + 1][j + 1]);
      }
      assert currentNode.NeighboringNodes == WiredPrefix(m, i, j, h, w, 5);
      if j > 0 && i > 0 {
        currentNode.AddNeighboringNode(matrix[i - 1][j - 1]);
      }
    }

    /** The scan of Update: keep the first node met whose FScore is strictly below the best so far. */
    method SelectCurrent() returns (current: Node)
      requires OpenSet != []
      ensures current == Selected()
      ensures current in OpenSet
      ensures forall n :: n in OpenSet ==> current.FScore <= n.FScore
    {
      ghost var keys := FScores(OpenSet);
      current := OpenSet[0];
      for i := 0 to |OpenSet|
        invariant i == 0 ==> current == OpenSet[0]
        invariant i > 0 ==> current == OpenSet[FirstMinimal(keys[..i])]
      {
        assert keys[..i + 1][..i] == keys[..i];
        if OpenSet[i].FScore < current.FScore {
          current := OpenSet[i];
        }
      }
      assert keys[..|OpenSet|] == keys;
    }

    /** PushPath: OptimalPath becomes node followed by its Previous links up to the first node without one. */
    method PushPath(node: Node)
      requires node in Nodes && ParentLinked()
      modifies this`OptimalPath
      ensures OptimalPath == Chain(node)
    {
      ghost var whole := Chain(node);
      ChainLinks(node);
      ghost var k := 0;
      var temp := node;
      OptimalPath := [];
      OptimalPath := OptimalPath + [node];
      while temp.Previous != null
        invariant 0 <= k < |whole| && temp == whole[k]
        invariant OptimalPath == whole[..k + 1]
        decreases |whole| - k
      {
        OptimalPath := OptimalPath + [temp.Previous];
        temp := temp.Previous;
        k := k + 1;
      }
      assert k == |whole| - 1;
      assert OptimalPath == whole;
    }

    /** From an open or closed node, the Previous chain is a walk through the grid back to Start: each
        link is to a neighbour, costs exactly one, passes only closed, traversable nodes, and the walk
        has GScore + 1 nodes. */
    lemma {:induction false} ChainToStart(n: Node)
      requires SearchValid() && n in Nodes && (n in OpenSet || n in ClosedSet)
      ensures |Chain(n)| == n.GScore + 1
      ensures Chain(n)[|Chain(n)| - 1] == Start
      ensures forall k :: 0 <= k < |Chain(n)| ==> Chain(n)[k].GScore == n.GScore - k
      ensures forall k :: 1 <= k < |Chain(n)| ==> Chain(n)[k] in ClosedSet
      ensures forall k :: 0 <= k < |Chain(n)| ==> !Chain(n)[k].IsObstacle
      ensures forall k {:trigger Chain(n)[k].Previous} :: 0 <= k < |Chain(n)| - 1 ==> Chain(n)[k] in Chain(n)[k + 1].NeighboringNodes
      decreases n.GScore
    {
      assert n in Nodes && !n.IsObstacle by {
        if n in OpenSet { assert OpenOk(n); } else { assert ClosedOk(n); }
      }
      assert Linked(n) && Parented(n);
      var c := Chain(n);
      if n.Previous == null {
        assert c == [n];
      } else {
        var p := n.Previous;
        ChainToStart(p);
        ChainLinks(p);
        var t := Chain(p);
        assert c == [n] + t;
        forall k | 1 <= k < |c| ensures c[k] == t[k - 1] && c[k] in ClosedSet {
        }
        forall k | 0 <= k < |c| ensures c[k].GScore == n.GScore - k && !c[k].IsObstacle {
          if k > 0 {
            assert c[k] == t[k - 1];
          }
        }
        forall k | 0 <= k < |c| - 1 ensures c[k] in c[k + 1].NeighboringNodes {
          if k > 0 {
            assert c[k] == t[k - 1] && c[k + 1] == t[k];
            assert t[k - 1].Previous == t[k];
          }
        }
      }
    }

    /** A node's neighbour list holds distinct nodes of the grid and never the node itself. */
    lemma NeighborsOf(n: Node)
      requires Built() && n in Nodes
      ensures Within(n.NeighboringNodes, Nodes)
      ensures NoDup(n.NeighboringNodes)
      ensures n !in n.NeighboringNodes
    {
      var i, j := n.Row, n.Column;
      AdjacentNodesCoords(NodeMatrix, i, j, Height, Width, Nodes);
      AdjacentDistinct(i, j, Height, Width);
      CoordsNoDup(n.NeighboringNodes);
      NoAntiDiagonal(i, j, Height, Width);
    }

    /** n has been reached from current: one step further, current as its parent, and FScore its new
        GScore plus the heuristic distance to End. */
    ghost predicate Reached(current: Node, n: Node)
      reads current`GScore, n`GScore, n`Previous, n`FScore
    {
      n.GScore == current.GScore + 1 && n.Previous == current &&
      End != null && n.FScore == (current.GScore + 1) as real + GetDistanceBetween(n, End)
    }

    /** The relaxation loop of Update for the node just closed: each neighbour that is neither closed nor
        an obstacle, and is new to the open list (it is then appended) or reached more cheaply than
        before, is Reached from current; every other neighbour keeps its scores and parent, and no
        other node is touched. OptimalPath is rebuilt from the last neighbour so updated. */
    method RelaxNeighbors(current: Node)
      requires Valid() && current in Nodes && current in ClosedSet
      modifies this`OpenSet, this`OptimalPath
      modifies current.NeighboringNodes`GScore, current.NeighboringNodes`FScore, current.NeighboringNodes`Previous
      ensures Valid()
      ensures OpenSet == old(OpenSet) + Discovered(current.NeighboringNodes, old(OpenSet), ClosedSet)
      ensures forall k {:trigger current.NeighboringNodes[k]} :: 0 <= k < |current.NeighboringNodes| ==>
        var n := current.NeighboringNodes[k];
        (old(Relaxes(current, n, OpenSet, ClosedSet)) ==> Reached(current, n)) &&
        (!old(Relaxes(current, n, OpenSet, ClosedSet)) ==>
           n.GScore == old(n.GScore) && n.Previous == old(n.Previous) && n.FScore == old(n.FScore))
      ensures Chain(current) == old(Chain(current))
      ensures var k := LastTrue(old(RelaxFlags(current, OpenSet, ClosedSet)));
        (k == -1 ==> OptimalPath == old(OptimalPath)) &&
        (k >= 0 ==> OptimalPath == [current.NeighboringNodes[k]] + Chain(current))
    {
      ghost var open0, closed, nbrs := OpenSet, ClosedSet, current.NeighboringNodes;
      ghost var rel := RelaxFlags(current, OpenSet, ClosedSet);
      ghost var gs, ps, fs := GScores(nbrs), Parents(nbrs), FScores(nbrs);
      ghost var base, path0 := Chain(current), OptimalPath;
      NotOwnNeighbor(current);
      for i := 0 to |current.NeighboringNodes|
        invariant Valid()
        invariant OpenSet == open0 + Discovered(nbrs[..i], open0, closed)
        invariant forall k {:trigger nbrs[k]} :: 0 <= k < |nbrs| && (i <= k || !rel[k]) ==>
          nbrs[k].GScore == gs[k] && nbrs[k].Previous == ps[k] && nbrs[k].FScore == fs[k]
        invariant forall k {:trigger nbrs[k]} :: 0 <= k < i && rel[k] ==> Reached(current, nbrs[k])
        invariant Chain(current) == base
        invariant var k := LastTrue(rel[..i]);
          (k == -1 ==> OptimalPath == path0) && (k >= 0 ==> OptimalPath == [nbrs[k]] + base)
      {
        NeighborAt(current, i, open0, closed);
        RelaxesSame(current, nbrs[i], OpenSet, open0, ClosedSet);
        RelaxStep(current, i, open0, closed, nbrs, rel, gs, ps, fs, base, path0);
      }
      assert nbrs[..|nbrs|] == nbrs;
      assert rel[..|nbrs|] == rel;
    }

    /** One turn of the relaxation loop: neighbour i of current is relaxed, and what the loop keeps about
        the neighbours before i (updated or untouched), those from i on (untouched), the open list, the
        chain of current and the optimal path now holds up to i + 1. */
    method RelaxStep(current: Node, i: nat, ghost open0: seq<Node>, ghost closed: seq<Node>, ghost nbrs: seq<Node>,
                     ghost rel: seq<bool>, ghost gs: seq<int>, ghost ps: seq<Node?>, ghost fs: seq<real>,
                     ghost base: seq<Node>, ghost path0: seq<Node>)
      requires Valid() && current in Nodes && current in ClosedSet && closed == ClosedSet
      requires nbrs == current.NeighboringNodes && i < |nbrs| == |rel| == |gs| == |ps| == |fs|
      requires nbrs[i] !in nbrs[..i] && nbrs[i] !in nbrs[i + 1..] && nbrs[i] !in Discovered(nbrs[..i], open0, closed)
      requires rel[i] == Relaxes(current, nbrs[i], OpenSet, ClosedSet)
      requires OpenSet == open0 + Discovered(nbrs[..i], open0, closed)
      requires forall k {:trigger nbrs[k]} :: 0 <= k < |nbrs| && (i <= k || !rel[k]) ==>
        nbrs[k].GScore == gs[k] && nbrs[k].Previous == ps[k] && nbrs[k].FScore == fs[k]
      requires forall k {:trigger nbrs[k]} :: 0 <= k < i && rel[k] ==> Reached(current, nbrs[k])
      requires Chain(current) == base
      requires var k := LastTrue(rel[..i]);
        (k == -1 ==> OptimalPath == path0) && (k >= 0 ==> OptimalPath == [nbrs[k]] + base)
      modifies this`OpenSet, this`OptimalPath, {nbrs[i]}`GScore, {nbrs[i]}`FScore, {nbrs[i]}`Previous
      ensures Valid()
      ensures OpenSet == open0 + Discovered(nbrs[..i + 1], open0, closed)
      ensures forall k {:trigger nbrs[k]} :: 0 <= k < |nbrs| && (i + 1 <= k || !rel[k]) ==>
        nbrs[k].GScore == gs[k] && nbrs[k].Previous == ps[k] && nbrs[k].FScore == fs[k]
      ensures forall k {:trigger nbrs[k]} :: 0 <= k < i + 1 && rel[k] ==> Reached(current, nbrs[k])
      ensures Chain(current) == base
      ensures var k := LastTrue(rel[..i + 1]);
        (k == -1 ==> OptimalPath == path0) && (k >= 0 ==> OptimalPath == [nbrs[k]] + base)
    {
      var currentNeighbor := current.NeighboringNodes[i];
      ghost var discovered := Discovered(nbrs[..i], open0, closed);
      LastTrueSnoc(rel, i);
      RelaxNeighbor(current, currentNeighbor);
      FieldsKept(nbrs, rel, i, gs, ps, fs);
      ReachedKept(current, nbrs, rel, i);
      DiscoveredSnoc(nbrs, i, open0, closed);
      ghost var added := if currentNeighbor !in open0 && currentNeighbor !in closed && !currentNeighbor.IsObstacle then [currentNeighbor] else [];
      AppendAssoc(open0, discovered, added);
    }

    /** A grid node is not its own neighbour. */
    lemma NotOwnNeighbor(n: Node)
      requires GraphValid() && n in Nodes
      ensures n !in n.NeighboringNodes
    {
      assert WellWired(n);
    }

    /** The i-th neighbour of a grid node is listed neither before nor after i, and is not among the nodes
        an earlier neighbour added to the open list. */
    lemma NeighborAt(current: Node, i: nat, open: seq<Node>, closed: seq<Node>)
      requires GraphValid() && current in Nodes && i < |current.NeighboringNodes|
      ensures var nbrs := current.NeighboringNodes;
        nbrs[i] !in nbrs[..i] && nbrs[i] !in nbrs[i + 1..] && nbrs[i] !in Discovered(nbrs[..i], open, closed)
    {
      assert WellWired(current);
      NoDupSplit(current.NeighboringNodes, i);
      DiscoveredNotYet(current.NeighboringNodes, i, open, closed);
    }

    /** Whether a relaxation updates n depends only on the fields Relaxes reads and on n's membership. */
    twostate lemma RelaxesSame(current: Node, new n: Node, new open: seq<Node>, new open0: seq<Node>, new closed: seq<Node>)
      requires old(allocated(n)) && old(allocated(open0)) && old(allocated(closed))
      requires unchanged(current`NeighboringNodes, current`GScore, n`IsObstacle, n`GScore)
      requires (n in open) == (n in open0)
      ensures Relaxes(current, n, open, closed) == old(Relaxes(current, n, open0, closed))
    {
    }

    /** After neighbour i is relaxed, every earlier neighbour that was Reached still is, and neighbour i is
        Reached if it was updated. */
    twostate lemma ReachedKept(current: Node, new nbrs: seq<Node>, new rel: seq<bool>, new i: nat)
      requires old(allocated(nbrs))
      requires i < |nbrs| == |rel|
      requires forall k {:trigger nbrs[k]} :: 0 <= k < i && rel[k] ==> old(Reached(current, nbrs[k]))
      requires unchanged(current`GScore) && unchanged(nbrs[..i]`GScore, nbrs[..i]`Previous, nbrs[..i]`FScore)
      requires rel[i] ==> Reached(current, nbrs[i])
      ensures forall k {:trigger nbrs[k]} :: 0 <= k < i + 1 && rel[k] ==> Reached(current, nbrs[k])
    {
      forall k | 0 <= k < i + 1 && rel[k] ensures Reached(current, nbrs[k]) {
        if k < i {
          assert nbrs[k] in nbrs[..i];
        }
      }
    }

    /** After neighbour i is relaxed, the neighbours not yet visited and those visited but not updated still
        hold the scores and parents recorded at the start of the round. */
    twostate lemma FieldsKept(nbrs: seq<Node>, new rel: seq<bool>, new i: nat, new gs: seq<int>, new ps: seq<Node?>, new fs: seq<real>)
      requires i < |nbrs| == |rel| == |gs| == |ps| == |fs|
      requires forall k {:trigger nbrs[k]} :: 0 <= k < |nbrs| && (i <= k || !rel[k]) ==>
        old(nbrs[k].GScore) == gs[k] && old(nbrs[k].Previous) == ps[k] && old(nbrs[k].FScore) == fs[k]
      requires unchanged(nbrs[..i]`GScore, nbrs[..i]`Previous, nbrs[..i]`FScore)
      requires unchanged(nbrs[i + 1..]`GScore, nbrs[i + 1..]`Previous, nbrs[i + 1..]`FScore)
      requires !rel[i] ==> unchanged({nbrs[i]}`GScore, {nbrs[i]}`Previous, {nbrs[i]}`FScore)
      ensures forall k {:trigger nbrs[k]} :: 0 <= k < |nbrs| && (i + 1 <= k || !rel[k]) ==>
        nbrs[k].GScore == gs[k] && nbrs[k].Previous == ps[k] && nbrs[k].FScore == fs[k]
    {
      forall k | 0 <= k < |nbrs| && (i + 1 <= k || !rel[k])
        ensures nbrs[k].GScore == gs[k] && nbrs[k].Previous == ps[k] && nbrs[k].FScore == fs[k]
      {
        if k < i {
          assert nbrs[k] in nbrs[..i];
        } else if k > i {
          assert nbrs[k] in nbrs[i + 1..];
        }
      }
    }

    /** One relaxation keeps the invariants: a neighbour of a closed node, itself neither closed nor an
        obstacle, and either new (then appended to the open list) or reached more cheaply, gets that node
        as parent and GScore one more; nothing else the invariants read has changed. */
    twostate lemma RelaxKeepsValid(current: Node, new nb: Node)
      requires old(allocated(nb))
      requires old(Valid()) && current in old(ClosedSet) && nb in old(current.NeighboringNodes)
      requires nb !in old(ClosedSet) && !old(nb.IsObstacle)
      requires old(nb in OpenSet) ==> old(current.GScore) + 1 < old(nb.GScore)
      requires ClosedSet == old(ClosedSet)
      requires OpenSet == old(OpenSet) + (if nb in old(OpenSet) then [] else [nb])
      requires unchanged(Nodes`NeighboringNodes, Nodes`IsObstacle)
      requires forall n {:trigger n.GScore} :: n in Nodes && n != nb ==> n.GScore == old(n.GScore)
      requires forall n {:trigger n.Previous} :: n in Nodes && n != nb ==> n.Previous == old(n.Previous)
      requires nb.GScore == old(current.GScore) + 1 && nb.Previous == current
      ensures Valid() && ParentLinked()
    {
      assert old(ClosedOk(current) && WellWired(current) && Linked(current));
      assert nb != Start;
      assert GraphValid();
      ListsKept(nb);
      LinksKept(current, nb);
    }

    /** The list invariants survive appending a traversable grid node that is in neither list. */
    twostate lemma ListsKept(nb: Node)
      requires old(ListsValid()) && nb in Nodes && nb !in old(ClosedSet) && !old(nb.IsObstacle)
      requires ClosedSet == old(ClosedSet)
      requires OpenSet == old(OpenSet) + (if nb in old(OpenSet) then [] else [nb])
      requires unchanged(Nodes`IsObstacle)
      ensures ListsValid()
    {
      if nb !in old(OpenSet) {
        AppendNoDup(old(OpenSet), nb);
      }
    }

    /** The parent links survive re-parenting an open-or-new, non-Start node onto a closed neighbour. */
    twostate lemma LinksKept(current: Node, new nb: Node)
      requires old(allocated(nb))
      requires old(LinksValid()) && old(ListsValid()) && current in old(ClosedSet) && nb in old(current.NeighboringNodes)
      requires current in Nodes && nb in Nodes && nb !in old(ClosedSet) && nb != Start
      requires ClosedSet == old(ClosedSet)
      requires OpenSet == old(OpenSet) + (if nb in old(OpenSet) then [] else [nb])
      requires unchanged(Nodes`NeighboringNodes)
      requires forall n {:trigger n.GScore} :: n in Nodes && n != nb ==> n.GScore == old(n.GScore)
      requires forall n {:trigger n.Previous} :: n in Nodes && n != nb ==> n.Previous == old(n.Previous)
      requires nb.GScore == old(current.GScore) + 1 && nb.Previous == current
      ensures LinksValid()
    {
      assert old(Linked(current));
      forall n | n in Nodes ensures Linked(n) && Parented(n) {
        if n != nb {
          assert old(Linked(n) && Parented(n));
          if n.Previous != null {
            assert n.Previous != nb;
          }
        }
      }
    }

    /** The Previous chain of a closed node passes through closed nodes only. */
    lemma ClosedChain(n: Node)
      requires SearchValid() && n in Nodes && n in ClosedSet
      ensures forall m :: m in Chain(n) ==> m in ClosedSet
    {
      ChainToStart(n);
    }

    /** A Previous chain none of whose nodes changed GScore or Previous is the same chain. */
    twostate lemma {:induction false} ChainKept(n: Node)
      requires old(ParentLinked()) && ParentLinked() && n in Nodes
      requires forall m {:trigger m.Previous} :: m in Nodes && m in old(Chain(n)) ==> m.Previous == old(m.Previous)
      requires forall m {:trigger m.GScore} :: m in Nodes && m in old(Chain(n)) ==> m.GScore == old(m.GScore)
      ensures Chain(n) == old(Chain(n))
      decreases old(n.GScore)
    {
      assert old(Linked(n));
      assert n == old(Chain(n))[0];
      if n.Previous != null {
        assert old(Chain(n)) == [n] + old(Chain(n.Previous));
        ChainKept(n.Previous);
      }
    }

    /** The body of the relaxation loop for one neighbour of the node just closed; `continue` in the
        loop is the early return here. */
    method RelaxNeighbor(current: Node, currentNeighbor: Node)
      requires Valid() && current in Nodes && current in ClosedSet && currentNeighbor in current.NeighboringNodes
      modifies this`OpenSet, this`OptimalPath, currentNeighbor`GScore, currentNeighbor`FScore, currentNeighbor`Previous
      ensures Valid()
      ensures OpenSet == old(OpenSet) +
        (if currentNeighbor !in old(OpenSet) && currentNeighbor !in ClosedSet && !currentNeighbor.IsObstacle
         then [currentNeighbor] else [])
      ensures old(Relaxes(current, currentNeighbor, OpenSet, ClosedSet)) ==>
        currentNeighbor.GScore == current.GScore + 1 && currentNeighbor.Previous == current &&
        currentNeighbor.FScore == (current.GScore + 1) as real + GetDistanceBetween(currentNeighbor, End) &&
        OptimalPath == [currentNeighbor] + Chain(current)
      ensures !old(Relaxes(current, currentNeighbor, OpenSet, ClosedSet)) ==>
        currentNeighbor.GScore == old(currentNeighbor.GScore) && currentNeighbor.Previous == old(currentNeighbor.Previous) &&
        currentNeighbor.FScore == old(currentNeighbor.FScore) && OptimalPath == old(OptimalPath)
      ensures Chain(current) == old(Chain(current))
    {
      assert WellWired(current);
      ClosedChain(current);
      var isNewPath := false;
      if currentNeighbor in ClosedSet || currentNeighbor.IsObstacle {
        return;
      }
      var tentativeGScore := current.GScore + 1;
      if currentNeighbor in OpenSet {
        if tentativeGScore < currentNeighbor.GScore {
          currentNeighbor.GScore := tentativeGScore;
          isNewPath := true;
        }
      } else {
        currentNeighbor.GScore := tentativeGScore;
        OpenSet := OpenSet + [currentNeighbor];
        isNewPath := true;
      }
      if isNewPath {
        currentNeighbor.FScore := currentNeighbor.GScore as real + GetDistanceBetween(currentNeighbor, End);
        currentNeighbor.Previous := current;
        RelaxKeepsValid(current, currentNeighbor);
        ChainKept(current);
        PushPath(currentNeighbor);
      }
    }

    /** Lines 253-255 of Update: the node picked leaves the open list and joins the closed list. */
    method CloseCurrent(current: Node)
      requires Valid() && current in OpenSet
      modifies this`OpenSet, this`ClosedSet
      ensures Valid()
      ensures OpenSet == RemoveFirst(old(OpenSet), current) && ClosedSet == old(ClosedSet) + [current]
      ensures current !in OpenSet && current in Nodes && current !in old(ClosedSet)
    {
      assert OpenOk(current);
      RemoveFirstNoDup(OpenSet, current);
      OpenSet := RemoveFirst(OpenSet, current);
      ClosedSet := ClosedSet + [current];
      CloseKeepsValid(current);
    }

    /** Moving an open node to the closed list keeps every invariant: it was traversable and not yet
        closed, the rest of the open list stays open, and every parent stays closed. */
    twostate lemma CloseKeepsValid(c: Node)
      requires old(Valid()) && c in old(OpenSet)
      requires OpenSet == RemoveFirst(old(OpenSet), c) && ClosedSet == old(ClosedSet) + [c]
      requires unchanged(Nodes)
      ensures Valid()
    {
      assert old(OpenOk(c));
      RemoveFirstNoDup(old(OpenSet), c);
      AppendNoDup(old(ClosedSet), c);
      forall n | n in OpenSet ensures OpenOk(n) {
        assert old(OpenOk(n));
      }
      forall n | n in ClosedSet ensures ClosedOk(n) {
        if n != c { assert old(ClosedOk(n)); }
      }
      forall n | n in Nodes ensures Linked(n) && Parented(n) {
        assert old(Linked(n) && Parented(n));
      }
    }

    /** The search half of Update: with an open list that is not empty, pick its first node of least
        FScore; stop there if it is End; otherwise close it and relax its neighbours. */
    method Step()
      requires Valid()
      modifies this`OpenSet, this`ClosedSet, this`OptimalPath, Nodes`GScore, Nodes`FScore, Nodes`Previous
      ensures Valid()
      ensures old(Terminal()) ==>
        OpenSet == old(OpenSet) && ClosedSet == old(ClosedSet) && OptimalPath == old(OptimalPath) &&
        unchanged(Nodes) && Terminal()
      ensures !old(Terminal()) ==>
        var c := old(Selected());
        var open1, closed1 := RemoveFirst(old(OpenSet), c), old(ClosedSet) + [c];
        c in Nodes && ClosedSet == closed1 &&
        OpenSet == open1 + Discovered(c.NeighboringNodes, open1, closed1) &&
        (forall k {:trigger c.NeighboringNodes[k]} :: 0 <= k < |c.NeighboringNodes| ==>
           var n := c.NeighboringNodes[k];
           (old(Relaxes(c, n, open1, closed1)) ==> Reached(c, n)) &&
           (!old(Relaxes(c, n, open1, closed1)) ==>
              n.GScore == old(n.GScore) && n.Previous == old(n.Previous) && n.FScore == old(n.FScore))) &&
        (var k := LastTrue(old(RelaxFlags(c, open1, closed1)));
           (k == -1 ==> OptimalPath == old(OptimalPath)) &&
           (k >= 0 ==> OptimalPath == [c.NeighboringNodes[k]] + Chain(c)))
      ensures !old(Terminal()) ==>
        var c := old(Selected());
        forall n :: n in Nodes && n !in c.NeighboringNodes ==>
          n.GScore == old(n.GScore) && n.FScore == old(n.FScore) && n.Previous == old(n.Previous)
    {
      var openSetCount := |OpenSet|;
      if openSetCount > 0 {
        var current := SelectCurrent();
        if current == End {
          return;
        }
        RelaxFlagsFrame(current, RemoveFirst(OpenSet, current), ClosedSet + [current]);
        Expand(current);
      }
    }

    /** Lines 253-293 of Update for the node c picked: close it, then relax its neighbours. */
    method Expand(c: Node)
      requires Valid() && c in OpenSet
      modifies this`OpenSet, this`ClosedSet, this`OptimalPath
      modifies Nodes`GScore, Nodes`FScore, Nodes`Previous
      ensures Valid()
      ensures var open1, closed1 := RemoveFirst(old(OpenSet), c), old(ClosedSet) + [c];
        c in Nodes && ClosedSet == closed1 &&
        OpenSet == open1 + Discovered(c.NeighboringNodes, open1, closed1) &&
        (forall k {:trigger c.NeighboringNodes[k]} :: 0 <= k < |c.NeighboringNodes| ==>
           var n := c.NeighboringNodes[k];
           (old(Relaxes(c, n, open1, closed1)) ==> Reached(c, n)) &&
           (!old(Relaxes(c, n, open1, closed1)) ==>
              n.GScore == old(n.GScore) && n.Previous == old(n.Previous) && n.FScore == old(n.FScore))) &&
        (var k := LastTrue(old(RelaxFlags(c, open1, closed1)));
           (k == -1 ==> OptimalPath == old(OptimalPath)) &&
           (k >= 0 ==> OptimalPath == [c.NeighboringNodes[k]] + Chain(c)))
      ensures forall n :: n in Nodes && n !in c.NeighboringNodes ==>
        n.GScore == old(n.GScore) && n.FScore == old(n.FScore) && n.Previous == old(n.Previous)
    {
      assert OpenOk(c) && WellWired(c);
      CloseCurrent(c);
      RelaxFlagsFrame(c, OpenSet, ClosedSet);
      RelaxNeighbors(c);
    }

    /** The two lists together hold distinct grid nodes, so at most Width * Height of them; as each
        non-terminal Step grows the closed list by one, at most Width * Height Steps do any work. */
    lemma ListsBounded()
      requires Valid()
      ensures |OpenSet| + |ClosedSet| <= Width * Height
    {
      forall x | x in OpenSet ensures x !in ClosedSet { assert OpenOk(x); }
      ConcatNoDup(OpenSet, ClosedSet);
      forall x | x in OpenSet + ClosedSet ensures x in Nodes {
        if x in OpenSet { assert OpenOk(x); } else { assert ClosedOk(x); }
      }
      NoDupLengthBound(OpenSet + ClosedSet, Nodes);
    }
  }
}
