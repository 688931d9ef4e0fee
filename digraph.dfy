/**
  The `Digraph` container: a directed graph over nodes of type `T` whose
  storage is an array of nodes, a node count and a square boolean adjacency
  matrix. Every structural change allocates new, correctly sized storage,
  copies the old contents plus the change and only then installs it.
  The abstract value `Model` and its properties live in `DigraphSpec`.
*/
module Digraphs {
  import opened DigraphSpec

  /** `T(0)`: as `new T[n]` in digraph.h does, the node arrays need a default value. */
  class Digraph<T(0)> {
    /** The equality functor; node identity is `eq(stored, query)`. */
    const eq: (T, T) -> bool

    var nodes: array<T>
    var nodesNumber: nat
    var matrix: array2<bool>

    ghost var Model: Graph<T>
    ghost var Repr: set<object>

    ghost predicate Valid()
      reads this, Repr
      ensures Valid() ==> this in Repr
    {
      && this in Repr && nodes in Repr && matrix in Repr
      && nodes.Length == nodesNumber
      && matrix.Length0 == nodesNumber && matrix.Length1 == nodesNumber
      && Model.nodes == nodes[..]
      && DigraphSpec.Valid(eq, Model)
      && (forall i, j :: 0 <= i < nodesNumber && 0 <= j < nodesNumber ==> matrix[i, j] == Model.adj[i][j])
    }

    /** The default constructor: an empty graph. */
    constructor (eq: (T, T) -> bool)
      ensures Valid() && fresh(Repr)
      ensures this.eq == eq && Model == Empty()
    {
      this.eq := eq;
      nodes := new T[0];
      nodesNumber := 0;
      matrix := new bool[0, 0];
      Model := Empty();
      new;
      Repr := {this, nodes, matrix};
    }

    /** The copy constructor: replays `AddNode` for every node of `other`, then
        copies the matrix cell by cell. */
    constructor Copy(other: Digraph<T>)
      requires other.Valid()
      ensures Valid() && fresh(Repr)
      ensures eq == other.eq && Model == other.Model
    {
      eq := other.eq;
      nodes := new T[0];
      nodesNumber := 0;
      matrix := new bool[0, 0];
      Model := Empty();
      new;
      Repr := {this, nodes, matrix};
      var n := other.nodesNumber;
      for i := 0 to n
        invariant Valid() && fresh(Repr)
        invariant eq == other.eq && other.Valid() && other.nodesNumber == n
        invariant Model.nodes == other.Model.nodes[..i]
      {
        var x := other.nodes[i];
        assert x == other.Model.nodes[i];
        assert !Contains(eq, Model.nodes, x) by {
          forall j | 0 <= j < i ensures !eq(Model.nodes[j], x) {
            assert Model.nodes[j] == other.Model.nodes[j];
          }
        }
        AddNode(x);
        assert other.Model.nodes[..i + 1] == other.Model.nodes[..i] + [x];
      }
      assert Model.nodes == other.Model.nodes;
      CopyCells(other.matrix, matrix, n);
      Model := other.Model;
    }

    /** Copies the `n` by `n` cells of `src` into `dst`, as the copy constructor's
        second pair of loops does. */
    static method CopyCells(src: array2<bool>, dst: array2<bool>, n: nat)
      requires src.Length0 == n && src.Length1 == n && dst.Length0 == n && dst.Length1 == n
      requires src != dst
      modifies dst
      ensures forall a, b :: 0 <= a < n && 0 <= b < n ==> dst[a, b] == src[a, b]
    {
      for i := 0 to n
        invariant forall a, b :: 0 <= a < i && 0 <= b < n ==> dst[a, b] == src[a, b]
      {
        for j := 0 to n
          invariant forall a, b :: 0 <= a < i && 0 <= b < n ==> dst[a, b] == src[a, b]
          invariant forall b :: 0 <= b < j ==> dst[i, b] == src[i, b]
        {
          dst[i, j] := src[i, j];
        }
      }
    }

    /** Releases the storage: the empty graph (used by `RemoveNode` on the last node). */
    method Clear()
      requires Valid()
      modifies Repr
      ensures Valid() && fresh(Repr - old(Repr))
      ensures Model == Empty()
    {
      nodes := new T[0];
      matrix := new bool[0, 0];
      nodesNumber := 0;
      Model := Empty();
      Repr := {this, nodes, matrix};
    }

    /** The index of the first stored node equal to `x`; `nodesNumber` when there is none. */
    method NodeIndex(x: T) returns (k: nat)
      requires Valid()
      ensures k == IndexOf(eq, Model.nodes, x)
    {
      for i := 0 to nodesNumber
        invariant forall j :: 0 <= j < i ==> !eq(Model.nodes[j], x)
      {
        if eq(nodes[i], x) {
          return i;
        }
      }
      return nodesNumber;
    }

    /** Flips the cell of the edge from `u` to `v`. */
    method SetEdge(u: T, v: T)
      requires Valid() && Contains(eq, Model.nodes, u) && Contains(eq, Model.nodes, v)
      modifies Repr
      ensures Valid() && Repr == old(Repr)
      ensures Model == Toggled(old(Model), IndexOf(eq, old(Model).nodes, u), IndexOf(eq, old(Model).nodes, v))
    {
      var i := NodeIndex(u);
      var j := NodeIndex(v);
      matrix[i, j] := !matrix[i, j];
      Model := Toggled(Model, i, j);
    }

    /** The number of stored nodes. */
    method NodesNumber() returns (n: nat)
      requires Valid()
      ensures n == |Model.nodes|
    {
      return nodesNumber;
    }

    /** The number of edges, recounted over the whole matrix on every call. */
    method EdgesNumber() returns (edges: nat)
      requires Valid()
      ensures edges == EdgeCount(Model.adj)
    {
      edges := 0;
      for i := 0 to nodesNumber
        invariant edges == EdgeCount(Model.adj[..i])
      {
        for j := 0 to nodesNumber
          invariant edges == EdgeCount(Model.adj[..i]) + RowCount(Model.adj[i][..j])
        {
          assert Model.adj[i][..j + 1][..j] == Model.adj[i][..j];
          if matrix[i, j] {
            edges := edges + 1;
          }
        }
        assert Model.adj[i][..nodesNumber] == Model.adj[i];
        assert Model.adj[..i + 1][..i] == Model.adj[..i];
      }
      assert Model.adj[..nodesNumber] == Model.adj;
    }

    /** Adds `x` as an isolated node at the end of the node sequence. */
    method AddNode(x: T)
      requires Valid() && !Contains(eq, Model.nodes, x)
      modifies Repr
      ensures Valid() && fresh(Repr - old(Repr))
      ensures Model == Inserted(old(Model), x)
    {
      var newNodes, newMatrix := GrownStorage(nodes, matrix, nodesNumber, x, Model);
      InsertedValid(eq, Model, x);
      nodes, matrix, nodesNumber := newNodes, newMatrix, nodesNumber + 1;
      Model := Inserted(Model, x);
      Repr := {this, nodes, matrix};
    }

    /** The storage `AddNode(x)` installs: new arrays one larger, the old nodes
        and cells copied, `x` last, the new row and column false. */
    static method GrownStorage(nodes: array<T>, matrix: array2<bool>, n: nat, x: T, ghost g: Graph<T>)
      returns (newNodes: array<T>, newMatrix: array2<bool>)
      requires nodes.Length == n && matrix.Length0 == n && matrix.Length1 == n
      requires g.nodes == nodes[..] && Square(g.adj, n)
      requires forall a, b :: 0 <= a < n && 0 <= b < n ==> matrix[a, b] == g.adj[a][b]
      ensures fresh(newNodes) && fresh(newMatrix)
      ensures newNodes.Length == n + 1 && newMatrix.Length0 == n + 1 && newMatrix.Length1 == n + 1
      ensures newNodes[..] == Inserted(g, x).nodes
      ensures forall a, b :: 0 <= a < n + 1 && 0 <= b < n + 1 ==> newMatrix[a, b] == Inserted(g, x).adj[a][b]
    {
      newNodes := new T[n + 1];
      newMatrix := new bool[n + 1, n + 1];

      for i := 0 to n
        modifies newNodes
        invariant forall a :: 0 <= a < i ==> newNodes[a] == nodes[a]
      {
        newNodes[i] := nodes[i];
      }
      newNodes[n] := x;

      for i := 0 to n
        modifies newMatrix
        invariant forall a, b :: 0 <= a < i && 0 <= b < n ==> newMatrix[a, b] == matrix[a, b]
      {
        for j := 0 to n
          modifies newMatrix
          invariant forall a, b :: 0 <= a < i && 0 <= b < n ==> newMatrix[a, b] == matrix[a, b]
          invariant forall b :: 0 <= b < j ==> newMatrix[i, b] == matrix[i, b]
        {
          newMatrix[i, j] := matrix[i, j];
        }
      }
      for i := 0 to n + 1
        modifies newMatrix
        invariant forall a, b :: 0 <= a < n && 0 <= b < n ==> newMatrix[a, b] == matrix[a, b]
        invariant forall a :: 0 <= a < i ==> !newMatrix[a, n] && !newMatrix[n, a]
      {
        newMatrix[i, n] := false;
        newMatrix[n, i] := false;
      }
      assert newNodes[..] == nodes[..] + [x];
      forall a, b | 0 <= a < n + 1 && 0 <= b < n + 1
        ensures newMatrix[a, b] == Inserted(g, x).adj[a][b]
      {
        if a < n && b < n {
          assert newMatrix[a, b] == matrix[a, b];
        }
      }
    }

    /** Removes the node equal to `x` with its row and column; later nodes move
        down by one index. */
    method RemoveNode(x: T)
      requires Valid() && Contains(eq, Model.nodes, x)
      modifies Repr
      ensures Valid() && fresh(Repr - old(Repr))
      ensures Model == RemovedAt(old(Model), IndexOf(eq, old(Model).nodes, x))
    {
      if nodesNumber == 1 {
        RemovedLast(Model);
        Clear();
        return;
      }
      var k := NodeIndex(x);
      var newNodes, newMatrix := ShrunkStorage(nodes, matrix, nodesNumber, k, Model);
      RemovedValid(eq, Model, k);
      nodes, matrix, nodesNumber := newNodes, newMatrix, nodesNumber - 1;
      Model := RemovedAt(Model, k);
      Repr := {this, nodes, matrix};
    }

    /** The storage `RemoveNode` installs: new arrays one smaller holding every
        node and cell except those of index `k`, later indices shifted down. */
    static method ShrunkStorage(nodes: array<T>, matrix: array2<bool>, n: nat, k: nat, ghost g: Graph<T>)
      returns (newNodes: array<T>, newMatrix: array2<bool>)
      requires nodes.Length == n && matrix.Length0 == n && matrix.Length1 == n && k < n
      requires g.nodes == nodes[..] && Square(g.adj, n)
      requires forall a, b :: 0 <= a < n && 0 <= b < n ==> matrix[a, b] == g.adj[a][b]
      ensures fresh(newNodes) && fresh(newMatrix)
      ensures newNodes.Length == n - 1 && newMatrix.Length0 == n - 1 && newMatrix.Length1 == n - 1
      ensures newNodes[..] == RemovedAt(g, k).nodes
      ensures forall a, b :: 0 <= a < n - 1 && 0 <= b < n - 1 ==> newMatrix[a, b] == RemovedAt(g, k).adj[a][b]
    {
      newNodes := ShrunkNodes(nodes, n, k);
      newMatrix := ShrunkMatrix(matrix, n, k);
      RemovedNodesAt(g.nodes, k);
      assert newNodes[..] == RemovedAt(g, k).nodes;
      forall a, b | 0 <= a < n - 1 && 0 <= b < n - 1
        ensures newMatrix[a, b] == RemovedAt(g, k).adj[a][b]
      {
        ShrinkAt(g.adj, k, a, b);
      }
    }

    /** The node loop of `removeNode`: indices below `k` are kept, the rest move down. */
    static method ShrunkNodes(nodes: array<T>, n: nat, k: nat) returns (newNodes: array<T>)
      requires nodes.Length == n && k < n
      ensures fresh(newNodes) && newNodes.Length == n - 1
      ensures forall a :: 0 <= a < n - 1 ==> newNodes[a] == nodes[Skip(a, k)]
    {
      newNodes := new T[n - 1];
      for i := 0 to n - 1
        modifies newNodes
        invariant forall a :: 0 <= a < i ==> newNodes[a] == nodes[Skip(a, k)]
      {
        if k > i {
          newNodes[i] := nodes[i];
        } else {
          newNodes[i] := nodes[i + 1];
        }
      }
    }

    /** The matrix loops of `removeNode`: row and column `k` are skipped. */
    static method ShrunkMatrix(matrix: array2<bool>, n: nat, k: nat) returns (newMatrix: array2<bool>)
      requires matrix.Length0 == n && matrix.Length1 == n && k < n
      ensures fresh(newMatrix) && newMatrix.Length0 == n - 1 && newMatrix.Length1 == n - 1
      ensures forall a, b :: 0 <= a < n - 1 && 0 <= b < n - 1 ==> newMatrix[a, b] == matrix[Skip(a, k), Skip(b, k)]
    {
      newMatrix := new bool[n - 1, n - 1];
      for i := 0 to n - 1
        modifies newMatrix
        invariant forall a, b :: 0 <= a < i && 0 <= b < n - 1 ==> newMatrix[a, b] == matrix[Skip(a, k), Skip(b, k)]
      {
        for j := 0 to n - 1
          modifies newMatrix
          invariant forall a, b :: 0 <= a < i && 0 <= b < n - 1 ==> newMatrix[a, b] == matrix[Skip(a, k), Skip(b, k)]
          invariant forall b :: 0 <= b < j ==> newMatrix[i, b] == matrix[Skip(i, k), Skip(b, k)]
        {
          var r, c := i, j;
          if r >= k {
            r := r + 1;
          }
          if c >= k {
            c := c + 1;
          }
          newMatrix[i, j] := matrix[r, c];
        }
      }
    }

    /** Adds the edge from `u` to `v`, which must not be there yet. */
    method AddEdge(u: T, v: T)
      requires Valid() && Contains(eq, Model.nodes, u) && Contains(eq, Model.nodes, v)
      requires !Adjacent(eq, Model, u, v)
      modifies Repr
      ensures Valid() && Repr == old(Repr)
      ensures Model == Toggled(old(Model), IndexOf(eq, old(Model).nodes, u), IndexOf(eq, old(Model).nodes, v))
      ensures Adjacent(eq, Model, u, v)
      ensures EdgeCount(Model.adj) == EdgeCount(old(Model).adj) + 1
    {
      ToggledFacts(eq, Model, u, v, u, v);
      SetEdge(u, v);
    }

    /** Removes the edge from `u` to `v`, which must be there. */
    method RemoveEdge(u: T, v: T)
      requires Valid() && Contains(eq, Model.nodes, u) && Contains(eq, Model.nodes, v)
      requires Adjacent(eq, Model, u, v)
      modifies Repr
      ensures Valid() && Repr == old(Repr)
      ensures Model == Toggled(old(Model), IndexOf(eq, old(Model).nodes, u), IndexOf(eq, old(Model).nodes, v))
      ensures !Adjacent(eq, Model, u, v)
      ensures EdgeCount(Model.adj) == EdgeCount(old(Model).adj) - 1
    {
      ToggledFacts(eq, Model, u, v, u, v);
      SetEdge(u, v);
    }

    /** Whether some stored node is equal to `x`. */
    method Exists(x: T) returns (found: bool)
      requires Valid()
      ensures found == Contains(eq, Model.nodes, x)
    {
      for i := 0 to nodesNumber
        invariant forall j :: 0 <= j < i ==> !eq(Model.nodes[j], x)
      {
        if eq(nodes[i], x) {
          return true;
        }
      }
      return false;
    }

    /** Whether there is an edge from `u` to `v`; false when either is absent. */
    method HasEdge(u: T, v: T) returns (edge: bool)
      requires Valid()
      ensures edge == Adjacent(eq, Model, u, v)
    {
      var hasU := Exists(u);
      var hasV := Exists(v);
      if !hasU || !hasV {
        return false;
      }
      var i := NodeIndex(u);
      var j := NodeIndex(v);
      return matrix[i, j];
    }

    /** The iterator at the first node. */
    method Begin() returns (it: nat)
      requires Valid()
      ensures it == 0
    {
      return 0;
    }

    /** The iterator one past the last node. */
    method End() returns (it: nat)
      requires Valid()
      ensures it == |Model.nodes|
    {
      return nodesNumber;
    }

    /** Dereferences an iterator strictly between `Begin()` and `End()`. */
    method Get(it: nat) returns (x: T)
      requires Valid() && it < |Model.nodes|
      ensures x == Model.nodes[it]
    {
      return nodes[it];
    }

    /** `operator=`: copies `other` into a temporary and swaps its storage in. */
    method Assign(other: Digraph<T>)
      requires Valid() && other.Valid() && other.eq == eq
      modifies this
      ensures Valid() && fresh(Repr - {this})
      ensures Model == old(other.Model)
      ensures other.Valid() && other.Model == old(other.Model)
    {
      var tmp := new Digraph.Copy(other);
      nodes, tmp.nodes := tmp.nodes, nodes;
      nodesNumber, tmp.nodesNumber := tmp.nodesNumber, nodesNumber;
      matrix, tmp.matrix := tmp.matrix, matrix;
      Model, tmp.Model := tmp.Model, Model;
      Repr := {this, nodes, matrix};
    }
  }

  /** Walks from `Begin()` to `End()`, collecting every dereferenced node. */
  method Traverse<T(0)>(g: Digraph<T>) returns (visited: seq<T>)
    requires g.Valid()
    ensures visited == g.Model.nodes
  {
    visited := [];
    var it := g.Begin();
    var end := g.End();
    while it != end
      invariant it <= end && visited == g.Model.nodes[..it]
      decreases end - it
    {
      var x := g.Get(it);
      visited := visited + [x];
      it := it + 1;
    }
  }
}
