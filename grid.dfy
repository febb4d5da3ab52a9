/** The grid: vertices are integer coordinate vectors, two of them are neighbours when
    their Manhattan distance is 1, and the parity flag of the grid says whether the
    product of its dimensions is even. */
module Grid {

  type Vertex = seq<int>

  function Abs(x: int): nat {
    if x < 0 then -x else x
  }

  /** Sum of coordinate differences over the common prefix of the two vectors
      (Python's `zip` stops at the shorter one). */
  function ManhatDist(u: Vertex, v: Vertex): nat
    decreases |u|
  {
    if u == [] || v == [] then 0
    else Abs(u[0] - v[0]) + ManhatDist(u[1..], v[1..])
  }

  predicate Adjacent(u: Vertex, v: Vertex) {
    ManhatDist(u, v) == 1
  }

  lemma {:induction false} ManhatDistSymmetric(u: Vertex, v: Vertex)
    ensures ManhatDist(u, v) == ManhatDist(v, u)
    decreases |u|
  {
    if u != [] && v != [] {
      ManhatDistSymmetric(u[1..], v[1..]);
    }
  }

  /** The distance is zero exactly when the two vectors agree on every common position. */
  lemma {:induction false} ManhatDistZeroIff(u: Vertex, v: Vertex)
    ensures ManhatDist(u, v) == 0 <==> forall i :: 0 <= i < |u| && i < |v| ==> u[i] == v[i]
    decreases |u|
  {
    if u != [] && v != [] {
      ManhatDistZeroIff(u[1..], v[1..]);
      if ManhatDist(u, v) == 0 {
        forall i | 0 <= i < |u| && i < |v| ensures u[i] == v[i] {
          if i > 0 {
            assert u[1..][i - 1] == u[i] && v[1..][i - 1] == v[i];
          }
        }
      } else if Abs(u[0] - v[0]) == 0 {
        var j :| 0 <= j < |u[1..]| && j < |v[1..]| && u[1..][j] != v[1..][j];
        assert u[j + 1] != v[j + 1];
      }
    }
  }

  /** No vertex is its own neighbour under the `== 1` test. */
  lemma NotAdjacentToItself(u: Vertex)
    ensures ManhatDist(u, u) == 0
    ensures !Adjacent(u, u)
  {
    ManhatDistZeroIff(u, u);
  }

  /** `product` of the dimension vector, accumulated left to right. */
  function Product(dims: seq<int>): int {
    if dims == [] then 1 else Product(dims[..|dims| - 1]) * dims[|dims| - 1]
  }

  /** The module-level loop `for d in DIMS: product *= d`. */
  method ComputeProduct(dims: seq<int>) returns (product: int)
    ensures product == Product(dims)
  {
    product := 1;
    var i := 0;
    while i < |dims|
      invariant 0 <= i <= |dims|
      invariant product == Product(dims[..i])
    {
      assert dims[..i + 1][..i] == dims[..i];
      product := product * dims[i];
      i := i + 1;
    }
    assert dims[..|dims|] == dims;
  }

  /** `EVEN`: the grid has an even number of cells. */
  predicate Even(dims: seq<int>) {
    Product(dims) % 2 == 0
  }

  lemma MulEvenIff(a: int, b: int)
    ensures (a * b) % 2 == 0 <==> (a % 2 == 0 || b % 2 == 0)
  {
    var qa := a / 2;
    var x := qa * b;
    if a % 2 == 0 {
      assert a == 2 * qa;
      assert a * b == 2 * x;
    } else {
      assert a == 2 * qa + 1;
      assert a * b == 2 * x + b;
    }
  }

  /** The grid has an even number of cells exactly when some axis has even length. */
  lemma {:induction false} EvenIffSomeAxisEven(dims: seq<int>)
    ensures Even(dims) <==> exists i :: 0 <= i < |dims| && dims[i] % 2 == 0
  {
    if dims != [] {
      var init := dims[..|dims| - 1];
      EvenIffSomeAxisEven(init);
      MulEvenIff(Product(init), dims[|dims| - 1]);
      if exists i :: 0 <= i < |init| && init[i] % 2 == 0 {
        var i :| 0 <= i < |init| && init[i] % 2 == 0;
        assert dims[i] == init[i];
      }
      if exists i :: 0 <= i < |dims| && dims[i] % 2 == 0 {
        var i :| 0 <= i < |dims| && dims[i] % 2 == 0;
        if i < |init| {
          assert init[i] == dims[i];
        }
      }
    }
  }
}
