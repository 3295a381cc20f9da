/** A dense one- or two-dimensional array of integers stored flat in row-major
    order: the NDArray<T> container instantiated with T = int. */
module NDArrays {

  /** The default fill value of the constructors (the C++ INT_MAX). */
  const INT_MAX: int := 0x7fff_ffff

  /** Product of the dimension sizes, multiplied in order as the constructor does. */
  function Product(s: seq<int>): int
  {
    if s == [] then 1 else Product(s[..|s| - 1]) * s[|s| - 1]
  }

  lemma ProductOfPair(s: seq<int>)
    requires |s| == 2
    ensures Product(s) == s[0] * s[1]
  {
    assert s[..1][..0] == [];
    assert Product(s[..1]) == s[0];
  }

  lemma {:induction false} ProductNonnegative(s: seq<int>)
    requires forall k :: 0 <= k < |s| ==> 0 <= s[k]
    ensures 0 <= Product(s)
  {
    if s != [] {
      ProductNonnegative(s[..|s| - 1]);
      MulMono(0, Product(s[..|s| - 1]), s[|s| - 1]);
    }
  }

  function Abs(x: int): nat
  {
    if x < 0 then -x else x
  }

  /** C++ integer division: the quotient rounded toward zero. The remainder
      a - q * b is smaller than b in magnitude and never has the opposite sign
      of a, which singles out the truncated quotient. */
  function TDiv(a: int, b: int): (q: int)
    requires b != 0
    ensures Abs(a - q * b) < Abs(b)
    ensures a - q * b == 0 || (a - q * b < 0 <==> a < 0)
  {
    var m, n := Abs(a), Abs(b);
    EuclideanRemainder(m, n);
    var u := m / n;
    if (a < 0) == (b < 0) then u else -u
  }

  lemma EuclideanRemainder(m: nat, n: nat)
    requires n > 0
    ensures 0 <= m - (m / n) * n < n
  {
  }

  /** For a positive divisor the truncated quotient keeps any bounds of the
      form n * lo <= s <= n * hi. */
  lemma TDivBetween(s: int, n: int, lo: int, hi: int)
    requires n > 0 && n * lo <= s <= n * hi
    ensures lo <= TDiv(s, n) <= hi
  {
    var q := TDiv(s, n);
    assert -n < s - q * n < n;
    QuotientAtLeast(s, n, q, lo);
    QuotientAtMost(s, n, q, hi);
  }

  lemma QuotientAtLeast(s: int, n: int, q: int, lo: int)
    requires n > 0 && n * lo <= s && s - q * n < n
    ensures lo <= q
  {
    if q < lo {
      MulMono(q + 1, lo, n);
      assert false;
    }
  }

  lemma QuotientAtMost(s: int, n: int, q: int, hi: int)
    requires n > 0 && s <= n * hi && -n < s - q * n
    ensures q <= hi
  {
    if q > hi {
      MulMono(hi + 1, q, n);
      assert false;
    }
  }

  /** Multiplication by a nonnegative factor is monotone. */
  lemma MulMono(a: int, b: int, c: int)
    requires a <= b && 0 <= c
    ensures a * c <= b * c
  {
  }

  /** Row-major addressing of an array with `rows` rows and `cols` columns:
      cell (i, j) lies inside the flat store. */
  lemma CellInRange(rows: int, cols: int, i: int, j: int)
    requires 0 <= i < rows && 0 <= j < cols
    ensures 0 <= i * cols + j < rows * cols
  {
    MulMono(i + 1, rows, cols);
    MulMono(0, i, cols);
  }

  /** Distinct cells have distinct flat positions. */
  lemma CellInjective(cols: int, i: int, j: int, p: int, q: int)
    requires 0 <= i && 0 <= p && 0 <= j < cols && 0 <= q < cols
    requires i * cols + j == p * cols + q
    ensures i == p && j == q
  {
    if i < p {
      MulMono(i + 1, p, cols);
    } else if p < i {
      MulMono(p + 1, i, cols);
    }
  }

  /** Every flat position is the position of some cell. */
  lemma CellCovers(rows: int, cols: int, k: int)
    requires 0 <= rows && 0 <= k < rows * cols
    ensures 0 < cols && 0 <= k / cols < rows && k == (k / cols) * cols + k % cols
  {
    if cols <= 0 {
      MulMono(0, rows, -cols);
      assert false;
    }
    if k / cols >= rows {
      MulMono(rows, k / cols, cols);
      assert false;
    }
  }

  /** Element (i, j) of a rows x cols array stored in row-major order. */
  function Cell(d: seq<int>, rows: int, cols: int, i: int, j: int): int
    requires |d| == rows * cols && 0 <= i < rows && 0 <= j < cols
  {
    CellInRange(rows, cols, i, j);
    d[i * cols + j]
  }

  /** Two stores of the same shape that agree on every cell are equal. */
  lemma {:induction false} CellsDetermineStore(d: seq<int>, e: seq<int>, rows: int, cols: int)
    requires 0 <= rows && |d| == rows * cols && |e| == rows * cols
    requires forall i, j :: 0 <= i < rows && 0 <= j < cols ==> Cell(d, rows, cols, i, j) == Cell(e, rows, cols, i, j)
    ensures d == e
  {
    forall k | 0 <= k < |d|
      ensures d[k] == e[k]
    {
      CellCovers(rows, cols, k);
      assert Cell(d, rows, cols, k / cols, k % cols) == Cell(e, rows, cols, k / cols, k % cols);
    }
  }

  /** t (cols x rows) holds the transpose of d (rows x cols). */
  ghost predicate IsTranspose(t: seq<int>, d: seq<int>, rows: int, cols: int)
  {
    0 <= rows && 0 <= cols && |d| == rows * cols && |t| == cols * rows &&
    forall i, j :: 0 <= i < rows && 0 <= j < cols ==> Cell(t, cols, rows, j, i) == Cell(d, rows, cols, i, j)
  }

  /** Transposing twice restores the store. */
  lemma TransposeInvolution(d: seq<int>, t: seq<int>, u: seq<int>, rows: int, cols: int)
    requires IsTranspose(t, d, rows, cols) && IsTranspose(u, t, cols, rows)
    ensures u == d
  {
    forall i, j | 0 <= i < rows && 0 <= j < cols
      ensures Cell(u, rows, cols, i, j) == Cell(d, rows, cols, i, j)
    {
      assert Cell(u, rows, cols, i, j) == Cell(t, cols, rows, j, i);
    }
    CellsDetermineStore(u, d, rows, cols);
  }

  /** Sum of the first len terms A(k, j) * B(j, i) of the dot product of row k
      of A (rows x inner) with column i of B (inner x cols). */
  function PartialProduct(a: seq<int>, b: seq<int>, rows: int, inner: int, cols: int, k: int, i: int, len: int): int
    requires |a| == rows * inner && |b| == inner * cols
    requires 0 <= k < rows && 0 <= i < cols && 0 <= len <= inner
    decreases len
  {
    if len == 0 then 0
    else PartialProduct(a, b, rows, inner, cols, k, i, len - 1) + Cell(a, rows, inner, k, len - 1) * Cell(b, inner, cols, len - 1, i)
  }

  /** Entry (k, i) of the matrix product A B. */
  function ProductEntry(a: seq<int>, b: seq<int>, rows: int, inner: int, cols: int, k: int, i: int): int
    requires |a| == rows * inner && |b| == inner * cols && 0 <= inner
    requires 0 <= k < rows && 0 <= i < cols
  {
    PartialProduct(a, b, rows, inner, cols, k, i, inner)
  }

  /** When A is filled with x and B with y, every partial dot product of length
      len is len * x * y (the example of a (2,3) array of 4s times a (3,2) array
      of 13s gives 156 everywhere). */
  lemma {:induction false} PartialProductOfConstants(a: seq<int>, b: seq<int>, rows: int, inner: int, cols: int, k: int, i: int, len: int, x: int, y: int)
    requires |a| == rows * inner && |b| == inner * cols
    requires 0 <= k < rows && 0 <= i < cols && 0 <= len <= inner
    requires forall t :: 0 <= t < |a| ==> a[t] == x
    requires forall t :: 0 <= t < |b| ==> b[t] == y
    ensures PartialProduct(a, b, rows, inner, cols, k, i, len) == len * (x * y)
    decreases len
  {
    if len > 0 {
      PartialProductOfConstants(a, b, rows, inner, cols, k, i, len - 1, x, y);
      CellInRange(rows, inner, k, len - 1);
      CellInRange(inner, cols, len - 1, i);
      var xy := x * y;
      assert Cell(a, rows, inner, k, len - 1) * Cell(b, inner, cols, len - 1, i) == xy;
      assert (len - 1) * xy + xy == len * xy;
    }
  }

  function Sum(s: seq<int>): int
  {
    if s == [] then 0 else Sum(s[..|s| - 1]) + s[|s| - 1]
  }

  /** The sum of n elements that all lie in [lo, hi] lies in [n * lo, n * hi]. */
  lemma {:induction false} SumBounds(s: seq<int>, lo: int, hi: int)
    requires forall x :: x in s ==> lo <= x <= hi
    ensures |s| * lo <= Sum(s) <= |s| * hi
  {
    if s != [] {
      var init := s[..|s| - 1];
      assert forall x :: x in init ==> x in s;
      SumBounds(init, lo, hi);
      assert s[|s| - 1] in s;
      assert |s| * lo == |init| * lo + lo && |s| * hi == |init| * hi + hi;
    }
  }

  /** The truncated mean of a nonempty sequence lies between any lower and upper
      bound of its elements; in particular between its minimum and maximum. */
  lemma MeanWithinBounds(s: seq<int>, lo: int, hi: int)
    requires |s| > 0
    requires forall x :: x in s ==> lo <= x <= hi
    ensures lo <= TDiv(Sum(s), |s|) <= hi
  {
    SumBounds(s, lo, hi);
    TDivBetween(Sum(s), |s|, lo, hi);
  }

  lemma {:induction false} SumOfConstant(s: seq<int>, x: int)
    requires forall t :: 0 <= t < |s| ==> s[t] == x
    ensures Sum(s) == |s| * x
  {
    if s != [] {
      SumOfConstant(s[..|s| - 1], x);
      assert |s| * x == (|s| - 1) * x + x;
    }
  }

  /** The mean of an array whose elements all equal x is x. */
  lemma MeanOfConstant(s: seq<int>, x: int)
    requires |s| > 0
    requires forall t :: 0 <= t < |s| ==> s[t] == x
    ensures TDiv(Sum(s), |s|) == x
  {
    SumOfConstant(s, x);
    TDivBetween(Sum(s), |s|, x, x);
  }

  /** Row n of a valid rank-2 array lies inside the flat store. */
  lemma RowInRange(rows: int, cols: int, n: int)
    requires 0 <= n < rows && 0 <= cols
    ensures 0 <= n * cols && n * cols + cols <= rows * cols
  {
    MulMono(n + 1, rows, cols);
    MulMono(0, n, cols);
  }

  class NDArray {
    var shapes: seq<int>
    var dimsAmount: int
    var data: seq<int>

    /** The dimension sizes are nonnegative, dimsAmount is their product and
        the flat store holds exactly dimsAmount elements. */
    ghost predicate Valid()
      reads this
    {
      (forall k :: 0 <= k < |shapes| ==> 0 <= shapes[k]) &&
      dimsAmount == Product(shapes) &&
      |data| == dimsAmount
    }

    /** A valid rank-2 array with its row and column counts. */
    ghost predicate Matrix()
      reads this
    {
      Valid() && |shapes| == 2 && dimsAmount == shapes[0] * shapes[1]
    }

    /** NDArray(int sh, T val = INT_MAX): a rank-1 array of sh copies of val. */
    constructor Vector(sh: int, val: int := INT_MAX)
      ensures shapes == [sh] && dimsAmount == sh
      ensures |data| == (if sh < 0 then 0 else sh)
      ensures forall k :: 0 <= k < |data| ==> data[k] == val
      ensures sh >= 0 ==> Valid()
    {
      shapes := [sh];
      dimsAmount := sh;
      data := [];
      new;
      assert [sh][..0] == [];
      var i := 0;
      while i < dimsAmount
        invariant shapes == [sh] && dimsAmount == sh
        invariant 0 <= i && (sh >= 0 ==> i <= sh) && (sh < 0 ==> i == 0) && |data| == i
        invariant forall k :: 0 <= k < |data| ==> data[k] == val
      {
        data := data + [val];
        i := i + 1;
      }
    }

    /** NDArray(vector<int>* sh, T val = INT_MAX): an array of shape sh holding
        product(sh) copies of val. */
    constructor (sh: seq<int>, val: int := INT_MAX)
      ensures shapes == sh && dimsAmount == Product(sh)
      ensures |data| == (if Product(sh) < 0 then 0 else Product(sh))
      ensures forall k :: 0 <= k < |data| ==> data[k] == val
      ensures (forall k :: 0 <= k < |sh| ==> 0 <= sh[k]) ==> Valid()
    {
      shapes := [];
      dimsAmount := 0;
      data := [];
      new;
      var prod := 1;
      for t := 0 to |sh|
        invariant shapes == sh[..t] && prod == Product(sh[..t]) && data == []
      {
        assert sh[..t + 1][..t] == sh[..t];
        prod := prod * sh[t];
        shapes := shapes + [sh[t]];
      }
      assert sh[..|sh|] == sh;
      if forall k :: 0 <= k < |sh| ==> 0 <= sh[k] {
        ProductNonnegative(sh);
      }
      dimsAmount := prod;
      var i := 0;
      while i < dimsAmount
        invariant shapes == sh && dimsAmount == Product(sh)
        invariant 0 <= i && (dimsAmount >= 0 ==> i <= dimsAmount) && (dimsAmount < 0 ==> i == 0) && |data| == i
        invariant forall k :: 0 <= k < |data| ==> data[k] == val
      {
        data := data + [val];
        i := i + 1;
      }
    }

    /** The implicit member-wise copy constructor NDArray(const NDArray&). */
    constructor Copy(v: NDArray)
      ensures shapes == v.shapes && dimsAmount == v.dimsAmount && data == v.data
    {
      shapes, dimsAmount, data := v.shapes, v.dimsAmount, v.data;
    }

    /** Element (i, j) of a valid rank-2 array, as operator()(i, j) reads it. */
    function At2(i: int, j: int): int
      reads this
      requires Matrix() && 0 <= i < shapes[0] && 0 <= j < shapes[1]
    {
      Cell(data, shapes[0], shapes[1], i, j)
    }

    /** Writing x through operator()(i): assert(i < dimsAmount). */
    method Set(i: int, x: int)
      requires Valid() && 0 <= i < dimsAmount
      modifies this
      ensures Valid() && shapes == old(shapes) && dimsAmount == old(dimsAmount)
      ensures data == old(data)[i := x]
    {
      data := data[i := x];
    }

    /** Writing x through operator()(i, j): assert(i < shapes[0]), assert(j < shapes[1]);
        cell (i, j) becomes x and every other cell keeps its value. */
    method Set2(i: int, j: int, x: int)
      requires Matrix() && 0 <= i < shapes[0] && 0 <= j < shapes[1]
      modifies this
      ensures Matrix() && shapes == old(shapes) && dimsAmount == old(dimsAmount)
      ensures At2(i, j) == x
      ensures forall p, q :: 0 <= p < shapes[0] && 0 <= q < shapes[1] && (p != i || q != j) ==> At2(p, q) == old(At2(p, q))
    {
      CellInRange(shapes[0], shapes[1], i, j);
      data := data[i * shapes[1] + j := x];
      forall p, q | 0 <= p < shapes[0] && 0 <= q < shapes[1] && (p != i || q != j)
        ensures At2(p, q) == old(At2(p, q))
      {
        CellInRange(shapes[0], shapes[1], p, q);
        if p * shapes[1] + q == i * shapes[1] + j {
          CellInjective(shapes[1], p, q, i, j);
        }
      }
    }

    /** operator= exactly as written: the store is cleared first, so a
        self-assignment a = a finds an empty source and leaves the store empty
        while dimsAmount keeps its value. A source whose store is empty (such
        as the result of a = a) passes its shape and count on with an empty
        store; any other source must hold at least dimsAmount elements. */
    method AssignAsWritten(v: NDArray)
      requires v.data == [] || v.dimsAmount <= |v.data|
      modifies this
      ensures shapes == old(v.shapes) && dimsAmount == old(v.dimsAmount)
      ensures data == if v == this || old(v.data) == [] || old(v.dimsAmount) <= 0 then [] else old(v.data)[..old(v.dimsAmount)]
    {
      data := [];
      dimsAmount := v.dimsAmount;
      shapes := v.shapes;
      if v.data == [] {
        return;
      }
      var i := 0;
      while i < dimsAmount
        invariant v != this && v.data == old(v.data) && dimsAmount <= |v.data|
        invariant shapes == old(v.shapes) && dimsAmount == old(v.dimsAmount)
        invariant 0 <= i <= (if dimsAmount < 0 then 0 else dimsAmount) && data == v.data[..i]
      {
        data := data + [v.data[i]];
        i := i + 1;
      }
    }

    /** operator= with the self-assignment check the copy needs: afterwards this
        holds a deep copy of v's shape and elements, also when v is this. */
    method Assign(v: NDArray)
      requires v.Valid()
      modifies this
      ensures Valid()
      ensures shapes == old(v.shapes) && dimsAmount == old(v.dimsAmount) && data == old(v.data)
    {
      if v == this {
        return;
      }
      data := [];
      dimsAmount := v.dimsAmount;
      shapes := v.shapes;
      if v.data == [] {
        return;
      }
      var i := 0;
      while i < dimsAmount
        invariant v.Valid() && v.data == old(v.data)
        invariant shapes == v.shapes && dimsAmount == v.dimsAmount
        invariant 0 <= i <= dimsAmount && data == v.data[..i]
      {
        data := data + [v.data[i]];
        i := i + 1;
      }
      assert v.data[..dimsAmount] == v.data;
    }

    /** operator+=(const NDArray&): element-wise addition; shapes must be equal. */
    method AddArray(v: NDArray)
      requires Valid() && v.Valid() && shapes == v.shapes
      modifies this
      ensures Valid() && shapes == old(shapes) && dimsAmount == old(dimsAmount) && |data| == |old(data)|
      ensures forall k :: 0 <= k < |data| ==> data[k] == old(data[k]) + old(v.data[k])
    {
      var i := 0;
      while i < dimsAmount
        invariant Valid() && shapes == old(shapes) && dimsAmount == old(dimsAmount) && |data| == |old(data)|
        invariant 0 <= i <= dimsAmount && |v.data| == dimsAmount
        invariant forall k :: 0 <= k < i ==> data[k] == old(data[k]) + old(v.data[k])
        invariant forall k :: i <= k < dimsAmount ==> data[k] == old(data[k]) && v.data[k] == old(v.data[k])
      {
        data := data[i := data[i] + v.data[i]];
        i := i + 1;
      }
    }

    /** operator+=(T n): adds n to every element. */
    method AddScalar(n: int)
      requires Valid()
      modifies this
      ensures Valid() && shapes == old(shapes) && dimsAmount == old(dimsAmount) && |data| == |old(data)|
      ensures forall k :: 0 <= k < |data| ==> data[k] == old(data[k]) + n
    {
      var i := 0;
      while i < dimsAmount
        invariant Valid() && shapes == old(shapes) && dimsAmount == old(dimsAmount) && |data| == |old(data)|
        invariant 0 <= i <= dimsAmount
        invariant forall k :: 0 <= k < i ==> data[k] == old(data[k]) + n
        invariant forall k :: i <= k < dimsAmount ==> data[k] == old(data[k])
      {
        data := data[i := data[i] + n];
        i := i + 1;
      }
    }

    /** operator*=(const NDArray&): element-wise multiplication; shapes must be equal. */
    method MulArray(v: NDArray)
      requires Valid() && v.Valid() && shapes == v.shapes
      modifies this
      ensures Valid() && shapes == old(shapes) && dimsAmount == old(dimsAmount) && |data| == |old(data)|
      ensures forall k :: 0 <= k < |data| ==> data[k] == old(data[k]) * old(v.data[k])
    {
      var i := 0;
      while i < dimsAmount
        invariant Valid() && shapes == old(shapes) && dimsAmount == old(dimsAmount) && |data| == |old(data)|
        invariant 0 <= i <= dimsAmount && |v.data| == dimsAmount
        invariant forall k :: 0 <= k < i ==> data[k] == old(data[k]) * old(v.data[k])
        invariant forall k :: i <= k < dimsAmount ==> data[k] == old(data[k]) && v.data[k] == old(v.data[k])
      {
        data := data[i := data[i] * v.data[i]];
        i := i + 1;
      }
    }

    /** operator*=(T n): multiplies every element by n. */
    method MulScalar(n: int)
      requires Valid()
      modifies this
      ensures Valid() && shapes == old(shapes) && dimsAmount == old(dimsAmount) && |data| == |old(data)|
      ensures forall k :: 0 <= k < |data| ==> data[k] == old(data[k]) * n
    {
      var i := 0;
      while i < dimsAmount
        invariant Valid() && shapes == old(shapes) && dimsAmount == old(dimsAmount) && |data| == |old(data)|
        invariant 0 <= i <= dimsAmount
        invariant forall k :: 0 <= k < i ==> data[k] == old(data[k]) * n
        invariant forall k :: i <= k < dimsAmount ==> data[k] == old(data[k])
      {
        data := data[i := data[i] * n];
        i := i + 1;
      }
    }

    /** operator/=(const NDArray&): element-wise C++ division (truncating);
        shapes must be equal and, C++ division by zero being undefined, no
        divisor may be zero. */
    method DivArray(v: NDArray)
      requires Valid() && v.Valid() && shapes == v.shapes
      requires forall k :: 0 <= k < |v.data| ==> v.data[k] != 0
      modifies this
      ensures Valid() && shapes == old(shapes) && dimsAmount == old(dimsAmount) && |data| == |old(data)|
      ensures forall k :: 0 <= k < |data| ==> data[k] == TDiv(old(data[k]), old(v.data[k]))
    {
      var i := 0;
      while i < dimsAmount
        invariant Valid() && shapes == old(shapes) && dimsAmount == old(dimsAmount) && |data| == |old(data)|
        invariant 0 <= i <= dimsAmount && |v.data| == dimsAmount
        invariant forall k :: 0 <= k < i ==> data[k] == TDiv(old(data[k]), old(v.data[k]))
        invariant forall k :: i <= k < dimsAmount ==> data[k] == old(data[k]) && v.data[k] == old(v.data[k])
      {
        data := data[i := TDiv(data[i], v.data[i])];
        i := i + 1;
      }
    }

    /** operator/=(T n): divides every element by n, truncating. */
    method DivScalar(n: int)
      requires Valid() && n != 0
      modifies this
      ensures Valid() && shapes == old(shapes) && dimsAmount == old(dimsAmount) && |data| == |old(data)|
      ensures forall k :: 0 <= k < |data| ==> data[k] == TDiv(old(data[k]), n)
    {
      var i := 0;
      while i < dimsAmount
        invariant Valid() && shapes == old(shapes) && dimsAmount == old(dimsAmount) && |data| == |old(data)|
        invariant 0 <= i <= dimsAmount
        invariant forall k :: 0 <= k < i ==> data[k] == TDiv(old(data[k]), n)
        invariant forall k :: i <= k < dimsAmount ==> data[k] == old(data[k])
      {
        data := data[i := TDiv(data[i], n)];
        i := i + 1;
      }
    }

    /** operator-() const: a negated copy, computed as the copy times -1. */
    method Negated() returns (res: NDArray)
      requires Valid()
      ensures fresh(res) && res.Valid() && res.shapes == shapes && |res.data| == |data|
      ensures forall k :: 0 <= k < |data| ==> res.data[k] == -data[k]
    {
      res := new NDArray.Copy(this);
      res.MulScalar(-1);
    }

    /** operator-=(const NDArray&): adds the negated operand, which subtracts
        element-wise. */
    method SubArray(v: NDArray)
      requires Valid() && v.Valid() && shapes == v.shapes
      modifies this
      ensures Valid() && shapes == old(shapes) && dimsAmount == old(dimsAmount) && |data| == |old(data)|
      ensures forall k :: 0 <= k < |data| ==> data[k] == old(data[k]) - old(v.data[k])
    {
      var neg := v.Negated();
      AddArray(neg);
    }

    /** operator-=(T n): adds -n to every element. */
    method SubScalar(n: int)
      requires Valid()
      modifies this
      ensures Valid() && shapes == old(shapes) && dimsAmount == old(dimsAmount) && |data| == |old(data)|
      ensures forall k :: 0 <= k < |data| ==> data[k] == old(data[k]) - n
    {
      AddScalar(-n);
    }

    /** operator+(const NDArray&) const: the element-wise sum, in a new array. */
    method Plus(v: NDArray) returns (res: NDArray)
      requires Valid() && v.Valid() && shapes == v.shapes
      ensures fresh(res) && res.Valid() && res.shapes == shapes && |res.data| == |data|
      ensures forall k :: 0 <= k < |data| ==> res.data[k] == data[k] + v.data[k]
    {
      res := new NDArray.Copy(this);
      res.AddArray(v);
    }

    /** operator+(T n) const. */
    method PlusScalar(n: int) returns (res: NDArray)
      requires Valid()
      ensures fresh(res) && res.Valid() && res.shapes == shapes && |res.data| == |data|
      ensures forall k :: 0 <= k < |data| ==> res.data[k] == data[k] + n
    {
      res := new NDArray.Copy(this);
      res.AddScalar(n);
    }

    /** operator-(const NDArray&) const. */
    method Minus(v: NDArray) returns (res: NDArray)
      requires Valid() && v.Valid() && shapes == v.shapes
      ensures fresh(res) && res.Valid() && res.shapes == shapes && |res.data| == |data|
      ensures forall k :: 0 <= k < |data| ==> res.data[k] == data[k] - v.data[k]
    {
      res := new NDArray.Copy(this);
      res.SubArray(v);
    }

    /** operator-(T n) const. */
    method MinusScalar(n: int) returns (res: NDArray)
      requires Valid()
      ensures fresh(res) && res.Valid() && res.shapes == shapes && |res.data| == |data|
      ensures forall k :: 0 <= k < |data| ==> res.data[k] == data[k] - n
    {
      res := new NDArray.Copy(this);
      res.SubScalar(n);
    }

    /** operator*(const NDArray&) const. */
    method Times(v: NDArray) returns (res: NDArray)
      requires Valid() && v.Valid() && shapes == v.shapes
      ensures fresh(res) && res.Valid() && res.shapes == shapes && |res.data| == |data|
      ensures forall k :: 0 <= k < |data| ==> res.data[k] == data[k] * v.data[k]
    {
      res := new NDArray.Copy(this);
      res.MulArray(v);
    }

    /** operator*(T n) const. */
    method TimesScalar(n: int) returns (res: NDArray)
      requires Valid()
      ensures fresh(res) && res.Valid() && res.shapes == shapes && |res.data| == |data|
      ensures forall k :: 0 <= k < |data| ==> res.data[k] == data[k] * n
    {
      res := new NDArray.Copy(this);
      res.MulScalar(n);
    }

    /** operator/(const NDArray&) const. */
    method Over(v: NDArray) returns (res: NDArray)
      requires Valid() && v.Valid() && shapes == v.shapes
      requires forall k :: 0 <= k < |v.data| ==> v.data[k] != 0
      ensures fresh(res) && res.Valid() && res.shapes == shapes && |res.data| == |data|
      ensures forall k :: 0 <= k < |data| ==> res.data[k] == TDiv(data[k], v.data[k])
    {
      res := new NDArray.Copy(this);
      res.DivArray(v);
    }

    /** operator/(T n) const. */
    method OverScalar(n: int) returns (res: NDArray)
      requires Valid() && n != 0
      ensures fresh(res) && res.Valid() && res.shapes == shapes && |res.data| == |data|
      ensures forall k :: 0 <= k < |data| ==> res.data[k] == TDiv(data[k], n)
    {
      res := new NDArray.Copy(this);
      res.DivScalar(n);
    }

    /** replaceAllValues(val): the store becomes dimsAmount copies of val
        (none for a negative count), whatever it held before; an array whose
        shape and count agree is valid afterwards, so this also refills the
        store a self-assignment emptied. */
    method ReplaceAllValues(val: int)
      modifies this
      ensures shapes == old(shapes) && dimsAmount == old(dimsAmount)
      ensures |data| == (if old(dimsAmount) < 0 then 0 else old(dimsAmount))
      ensures forall k :: 0 <= k < |data| ==> data[k] == val
      ensures (forall k :: 0 <= k < |shapes| ==> 0 <= shapes[k]) && dimsAmount == Product(shapes) ==> Valid()
    {
      data := [];
      var i := 0;
      while i < dimsAmount
        invariant shapes == old(shapes) && dimsAmount == old(dimsAmount)
        invariant 0 <= i <= (if dimsAmount < 0 then 0 else dimsAmount) && |data| == i
        invariant forall k :: 0 <= k < i ==> data[k] == val
      {
        data := data + [val];
        i := i + 1;
      }
      if forall k :: 0 <= k < |shapes| ==> 0 <= shapes[k] {
        ProductNonnegative(shapes);
      }
    }

    /** transpose(): the shape (r, c) becomes (c, r) and the new cell (j, i) is
        the old cell (i, j). */
    method Transpose()
      requires Matrix()
      modifies this
      ensures Matrix() && shapes == [old(shapes[1]), old(shapes[0])]
      ensures IsTranspose(data, old(data), old(shapes[0]), old(shapes[1]))
    {
      var rows, cols := shapes[0], shapes[1];
      var res := new NDArray([cols, rows], 0);
      ProductOfPair([cols, rows]);
      for i := 0 to rows
        modifies res
        invariant fresh(res) && res.Matrix() && res.shapes == [cols, rows]
        invariant forall p, q :: 0 <= p < i && 0 <= q < cols ==> res.At2(q, p) == At2(p, q)
      {
        for j := 0 to cols
          modifies res
          invariant fresh(res) && res.Matrix() && res.shapes == [cols, rows]
          invariant forall p, q :: 0 <= p < i && 0 <= q < cols ==> res.At2(q, p) == At2(p, q)
          invariant forall q :: 0 <= q < j ==> res.At2(q, i) == At2(i, q)
        {
          res.Set2(j, i, At2(i, j));
        }
      }
      ghost var before := data;
      Assign(res);
      assert IsTranspose(data, before, rows, cols) by {
        forall p, q | 0 <= p < rows && 0 <= q < cols
          ensures Cell(data, cols, rows, q, p) == Cell(before, rows, cols, p, q)
        {
          assert res.At2(q, p) == Cell(data, cols, rows, q, p);
        }
      }
    }

    /** matMul(v1): the matrix product of this (r x m) and v1 (m x p), computed
        from row dot products against a transposed copy of v1; v1 itself is
        not modified. */
    method MatMul(v1: NDArray) returns (res: NDArray)
      requires Matrix() && v1.Matrix() && shapes[1] == v1.shapes[0]
      ensures fresh(res) && res.Matrix() && res.shapes == [shapes[0], v1.shapes[1]]
      ensures forall k, i :: 0 <= k < shapes[0] && 0 <= i < v1.shapes[1] ==>
                res.At2(k, i) == ProductEntry(data, v1.data, shapes[0], shapes[1], v1.shapes[1], k, i)
    {
      var rows, inner, cols := shapes[0], shapes[1], v1.shapes[1];
      res := new NDArray([rows, cols], 0);
      ProductOfPair([rows, cols]);
      var v := new NDArray.Vector(1);
      v.Assign(v1);
      v.Transpose();
      assert v.shapes == [cols, inner];
      for k := 0 to rows
        modifies res
        invariant fresh(res) && res.Matrix() && res.shapes == [rows, cols]
        invariant forall p, q :: 0 <= p < k && 0 <= q < cols ==> res.At2(p, q) == ProductEntry(data, v1.data, rows, inner, cols, p, q)
      {
        FillRow(res, v, v1.data, k);
      }
    }

    /** The middle loop of matMul: row k of res receives the dot products of
        row k of this with every row of vt, the transposed copy of b; the
        other rows of res keep their values. */
    method FillRow(res: NDArray, vt: NDArray, b: seq<int>, k: int)
      requires res != this && res != vt
      requires Matrix() && vt.Matrix() && vt.shapes[1] == shapes[1]
      requires IsTranspose(vt.data, b, shapes[1], vt.shapes[0])
      requires res.Matrix() && res.shapes == [shapes[0], vt.shapes[0]] && 0 <= k < shapes[0]
      modifies res
      ensures res.Matrix() && res.shapes == old(res.shapes)
      ensures forall p, q :: 0 <= p < shapes[0] && p != k && 0 <= q < vt.shapes[0] ==> res.At2(p, q) == old(res.At2(p, q))
      ensures forall q :: 0 <= q < vt.shapes[0] ==> res.At2(k, q) == ProductEntry(data, b, shapes[0], shapes[1], vt.shapes[0], k, q)
    {
      var cols := vt.shapes[0];
      for i := 0 to cols
        invariant res.Matrix() && res.shapes == old(res.shapes)
        invariant forall p, q :: 0 <= p < shapes[0] && p != k && 0 <= q < cols ==> res.At2(p, q) == old(res.At2(p, q))
        invariant forall q :: 0 <= q < i ==> res.At2(k, q) == ProductEntry(data, b, shapes[0], shapes[1], cols, k, q)
      {
        var n := RowTimesColumn(vt, b, cols, k, i);
        res.Set2(k, i, n);
      }
    }

    /** The innermost loop of matMul: the dot product of row k of this with
        row i of vt, the transposed copy of b, that is with column i of b. */
    method RowTimesColumn(vt: NDArray, b: seq<int>, cols: int, k: int, i: int) returns (n: int)
      requires Matrix() && vt.Matrix() && vt.shapes == [cols, shapes[1]]
      requires IsTranspose(vt.data, b, shapes[1], cols)
      requires 0 <= k < shapes[0] && 0 <= i < cols
      ensures n == ProductEntry(data, b, shapes[0], shapes[1], cols, k, i)
    {
      n := 0;
      for j := 0 to shapes[1]
        invariant n == PartialProduct(data, b, shapes[0], shapes[1], cols, k, i, j)
      {
        assert vt.At2(i, j) == Cell(b, shapes[1], cols, j, i);
        n := n + At2(k, j) * vt.At2(i, j);
      }
    }

    /** The elements a reduction with row selector n covers: the whole store
        when n == -1, otherwise row n, positions n*shapes[1] .. n*shapes[1]+shapes[1]-1. */
    function Span(n: int): seq<int>
      reads this
      requires Valid() && 1 <= |shapes| && -1 <= n < shapes[0]
      requires n >= 0 ==> Matrix()
    {
      if n == -1 then data
      else
        RowInRange(shapes[0], shapes[1], n);
        data[n * shapes[1] .. n * shapes[1] + shapes[1]]
    }

    /** min(n = -1): the least element of the whole array or of row n. */
    method Min(n: int := -1) returns (minVal: int)
      requires Valid() && 1 <= |shapes| && dimsAmount > 0
      requires -1 <= n < shapes[0]
      requires n >= 0 ==> Matrix()
      ensures minVal in Span(n)
      ensures forall x :: x in Span(n) ==> minVal <= x
    {
      minVal := data[0];
      if n == -1 {
        for t := 0 to |data|
          invariant minVal in data
          invariant forall s :: 0 <= s < t ==> minVal <= data[s]
        {
          if data[t] < minVal {
            minVal := data[t];
          }
        }
      } else {
        var c := shapes[1];
        RowInRange(shapes[0], c, n);
        minVal := data[n * c];
        for t := n * c to n * c + c
          invariant minVal in data[n * c .. n * c + c]
          invariant forall s :: n * c <= s < t ==> minVal <= data[s]
        {
          if data[t] < minVal {
            minVal := data[t];
          }
        }
      }
    }

    /** max(n = -1): the greatest element of the whole array or of row n. */
    method Max(n: int := -1) returns (maxVal: int)
      requires Valid() && 1 <= |shapes| && dimsAmount > 0
      requires -1 <= n < shapes[0]
      requires n >= 0 ==> Matrix()
      ensures maxVal in Span(n)
      ensures forall x :: x in Span(n) ==> x <= maxVal
    {
      maxVal := data[0];
      if n == -1 {
        for t := 0 to |data|
          invariant maxVal in data
          invariant forall s :: 0 <= s < t ==> data[s] <= maxVal
        {
          if data[t] > maxVal {
            maxVal := data[t];
          }
        }
      } else {
        var c := shapes[1];
        RowInRange(shapes[0], c, n);
        maxVal := data[n * c];
        for t := n * c to n * c + c
          invariant maxVal in data[n * c .. n * c + c]
          invariant forall s :: n * c <= s < t ==> data[s] <= maxVal
        {
          if data[t] > maxVal {
            maxVal := data[t];
          }
        }
      }
    }

    /** mean(n = -1): the sum of the covered elements divided (truncating) by
        dimsAmount, or by shapes[1] for a single row. */
    method Mean(n: int := -1) returns (meanVal: int)
      requires Valid() && 1 <= |shapes| && -1 <= n < shapes[0]
      requires n == -1 ==> dimsAmount != 0
      requires n >= 0 ==> Matrix() && shapes[1] != 0
      ensures |Span(n)| > 0 && meanVal == TDiv(Sum(Span(n)), |Span(n)|)
    {
      meanVal := 0;
      if n == -1 {
        for t := 0 to |data|
          invariant meanVal == Sum(data[..t])
        {
          assert data[..t + 1][..t] == data[..t];
          meanVal := meanVal + data[t];
        }
        assert data[..|data|] == data;
        meanVal := TDiv(meanVal, dimsAmount);
      } else {
        var c := shapes[1];
        RowInRange(shapes[0], c, n);
        for t := n * c to n * c + c
          invariant meanVal == Sum(data[n * c .. t])
        {
          assert data[n * c .. t + 1][..t - n * c] == data[n * c .. t];
          meanVal := meanVal + data[t];
        }
        meanVal := TDiv(meanVal, c);
      }
    }
  }

  /** Counterexample to operator= as written: after a = a on a one-element
      array, dimsAmount is still 1 but the store is empty; a later b = a
      passes that count on to b, again with an empty store. */
  method SelfAssignmentEmptiesStore() returns (count: int, stored: int, copiedCount: int, copiedStored: int)
    ensures count == 1 && stored == 0
    ensures copiedCount == 1 && copiedStored == 0
  {
    var a := new NDArray.Vector(1, 5);
    a.AssignAsWritten(a);
    count, stored := a.dimsAmount, |a.data|;
    var b := new NDArray.Vector(3, 7);
    b.AssignAsWritten(a);
    copiedCount, copiedStored := b.dimsAmount, |b.data|;
  }

  /** With the self-assignment check, a = a keeps the element. */
  method SelfAssignmentKeepsStore() returns (count: int, stored: seq<int>)
    ensures count == 1 && stored == [5]
  {
    var a := new NDArray.Vector(1, 5);
    a.Assign(a);
    count, stored := a.dimsAmount, a.data;
  }

  /** Transposing twice restores shape and elements. */
  method TransposeTwice(a: NDArray)
    requires a.Matrix()
    modifies a
    ensures a.Matrix() && a.shapes == old(a.shapes) && a.data == old(a.data)
  {
    a.Transpose();
    ghost var once := a.data;
    a.Transpose();
    TransposeInvolution(old(a.data), once, a.data, old(a.shapes[0]), old(a.shapes[1]));
  }

  /** A (2,3) array of 4s times a (3,2) array of 13s is a (2,2) array of 156s. */
  method MatMulExample() returns (shape: seq<int>, c00: int, c01: int, c10: int, c11: int)
    ensures shape == [2, 2] && c00 == 156 && c01 == 156 && c10 == 156 && c11 == 156
  {
    var a := new NDArray([2, 3], 4);
    var b := new NDArray([3, 2], 13);
    ProductOfPair([2, 3]);
    ProductOfPair([3, 2]);
    var r := a.MatMul(b);
    forall k, i | 0 <= k < 2 && 0 <= i < 2
      ensures ProductEntry(a.data, b.data, 2, 3, 2, k, i) == 156
    {
      PartialProductOfConstants(a.data, b.data, 2, 3, 2, k, i, 3, 4, 13);
    }
    shape, c00, c01, c10, c11 := r.shapes, r.At2(0, 0), r.At2(0, 1), r.At2(1, 0), r.At2(1, 1);
  }

  /** The reductions on the (2,2) array [[1, 2], [3, 4]]. */
  method ReductionExample() returns (lo: int, hi: int, avg: int, lo1: int, hi1: int, avg1: int)
    ensures lo == 1 && hi == 4 && avg == 2 && lo1 == 3 && hi1 == 4 && avg1 == 3
  {
    var a := new NDArray([2, 2], 0);
    ProductOfPair([2, 2]);
    a.Set(0, 1);
    a.Set(1, 2);
    a.Set(2, 3);
    a.Set(3, 4);
    assert a.data == [1, 2, 3, 4];
    assert a.Span(-1) == [1, 2, 3, 4];
    lo := a.Min();
    assert 1 in a.Span(-1) && lo <= 1 && lo in [1, 2, 3, 4];
    hi := a.Max();
    assert 4 in a.Span(-1) && 4 <= hi && hi in [1, 2, 3, 4];
    avg := a.Mean();
    assert a.Span(1) == [3, 4];
    lo1 := a.Min(1);
    assert 3 in a.Span(1) && lo1 <= 3 && lo1 in [3, 4];
    hi1 := a.Max(1);
    assert 4 in a.Span(1) && 4 <= hi1 && hi1 in [3, 4];
    avg1 := a.Mean(1);
    ExampleSums();
  }

  lemma ExampleSums()
    ensures Sum([1, 2, 3, 4]) == 10 && Sum([3, 4]) == 7
  {
    assert [1, 2, 3, 4][..3] == [1, 2, 3] && [1, 2, 3][..2] == [1, 2] && [1, 2][..1] == [1] && [1][..0] == [];
    assert [3, 4][..1] == [3] && [3][..0] == [];
  }
}
