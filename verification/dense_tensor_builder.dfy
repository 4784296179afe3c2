/**
 * Building a dense tensor cell by cell (DirectDenseTensorBuilder in
 * direct_dense_tensor_builder.cpp): the cell array is sized by the product
 * of the dimension sizes and a cell is found by its row-major address.
 * All index arithmetic is done on size_t, so it wraps modulo 2^64.
 */
module DenseTensorBuilder {

  /** 2^64: size_t arithmetic is taken modulo this. */
  const SIZE_T_MODULUS: int := 0x1_0000_0000_0000_0000

  /** A size_t value. */
  type SizeT = x: int | 0 <= x < 0x1_0000_0000_0000_0000

  /** One dimension: its name and how many cells it spans. */
  datatype DimensionMeta = DimensionMeta(dimension: string, size: SizeT)

  /** The built tensor: the dimensions and the cells, handed over as they are. */
  datatype DenseTensor = DenseTensor(dimensionsMeta: seq<DimensionMeta>, cells: seq<real>)

  /** The exact number of cells: the product of all dimension sizes (1 for no dimensions). */
  function Product(dims: seq<DimensionMeta>): nat {
    if dims == [] then 1 else dims[0].size * Product(dims[1..])
  }

  /**
   * The row-major offset of `address`: the sum over i of address[i] times the
   * product of the sizes of all later dimensions.
   */
  function RowMajor(address: seq<SizeT>, dims: seq<DimensionMeta>): nat
    requires |address| == |dims|
  {
    if address == [] then 0
    else address[0] * Product(dims[1..]) + RowMajor(address[1..], dims[1..])
  }

  /** Every coordinate lies below the size of its dimension. */
  ghost predicate InBounds(address: seq<SizeT>, dims: seq<DimensionMeta>)
    requires |address| == |dims|
  {
    forall i | 0 <= i < |address| :: address[i] < dims[i].size
  }

  /** What the address loop accumulates, step by step, before wrapping: result * size + coordinate. */
  function Horner(address: seq<SizeT>, dims: seq<DimensionMeta>): nat
    requires |address| == |dims|
  {
    if address == [] then 0
    else
      var n := |address| - 1;
      Horner(address[..n], dims[..n]) * dims[n].size + address[n]
  }

  /** Appending a dimension multiplies the product by its size. */
  lemma {:induction false} ProductSnoc(dims: seq<DimensionMeta>, d: DimensionMeta)
    ensures Product(dims + [d]) == Product(dims) * d.size
  {
    if dims != [] {
      assert (dims + [d])[1..] == dims[1..] + [d];
      ProductSnoc(dims[1..], d);
    }
  }

  /** Appending a coordinate scales the earlier offset by the new size and adds the coordinate. */
  lemma {:induction false} RowMajorSnoc(address: seq<SizeT>, dims: seq<DimensionMeta>, x: SizeT, d: DimensionMeta)
    requires |address| == |dims|
    ensures RowMajor(address + [x], dims + [d]) == RowMajor(address, dims) * d.size + x
  {
    if address == [] {
      assert (dims + [d])[1..] == [];
    } else {
      assert (address + [x])[1..] == address[1..] + [x];
      assert (dims + [d])[1..] == dims[1..] + [d];
      RowMajorSnoc(address[1..], dims[1..], x, d);
      ProductSnoc(dims[1..], d);
      calc {
        RowMajor(address + [x], dims + [d]);
        address[0] * Product(dims[1..] + [d]) + RowMajor(address[1..] + [x], dims[1..] + [d]);
        address[0] * (Product(dims[1..]) * d.size) + (RowMajor(address[1..], dims[1..]) * d.size + x);
        { MulAssoc(address[0], Product(dims[1..]), d.size); }
        (address[0] * Product(dims[1..]) + RowMajor(address[1..], dims[1..])) * d.size + x;
      }
    }
  }

  lemma MulAssoc(a: int, b: int, c: int)
    ensures a * (b * c) == (a * b) * c
  {
  }

  /** The loop's accumulation is the row-major offset. */
  lemma {:induction false} HornerIsRowMajor(address: seq<SizeT>, dims: seq<DimensionMeta>)
    requires |address| == |dims|
    ensures Horner(address, dims) == RowMajor(address, dims)
  {
    if address != [] {
      var n := |address| - 1;
      HornerIsRowMajor(address[..n], dims[..n]);
      assert address == address[..n] + [address[n]];
      assert dims == dims[..n] + [dims[n]];
      RowMajorSnoc(address[..n], dims[..n], address[n], dims[n]);
    }
  }

  /**
   * An in-bounds address has an offset below the number of cells, so it
   * names a cell of the array.
   */
  lemma {:induction false} InBoundsBelowProduct(address: seq<SizeT>, dims: seq<DimensionMeta>)
    requires |address| == |dims| && InBounds(address, dims)
    ensures RowMajor(address, dims) < Product(dims)
  {
    if address != [] {
      InBoundsBelowProduct(address[1..], dims[1..]);
      var p := Product(dims[1..]);
      var r := RowMajor(address[1..], dims[1..]);
      assert address[0] < dims[0].size;
      assert RowMajor(address, dims) == address[0] * p + r;
      assert Product(dims) == dims[0].size * p;
      MulLe(address[0] + 1, dims[0].size, p);
      assert (address[0] + 1) * p == address[0] * p + p;
    }
  }

  lemma MulLe(a: nat, b: nat, c: nat)
    requires a <= b
    ensures a * c <= b * c
  {
  }

  /** Two different in-bounds addresses have different offsets: no two coordinates share a cell. */
  lemma {:induction false} RowMajorInjective(a: seq<SizeT>, b: seq<SizeT>, dims: seq<DimensionMeta>)
    requires |a| == |dims| && |b| == |dims|
    requires InBounds(a, dims) && InBounds(b, dims)
    requires RowMajor(a, dims) == RowMajor(b, dims)
    ensures a == b
  {
    if a != [] {
      var p := Product(dims[1..]);
      InBoundsBelowProduct(a[1..], dims[1..]);
      InBoundsBelowProduct(b[1..], dims[1..]);
      LeadingDigit(a[0], RowMajor(a[1..], dims[1..]), b[0], RowMajor(b[1..], dims[1..]), p);
      RowMajorInjective(a[1..], b[1..], dims[1..]);
      assert a == [a[0]] + a[1..] && b == [b[0]] + b[1..];
    }
  }

  /** Mixed-radix digits: x * p + r == y * p + s with r, s below p forces x == y and r == s. */
  lemma LeadingDigit(x: nat, r: nat, y: nat, s: nat, p: nat)
    requires r < p && s < p
    requires x * p + r == y * p + s
    ensures x == y && r == s
  {
    if x < y {
      MulLe(x + 1, y, p);
    } else if y < x {
      MulLe(y + 1, x, p);
    }
  }

  /** Wrapping after each multiplication gives the wrapped product. */
  lemma ModMul(a: int, b: int)
    ensures (a % SIZE_T_MODULUS) * b % SIZE_T_MODULUS == a * b % SIZE_T_MODULUS
  {
    var m := SIZE_T_MODULUS;
    var q := a / m;
    assert a == q * m + a % m;
    assert a * b == (a % m) * b + (q * b) * m;
  }

  /** A value below 2^64 is unchanged by wrapping. */
  lemma SmallMod(x: int)
    requires 0 <= x < SIZE_T_MODULUS
    ensures x % SIZE_T_MODULUS == x
  {
  }

  /** Wrapping after each addition gives the wrapped sum. */
  lemma ModAdd(a: int, b: int)
    ensures (a % SIZE_T_MODULUS + b) % SIZE_T_MODULUS == (a + b) % SIZE_T_MODULUS
  {
  }

  /**
   * calculateCellsSize: multiplies the sizes together in size_t; the result
   * is the number of cells modulo 2^64, and 1 without dimensions.
   */
  method CalculateCellsSize(dims: seq<DimensionMeta>) returns (r: SizeT)
    ensures r == Product(dims) % SIZE_T_MODULUS
    ensures dims == [] ==> r == 1
    ensures Product(dims) < SIZE_T_MODULUS ==> r == Product(dims)
  {
    r := 1;
    var i := 0;
    while i < |dims|
      invariant 0 <= i <= |dims|
      invariant r == Product(dims[..i]) % SIZE_T_MODULUS
    {
      assert dims[..i + 1] == dims[..i] + [dims[i]];
      ProductSnoc(dims[..i], dims[i]);
      ModMul(Product(dims[..i]), dims[i].size);
      r := r * dims[i].size % SIZE_T_MODULUS;
      i := i + 1;
    }
    assert dims[..i] == dims;
  }

  /**
   * calculateCellAddress: the address must have one coordinate per
   * dimension; the result is the row-major offset modulo 2^64.
   */
  method CalculateCellAddress(address: seq<SizeT>, dims: seq<DimensionMeta>) returns (r: SizeT)
    requires |address| == |dims|
    ensures r == RowMajor(address, dims) % SIZE_T_MODULUS
    ensures InBounds(address, dims) && Product(dims) < SIZE_T_MODULUS ==> r == RowMajor(address, dims) < Product(dims)
  {
    r := 0;
    var i := 0;
    while i < |address|
      invariant 0 <= i <= |address|
      invariant r == Horner(address[..i], dims[..i]) % SIZE_T_MODULUS
    {
      assert address[..i + 1][..i] == address[..i] && dims[..i + 1][..i] == dims[..i];
      var h := Horner(address[..i], dims[..i]);
      assert Horner(address[..i + 1], dims[..i + 1]) == h * dims[i].size + address[i];
      ModMul(h, dims[i].size);
      r := r * dims[i].size % SIZE_T_MODULUS;
      ModAdd(h * dims[i].size, address[i]);
      r := (r + address[i]) % SIZE_T_MODULUS;
      i := i + 1;
    }
    assert address[..i] == address && dims[..i] == dims;
    HornerIsRowMajor(address, dims);
    if InBounds(address, dims) {
      InBoundsBelowProduct(address, dims);
    }
  }

  /** The offset an address names in the cell array, as the builder computes it in size_t. */
  function CellIndex(address: seq<SizeT>, dims: seq<DimensionMeta>): nat
    requires |address| == |dims|
  {
    RowMajor(address, dims) % SIZE_T_MODULUS
  }

  /**
   * When the cell count fits in size_t, an in-bounds address passes the
   * range assert of insertCell.
   */
  lemma InBoundsAddressFits(address: seq<SizeT>, dims: seq<DimensionMeta>)
    requires |address| == |dims| && InBounds(address, dims)
    requires Product(dims) < SIZE_T_MODULUS
    ensures CellIndex(address, dims) < Product(dims) % SIZE_T_MODULUS
  {
    InBoundsBelowProduct(address, dims);
    SmallMod(RowMajor(address, dims));
    SmallMod(Product(dims));
  }

  /** When the cell count fits in size_t, in-bounds addresses name the same cell only if they are equal. */
  lemma CellIndexInjective(a1: seq<SizeT>, a2: seq<SizeT>, dims: seq<DimensionMeta>)
    requires |a1| == |dims| && |a2| == |dims| && InBounds(a1, dims) && InBounds(a2, dims)
    requires Product(dims) < SIZE_T_MODULUS
    ensures CellIndex(a1, dims) == CellIndex(a2, dims) <==> a1 == a2
  {
    var r1, r2 := RowMajor(a1, dims), RowMajor(a2, dims);
    InBoundsBelowProduct(a1, dims);
    InBoundsBelowProduct(a2, dims);
    SmallMod(r1);
    SmallMod(r2);
    if r1 == r2 {
      RowMajorInjective(a1, a2, dims);
    }
  }

  /** Builds a dense tensor by writing cells at computed addresses into a pre-sized array. */
  class DirectDenseTensorBuilder {
    const dimensionsMeta: seq<DimensionMeta>
    const cells: array<real>

    /** One cell per point: the array is as long as calculateCellsSize says. */
    ghost predicate Valid() {
      cells.Length == Product(dimensionsMeta) % SIZE_T_MODULUS
    }

    /** The cell array is exactly calculateCellsSize long and every cell starts at 0.0. */
    constructor (dimensionsMeta: seq<DimensionMeta>)
      ensures this.dimensionsMeta == dimensionsMeta
      ensures fresh(cells)
      ensures Valid()
      ensures forall i | 0 <= i < cells.Length :: cells[i] == 0.0
    {
      this.dimensionsMeta := dimensionsMeta;
      var n := CalculateCellsSize(dimensionsMeta);
      cells := new real[n](_ => 0.0);
    }

    /**
     * insertCell: computes the address (which must have one coordinate per
     * dimension and land inside the array) and overwrites that one cell.
     */
    method InsertCell(address: seq<SizeT>, cellValue: real)
      requires |address| == |dimensionsMeta|
      requires CellIndex(address, dimensionsMeta) < cells.Length
      modifies cells
      ensures cells[..] == old(cells[..])[CellIndex(address, dimensionsMeta) := cellValue]
    {
      var cellAddress := CalculateCellAddress(address, dimensionsMeta);
      cells[cellAddress] := cellValue;
    }

    /** build: hands over the dimensions and the cells unchanged. */
    method Build() returns (t: DenseTensor)
      ensures t.dimensionsMeta == dimensionsMeta
      ensures t.cells == cells[..]
    {
      t := DenseTensor(dimensionsMeta, cells[..]);
    }
  }

  /**
   * Writing two different in-bounds addresses touches two different cells:
   * the second insert leaves the first value in place.
   */
  method InsertTwoCells(b: DirectDenseTensorBuilder, a1: seq<SizeT>, v1: real, a2: seq<SizeT>, v2: real)
    requires |a1| == |b.dimensionsMeta| && |a2| == |b.dimensionsMeta|
    requires InBounds(a1, b.dimensionsMeta) && InBounds(a2, b.dimensionsMeta) && a1 != a2
    requires Product(b.dimensionsMeta) < SIZE_T_MODULUS
    requires b.Valid()
    modifies b.cells
    ensures CellIndex(a1, b.dimensionsMeta) < b.cells.Length && b.cells[CellIndex(a1, b.dimensionsMeta)] == v1
    ensures CellIndex(a2, b.dimensionsMeta) < b.cells.Length && b.cells[CellIndex(a2, b.dimensionsMeta)] == v2
  {
    InBoundsAddressFits(a1, b.dimensionsMeta);
    InBoundsAddressFits(a2, b.dimensionsMeta);
    CellIndexInjective(a1, a2, b.dimensionsMeta);
    b.InsertCell(a1, v1);
    b.InsertCell(a2, v2);
  }
}
