/** Buffers as the packer sees them: an item size, a shape, byte strides and
    the underlying memory. Flattening walks the items in row-major order (the
    last dimension varies fastest) and yields item-size bytes per item. */
module Buffer {
  import opened Wrappers
  import opened Errors
  import opened BigEndian

  /** A view of `memory`: Product(shape) items of itemSize bytes each, the
      item at index (i0, i1, ...) starting at byte i0*strides[0] + i1*strides[1] + ... */
  datatype BufferView = BufferView(itemSize: nat, shape: seq<nat>, strides: seq<nat>, memory: seq<byte>)

  /** The number of items in a shape (1 for a scalar, 0 if any extent is 0). */
  function Product(shape: seq<nat>): nat
  {
    if |shape| == 0 then 1 else shape[0] * Product(shape[1..])
  }

  /** The view's length in bytes: item size times number of items. */
  function NBytes(v: BufferView): nat
  {
    v.itemSize * Product(v.shape)
  }

  /** Byte strides of a C-contiguous (row-major, gap-free) layout. */
  function CStrides(itemSize: nat, shape: seq<nat>): (r: seq<nat>)
    ensures |r| == |shape|
    ensures forall k :: 0 <= k < |shape| ==> r[k] == itemSize * Product(shape[k + 1..])
  {
    if |shape| == 0 then []
    else
      var rest := CStrides(itemSize, shape[1..]);
      assert forall k :: 1 <= k < |shape| ==> shape[1..][k..] == shape[k + 1..];
      [itemSize * Product(shape[1..])] + rest
  }

  /** Start of the i-th slice along a dimension of the given stride. */
  function Offset(base: nat, i: nat, stride: nat): nat
  {
    base + i * stride
  }

  /** Every item the view reaches from `base` lies inside `size` bytes of memory. */
  predicate Fits(itemSize: nat, shape: seq<nat>, strides: seq<nat>, base: nat, size: nat)
    requires |strides| == |shape|
    decreases |shape|
  {
    if |shape| == 0 then base + itemSize <= size
    else forall i :: 0 <= i < shape[0] ==> Fits(itemSize, shape[1..], strides[1..], Offset(base, i, strides[0]), size)
  }

  /** The row-major byte sequence of the items reachable from `base`. */
  function Gather(mem: seq<byte>, itemSize: nat, shape: seq<nat>, strides: seq<nat>, base: nat): (r: seq<byte>)
    requires |strides| == |shape|
    requires Fits(itemSize, shape, strides, base, |mem|)
    ensures |r| == itemSize * Product(shape)
    decreases |shape|, 1
  {
    if |shape| == 0 then mem[base..base + itemSize]
    else
      var r := GatherRows(mem, itemSize, shape, strides, base, shape[0]);
      assert itemSize * Product(shape) == shape[0] * (itemSize * Product(shape[1..]));
      r
  }

  /** The first n slices along the outermost dimension, in order. */
  function GatherRows(mem: seq<byte>, itemSize: nat, shape: seq<nat>, strides: seq<nat>, base: nat, n: nat): (r: seq<byte>)
    requires |strides| == |shape| > 0
    requires n <= shape[0]
    requires Fits(itemSize, shape, strides, base, |mem|)
    ensures |r| == n * (itemSize * Product(shape[1..]))
    decreases |shape|, 0, n
  {
    if n == 0 then []
    else
      var row := Gather(mem, itemSize, shape[1..], strides[1..], Offset(base, n - 1, strides[0]));
      var r := GatherRows(mem, itemSize, shape, strides, base, n - 1) + row;
      assert |r| == (n - 1) * (itemSize * Product(shape[1..])) + itemSize * Product(shape[1..]);
      r
  }

  /** A view the packer can read: items of at least one byte, one stride per
      dimension, every item inside memory. */
  predicate ValidView(v: BufferView)
  {
    && v.itemSize > 0
    && |v.strides| == |v.shape|
    && Fits(v.itemSize, v.shape, v.strides, 0, |v.memory|)
  }

  /** The view lays its items out row-major without gaps from the start of memory. */
  predicate Contiguous(v: BufferView)
  {
    v.strides == CStrides(v.itemSize, v.shape)
  }

  /** A C-contiguous layout reaches only the first itemSize * Product(shape) bytes from base. */
  lemma {:induction false} ContiguousFits(itemSize: nat, shape: seq<nat>, base: nat, size: nat)
    requires base + itemSize * Product(shape) <= size
    ensures Fits(itemSize, shape, CStrides(itemSize, shape), base, size)
    decreases |shape|
  {
    if |shape| > 0 {
      var strides := CStrides(itemSize, shape);
      var row := itemSize * Product(shape[1..]);
      assert strides[0] == row;
      assert strides[1..] == CStrides(itemSize, shape[1..]);
      assert itemSize * Product(shape) == shape[0] * row;
      forall i | 0 <= i < shape[0]
        ensures Fits(itemSize, shape[1..], strides[1..], Offset(base, i, strides[0]), size)
      {
        MulLe(i + 1, shape[0], row);
        assert (i + 1) * row == i * row + row;
        ContiguousFits(itemSize, shape[1..], Offset(base, i, row), size);
      }
    }
  }

  /** Multiplying by the same factor keeps the order. */
  lemma MulLe(a: nat, b: nat, c: nat)
    requires a <= b
    ensures a * c <= b * c
  {
  }

  /** Conversely, a C-contiguous layout with at least one byte that fits ends within memory. */
  lemma {:induction false} ContiguousBound(itemSize: nat, shape: seq<nat>, base: nat, size: nat)
    requires Fits(itemSize, shape, CStrides(itemSize, shape), base, size)
    ensures itemSize * Product(shape) > 0 ==> base + itemSize * Product(shape) <= size
    decreases |shape|
  {
    if |shape| > 0 && itemSize * Product(shape) > 0 {
      var strides := CStrides(itemSize, shape);
      var row := itemSize * Product(shape[1..]);
      assert strides[0] == row;
      assert strides[1..] == CStrides(itemSize, shape[1..]);
      assert Fits(itemSize, shape[1..], strides[1..], Offset(base, shape[0] - 1, strides[0]), size);
      assert itemSize * Product(shape) == shape[0] * row;
      assert row > 0;
      ContiguousBound(itemSize, shape[1..], Offset(base, shape[0] - 1, row), size);
      SliceEnd(base, shape[0], row);
    }
  }

  /** The n-th slice of width `row` ends where n slices from base end. */
  lemma SliceEnd(base: nat, n: nat, row: nat)
    requires n > 0
    ensures Offset(base, n - 1, row) + row == base + n * row
  {
  }

  /** Gathering a C-contiguous layout reads its bytes straight through memory. */
  lemma {:induction false} ContiguousGather(mem: seq<byte>, itemSize: nat, shape: seq<nat>, base: nat)
    requires base <= |mem|
    requires Fits(itemSize, shape, CStrides(itemSize, shape), base, |mem|)
    ensures base + itemSize * Product(shape) <= |mem|
    ensures Gather(mem, itemSize, shape, CStrides(itemSize, shape), base) == mem[base..base + itemSize * Product(shape)]
    decreases |shape|, 1
  {
    ContiguousBound(itemSize, shape, base, |mem|);
    if |shape| > 0 {
      var row := itemSize * Product(shape[1..]);
      assert itemSize * Product(shape) == shape[0] * row;
      ContiguousRows(mem, itemSize, shape, base, shape[0]);
    }
  }

  /** The first n slices of a C-contiguous layout are the first n row-lengths of memory. */
  lemma {:induction false} ContiguousRows(mem: seq<byte>, itemSize: nat, shape: seq<nat>, base: nat, n: nat)
    requires |shape| > 0 && n <= shape[0]
    requires base <= |mem|
    requires Fits(itemSize, shape, CStrides(itemSize, shape), base, |mem|)
    ensures base + n * (itemSize * Product(shape[1..])) <= |mem|
    ensures GatherRows(mem, itemSize, shape, CStrides(itemSize, shape), base, n)
            == mem[base..base + n * (itemSize * Product(shape[1..]))]
    decreases |shape|, 0, n
  {
    var strides := CStrides(itemSize, shape);
    var row := itemSize * Product(shape[1..]);
    if n > 0 {
      assert strides[0] == row;
      assert strides[1..] == CStrides(itemSize, shape[1..]);
      var start := Offset(base, n - 1, row);
      assert Fits(itemSize, shape[1..], strides[1..], Offset(base, n - 1, strides[0]), |mem|);
      assert start <= |mem| by {
        if row > 0 {
          ContiguousBound(itemSize, shape[1..], start, |mem|);
        }
      }
      ContiguousRows(mem, itemSize, shape, base, n - 1);
      ContiguousGather(mem, itemSize, shape[1..], start);
      SliceEnd(base, n, row);
      assert mem[base..start] + mem[start..start + row] == mem[base..base + n * row];
    }
  }

  /** The view's bytes in row-major order, or InvalidBufferShape. A
      contiguous view flattens to the leading NBytes bytes of its memory. */
  function Flatten(v: BufferView): (r: Result<seq<byte>, PackError>)
    ensures r.Ok? <==> ValidView(v)
    ensures r.Err? ==> r.error == InvalidBufferShape
    ensures r.Ok? ==> |r.value| == NBytes(v)
    ensures Contiguous(v) ==> (r.Ok? <==> v.itemSize > 0 && NBytes(v) <= |v.memory|)
    ensures Contiguous(v) && r.Ok? ==> r.value == v.memory[..NBytes(v)]
  {
    if !ValidView(v) then
      if v.itemSize > 0 && Contiguous(v) && NBytes(v) <= |v.memory| then
        ContiguousFits(v.itemSize, v.shape, 0, |v.memory|);
        Err(InvalidBufferShape)
      else Err(InvalidBufferShape)
    else if Contiguous(v) then
      ContiguousGather(v.memory, v.itemSize, v.shape, 0);
      Ok(Gather(v.memory, v.itemSize, v.shape, v.strides, 0))
    else Ok(Gather(v.memory, v.itemSize, v.shape, v.strides, 0))
  }

  /** A one-dimensional C-contiguous view of whole items: an `array` of
      fixed-size items, or a `memoryview` of it. */
  function OneDim(itemSize: nat, data: seq<byte>): BufferView
  {
    BufferView(itemSize, [if itemSize == 0 then 0 else |data| / itemSize], [itemSize], data)
  }

  /** An array rebuilt from bytes (`array.frombytes`): refused unless the
      bytes split into whole items. */
  function MakeArray(itemSize: nat, data: seq<byte>): (r: Result<BufferView, ArrayError>)
    requires itemSize > 0
    ensures r.Ok? <==> |data| % itemSize == 0
    ensures r.Ok? ==> r.value.itemSize == itemSize && |r.value.shape| == 1 && Contiguous(r.value)
    ensures r.Ok? ==> r.value.memory == data && NBytes(r.value) == |data| && Flatten(r.value) == Ok(data)
  {
    if |data| % itemSize != 0 then Err(NotMultipleOfItemSize)
    else
      var v := OneDim(itemSize, data);
      assert v.shape[1..] == [];
      assert Product(v.shape) == |data| / itemSize;
      assert NBytes(v) == |data|;
      assert v.memory[..NBytes(v)] == data;
      Ok(v)
  }

  /** The most dimensions a view may have. */
  const MaxDims: nat := 64

  /** The reshapes `memoryview.cast` allows when the format stays the same:
      only byte formats (one byte wide) may be recast, either from one
      dimension to any number or from any number to one, to at most MaxDims
      dimensions of positive extent, from a view without zero extents, and
      to a shape holding exactly as many bytes. */
  predicate CastAllowed(v: BufferView, shape: seq<nat>)
  {
    && v.itemSize == 1
    && (|v.shape| == 1 || |shape| == 1)
    && |shape| <= MaxDims
    && (forall k :: 0 <= k < |shape| ==> shape[k] > 0)
    && (forall k :: 0 <= k < |v.shape| ==> v.shape[k] > 0)
    && v.itemSize * Product(shape) == NBytes(v)
  }

  /** A view reshaped in place (`memoryview.cast` with the same format): the
      source must be valid and C-contiguous and the reshape one that `cast`
      allows. The recast view is contiguous over the same memory and
      flattens to exactly the bytes of the original. */
  function Cast(v: BufferView, shape: seq<nat>): (r: Result<BufferView, CastError>)
    ensures r.Ok? <==> ValidView(v) && Contiguous(v) && CastAllowed(v, shape)
    ensures r.Ok? ==> r.value.shape == shape && r.value.itemSize == v.itemSize
                      && r.value.memory == v.memory && Contiguous(r.value)
    ensures r.Ok? ==> ValidView(r.value) && NBytes(r.value) == NBytes(v)
    ensures r.Ok? ==> Flatten(r.value) == Flatten(v)
  {
    if ValidView(v) && Contiguous(v) && CastAllowed(v, shape) then
      var w := BufferView(v.itemSize, shape, CStrides(v.itemSize, shape), v.memory);
      ContiguousGather(v.memory, v.itemSize, v.shape, 0);
      ContiguousFits(w.itemSize, w.shape, 0, |w.memory|);
      Ok(w)
    else Err(CastRefused)
  }
}
