/** Where each item of a view lands when it is flattened: the walk order
    stated item by item, for strided views as well as contiguous ones. */
module ItemOrder {
  import opened Wrappers
  import opened BigEndian
  import opened Buffer

  /** An index tuple inside the shape. */
  predicate InShape(shape: seq<nat>, idx: seq<nat>)
  {
    |idx| == |shape| && forall k :: 0 <= k < |shape| ==> idx[k] < shape[k]
  }

  /** The position of item idx in row-major order (last index fastest). */
  function RowMajor(shape: seq<nat>, idx: seq<nat>): nat
    requires |idx| == |shape|
  {
    if |shape| == 0 then 0 else idx[0] * Product(shape[1..]) + RowMajor(shape[1..], idx[1..])
  }

  /** The memory byte where item idx starts: base plus each index times its stride. */
  function ItemStart(strides: seq<nat>, idx: seq<nat>, base: nat): nat
    requires |idx| == |strides|
  {
    if |idx| == 0 then base else ItemStart(strides[1..], idx[1..], Offset(base, idx[0], strides[0]))
  }

  /** Row-major positions of an in-shape index stay below the item count. */
  lemma {:induction false} RowMajorBound(shape: seq<nat>, idx: seq<nat>)
    requires InShape(shape, idx)
    ensures RowMajor(shape, idx) < Product(shape)
  {
    if |shape| > 0 {
      var p := Product(shape[1..]);
      RowMajorBound(shape[1..], idx[1..]);
      MulLe(idx[0] + 1, shape[0], p);
      assert (idx[0] + 1) * p == idx[0] * p + p;
    }
  }

  /** The bytes of one slice along the outermost dimension. */
  function RowBytes(itemSize: nat, shape: seq<nat>): nat
    requires |shape| > 0
  {
    itemSize * Product(shape[1..])
  }

  /** Slice i of the first n outer slices is the gather of that slice. */
  lemma {:induction false} RowsSlice(mem: seq<byte>, itemSize: nat, shape: seq<nat>, strides: seq<nat>, base: nat,
                                     n: nat, i: nat)
    requires |strides| == |shape| > 0
    requires i < n <= shape[0]
    requires Fits(itemSize, shape, strides, base, |mem|)
    ensures i * RowBytes(itemSize, shape) + RowBytes(itemSize, shape) <= |GatherRows(mem, itemSize, shape, strides, base, n)|
    ensures GatherRows(mem, itemSize, shape, strides, base, n)[i * RowBytes(itemSize, shape)..i * RowBytes(itemSize, shape) + RowBytes(itemSize, shape)]
            == Gather(mem, itemSize, shape[1..], strides[1..], Offset(base, i, strides[0]))
    decreases n
  {
    var rowLen := RowBytes(itemSize, shape);
    var init := GatherRows(mem, itemSize, shape, strides, base, n - 1);
    var last := Gather(mem, itemSize, shape[1..], strides[1..], Offset(base, n - 1, strides[0]));
    assert GatherRows(mem, itemSize, shape, strides, base, n) == init + last;
    assert |init| == (n - 1) * rowLen;
    if i == n - 1 {
    } else {
      RowsSlice(mem, itemSize, shape, strides, base, n - 1, i);
      PrefixSlice(init, last, i * rowLen, i * rowLen + rowLen);
    }
  }

  /** Slicing inside the first part of a concatenation. */
  lemma PrefixSlice(a: seq<byte>, b: seq<byte>, lo: nat, hi: nat)
    requires lo <= hi <= |a|
    ensures (a + b)[lo..hi] == a[lo..hi]
  {
  }

  /** A row-major position, in bytes: the outer index's whole slices plus
      the position inside the slice. */
  lemma RowMajorBytes(shape: seq<nat>, idx: seq<nat>, itemSize: nat)
    requires |idx| == |shape| > 0
    ensures RowMajor(shape, idx) * itemSize
            == idx[0] * RowBytes(itemSize, shape) + RowMajor(shape[1..], idx[1..]) * itemSize
  {
    MulSplit(RowMajor(shape, idx), idx[0], Product(shape[1..]), RowMajor(shape[1..], idx[1..]),
             itemSize, RowBytes(itemSize, shape));
  }

  /** x = i * p + q scales to x * w = i * (w * p) + q * w. */
  lemma MulSplit(x: nat, i: nat, p: nat, q: nat, w: nat, wp: nat)
    requires x == i * p + q && wp == w * p
    ensures x * w == i * wp + q * w
  {
  }

  /** The w bytes of g at pos are the w bytes of mem at start. */
  predicate ItemAt(g: seq<byte>, pos: int, mem: seq<byte>, start: nat, w: nat)
  {
    0 <= pos && pos + w <= |g| && start + w <= |mem| && g[pos..pos + w] == mem[start..start + w]
  }

  /** An item inside a slice of g is an item of g, shifted by the slice's start. */
  lemma ItemAtShift(g: seq<byte>, a: int, len: nat, row: seq<byte>, j: nat, mem: seq<byte>, start: nat, w: nat)
    requires 0 <= a && a + len <= |g| && g[a..a + len] == row
    requires ItemAt(row, j, mem, start, w)
    ensures ItemAt(g, a + j, mem, start, w)
  {
    var piece := g[a + j..a + j + w];
    var want := row[j..j + w];
    forall k | 0 <= k < w
      ensures piece[k] == want[k]
    {
      assert g[a + j + k] == g[a..a + len][j + k];
    }
  }

  /** The walk puts the item at index idx, taken from memory at its strided
      start, at row-major position RowMajor(shape, idx). */
  lemma {:induction false} GatherItem(mem: seq<byte>, itemSize: nat, shape: seq<nat>, strides: seq<nat>, base: nat,
                                      idx: seq<nat>)
    requires |strides| == |shape|
    requires Fits(itemSize, shape, strides, base, |mem|)
    requires InShape(shape, idx)
    ensures ItemAt(Gather(mem, itemSize, shape, strides, base), RowMajor(shape, idx) * itemSize,
                   mem, ItemStart(strides, idx, base), itemSize)
    decreases |shape|
  {
    if |shape| > 0 {
      var rowBase := Offset(base, idx[0], strides[0]);
      assert InShape(shape[1..], idx[1..]);
      assert Fits(itemSize, shape[1..], strides[1..], rowBase, |mem|);
      GatherItem(mem, itemSize, shape[1..], strides[1..], rowBase, idx[1..]);
      GatherItemStep(mem, itemSize, shape, strides, base, idx);
    } else {
      assert ItemAt(Gather(mem, itemSize, shape, strides, base), 0, mem, base, itemSize) by {
        assert Gather(mem, itemSize, shape, strides, base) == mem[base..base + itemSize];
      }
    }
  }

  /** Slice i of the whole walk is the walk of slice i. */
  lemma OuterSlice(mem: seq<byte>, itemSize: nat, shape: seq<nat>, strides: seq<nat>, base: nat, i: nat)
    requires |strides| == |shape| > 0 && i < shape[0]
    requires Fits(itemSize, shape, strides, base, |mem|)
    ensures 0 <= i * RowBytes(itemSize, shape)
    ensures i * RowBytes(itemSize, shape) + RowBytes(itemSize, shape) <= |Gather(mem, itemSize, shape, strides, base)|
    ensures Gather(mem, itemSize, shape, strides, base)[i * RowBytes(itemSize, shape)..i * RowBytes(itemSize, shape) + RowBytes(itemSize, shape)]
            == Gather(mem, itemSize, shape[1..], strides[1..], Offset(base, i, strides[0]))
  {
    assert Gather(mem, itemSize, shape, strides, base) == GatherRows(mem, itemSize, shape, strides, base, shape[0]);
    RowsSlice(mem, itemSize, shape, strides, base, shape[0], i);
    MulLe(0, i, RowBytes(itemSize, shape));
  }

  /** The inductive step of GatherItem: the item's place inside its outer
      slice carries over to the whole walk. */
  lemma GatherItemStep(mem: seq<byte>, itemSize: nat, shape: seq<nat>, strides: seq<nat>, base: nat,
                       idx: seq<nat>)
    requires |strides| == |shape| > 0
    requires Fits(itemSize, shape, strides, base, |mem|)
    requires InShape(shape, idx)
    requires Fits(itemSize, shape[1..], strides[1..], Offset(base, idx[0], strides[0]), |mem|)
    requires ItemAt(Gather(mem, itemSize, shape[1..], strides[1..], Offset(base, idx[0], strides[0])),
                    RowMajor(shape[1..], idx[1..]) * itemSize,
                    mem, ItemStart(strides[1..], idx[1..], Offset(base, idx[0], strides[0])), itemSize)
    ensures ItemAt(Gather(mem, itemSize, shape, strides, base), RowMajor(shape, idx) * itemSize,
                   mem, ItemStart(strides, idx, base), itemSize)
  {
    var i := idx[0];
    var rowBase := Offset(base, i, strides[0]);
    var j := RowMajor(shape[1..], idx[1..]) * itemSize;
    OuterSlice(mem, itemSize, shape, strides, base, i);
    RowMajorBytes(shape, idx, itemSize);
    assert ItemStart(strides, idx, base) == ItemStart(strides[1..], idx[1..], rowBase);
    ItemAtShift(Gather(mem, itemSize, shape, strides, base), i * RowBytes(itemSize, shape), RowBytes(itemSize, shape),
                Gather(mem, itemSize, shape[1..], strides[1..], rowBase), j,
                mem, ItemStart(strides, idx, base), itemSize);
  }

  /** For every view, strided or not, the flattened bytes hold the item at
      index idx at its row-major position, copied from memory at the item's
      strided start. */
  lemma FlattenItem(v: BufferView, idx: seq<nat>)
    requires ValidView(v) && InShape(v.shape, idx)
    ensures Flatten(v).Ok?
    ensures ItemAt(Flatten(v).value, RowMajor(v.shape, idx) * v.itemSize, v.memory, ItemStart(v.strides, idx, 0), v.itemSize)
  {
    GatherItem(v.memory, v.itemSize, v.shape, v.strides, 0, idx);
  }
}
