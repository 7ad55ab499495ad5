/** A packed array of up to 64 buckets: a bitmap says which buckets hold a value, and the values are
    stored without gaps, in bucket order. */
module SparseArrays {
  import opened Popcount

  // that of the medium sparsity, the default
  const CAPACITY_GROWTH_STEP := 4

  datatype Cell<T> = Empty | Deleted | Full(value: T)

  /** What bucket i holds, by the bitmaps and the packed values. */
  ghost function CellAt<T>(values: seq<T>, vals: bv64, deleted: bv64, i: nat): Cell<T>
    requires i < 64 && Ones(vals, 64) <= |values|
  {
    if Has(vals, i) then
      OnesGrow(vals, i, 64);
      Full(values[Ones(vals, i)])
    else if Has(deleted, i) then Deleted else Empty
  }

  /** cells is what the bitmaps and the packed values say. */
  ghost predicate Packed<T>(values: seq<T>, vals: bv64, deleted: bv64, cells: seq<Cell<T>>) {
    && |cells| == 64 && |values| == Ones(vals, 64)
    && (forall i :: 0 <= i < 64 ==> !(Has(vals, i) && Has(deleted, i)))
    && (forall i :: 0 <= i < 64 ==> cells[i] == CellAt(values, vals, deleted, i))
  }

  lemma SetAt<T>(values: seq<T>, vals: bv64, deleted: bv64, index: nat, v: T, i: nat)
    requires |values| == Ones(vals, 64) && index < 64 && !Has(vals, index) && i < 64
    requires !(Has(vals, i) && Has(deleted, i))
    ensures Ones(vals, index) <= |values| && Ones(Or(vals, One(index)), 64) == |values| + 1
    ensures var o, vals', deleted' := Ones(vals, index), Or(vals, One(index)), AndNot(deleted, One(index));
            && !(Has(vals', i) && Has(deleted', i))
            && CellAt(values[..o] + [v] + values[o..], vals', deleted', i)
            == if i == index then Full(v) else CellAt(values, vals, deleted, i)
  {
    hide Has, One, Or, AndNot, Ones;
    OnesGrow(vals, index, 64);
    OnesChange(vals, index, 64);
    BitOps(vals, index, i);
    BitOps(deleted, index, i);
    OnesChange(vals, index, i);
    OnesGrow(vals, i, 64);
    if i < index { OnesGrow(vals, i, index); } else { OnesGrow(vals, index, i); }
  }

  /** Storing a value in a bucket without one. */
  lemma PackedSet<T>(values: seq<T>, vals: bv64, deleted: bv64, cells: seq<Cell<T>>, index: nat, v: T)
    requires Packed(values, vals, deleted, cells) && index < 64 && !Has(vals, index)
    ensures Ones(vals, index) <= |values|
    ensures var o := Ones(vals, index);
            Packed(values[..o] + [v] + values[o..], Or(vals, One(index)), AndNot(deleted, One(index)),
                cells[index := Full(v)])
  {
    hide Has, One, Or, AndNot, Ones, CellAt;
    SetAt(values, vals, deleted, index, v, index);
    var o, vals', deleted' := Ones(vals, index), Or(vals, One(index)), AndNot(deleted, One(index));
    var values' := values[..o] + [v] + values[o..];
    forall i | 0 <= i < 64
      ensures !(Has(vals', i) && Has(deleted', i))
      ensures cells[index := Full(v)][i] == CellAt(values', vals', deleted', i)
    {
      SetAt(values, vals, deleted, index, v, i);
    }
  }

  lemma EraseAt<T>(values: seq<T>, vals: bv64, deleted: bv64, index: nat, i: nat)
    requires |values| == Ones(vals, 64) && index < 64 && Has(vals, index) && i < 64
    requires !(Has(vals, i) && Has(deleted, i))
    ensures Ones(vals, index) < |values| && Ones(AndNot(vals, One(index)), 64) == |values| - 1
    ensures var o, vals', deleted' := Ones(vals, index), AndNot(vals, One(index)), Or(deleted, One(index));
            && !(Has(vals', i) && Has(deleted', i))
            && CellAt(values[..o] + values[o + 1..], vals', deleted', i)
            == if i == index then Deleted else CellAt(values, vals, deleted, i)
  {
    hide Has, One, Or, AndNot, Ones;
    OnesGrow(vals, index, 64);
    OnesChange(vals, index, 64);
    BitOps(vals, index, i);
    BitOps(deleted, index, i);
    OnesChange(vals, index, i);
    OnesGrow(vals, i, 64);
    if i < index { OnesGrow(vals, i, index); } else { OnesGrow(vals, index, i); }
  }

  /** Erasing the value of a bucket. */
  lemma PackedErase<T>(values: seq<T>, vals: bv64, deleted: bv64, cells: seq<Cell<T>>, index: nat)
    requires Packed(values, vals, deleted, cells) && index < 64 && Has(vals, index)
    ensures Ones(vals, index) < |values|
    ensures var o := Ones(vals, index);
            Packed(values[..o] + values[o + 1..], AndNot(vals, One(index)), Or(deleted, One(index)),
                cells[index := Deleted])
  {
    hide Has, One, Or, AndNot, Ones, CellAt;
    EraseAt(values, vals, deleted, index, index);
    var o, vals', deleted' := Ones(vals, index), AndNot(vals, One(index)), Or(deleted, One(index));
    var values' := values[..o] + values[o + 1..];
    forall i | 0 <= i < 64
      ensures !(Has(vals', i) && Has(deleted', i))
      ensures cells[index := Deleted][i] == CellAt(values', vals', deleted', i)
    {
      EraseAt(values, vals, deleted, index, i);
    }
  }

  /** The bucket of an offset is unique: the two translations are inverse. */
  lemma OffsetIndexInverse(vals: bv64, i: nat, j: nat)
    requires i < 64 && j < 64 && Has(vals, i) && Has(vals, j) && Ones(vals, i) == Ones(vals, j)
    ensures i == j
  {
    if i < j { OnesGrow(vals, i, j); }
    if j < i { OnesGrow(vals, j, i); }
  }

  /** Values appear in bucket order. */
  lemma PackedInOrder<T>(values: seq<T>, vals: bv64, deleted: bv64, cells: seq<Cell<T>>, i: nat, j: nat)
    requires Packed(values, vals, deleted, cells) && i < j < 64 && cells[i].Full? && cells[j].Full?
    ensures Ones(vals, i) < Ones(vals, j) < |values|
    ensures values[Ones(vals, i)] == cells[i].value && values[Ones(vals, j)] == cells[j].value
  {
    OnesGrow(vals, i, j);
    OnesGrow(vals, j, 64);
  }

  lemma ShiftedIn<T>(was: seq<T>, now: seq<T>, offset: nat, v: T)
    requires offset <= |was| && |now| == |was| + 1
    requires (forall j :: 0 <= j < offset ==> now[j] == was[j]) && now[offset] == v
    requires forall j :: offset <= j < |was| ==> now[j + 1] == was[j]
    ensures now == was[..offset] + [v] + was[offset..]
  {
  }

  /** Scans a bitmap for the one with the given number of ones below it. */
  method ScanBitmap(vals: bv64, offset: nat) returns (index: nat)
    requires offset < Ones(vals, 64)
    ensures index < 64 && Has(vals, index) && Ones(vals, index) == offset
  {
    hide Has, Ones, Odd, Down;
    var bits, nbOnes := vals, 0;
    index := 0;
    OnesNothing(vals);
    while bits != 0
      invariant index <= 64 && nbOnes == Ones(vals, index) <= offset
      invariant forall j :: index <= j < 64 ==> Has(vals, j) == Has(bits, j - index)
      decreases 64 - index
    {
      OddHas(bits);
      OnesNext(vals, index);
      if Odd(bits) {
        if nbOnes == offset {
          break;
        }
        nbOnes := nbOnes + 1;
      }
      forall j | index + 1 <= j < 64 ensures Has(vals, j) == Has(Down(bits), j - (index + 1)) {
        DownHas(bits, j - (index + 1));
      }
      index := index + 1;
      bits := Down(bits);
    }
    if bits == 0 {
      OddHas(0);
      OnesNone(vals, index, 64);
    }
  }

  // ----- the class ----------------------------------------------------------------------------

  class SparseArray<T(0)> {
    const movable: bool               // values can be moved without throwing
    var values: array<T>              // as long as the capacity
    var bitmapVals: bv64
    var bitmapDeletedVals: bv64
    var nbElements: nat
    ghost var cells: seq<Cell<T>>

    ghost predicate Valid()
      reads this, values
    {
      nbElements <= values.Length && Packed(values[..nbElements], bitmapVals, bitmapDeletedVals, cells)
    }

    constructor (movable: bool)
      ensures Valid() && fresh(values) && cells == seq(64, _ => Empty)
    {
      this.movable, values := movable, new T[0];
      bitmapVals, bitmapDeletedVals, nbElements := 0, 0, 0;
      cells := seq(64, _ => Empty);
      new;
      NoneHas();
    }

    predicate HasValue(index: nat)
      requires index < 64
      reads this
    {
      Has(bitmapVals, index)
    }

    predicate HasDeletedValue(index: nat)
      requires index < 64
      reads this
    {
      Has(bitmapDeletedVals, index)
    }

    /** The two bitmaps tell the three kinds of bucket apart. */
    lemma Kind(index: nat)
      requires Valid() && index < 64
      ensures HasValue(index) <==> cells[index].Full?
      ensures HasDeletedValue(index) <==> cells[index].Deleted?
    {
      hide Has, Ones;
      assert !(Has(bitmapVals, index) && Has(bitmapDeletedVals, index));
      assert cells[index] == CellAt(values[..nbElements], bitmapVals, bitmapDeletedVals, index);
    }

    /** The number of ones below the bit, by the bit trick. */
    function IndexToOffset(index: nat): (offset: nat)
      requires index < 64
      reads this
      ensures offset == Ones(bitmapVals, index)
    {
      OnesMasked(bitmapVals, index);
      PopcountIsOnes(And(bitmapVals, One(index) - 1));
      FallbackPopcountll(And(bitmapVals, One(index) - 1))
    }

    function Value(index: nat): (v: T)
      requires Valid() && index < 64 && HasValue(index)
      reads this, values
      ensures cells[index] == Full(v)
    {
      OnesGrow(bitmapVals, index, 64);
      values[IndexToOffset(index)]
    }

    /** The bucket of the value at an offset. */
    method OffsetToIndex(offset: nat) returns (index: nat)
      requires Valid() && offset < nbElements
      ensures index < 64 && HasValue(index) && IndexToOffset(index) == offset
    {
      index := ScanBitmap(bitmapVals, offset);
    }

    /** Makes room at the offset and stores the value, in place if there is capacity. */
    method InsertAtOffset(offset: nat, v: T)
      requires offset <= nbElements <= values.Length
      modifies this`values, values
      ensures nbElements < values.Length && (values == old(values) || fresh(values))
      ensures values[..nbElements + 1]
                == old(values[..nbElements])[..offset] + [v] + old(values[..nbElements])[offset..]
    {
      if movable && nbElements < values.Length {
        InsertAtOffsetNoRealloc(offset, v);
      } else if movable {
        InsertAtOffsetRealloc(offset, values.Length + CAPACITY_GROWTH_STEP, v);
      } else {
        InsertAtOffsetRealloc(offset, nbElements + 1, v);
      }
    }

    method InsertAtOffsetNoRealloc(offset: nat, v: T)
      requires offset <= nbElements < values.Length
      modifies values
      ensures values[..nbElements + 1]
                == old(values[..nbElements])[..offset] + [v] + old(values[..nbElements])[offset..]
    {
      ghost var was := values[..nbElements];
      var i := nbElements;
      while i > offset
        invariant offset <= i <= nbElements && forall j :: 0 <= j < i ==> values[j] == was[j]
        invariant forall j :: i <= j < nbElements ==> values[j + 1] == was[j]
      {
        values[i] := values[i - 1];
        i := i - 1;
      }
      values[offset] := v;
      ShiftedIn(was, values[..nbElements + 1], offset, v);
    }

    method InsertAtOffsetRealloc(offset: nat, newCapacity: nat, v: T)
      requires offset <= nbElements <= values.Length && nbElements < newCapacity
      modifies this`values
      ensures values.Length == newCapacity && fresh(values)
      ensures values[..nbElements + 1]
                == old(values[..nbElements])[..offset] + [v] + old(values[..nbElements])[offset..]
    {
      var old_, nb := values, nbElements;
      var newValues := new T[newCapacity];
      newValues[offset] := v;
      for i := 0 to offset
        modifies newValues
        invariant newValues[offset] == v && forall j :: 0 <= j < i ==> newValues[j] == old_[j]
      {
        newValues[i] := old_[i];
      }
      for i := offset to nb
        modifies newValues
        invariant newValues[offset] == v && forall j :: 0 <= j < offset ==> newValues[j] == old_[j]
        invariant forall j :: offset <= j < i ==> newValues[j + 1] == old_[j]
      {
        newValues[i + 1] := old_[i];
      }
      ShiftedIn(old_[..nb], newValues[..nb + 1], offset, v);
      values := newValues;
    }

    /** Closes the gap at the offset: in place, or by copying all other values. */
    method EraseAtOffset(offset: nat)
      requires offset < nbElements <= values.Length
      modifies this`values, values
      ensures nbElements - 1 <= values.Length && (values == old(values) || fresh(values))
      ensures values[..nbElements - 1] == old(values[..nbElements])[..offset] + old(values[..nbElements])[offset + 1..]
    {
      if movable {
        ShiftLeft(offset);
      } else if offset + 1 < nbElements {
        CopyWithout(offset);
      } else {
        assert values[..nbElements][offset + 1..] == [];
      }
    }

    method ShiftLeft(offset: nat)
      requires offset < nbElements <= values.Length
      modifies values
      ensures values[..nbElements - 1] == old(values[..nbElements])[..offset] + old(values[..nbElements])[offset + 1..]
    {
      ghost var was := values[..nbElements];
      for i := offset + 1 to nbElements
        invariant values[..offset] == was[..offset] && values[i..nbElements] == was[i..]
        invariant forall j :: offset + 1 <= j < i ==> values[j - 1] == was[j]
      {
        values[i - 1] := values[i];
      }
    }

    method CopyWithout(offset: nat)
      requires offset + 1 < nbElements <= values.Length
      modifies this`values
      ensures values.Length == nbElements - 1 && fresh(values)
      ensures values[..nbElements - 1] == old(values[..nbElements])[..offset] + old(values[..nbElements])[offset + 1..]
    {
      var old_, nb := values, nbElements;
      var newValues := new T[nb - 1];
      var n := 0;
      for i := 0 to nb
        modifies newValues
        invariant n == if i <= offset then i else i - 1
        invariant newValues[..n] == if i <= offset then old_[..i] else old_[..offset] + old_[offset + 1..i]
      {
        if i != offset {
          newValues[n] := old_[i];
          n := n + 1;
        }
      }
      values := newValues;
    }

    /** Stores a value in a bucket that holds none; every other bucket is unchanged. */
    method Set(index: nat, v: T)
      requires Valid() && index < 64 && !HasValue(index)
      modifies this, values
      ensures Valid() && (values == old(values) || fresh(values))
      ensures cells == old(cells)[index := Full(v)] && nbElements == old(nbElements) + 1
    {
      hide Has, Ones, One, Or, AndNot, And, FallbackPopcountll, CellAt;
      PackedSet(values[..nbElements], bitmapVals, bitmapDeletedVals, cells, index, v);
      var offset := IndexToOffset(index);
      InsertAtOffset(offset, v);
      bitmapVals := Or(bitmapVals, One(index));
      bitmapDeletedVals := AndNot(bitmapDeletedVals, One(index));
      nbElements := nbElements + 1;
      cells := cells[index := Full(v)];
    }

    /** Erases the value of a bucket, which is marked deleted; every other bucket is unchanged. */
    method Erase(index: nat)
      requires Valid() && index < 64 && HasValue(index)
      modifies this, values
      ensures Valid() && (values == old(values) || fresh(values))
      ensures cells == old(cells)[index := Deleted] && nbElements == old(nbElements) - 1
    {
      hide Has, Ones, One, Or, AndNot, And, FallbackPopcountll, CellAt;
      PackedErase(values[..nbElements], bitmapVals, bitmapDeletedVals, cells, index);
      var offset := IndexToOffset(index);
      EraseAtOffset(offset);
      ghost var now := values[..nbElements - 1];
      bitmapVals := AndNot(bitmapVals, One(index));
      bitmapDeletedVals := Or(bitmapDeletedVals, One(index));
      nbElements := nbElements - 1;
      cells := cells[index := Deleted];
      assert values[..nbElements] == now;
    }

    method Clear()
      modifies this
      ensures Valid() && fresh(values) && nbElements == 0 && cells == seq(64, _ => Empty)
    {
      values, bitmapVals, bitmapDeletedVals, nbElements := new T[0], 0, 0, 0;
      cells := seq(64, _ => Empty);
      NoneHas();
    }
  }

  lemma NoneHas()
    ensures Ones(0, 64) == 0 && forall i :: 0 <= i < 64 ==> !Has(0, i)
  {
    hide Has;
    OddHas(0);
    OnesNone(0, 0, 64);
  }

  lemma OnesNothing(x: bv64)
    ensures Ones(x, 0) == 0
  {
  }

  lemma OnesNext(x: bv64, i: nat)
    ensures i < 64 ==> Ones(x, i + 1) == Ones(x, i) + if Has(x, i) then 1 else 0
  {
  }
}
