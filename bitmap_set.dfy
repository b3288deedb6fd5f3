/** `BitmapSet<SIZE>`: a fixed-capacity set of small integers kept as a packed
    bitmap of `SIZE` bytes, with its in-place mutators, its clone-then-mutate
    functional variants, its predicates, bulk construction and its iterator.
    The const-generic `SIZE` becomes the constructor parameter `size`. */
module BitmapSets {
  import opened Bitmap

  datatype Option<T> = None | Some(value: T)

  class BitmapSet {
    const size: nat
    const data: array<bv8>

    /** `SIZE` is in the supported range and the buffer has exactly `SIZE` bytes. */
    ghost predicate Valid()
    {
      1 <= size <= MaxSize && data.Length == size
    }

    /** `MAXVAL`, the largest value the set can hold: `SIZE * 8 - 1`. It is the
        last bit of the last byte, and for `SIZE <= 32` it fits in a `u8`. */
    function MaxVal(): (m: u8)
      requires Valid()
      ensures Idx(m) == size - 1 && m % 8 == 7
    {
      size * 8 - 1
    }

    /** The values the set holds. */
    ghost function Repr(): set<nat>
      reads data
    {
      Elements(data[..])
    }

    /** `new()`: an empty set of `size` bytes. */
    constructor (size: nat)
      requires 1 <= size <= MaxSize
      ensures Valid() && this.size == size && fresh(data)
      ensures data[..] == Zeros(size) && Repr() == {}
    {
      this.size := size;
      data := new bv8[size](_ => 0);
      new;
      IsZeroIffEmpty(data[..]);
    }

    /** The derived `clone()`: a fresh set with the same bytes. */
    constructor Clone(src: BitmapSet)
      requires src.Valid()
      ensures Valid() && size == src.size && fresh(data)
      ensures data[..] == src.data[..] && Repr() == src.Repr()
    {
      size := src.size;
      var copy := new bv8[src.data.Length];
      forall i | 0 <= i < copy.Length {
        copy[i] := src.data[i];
      }
      data := copy;
    }

    /** `contains(v)`: whether `v` is a member. */
    function Contains(v: u8): (b: bool)
      requires Valid() && v <= MaxVal()
      reads data
      ensures b <==> v in Repr()
    {
      data[Idx(v)] & Mask(v) != 0
    }

    /** `insert(v)`: sets the bit of `v`. */
    method Insert(v: u8)
      requires Valid() && v <= MaxVal()
      modifies data
      ensures data[..] == WithBit(old(data[..]), v)
      ensures Repr() == old(Repr()) + {v}
    {
      data[Idx(v)] := data[Idx(v)] | Mask(v);
      assert data[..] == WithBit(old(data[..]), v);
      WithBitElements(old(data[..]), v);
    }

    /** `remove(v)`: clears the bit of `v`. */
    method Remove(v: u8)
      requires Valid() && v <= MaxVal()
      modifies data
      ensures data[..] == WithoutBit(old(data[..]), v)
      ensures Repr() == old(Repr()) - {v}
    {
      data[Idx(v)] := data[Idx(v)] & !Mask(v);
      assert data[..] == WithoutBit(old(data[..]), v);
      WithoutBitElements(old(data[..]), v);
    }

    /** `clear()`: every byte becomes zero. */
    method Clear()
      requires Valid()
      modifies data
      ensures data[..] == Zeros(size) && Repr() == {}
    {
      forall i | 0 <= i < data.Length {
        data[i] := 0;
      }
      assert data[..] == Zeros(size);
      IsZeroIffEmpty(data[..]);
    }

    /** `intersect(other)`: `data[i] &= other.data[i]` for every byte. */
    method Intersect(other: BitmapSet)
      requires Valid() && other.Valid() && other.size == size && other.data != data
      modifies data
      ensures data[..] == And(old(data[..]), other.data[..])
      ensures Repr() == old(Repr()) * other.Repr()
    {
      var i := 0;
      while i < data.Length
        invariant 0 <= i <= data.Length
        invariant forall j :: 0 <= j < i ==> data[j] == old(data[j]) & other.data[j]
        invariant forall j :: i <= j < data.Length ==> data[j] == old(data[j])
      {
        data[i] := data[i] & other.data[i];
        i := i + 1;
      }
      assert data[..] == And(old(data[..]), other.data[..]);
      AndElements(old(data[..]), other.data[..]);
    }

    /** `unite(other)`: `data[i] |= other.data[i]` for every byte. */
    method Unite(other: BitmapSet)
      requires Valid() && other.Valid() && other.size == size && other.data != data
      modifies data
      ensures data[..] == Or(old(data[..]), other.data[..])
      ensures Repr() == old(Repr()) + other.Repr()
    {
      var i := 0;
      while i < data.Length
        invariant 0 <= i <= data.Length
        invariant forall j :: 0 <= j < i ==> data[j] == old(data[j]) | other.data[j]
        invariant forall j :: i <= j < data.Length ==> data[j] == old(data[j])
      {
        data[i] := data[i] | other.data[i];
        i := i + 1;
      }
      assert data[..] == Or(old(data[..]), other.data[..]);
      OrElements(old(data[..]), other.data[..]);
    }

    /** `subtract(other)`: `data[i] &= !other.data[i]` for every byte. */
    method Subtract(other: BitmapSet)
      requires Valid() && other.Valid() && other.size == size && other.data != data
      modifies data
      ensures data[..] == AndNot(old(data[..]), other.data[..])
      ensures Repr() == old(Repr()) - other.Repr()
    {
      var i := 0;
      while i < data.Length
        invariant 0 <= i <= data.Length
        invariant forall j :: 0 <= j < i ==> data[j] == old(data[j]) & !other.data[j]
        invariant forall j :: i <= j < data.Length ==> data[j] == old(data[j])
      {
        data[i] := data[i] & !other.data[i];
        i := i + 1;
      }
      assert data[..] == AndNot(old(data[..]), other.data[..]);
      AndNotElements(old(data[..]), other.data[..]);
    }

    /** `invert()`: every byte is negated, so every candidate value flips membership. */
    method Invert()
      requires Valid()
      modifies data
      ensures data[..] == Not(old(data[..]))
      ensures Repr() == Universe(size) - old(Repr())
    {
      var i := 0;
      while i < data.Length
        invariant 0 <= i <= data.Length
        invariant forall j :: 0 <= j < i ==> data[j] == !old(data[j])
        invariant forall j :: i <= j < data.Length ==> data[j] == old(data[j])
      {
        data[i] := !data[i];
        i := i + 1;
      }
      assert data[..] == Not(old(data[..]));
      NotElements(old(data[..]));
    }

    /** `intersection(other)`: a clone of the receiver, intersected with `other`. */
    method Intersection(other: BitmapSet) returns (r: BitmapSet)
      requires Valid() && other.Valid() && other.size == size
      ensures fresh(r) && fresh(r.data) && r.Valid() && r.size == size
      ensures r.data[..] == And(data[..], other.data[..])
      ensures r.Repr() == Repr() * other.Repr()
    {
      r := new BitmapSet.Clone(this);
      r.Intersect(other);
    }

    /** `union(other)`: a clone of the receiver, united with `other`. */
    method Union(other: BitmapSet) returns (r: BitmapSet)
      requires Valid() && other.Valid() && other.size == size
      ensures fresh(r) && fresh(r.data) && r.Valid() && r.size == size
      ensures r.data[..] == Or(data[..], other.data[..])
      ensures r.Repr() == Repr() + other.Repr()
    {
      r := new BitmapSet.Clone(this);
      r.Unite(other);
    }

    /** `difference(other)`: a clone of the receiver, minus `other`. */
    method Difference(other: BitmapSet) returns (r: BitmapSet)
      requires Valid() && other.Valid() && other.size == size
      ensures fresh(r) && fresh(r.data) && r.Valid() && r.size == size
      ensures r.data[..] == AndNot(data[..], other.data[..])
      ensures r.Repr() == Repr() - other.Repr()
    {
      r := new BitmapSet.Clone(this);
      r.Subtract(other);
    }

    /** `complement()`: a clone of the receiver, inverted. */
    method Complement() returns (r: BitmapSet)
      requires Valid()
      ensures fresh(r) && fresh(r.data) && r.Valid() && r.size == size
      ensures r.data[..] == Not(data[..])
      ensures r.Repr() == Universe(size) - Repr()
    {
      r := new BitmapSet.Clone(this);
      r.Invert();
    }

    /** `is_empty()`: every byte is zero, i.e. the set holds no value. */
    function IsEmpty(): (b: bool)
      requires Valid()
      reads data
      ensures b <==> Repr() == {}
    {
      IsZeroIffEmpty(data[..]);
      IsZero(data[..])
    }

    /** `is_disjoint(other)`: the intersection is empty. */
    function IsDisjoint(other: BitmapSet): (b: bool)
      requires Valid() && other.Valid() && other.size == size
      reads data, other.data
      ensures b <==> Repr() * other.Repr() == {}
    {
      DisjointIff(data[..], other.data[..]);
      IsZero(And(data[..], other.data[..]))
    }

    /** `is_subset(other)`: the intersection with `other` equals the receiver. */
    function IsSubset(other: BitmapSet): (b: bool)
      requires Valid() && other.Valid() && other.size == size
      reads data, other.data
      ensures b <==> Repr() <= other.Repr()
    {
      SubsetIff(data[..], other.data[..]);
      And(data[..], other.data[..]) == data[..]
    }

    /** `is_superset(other)`: `other` is a subset of the receiver. */
    function IsSuperset(other: BitmapSet): (b: bool)
      requires Valid() && other.Valid() && other.size == size
      reads data, other.data
      ensures b <==> other.Repr() <= Repr()
    {
      other.IsSubset(this)
    }

    /** The derived `PartialEq`: bytewise equality, which is equality of the held values. */
    function Equals(other: BitmapSet): (b: bool)
      requires Valid() && other.Valid() && other.size == size
      reads data, other.data
      ensures b <==> Repr() == other.Repr()
    {
      Extensionality(data[..], other.data[..]);
      data[..] == other.data[..]
    }

    /** `iter()`: an iterator whose cursor starts at value 0. */
    method Iter() returns (it: Iter)
      requires Valid()
      ensures fresh(it) && it.Valid() && it.bitmap == this
      ensures it.value == Some(0) && it.Remaining() == Repr()
    {
      it := new Iter(this);
    }

    /** The `Debug` rendering lists, in order, what the iterator yields:
        every member exactly once, in strictly ascending order. */
    method DebugMembers() returns (xs: seq<u8>)
      requires Valid()
      ensures forall i, j :: 0 <= i < j < |xs| ==> xs[i] < xs[j]
      ensures forall v: nat :: v in Repr() <==> v in xs
    {
      var it := new Iter(this);
      xs := [];
      while true
        invariant it.Valid() && it.bitmap == this && fresh(it)
        invariant forall i, j :: 0 <= i < j < |xs| ==> xs[i] < xs[j]
        invariant forall v: nat :: v in Repr() <==> v in xs || v in it.Remaining()
        invariant forall i, v :: 0 <= i < |xs| && v in it.Remaining() ==> xs[i] < v
        decreases it.Pending()
      {
        var r := it.Next();
        if r.None? {
          break;
        }
        xs := xs + [r.value];
      }
    }

    /** `From<&[u8]>` and `FromIterator`: `new()`, then `insert` of each item in turn. */
    static method FromSeq(size: nat, items: seq<u8>) returns (s: BitmapSet)
      requires 1 <= size <= MaxSize
      requires forall i :: 0 <= i < |items| ==> items[i] < 8 * size
      ensures fresh(s) && fresh(s.data) && s.Valid() && s.size == size
      ensures s.data[..] == InsertAll(Zeros(size), items)
      ensures s.Repr() == ValuesOf(items)
    {
      s := new BitmapSet(size);
      var i := 0;
      while i < |items|
        invariant 0 <= i <= |items|
        invariant s.Valid() && s.size == size && fresh(s) && fresh(s.data)
        invariant s.data[..] == InsertAll(Zeros(size), items[..i])
      {
        assert items[..i + 1][..i] == items[..i];
        s.Insert(items[i]);
        i := i + 1;
      }
      assert items[..i] == items;
      IsZeroIffEmpty(Zeros(size));
      InsertAllElements(Zeros(size), items);
    }
  }

  /** `Iter`: a read-only cursor over a set. The cursor holds the next candidate
      value to examine, or `None` once every candidate has been examined. */
  class Iter {
    const bitmap: BitmapSet
    var value: Option<u8>

    ghost predicate Valid()
      reads this
    {
      bitmap.Valid() && (value.Some? ==> value.value <= bitmap.MaxVal())
    }

    /** The members not yet examined, i.e. the ones the iterator has still to yield. */
    ghost function Remaining(): set<nat>
      requires Valid()
      reads this, bitmap.data
    {
      if value.None? then {} else set v | v in bitmap.Repr() && value.value <= v
    }

    /** How many candidate values are still to be examined. */
    ghost function Pending(): nat
      requires Valid()
      reads this
    {
      if value.None? then 0 else 8 * bitmap.size - value.value
    }

    constructor (s: BitmapSet)
      requires s.Valid()
      ensures Valid() && bitmap == s && value == Some(0) && Remaining() == s.Repr()
    {
      bitmap := s;
      value := Some(0);
    }

    /** `advance()`: step the cursor to the next candidate, or to `None` past `MAXVAL`. */
    method Advance()
      requires Valid()
      modifies this`value
      ensures Valid()
      ensures old(value).None? ==> value.None?
      ensures old(value).Some? ==>
        value == if old(value).value < bitmap.MaxVal() then Some(old(value).value + 1) else None
    {
      match value
      case None =>
      case Some(v) =>
        value := if v < bitmap.MaxVal() then Some(v + 1) else None;
    }

    /** `next()`: the smallest member not yet yielded, or `None` when there is none. */
    method Next() returns (r: Option<u8>)
      requires Valid()
      modifies this`value
      ensures Valid()
      ensures r.None? <==> old(Remaining()) == {}
      ensures r.None? ==> value.None?
      ensures r.Some? ==> r.value in old(Remaining())
      ensures r.Some? ==> forall v :: v in old(Remaining()) ==> r.value <= v
      ensures r.Some? ==> Remaining() == old(Remaining()) - {r.value}
      ensures r.Some? ==> Pending() < old(Pending())
    {
      while value.Some?
        invariant Valid()
        invariant Remaining() == old(Remaining())
        invariant Pending() <= old(Pending())
        decreases Pending()
      {
        var v := value.value;
        Advance();
        if bitmap.Contains(v) {
          r := Some(v);
          assert v in old(Remaining());
          return;
        }
      }
      r := None;
    }
  }
}
