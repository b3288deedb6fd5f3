/** The meaning of a packed bitmap: a sequence of bytes in which bit `v % 8`
    of byte `v / 8` says whether the value `v` is a member. Everything here
    is a value-level description of the bytes that class BitmapSet (module
    BitmapSets) keeps in an array, together with the set algebra that each
    of its operations performs on them. */
module Bitmap {

  /** Rust's `u8`, the element type of the set. */
  type u8 = x: int | 0 <= x < 256

  /** Largest number of bytes a set may hold (32 bytes = 256 values). */
  const MaxSize: nat := 32

  /** The byte with only bit `k` set (bit 0 is the least significant one). */
  function SingleBit(k: nat): (m: bv8)
    requires k < 8
  {
    if k == 0 then 1 else if k == 1 then 2 else if k == 2 then 4 else if k == 3 then 8
    else if k == 4 then 16 else if k == 5 then 32 else if k == 6 then 64 else 128
  }

  /** Bit `k` of byte `b` is set. */
  predicate Bit(b: bv8, k: nat)
    requires k < 8
  {
    b & SingleBit(k) != 0
  }

  lemma ShiftIsSingleBit(k: nat)
    requires k < 8
    ensures (1 as bv8) << k == SingleBit(k)
  {
    if k == 0 {} else if k == 1 {} else if k == 2 {} else if k == 3 {}
    else if k == 4 {} else if k == 5 {} else if k == 6 {} else {}
  }

  /** Index of the byte that stores value `v`. */
  function Idx(v: nat): (i: nat)
    ensures 8 * i <= v < 8 * i + 8
  {
    v / 8
  }

  /** The mask that selects value `v` inside its byte: `1 << (v % 8)`. */
  function Mask(v: nat): (m: bv8)
    ensures m == SingleBit(v % 8)
  {
    ShiftIsSingleBit(v % 8);
    (1 as bv8) << (v % 8)
  }

  /** The single-bit byte for `j` has bit `k` set exactly when `k == j`. */
  lemma SingleBitBit(j: nat, k: nat)
    requires j < 8 && k < 8
    ensures Bit(SingleBit(j), k) <==> j == k
  {
    if j == 0 {} else if j == 1 {} else if j == 2 {} else if j == 3 {}
    else if j == 4 {} else if j == 5 {} else if j == 6 {} else {}
  }

  /** Values `v` and `w` live in the same byte under the same mask only if they are equal. */
  lemma SlotDeterminesValue(v: nat, w: nat)
    requires Idx(v) == Idx(w) && v % 8 == w % 8
    ensures v == w
  {
  }

  /** Value `8 * i + k` lives in byte `i` under bit `k`. */
  lemma SlotOfValue(i: nat, k: nat)
    requires k < 8
    ensures Idx(8 * i + k) == i && (8 * i + k) % 8 == k
  {
  }

  // ---------------------------------------------------------------------------
  // Bytewise operations, one bit at a time

  lemma MaskedOps(x: bv8, y: bv8, m: bv8)
    requires m == 1 || m == 2 || m == 4 || m == 8 || m == 16 || m == 32 || m == 64 || m == 128
    ensures ((x & y) & m != 0) == ((x & m != 0) && (y & m != 0))
    ensures ((x | y) & m != 0) == ((x & m != 0) || (y & m != 0))
    ensures ((x & !y) & m != 0) == ((x & m != 0) && (y & m == 0))
    ensures ((!x) & m != 0) == (x & m == 0)
  {
  }

  /** AND, OR, AND-NOT and NOT act on each bit of a byte independently. */
  lemma BitOps(x: bv8, y: bv8, k: nat)
    requires k < 8
    ensures Bit(x & y, k) == (Bit(x, k) && Bit(y, k))
    ensures Bit(x | y, k) == (Bit(x, k) || Bit(y, k))
    ensures Bit(x & !y, k) == (Bit(x, k) && !Bit(y, k))
    ensures Bit(!x, k) == !Bit(x, k)
  {
    MaskedOps(x, y, SingleBit(k));
  }

  /** A byte is determined by its eight bits. */
  lemma ByteExtensionality(x: bv8, y: bv8)
    requires forall k :: 0 <= k < 8 ==> Bit(x, k) == Bit(y, k)
    ensures x == y
  {
    assert Bit(x, 0) == Bit(y, 0) && Bit(x, 1) == Bit(y, 1) && Bit(x, 2) == Bit(y, 2) && Bit(x, 3) == Bit(y, 3);
    assert Bit(x, 4) == Bit(y, 4) && Bit(x, 5) == Bit(y, 5) && Bit(x, 6) == Bit(y, 6) && Bit(x, 7) == Bit(y, 7);
  }

  // ---------------------------------------------------------------------------
  // The abstraction: which values a sequence of bytes holds

  /** Value `v` is a member of the bitmap `data`: it is in range and its bit is set. */
  predicate Has(data: seq<bv8>, v: nat)
  {
    v < 8 * |data| && Bit(data[Idx(v)], v % 8)
  }

  /** Every candidate value of a bitmap of `n` bytes. */
  ghost function Universe(n: nat): set<nat>
  {
    Below(8 * n)
  }

  /** The values `0 .. m - 1`. */
  ghost function Below(m: nat): set<nat>
  {
    set v: nat | v < m && InRange(v, m)
  }

  // `InRange` repeats `v < m` only to give the comprehension in `Below` a term
  // to trigger on; `set v: nat | v < m` alone draws a missing-trigger warning.
  predicate InRange(v: nat, m: nat)
  {
    v < m
  }

  /** The set of values a bitmap holds. */
  ghost function Elements(data: seq<bv8>): set<nat>
  {
    set v: nat | v < 8 * |data| && Has(data, v)
  }

  lemma HasBit(data: seq<bv8>, i: nat, k: nat)
    requires i < |data| && k < 8
    ensures Has(data, 8 * i + k) == Bit(data[i], k)
    ensures (8 * i + k in Elements(data)) == Bit(data[i], k)
  {
    SlotOfValue(i, k);
  }

  /** Two bitmaps of the same length are equal exactly when they hold the same values. */
  lemma {:induction false} Extensionality(a: seq<bv8>, b: seq<bv8>)
    requires |a| == |b|
    ensures a == b <==> Elements(a) == Elements(b)
  {
    if Elements(a) == Elements(b) {
      forall i | 0 <= i < |a|
        ensures a[i] == b[i]
      {
        forall k | 0 <= k < 8
          ensures Bit(a[i], k) == Bit(b[i], k)
        {
          HasBit(a, i, k);
          HasBit(b, i, k);
        }
        ByteExtensionality(a[i], b[i]);
      }
    }
  }

  // ---------------------------------------------------------------------------
  // All-zero bitmaps

  /** `n` zero bytes. */
  function Zeros(n: nat): seq<bv8>
  {
    seq(n, _ => 0)
  }

  /** Every byte is zero, i.e. `data == [0; SIZE]`. */
  predicate IsZero(data: seq<bv8>)
  {
    data == Zeros(|data|)
  }

  /** A bitmap is all zeros exactly when it holds no value. */
  lemma {:induction false} IsZeroIffEmpty(data: seq<bv8>)
    ensures IsZero(data) <==> Elements(data) == {}
  {
    var z := Zeros(|data|);
    assert Elements(z) == {} by {
      forall v: nat | v < 8 * |z|
        ensures !Has(z, v)
      {
        assert z[Idx(v)] == 0;
      }
    }
    Extensionality(data, z);
  }

  // ---------------------------------------------------------------------------
  // Setting and clearing one value's bit

  /** `data` with the bit of `v` set: `data[v / 8] |= 1 << (v % 8)`. */
  function WithBit(data: seq<bv8>, v: nat): (r: seq<bv8>)
    requires v < 8 * |data|
    ensures |r| == |data|
  {
    data[Idx(v) := data[Idx(v)] | Mask(v)]
  }

  /** `data` with the bit of `v` cleared: `data[v / 8] &= !(1 << (v % 8))`. */
  function WithoutBit(data: seq<bv8>, v: nat): (r: seq<bv8>)
    requires v < 8 * |data|
    ensures |r| == |data|
  {
    data[Idx(v) := data[Idx(v)] & !Mask(v)]
  }

  /** Setting the bit of `v` adds `v` and changes no other value's membership. */
  lemma {:induction false} WithBitElements(data: seq<bv8>, v: nat)
    requires v < 8 * |data|
    ensures Elements(WithBit(data, v)) == Elements(data) + {v}
  {
    var r := WithBit(data, v);
    forall w: nat | w < 8 * |data|
      ensures Has(r, w) == (Has(data, w) || w == v)
    {
      if Idx(w) == Idx(v) {
        BitOps(data[Idx(w)], Mask(v), w % 8);
        SingleBitBit(v % 8, w % 8);
        if w % 8 == v % 8 {
          SlotDeterminesValue(v, w);
        }
      }
    }
  }

  /** Clearing the bit of `v` removes `v` and changes no other value's membership. */
  lemma {:induction false} WithoutBitElements(data: seq<bv8>, v: nat)
    requires v < 8 * |data|
    ensures Elements(WithoutBit(data, v)) == Elements(data) - {v}
  {
    var r := WithoutBit(data, v);
    forall w: nat | w < 8 * |data|
      ensures Has(r, w) == (Has(data, w) && w != v)
    {
      if Idx(w) == Idx(v) {
        BitOps(data[Idx(w)], Mask(v), w % 8);
        SingleBitBit(v % 8, w % 8);
        if w % 8 == v % 8 {
          SlotDeterminesValue(v, w);
        }
      }
    }
  }

  /** Inserting twice leaves the same bytes as inserting once. */
  lemma WithBitIdempotent(data: seq<bv8>, v: nat)
    requires v < 8 * |data|
    ensures WithBit(WithBit(data, v), v) == WithBit(data, v)
  {
    WithBitElements(data, v);
    WithBitElements(WithBit(data, v), v);
    Extensionality(WithBit(WithBit(data, v), v), WithBit(data, v));
  }

  /** Removing twice leaves the same bytes as removing once. */
  lemma WithoutBitIdempotent(data: seq<bv8>, v: nat)
    requires v < 8 * |data|
    ensures WithoutBit(WithoutBit(data, v), v) == WithoutBit(data, v)
  {
    WithoutBitElements(data, v);
    WithoutBitElements(WithoutBit(data, v), v);
    Extensionality(WithoutBit(WithoutBit(data, v), v), WithoutBit(data, v));
  }

  /** Removing a value that is not a member leaves the bytes as they were. */
  lemma WithoutBitNonMember(data: seq<bv8>, v: nat)
    requires v < 8 * |data| && !Has(data, v)
    ensures WithoutBit(data, v) == data
  {
    WithoutBitElements(data, v);
    Extensionality(WithoutBit(data, v), data);
  }

  /** On an empty bitmap, inserting and then removing `v` gives back the empty bitmap. */
  lemma InsertThenRemoveOnEmpty(n: nat, v: nat)
    requires v < 8 * n
    ensures WithoutBit(WithBit(Zeros(n), v), v) == Zeros(n)
  {
    var z := Zeros(n);
    IsZeroIffEmpty(z);
    WithBitElements(z, v);
    WithoutBitElements(WithBit(z, v), v);
    Extensionality(WithoutBit(WithBit(z, v), v), z);
  }

  // ---------------------------------------------------------------------------
  // Bytewise set algebra

  /** Bytewise AND, as `intersect` computes it. */
  function And(a: seq<bv8>, b: seq<bv8>): seq<bv8>
    requires |a| == |b|
  {
    seq(|a|, i requires 0 <= i < |a| => a[i] & b[i])
  }

  /** Bytewise OR, as `unite` computes it. */
  function Or(a: seq<bv8>, b: seq<bv8>): seq<bv8>
    requires |a| == |b|
  {
    seq(|a|, i requires 0 <= i < |a| => a[i] | b[i])
  }

  /** Bytewise AND-NOT, as `subtract` computes it. */
  function AndNot(a: seq<bv8>, b: seq<bv8>): seq<bv8>
    requires |a| == |b|
  {
    seq(|a|, i requires 0 <= i < |a| => a[i] & !b[i])
  }

  /** Bytewise NOT, as `invert` computes it. */
  function Not(a: seq<bv8>): seq<bv8>
  {
    seq(|a|, i requires 0 <= i < |a| => !a[i])
  }

  lemma {:induction false} AndElements(a: seq<bv8>, b: seq<bv8>)
    requires |a| == |b|
    ensures Elements(And(a, b)) == Elements(a) * Elements(b)
  {
    forall v: nat | v < 8 * |a|
      ensures Has(And(a, b), v) == (Has(a, v) && Has(b, v))
    {
      BitOps(a[Idx(v)], b[Idx(v)], v % 8);
    }
  }

  lemma {:induction false} OrElements(a: seq<bv8>, b: seq<bv8>)
    requires |a| == |b|
    ensures Elements(Or(a, b)) == Elements(a) + Elements(b)
  {
    forall v: nat | v < 8 * |a|
      ensures Has(Or(a, b), v) == (Has(a, v) || Has(b, v))
    {
      BitOps(a[Idx(v)], b[Idx(v)], v % 8);
    }
  }

  lemma {:induction false} AndNotElements(a: seq<bv8>, b: seq<bv8>)
    requires |a| == |b|
    ensures Elements(AndNot(a, b)) == Elements(a) - Elements(b)
  {
    forall v: nat | v < 8 * |a|
      ensures Has(AndNot(a, b), v) == (Has(a, v) && !Has(b, v))
    {
      BitOps(a[Idx(v)], b[Idx(v)], v % 8);
    }
  }

  /** Inverting flips the membership of every candidate value, and only those. */
  lemma {:induction false} NotElements(a: seq<bv8>)
    ensures Elements(Not(a)) == Universe(|a|) - Elements(a)
  {
    forall v: nat | v < 8 * |a|
      ensures Has(Not(a), v) == !Has(a, v)
    {
      BitOps(a[Idx(v)], a[Idx(v)], v % 8);
    }
  }

  /** Complementing twice gives back the original bitmap. */
  lemma NotInvolutive(a: seq<bv8>)
    ensures Not(Not(a)) == a
  {
    NotElements(a);
    NotElements(Not(a));
    Extensionality(Not(Not(a)), a);
  }

  /** De Morgan: the complement of a union is the intersection of the complements. */
  lemma DeMorgan(a: seq<bv8>, b: seq<bv8>)
    requires |a| == |b|
    ensures Not(Or(a, b)) == And(Not(a), Not(b))
  {
    OrElements(a, b);
    NotElements(Or(a, b));
    NotElements(a);
    NotElements(b);
    AndElements(Not(a), Not(b));
    Extensionality(Not(Or(a, b)), And(Not(a), Not(b)));
  }

  lemma {:induction false} BelowSize(m: nat)
    ensures |Below(m)| == m
  {
    if m > 0 {
      BelowSize(m - 1);
      assert Below(m) == Below(m - 1) + {m - 1};
    }
  }

  /** The complement of the empty bitmap of `n` bytes holds all `8 * n` candidate values. */
  lemma ComplementOfEmpty(n: nat)
    ensures Elements(Not(Zeros(n))) == Universe(n)
    ensures |Elements(Not(Zeros(n)))| == 8 * n
  {
    IsZeroIffEmpty(Zeros(n));
    NotElements(Zeros(n));
    BelowSize(8 * n);
  }

  // ---------------------------------------------------------------------------
  // Predicates built on the intersection

  /** `is_subset` compares the intersection with the receiver; that is set inclusion. */
  lemma SubsetIff(a: seq<bv8>, b: seq<bv8>)
    requires |a| == |b|
    ensures And(a, b) == a <==> Elements(a) <= Elements(b)
  {
    AndElements(a, b);
    Extensionality(And(a, b), a);
  }

  /** `is_disjoint` tests the intersection for emptiness; that is an empty set intersection. */
  lemma DisjointIff(a: seq<bv8>, b: seq<bv8>)
    requires |a| == |b|
    ensures IsZero(And(a, b)) <==> Elements(a) * Elements(b) == {}
  {
    AndElements(a, b);
    IsZeroIffEmpty(And(a, b));
  }

  /** Mutual inclusion, as `is_subset` tests it, forces bytewise equality. */
  lemma SubsetAntisymmetric(a: seq<bv8>, b: seq<bv8>)
    requires |a| == |b| && And(a, b) == a && And(b, a) == b
    ensures a == b
  {
    SubsetIff(a, b);
    SubsetIff(b, a);
    Extensionality(a, b);
  }

  // ---------------------------------------------------------------------------
  // Bulk construction

  /** The values that occur in `xs`. */
  ghost function ValuesOf(xs: seq<nat>): set<nat>
  {
    set x | x in xs
  }

  /** Insert every value of `xs` into `data`, in order. */
  function InsertAll(data: seq<bv8>, xs: seq<nat>): (r: seq<bv8>)
    requires forall i :: 0 <= i < |xs| ==> xs[i] < 8 * |data|
    ensures |r| == |data|
  {
    if xs == [] then data else WithBit(InsertAll(data, xs[..|xs| - 1]), xs[|xs| - 1])
  }

  /** Inserting a sequence adds exactly its values. */
  lemma {:induction false} InsertAllElements(data: seq<bv8>, xs: seq<nat>)
    requires forall i :: 0 <= i < |xs| ==> xs[i] < 8 * |data|
    ensures Elements(InsertAll(data, xs)) == Elements(data) + ValuesOf(xs)
  {
    if xs != [] {
      var init := xs[..|xs| - 1];
      InsertAllElements(data, init);
      WithBitElements(InsertAll(data, init), xs[|xs| - 1]);
      assert xs == init + [xs[|xs| - 1]];
      assert ValuesOf(xs) == ValuesOf(init) + {xs[|xs| - 1]};
    }
  }

  /** Building from two sequences with the same values, in any order and with
      any duplicates, gives the same bytes. */
  lemma InsertAllOrderIndependent(n: nat, xs: seq<nat>, ys: seq<nat>)
    requires forall i :: 0 <= i < |xs| ==> xs[i] < 8 * n
    requires forall i :: 0 <= i < |ys| ==> ys[i] < 8 * n
    requires ValuesOf(xs) == ValuesOf(ys)
    ensures InsertAll(Zeros(n), xs) == InsertAll(Zeros(n), ys)
  {
    var z := Zeros(n);
    IsZeroIffEmpty(z);
    assert Elements(z) == {};
    InsertAllElements(z, xs);
    InsertAllElements(z, ys);
    assert Elements(InsertAll(z, xs)) == Elements(InsertAll(z, ys));
    Extensionality(InsertAll(z, xs), InsertAll(z, ys));
  }
}
