# bmset in Dafny

A model of `BitmapSet<SIZE>` from the `bmset` crate: a fixed-capacity set of
the integers `0 ..= MAXVAL` (`MAXVAL = SIZE * 8 - 1`, `1 <= SIZE <= 32`) kept
as a packed bitmap of `SIZE` bytes. Value `v` lives in byte `v / 8` under the
mask `1 << (v % 8)`.

- `bitmap.dfy`, module `Bitmap`: what a sequence of bytes means. `Elements(data)`
  is the set of values whose bit is set; `WithBit`, `WithoutBit`, `And`, `Or`,
  `AndNot`, `Not`, `Zeros` and `InsertAll` are the byte-level effects of the
  crate's operations. The lemmas state each effect on `Elements`, plus
  extensionality (equal bytes iff equal members), idempotence, involution,
  De Morgan, the subset and disjointness characterisations and the
  order-independence of bulk construction.
- `bitmap_set.dfy`, module `BitmapSets`: class `BitmapSet` holds the bytes in an
  `array<bv8>` whose `SIZE` is a constructor parameter. The mutators update the
  array in place. `intersect`, `unite`, `subtract` and `invert` are byte loops
  with invariants. Each mutator is specified by the function from `Bitmap`
  that it computes and by its effect on the ghost view `Repr()`. The
  functional variants clone and then call the mutator. The predicates are
  functions over the bytes whose contracts give their set meaning. Class
  `Iter` is the iterator: a cursor `Option<u8>` over a set that it only reads.
- `scenarios.dfy`, module `Scenarios`: client methods in the shape of
  tests/test.rs. Each one derives the tested outcome from the contracts above:
  membership after a build, `remove`, intersection, union, difference,
  subset, superset, disjointness and the iteration order.

Rust's panics become `requires` clauses: `value <= MAXVAL` for
`contains`/`insert`/`remove` and for every item of a bulk construction, and
`SIZE <= 32` for `new`. The model also requires `SIZE >= 1`. In Rust
`MAXVAL` is evaluated only where code uses it. So a `BitmapSet<0>` can be
created, cleared, cloned, compared and combined with the set operations.
Only the code that reaches `MAXVAL` fails to compile for `SIZE = 0`:
`contains`, `insert`, `remove`, `From`/`FromIterator` and `Iter::next`. The binary in-place operations require that `other` is a
different buffer, which Rust's borrow rules (`&mut self` beside `&Self`)
guarantee.

## Model

| member | source | states |
|---|---|---|
| `Bitmap.Idx` | src/lib.rs:111-113 | the byte index `i` of `v` satisfies `8*i <= v < 8*i + 8` |
| `Bitmap.Mask` | src/lib.rs:115-117 | `1 << (v % 8)` is the byte with only bit `v % 8` set |
| `Bitmap.Extensionality` | src/lib.rs:3 | two byte sequences of equal length are equal iff they hold the same values (derived `PartialEq` is set equality) |
| `Bitmap.IsZeroIffEmpty` | src/lib.rs:83-85 | the bytes equal `[0; SIZE]` iff no value is a member |
| `Bitmap.WithBitElements` | src/lib.rs:21-24 | setting the bit of `v` adds `v` and leaves every other value's membership unchanged |
| `Bitmap.WithBitIdempotent` | src/lib.rs:21-24 | inserting twice leaves the same bytes as inserting once |
| `Bitmap.WithoutBitElements` | src/lib.rs:26-29 | clearing the bit of `v` removes `v` and leaves every other value's membership unchanged |
| `Bitmap.WithoutBitIdempotent` | src/lib.rs:26-29 | removing twice leaves the same bytes as removing once |
| `Bitmap.WithoutBitNonMember` | src/lib.rs:26-29 | removing a non-member leaves the bytes unchanged |
| `Bitmap.InsertThenRemoveOnEmpty` | src/lib.rs:21-29 | on an empty set, insert then remove of `v` gives back the empty bytes |
| `Bitmap.AndElements` | src/lib.rs:59-63 | bytewise AND holds exactly the intersection of the members |
| `Bitmap.OrElements` | src/lib.rs:65-69 | bytewise OR holds exactly the union of the members |
| `Bitmap.AndNotElements` | src/lib.rs:71-75 | bytewise AND-NOT holds exactly the difference of the members |
| `Bitmap.NotElements` | src/lib.rs:77-81 | bytewise NOT flips the membership of every value in `[0, 8*SIZE)` |
| `Bitmap.NotInvolutive` | src/lib.rs:53-57 | complementing twice gives back the original bytes |
| `Bitmap.ComplementOfEmpty` | src/lib.rs:53-57 | the complement of the empty set holds all `8*SIZE` values (256 for `SIZE = 32`) |
| `Bitmap.DeMorgan` | src/lib.rs:41-57 | the complement of a union equals the intersection of the complements |
| `Bitmap.SubsetIff` | src/lib.rs:91-93 | "intersection equals self" holds iff the members are included in the other's |
| `Bitmap.DisjointIff` | src/lib.rs:87-89 | "intersection is all zeros" holds iff the two member sets do not meet |
| `Bitmap.SubsetAntisymmetric` | src/lib.rs:91-93 | two sets that are subsets of each other have equal bytes |
| `Bitmap.InsertAllElements` | src/lib.rs:136-144 | inserting a sequence of values adds exactly the values that occur in it |
| `Bitmap.InsertAllOrderIndependent` | src/lib.rs:130-149 | building from two sequences with the same values, in any order and with any duplicates, gives the same bytes |
| `BitmapSets.BitmapSet.MaxVal` | src/lib.rs:9 | `MAXVAL = SIZE * 8 - 1` is the last bit (bit 7) of the last byte; it is in `u8` range because `1 <= SIZE <= 32` (the same constant is `Iter::MAXVAL`, src/lib.rs:160) |
| `BitmapSets.BitmapSet.constructor` | src/lib.rs:11-14 | `new()` needs `SIZE <= 32` and gives `SIZE` zero bytes with no members |
| `BitmapSets.BitmapSet.Clone` | src/lib.rs:3 | the derived clone is a fresh buffer with the same bytes and members |
| `BitmapSets.BitmapSet.Contains` | src/lib.rs:16-19 | needs `v <= MAXVAL`; true iff `v` is a member |
| `BitmapSets.BitmapSet.Insert` | src/lib.rs:21-24 | needs `v <= MAXVAL`; the bytes become `WithBit(old, v)` and the members gain `v` |
| `BitmapSets.BitmapSet.Remove` | src/lib.rs:26-29 | needs `v <= MAXVAL`; the bytes become `WithoutBit(old, v)` and the members lose `v` |
| `BitmapSets.BitmapSet.Clear` | src/lib.rs:31-33 | every byte becomes zero and no value is a member |
| `BitmapSets.BitmapSet.Intersect` | src/lib.rs:59-63 | the receiver's bytes become the bytewise AND; members become the intersection; `other` is untouched |
| `BitmapSets.BitmapSet.Unite` | src/lib.rs:65-69 | the receiver's bytes become the bytewise OR; members become the union; `other` is untouched |
| `BitmapSets.BitmapSet.Subtract` | src/lib.rs:71-75 | the receiver's bytes become the bytewise AND-NOT; members become the difference; `other` is untouched |
| `BitmapSets.BitmapSet.Invert` | src/lib.rs:77-81 | every byte is negated; members become the candidate values that were not members |
| `BitmapSets.BitmapSet.Intersection` | src/lib.rs:35-39 | returns a fresh set holding the intersection; the receiver and `other` are unchanged |
| `BitmapSets.BitmapSet.Union` | src/lib.rs:41-45 | returns a fresh set holding the union; the receiver and `other` are unchanged |
| `BitmapSets.BitmapSet.Difference` | src/lib.rs:47-51 | returns a fresh set holding the difference; the receiver and `other` are unchanged |
| `BitmapSets.BitmapSet.Complement` | src/lib.rs:53-57 | returns a fresh set holding the candidate values that are not members; the receiver is unchanged |
| `BitmapSets.BitmapSet.IsEmpty` | src/lib.rs:83-85 | true iff the set has no members |
| `BitmapSets.BitmapSet.IsDisjoint` | src/lib.rs:87-89 | true iff the two member sets do not meet |
| `BitmapSets.BitmapSet.IsSubset` | src/lib.rs:91-93 | true iff the receiver's members are included in `other`'s |
| `BitmapSets.BitmapSet.IsSuperset` | src/lib.rs:95-97 | true iff `other`'s members are included in the receiver's |
| `BitmapSets.BitmapSet.Equals` | src/lib.rs:3 | bytewise equality is true iff the two sets have the same members |
| `BitmapSets.BitmapSet.Iter` | src/lib.rs:99-101 | the new iterator's cursor is `Some(0)` and every member is still to be yielded |
| `BitmapSets.BitmapSet.DebugMembers` | src/lib.rs:120-128 | the members the `Debug` form lists are exactly the set's members, each once, in strictly ascending order |
| `BitmapSets.BitmapSet.FromSeq` | src/lib.rs:130-149 | `new()` followed by `insert` of each item equals `InsertAll` over zeros; the members are exactly the items' values |
| `BitmapSets.Iter.constructor` | src/lib.rs:100 | the iterator built by `iter()` borrows the set (the `set` field of src/lib.rs:155) and starts with cursor `Some(0)` and every member still to be yielded |
| `BitmapSets.Iter.Advance` | src/lib.rs:162-166 | the cursor steps from `v` to `v + 1`, or to `None` once `v` reaches `MAXVAL`; `None` stays `None` |
| `BitmapSets.Iter.Next` | src/lib.rs:172-180 | returns the smallest member not yet yielded and drops it from those remaining; returns `None` exactly when none remain; the cursor moves strictly forward on every yield |

## Left out

- BitmapSets.BitmapSet.constructor: requires `size >= 1`, so the zero-byte set `BitmapSet<0>` is not modelled. Rust accepts it for `new`, `clear`, `is_empty`, `clone`, `==` and the set operations, and rejects it only in code that reaches `MAXVAL`. The model asks for `SIZE >= 1` everywhere so that one invariant covers every operation.
- The decimal text of the `Debug` form (`u8::to_string`, `join(", ")`, the `BitmapSet {…}` wrapper) is not modelled; `DebugMembers` gives only the sequence of members it renders.
- `len()` is called by tests/test.rs but has no definition in src/lib.rs, so it is not modelled; `ComplementOfEmpty` states the cardinality that its test checks.
- Mutating a set while an iterator over it exists is not excluded by the model (Rust's borrow checker forbids it); `Iter.Next` is specified against the set's current bytes.
- The const-generic `SIZE` is a constructor parameter; set operations on two sets of different `SIZE` are excluded by a `requires` clause instead of by the type system.
- `FromSeq` covers `From<&[u8]>` and both `FromIterator` implementations: the iterator source becomes a finite sequence.
