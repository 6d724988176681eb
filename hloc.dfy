/** `HLoc`: a hierarchical selection key for one axis of a `loc` lookup, always held as a
    tuple whose positions address the levels of a hierarchical index from the outermost
    down. */
module HLocKeys {

  /** A selection key as Python passes it to `__getitem__`: a tuple of keys, or anything
      else (a label, a slice, a list, ...), which is opaque here and stands for itself. */
  datatype Key<L> = Atom(value: L) | Tuple(items: seq<Key<L>>)

  datatype HLoc<L> = HLoc(key: seq<Key<L>>)

  /** `HLoc[key]`: a tuple other than the empty one is taken as the key; anything else,
      the empty tuple included, is wrapped as the key's only element. Python keeps a single
      empty tuple object, so the identity test against `EMPTY_TUPLE` holds for every `()`. */
  function GetItem<L(==)>(key: Key<L>): (h: HLoc<L>)
    ensures Len(h) >= 1
    ensures Tuple(h.key) == key <==> key.Tuple? && key.items != []
    ensures Tuple(h.key) != key ==> h.key == [key]
  {
    if !key.Tuple? || key.items == [] then HLoc([key]) else HLoc(key.items)
  }

  /** `len(h)`: the number of levels the key addresses. */
  function Len<L>(h: HLoc<L>): (n: nat)
  {
    |h.key|
  }

  /** `iter(h)`: the key's elements, outermost level first. */
  function Iter<L>(h: HLoc<L>): (elems: seq<Key<L>>)
  {
    h.key
  }

  /** `HLoc[k]` for a single key `k` that is not a tuple selects `k` on the outermost level
      only; the empty tuple is such a single key. */
  lemma GetItemSingle<L>(key: Key<L>)
    requires !key.Tuple? || key.items == []
    ensures Iter(GetItem(key)) == [key] && Len(GetItem(key)) == 1
  {
  }

  /** Selecting with the tuple an `HLoc` holds gives back the same `HLoc`: normalisation is
      idempotent. */
  lemma GetItemIdempotent<L>(key: Key<L>)
    ensures GetItem(Tuple(GetItem(key).key)) == GetItem(key)
  {
  }

  /** A non-empty tuple of keys addresses one level per element. */
  lemma GetItemTuple<L>(items: seq<Key<L>>)
    requires items != []
    ensures Iter(GetItem(Tuple(items))) == items && Len(GetItem(Tuple(items))) == |items|
  {
  }
}
