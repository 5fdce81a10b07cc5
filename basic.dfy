/** Index and identifier types shared by the whole model. */
module Basic {

  /** `index_t` is an unsigned 32-bit integer: its values lie below this bound. */
  const INDEX_LIMIT: nat := 0x1_0000_0000

  /** The "no entity" sentinel `NO_ID`, that is `index_t(-1)`. */
  const NO_ID: nat := 0xFFFF_FFFF

  /** A component identifier: the core relies only on its equality. */
  datatype Uuid = Uuid(value: nat)

  datatype Option<T> = None | Some(value: T)

  /** Position of the first occurrence of `x` in `s` (what `std::find` returns). */
  function FirstIndex<T(==)>(s: seq<T>, x: T): (i: nat)
    requires x in s
    ensures i < |s| && s[i] == x && x !in s[..i]
  {
    if s[0] == x then 0 else 1 + FirstIndex(s[1..], x)
  }

  /** `s` with the element at `i` erased (`std::vector::erase`). */
  function EraseAt<T>(s: seq<T>, i: nat): (r: seq<T>)
    requires i < |s|
    ensures |r| == |s| - 1
    ensures forall k :: 0 <= k < i ==> r[k] == s[k]
    ensures forall k :: i <= k < |r| ==> r[k] == s[k + 1]
  {
    s[..i] + s[i + 1..]
  }

  /** `s` without the first occurrence of `x` (`std::find` then `erase`); unchanged when `x` is absent. */
  function RemoveFirst<T(==)>(s: seq<T>, x: T): (r: seq<T>)
    ensures x !in s ==> r == s
    ensures x in s ==> exists i :: 0 <= i < |s| && s[i] == x && x !in s[..i] && r == s[..i] + s[i + 1..]
  {
    if x in s then EraseAt(s, FirstIndex(s, x)) else s
  }

  /** `s` with `x` appended unless it is already there. */
  function AppendIfAbsent<T(==)>(s: seq<T>, x: T): (r: seq<T>)
    ensures x in r && s <= r && |r| <= |s| + 1
    ensures NoDuplicates(s) ==> NoDuplicates(r)
  {
    if x in s then s else s + [x]
  }

  predicate NoDuplicates<T(==)>(s: seq<T>)
  {
    forall i, j :: 0 <= i < j < |s| ==> s[i] != s[j]
  }

  lemma RemoveFirstMultiset<T>(s: seq<T>, x: T)
    requires x in s
    ensures multiset(RemoveFirst(s, x)) == multiset(s) - multiset{x}
  {
    EraseAtMultiset(s, FirstIndex(s, x));
  }

  lemma EraseAtMultiset<T>(s: seq<T>, i: nat)
    requires i < |s|
    ensures multiset(EraseAt(s, i)) == multiset(s) - multiset{s[i]}
  {
    assert s == s[..i] + [s[i]] + s[i + 1..];
    assert multiset(s) == multiset(s[..i]) + multiset{s[i]} + multiset(s[i + 1..]);
  }

  /** A sequence around position `i`, before and after replacing the element there. */
  lemma SplitAt<T>(s: seq<T>, i: nat, y: T)
    requires i < |s|
    ensures s == s[..i] + [s[i]] + s[i + 1..]
    ensures s[i := y] == s[..i] + [y] + s[i + 1..]
  {
  }
}
