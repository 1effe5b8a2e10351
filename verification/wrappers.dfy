/** Small helper datatypes and sequence predicates shared by the other modules. */
module Wrappers {

  /** A value that may be absent: a null reference in the source. */
  datatype Option<+T> = None | Some(value: T)

  /** No element occurs twice. */
  predicate NoDuplicates<T(==)>(s: seq<T>) {
    forall i, j :: 0 <= i < j < |s| ==> s[i] != s[j]
  }

  /** A table of lists in which no list holds the same element twice. */
  predicate ListsDistinct<K, V(==)>(m: map<K, seq<V>>) {
    forall k :: k in m ==> NoDuplicates(m[k])
  }

  /** The list stored under `k`; empty when `k` is absent. */
  function ListAt<K, V>(m: map<K, seq<V>>, k: K): seq<V> {
    if k in m then m[k] else []
  }

  /** `List<T>.Add` guarded by `Contains`: append `x` unless it is already there. */
  function AddIfAbsent<T(==,!new)>(s: seq<T>, x: T): (r: seq<T>)
    ensures x in r
    ensures forall y :: y in r <==> y in s || y == x
    ensures s <= r && |r| <= |s| + 1
    ensures NoDuplicates(s) ==> NoDuplicates(r)
  {
    if x in s then s else s + [x]
  }

  /** Adds every element of `xs`, in order, with `AddIfAbsent`. */
  function AddAllIfAbsent<T(==,!new)>(s: seq<T>, xs: seq<T>): (r: seq<T>)
    ensures forall y :: y in r <==> y in s || y in xs
    ensures s <= r
    ensures NoDuplicates(s) ==> NoDuplicates(r)
    decreases |xs|
  {
    if xs == [] then s else AddAllIfAbsent(AddIfAbsent(s, xs[0]), xs[1..])
  }

  /** Adding two lists one after the other is adding their concatenation. */
  lemma {:induction false} AddAllAppend<T(!new)>(s: seq<T>, xs: seq<T>, ys: seq<T>)
    ensures AddAllIfAbsent(s, xs + ys) == AddAllIfAbsent(AddAllIfAbsent(s, xs), ys)
    decreases |xs|
  {
    if xs == [] {
      assert xs + ys == ys;
    } else {
      assert (xs + ys)[0] == xs[0];
      assert (xs + ys)[1..] == xs[1..] + ys;
      AddAllAppend(AddIfAbsent(s, xs[0]), xs[1..], ys);
    }
  }

  /** Dropping the head of a concatenation whose left part is not empty drops it from that part. */
  lemma DropAppend<T>(a: seq<T>, b: seq<T>)
    requires a != []
    ensures (a + b)[0] == a[0] && (a + b)[1..] == a[1..] + b
  {
  }

  /** Storing a key's own value again leaves the map as it was. */
  lemma MapUpdateSame<K, V>(m: map<K, V>, k: K)
    requires k in m
    ensures m[k := m[k]] == m
  {
  }

  /** Concatenation is associative. */
  lemma AppendAssoc<T>(a: seq<T>, b: seq<T>, c: seq<T>)
    ensures a + (b + c) == (a + b) + c
  {
  }
}
