/**
 The part of the newer assembly's type information that the comparer reads:
 a type, its base type, and the public properties and methods it exposes.
 The ancestor chain of `GetParentTypes` and the two inherited-member
 aggregates built from it (all property names; method name to de-duplicated
 signatures) are defined here.
 */
module Hierarchy {
  import opened Wrappers

  /**
   A type as reflection presents it. `methods` holds (name, signature) pairs,
   the signature being the parenthesised part of the method's textual form.
   The base type is a value, so every chain ends.
   */
  datatype TypeNode = TypeNode(
    name: string,
    baseType: Option<TypeNode>,
    props: seq<string>,
    methods: seq<(string, string)>)

  /** Number of base-type links above `t`. */
  function Depth(t: TypeNode): nat {
    match t.baseType
    case None => 0
    case Some(b) => 1 + Depth(b)
  }

  /** `GetParentTypes`: the type itself, then its base type, and so on up to the root. */
  function ParentTypes(t: TypeNode): (chain: seq<TypeNode>)
    ensures |chain| == Depth(t) + 1
    ensures chain[0] == t
    ensures forall i :: 0 <= i < |chain| - 1 ==> chain[i].baseType == Some(chain[i + 1])
    ensures chain[|chain| - 1].baseType == None
  {
    match t.baseType
    case None => [t]
    case Some(b) => [t] + ParentTypes(b)
  }

  /** The property names collected over a chain, duplicates kept (a plain `List.Add`). */
  function Properties(chain: seq<TypeNode>): (r: seq<string>)
    ensures forall p :: p in r <==> exists i :: 0 <= i < |chain| && p in chain[i].props
  {
    if chain == [] then []
    else
      chain[0].props + Properties(chain[1..])
  }

  /** All (name, signature) pairs of the chain, outermost type first. */
  function AllMethods(chain: seq<TypeNode>): (r: seq<(string, string)>)
    ensures forall m :: m in r <==> exists i :: 0 <= i < |chain| && m in chain[i].methods
  {
    if chain == [] then []
    else
      chain[0].methods + AllMethods(chain[1..])
  }

  /** Method name to the signatures seen for it, each listed once. */
  type MethodTable = map<string, seq<string>>

  /** Records one method: a new name starts a one-element list, a known one gets the signature unless present. */
  function AddMethod(table: MethodTable, m: (string, string)): (r: MethodTable)
    ensures r.Keys == table.Keys + {m.0}
    ensures forall k, s :: k in r && s in r[k] <==> (k in table && s in table[k]) || (k, s) == m
    ensures ListsDistinct(table) ==> ListsDistinct(r)
  {
    if m.0 !in table then table[m.0 := [m.1]]
    else table[m.0 := AddIfAbsent(table[m.0], m.1)]
  }

  /** Records the methods of `ms` in order. */
  function AddMethods(table: MethodTable, ms: seq<(string, string)>): (r: MethodTable)
    ensures forall k :: k in r <==> k in table || exists s :: (k, s) in ms
    ensures forall k, s :: k in r && s in r[k] <==> (k in table && s in table[k]) || (k, s) in ms
    ensures ListsDistinct(table) ==> ListsDistinct(r)
    decreases |ms|
  {
    if ms == [] then table
    else
      var r := AddMethods(AddMethod(table, ms[0]), ms[1..]);
      assert forall m :: m in ms <==> m == ms[0] || m in ms[1..];
      r
  }

  /**
   The method aggregate of `ReflectAssembly`: each method name declared
   anywhere on the chain, mapped to the duplicate-free list of the
   signatures declared for it anywhere on the chain.
   */
  function MethodTableOf(chain: seq<TypeNode>): (r: MethodTable)
    ensures forall k :: k in r <==> exists i, s :: 0 <= i < |chain| && (k, s) in chain[i].methods
    ensures forall k, s :: k in r && s in r[k] <==> exists i :: 0 <= i < |chain| && (k, s) in chain[i].methods
    ensures ListsDistinct(r)
  {
    AddMethods(map[], AllMethods(chain))
  }
}
