/**
  What the decoder allocates: a tree of objects, each with an identity, and the heap they live in.
 */
module Objects {
  import opened Octets
  import opened Schema

  datatype Obj<+V> =
    | LeafObj(id: int, v: V)
    | SeqObj(id: int, fields: seq<Option<Obj<V>>>)
    | ListObj(id: int, items: seq<Obj<V>>)

  /** A `type **a` argument: NULL, or the address of a pointer that may itself be NULL. */
  datatype Slot<+V> = Null | To(obj: Option<Obj<V>>) {
    function Held(): Option<Obj<V>> {
      if Null? then None else obj
    }
  }

  // ----- The value an object stands for -----

  function Content<V>(o: Obj<V>): Value<V>
    decreases o
  {
    match o
    case LeafObj(_, v) => LeafValue(v)
    case SeqObj(_, fs) => SeqValue(ContentFields(fs))
    case ListObj(_, xs) => ListValue(ContentItems(xs))
  }

  function ContentFields<V>(fs: seq<Option<Obj<V>>>): (r: seq<Option<Value<V>>>)
    ensures |r| == |fs|
    decreases fs
  {
    if fs == [] then [] else [ContentField(fs[0])] + ContentFields(fs[1..])
  }

  function ContentField<V>(f: Option<Obj<V>>): Option<Value<V>>
    decreases f
  {
    match f
    case None => None
    case Some(o) => Some(Content(o))
  }

  function ContentItems<V>(xs: seq<Obj<V>>): seq<Value<V>>
    decreases xs
  {
    if xs == [] then [] else [Content(xs[0])] + ContentItems(xs[1..])
  }

  // ----- The objects in a tree -----

  function Ids<V>(o: Obj<V>): multiset<int>
    decreases o
  {
    match o
    case LeafObj(id, _) => multiset{id}
    case SeqObj(id, fs) => multiset{id} + IdsFields(fs)
    case ListObj(id, xs) => multiset{id} + IdsItems(xs)
  }

  function IdsFields<V>(fs: seq<Option<Obj<V>>>): multiset<int>
    decreases fs
  {
    if fs == [] then multiset{} else IdsField(fs[0]) + IdsFields(fs[1..])
  }

  function IdsField<V>(f: Option<Obj<V>>): multiset<int>
    decreases f
  {
    match f
    case None => multiset{}
    case Some(o) => Ids(o)
  }

  function IdsItems<V>(xs: seq<Obj<V>>): multiset<int>
    decreases xs
  {
    if xs == [] then multiset{} else Ids(xs[0]) + IdsItems(xs[1..])
  }

  lemma {:induction false} IdsItemsAppend<V>(xs: seq<Obj<V>>, x: Obj<V>)
    ensures IdsItems(xs + [x]) == IdsItems(xs) + Ids(x)
    ensures ContentItems(xs + [x]) == ContentItems(xs) + [Content(x)]
    decreases |xs|
  {
    if xs != [] {
      IdsItemsAppend(xs[1..], x);
      assert (xs + [x])[1..] == xs[1..] + [x];
    }
  }

  /** A structure as its constructor leaves it. */
  function Blank<V>(n: nat): seq<Option<Obj<V>>> {
    seq(n, _ => None)
  }

  lemma {:induction false} BlankIsEmpty<V(!new)>(fs: seq<Field<V>>)
    ensures var b := Blank<V>(|fs|);
            IdsFields(b) == multiset{} && FitsFields(fs, ContentFields(b))
    ensures forall i :: 0 <= i < |fs| ==> ContentFields(Blank<V>(|fs|))[i] == None
    decreases |fs|
  {
    if fs != [] {
      BlankIsEmpty(fs[1..]);
      assert Blank<V>(|fs|)[1..] == Blank<V>(|fs[1..]|);
    }
  }

  // ----- The heap -----

  class Heap {
    var live: multiset<int>
    var next: int
    var refused: nat  // allocations that returned NULL

    ghost predicate Valid()
      reads this
    {
      forall i :: i in live ==> i < next && live[i] == 1
    }

    constructor ()
      ensures Valid() && live == multiset{} && refused == 0
    {
      live, next, refused := multiset{}, 0, 0;
    }

    /** Any allocation may be refused. */
    method Alloc() returns (id: Option<int>)
      requires Valid()
      modifies this
      ensures Valid()
      ensures id.Some? ==>
                id.value !in old(live) && live == old(live) + multiset{id.value} && refused == old(refused)
      ensures id.None? ==> live == old(live) && refused == old(refused) + 1
    {
      var granted: bool := *;
      if granted {
        id := Some(next);
        live, next := live + multiset{next}, next + 1;
      } else {
        id := None;
        refused := refused + 1;
      }
    }

    /** Freeing an object frees the tree below it; all of it must be live. */
    method Free<V>(o: Obj<V>)
      requires Valid() && Ids(o) <= live
      modifies this`live
      ensures Valid() && live == old(live) - Ids(o)
    {
      live := live - Ids(o);
    }
  }

  /** Between two states, whatever joined or left the live objects joined or left the tree. */
  predicate Balanced(live0: multiset<int>, ids0: multiset<int>, live1: multiset<int>, ids1: multiset<int>) {
    live1 + ids0 == live0 + ids1
  }

  // ----- What a reused object holds after decoding into it -----

  /** Decoding v into an object that held p: fields not in the input keep what they held, and
      lists grow. */
  function Merge<V>(p: Option<Value<V>>, v: Value<V>): Value<V>
    decreases v
  {
    match v
    case LeafValue(_) => v
    case SeqValue(vs) =>
      if p.Some? && p.value.SeqValue? && |p.value.fields| == |vs| then SeqValue(MergeFields(p.value.fields, vs))
      else v
    case ListValue(xs) =>
      if p.Some? && p.value.ListValue? then ListValue(p.value.items + xs) else v
  }

  function MergeFields<V>(ps: seq<Option<Value<V>>>, vs: seq<Option<Value<V>>>): seq<Option<Value<V>>>
    requires |ps| == |vs|
    decreases vs
  {
    if vs == [] then [] else [MergeField(ps[0], vs[0])] + MergeFields(ps[1..], vs[1..])
  }

  function MergeField<V>(p: Option<Value<V>>, ov: Option<Value<V>>): Option<Value<V>>
    decreases ov
  {
    match ov
    case None => p
    case Some(v) => Some(Merge(p, v))
  }
}
