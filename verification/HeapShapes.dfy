/** The free path of driver/memallc.c as written, as values: what can be reached from the head of the free list
    when blocks are freed one after the other, and when a free does not return. The pointer code is in
    HeapLists.dfy and refines these functions. */
module HeapShapes {
  import opened Numerals
  import opened HeapModel
  import opened Sequences

  /** What can be reached from the head of a free list: these blocks, each linking to the next, the last back to
      block `back`, or to NULL if there is no such block. */
  datatype Shape = Shape(blocks: seq<Block>, back: nat)

  predicate Sound(s: Shape) {
    s.back <= |s.blocks|
  }

  predicate Ends(s: Shape) {
    s.back == |s.blocks|
  }

  /** Where block i links to. */
  function NextOf(s: Shape, i: nat): nat {
    if i + 1 < |s.blocks| then i + 1 else s.back
  }

  /** What is left when c is pushed onto the list and `defragment_memblk` then links it a second time: None if
      its loop never ends. */
  function FreeInto(s: Shape, c: Block): (r: Option<Shape>)
    requires Sound(s)
    ensures r.Some? ==> Sound(r.value)
  {
    var k := FirstAdjacent(s.blocks, c);
    if k == |s.blocks| then
      if Ends(s) then Some(Shape([c], 0)) else None
    else
      var grown := Merged(s.blocks[k], c);
      if Precedes(s.blocks[k], c) then Some(Shape([c] + s.blocks[..k] + [grown], 1))
      else if k == 0 then Some(Shape([grown], 0))
      else if s.back > k then Some(Shape(Onward(s.blocks, k, grown), s.back - k))
      else if s.back == k then Some(Shape(Onward(s.blocks, k, grown) + [s.blocks[k]], 1))
      else Some(Shape(Around(s.blocks, s.back, k, grown), 0))
  }

  /** The shape of the free list, and the allocated list, which the free path keeps in order. */
  datatype Lists = Lists(free: Shape, live: seq<Block>)

  function InOrder(h: Heap): Lists {
    Lists(Shape(h.free, |h.free|), h.live)
  }

  predicate IsLive(w: Lists, addr: uint64) {
    addr != 0 && Find(w.live, addr) < |w.live|
  }

  /** `free_memallc` as written; None if it does not return. */
  function FreeWritten(w: Lists, addr: uint64): (r: Option<Lists>)
    requires Sound(w.free)
    ensures r.Some? ==> Sound(r.value.free)
  {
    if !IsLive(w, addr) then Some(w)
    else
      var i := Find(w.live, addr);
      match FreeInto(w.free, w.live[i])
      case None => None
      case Some(s) => Some(Lists(s, Without(w.live, i)))
  }

  /** Calls of `free_memallc` as written, one after the other. */
  function FreesWritten(w: Lists, addrs: seq<uint64>): (r: Option<Lists>)
    requires Sound(w.free)
    ensures r.Some? ==> Sound(r.value.free)
    decreases addrs
  {
    if addrs == [] then Some(w)
    else match FreeWritten(w, addrs[0])
      case None => None
      case Some(w') => FreesWritten(w', addrs[1..])
  }

  // ----- One free after another -----

  /** A free does not return if and only if the list is a cycle no block of which touches the freed one. */
  lemma FreeIntoIff(s: Shape, c: Block)
    requires Sound(s)
    ensures FreeInto(s, c).Some? <==> Ends(s) || exists f :: f in s.blocks && Adjacent(f, c)
  {
    var k := FirstAdjacent(s.blocks, c);
    if k < |s.blocks| {
      assert s.blocks[k] in s.blocks;
    }
  }

  /** Whether c can be freed once b has been, told from the free blocks before both. */
  predicate Rejoins(bs: seq<Block>, b: Block, c: Block) {
    var k := FirstAdjacent(bs, b);
    if k == |bs| then Adjacent(b, c)
    else if Precedes(bs[k], b) then
      Adjacent(b, c) || Adjacent(Merged(bs[k], b), c) || exists i :: 0 <= i < k && Adjacent(bs[i], c)
    else k > 0 || Adjacent(Merged(bs[k], b), c)
  }

  /** From a list in order, a first free always returns, and a second one if and only if its block rejoins what
      the first has left. */
  lemma SecondFreeReturnsIff(bs: seq<Block>, b: Block, c: Block)
    ensures FreeInto(Shape(bs, |bs|), b).Some?
    ensures FreeInto(FreeInto(Shape(bs, |bs|), b).value, c).Some? <==> Rejoins(bs, b, c)
  {
    var k := FirstAdjacent(bs, b);
    var s := FreeInto(Shape(bs, |bs|), b).value;
    FreeIntoIff(s, c);
    if k < |bs| && Precedes(bs[k], b) {
      var grown := Merged(bs[k], b);
      assert s.blocks == [b] + bs[..k] + [grown];
      assert forall f :: f in s.blocks <==> f == b || f == grown || f in bs[..k];
      assert forall i :: 0 <= i < k ==> bs[i] in bs[..k];
      assert forall f :: f in bs[..k] ==> exists i :: 0 <= i < k && bs[i] == f;
    }
  }
}
