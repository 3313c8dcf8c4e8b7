/**
 Array buffers: the [size | capacity | element...] blocks behind an array's pointer, and how they grow.
 A buffer is immutable data here.
 */
module ArrayBuffers {

  /** The capacity is the length of `elems`; the first `size` elements are committed. */
  datatype Buffer = Buffer(size: nat, elems: seq<int>) {
    function Capacity(): nat { |elems| }
    function Committed(): (es: seq<int>)
      ensures size <= |elems| ==> |es| == size && es == elems[..size]
    {
      if size <= |elems| then elems[..size] else elems
    }
  }

  const EMPTY: Buffer := Buffer(0, [])

  function GrownCapacity(cap: nat): nat {
    if cap == 0 then 8 else cap * 2
  }

  /** A zeroed buffer of capacity `cap` holding the committed elements. */
  function Enlarged(b: Buffer, cap: nat): Buffer {
    Buffer(b.size, b.Committed() + seq(if cap >= |b.Committed()| then cap - |b.Committed()| else 0, i => 0))
  }

  /** The element after the committed ones is written. */
  function Stored(b: Buffer, value: int): Buffer {
    if b.size < b.Capacity() then b.(elems := b.elems[b.size := value]) else b
  }
}
