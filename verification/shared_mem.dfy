/** The part of h2o's shared-memory facility that the file observer relies on:
    `h2o_mem_alloc_shared` hands out an entry with one reference,
    `h2o_mem_addref_shared` adds one, and `h2o_mem_release_shared` drops one
    and, when the count reaches zero, runs the entry's dispose callback and
    frees it. Buffers are never reused, so a heap is a sequence indexed by the
    allocation number; a released-to-zero buffer stays in place with its
    `freed` flag set. */
module SharedMem {

  type byte = x: int | 0 <= x < 256

  /** One shared allocation: its payload, its reference count, and whether
      the dispose callback (`dispose_fo_message`) has run. */
  datatype Buffer = Buffer(content: seq<byte>, refcount: nat, freed: bool)

  type Heap = seq<Buffer>

  /** `id` names a buffer that is still allocated. */
  predicate Live(h: Heap, id: nat)
  {
    id < |h| && !h[id].freed
  }

  /** Every buffer has been disposed exactly when nobody references it. */
  predicate Wf(h: Heap)
  {
    forall id :: 0 <= id < |h| ==> (h[id].freed <==> h[id].refcount == 0)
  }

  /** `h2o_mem_alloc_shared`: a fresh buffer whose only reference is the caller's. */
  function Alloc(h: Heap, content: seq<byte>): (r: Heap)
    ensures |r| == |h| + 1 && r[..|h|] == h
    ensures Live(r, |h|) && r[|h|].refcount == 1 && r[|h|].content == content
    ensures Wf(h) ==> Wf(r)
  {
    h + [Buffer(content, 1, false)]
  }

  /** `h2o_mem_addref_shared`: only a live buffer may gain a reference. */
  function AddRef(h: Heap, id: nat): (r: Heap)
    requires Live(h, id)
    ensures |r| == |h| && Live(r, id)
    ensures r[id].refcount == h[id].refcount + 1 && r[id].content == h[id].content
    ensures forall k :: 0 <= k < |h| && k != id ==> r[k] == h[k]
  {
    h[id := h[id].(refcount := h[id].refcount + 1)]
  }

  /** `h2o_mem_release_shared`: drops one reference; the release that drops
      the last one disposes of the buffer. Releasing a disposed buffer is
      excluded by the precondition, so no buffer is disposed twice. */
  function Release(h: Heap, id: nat): (r: Heap)
    requires Live(h, id) && h[id].refcount > 0
    ensures |r| == |h| && r[id].content == h[id].content
    ensures r[id].refcount + 1 == h[id].refcount
    ensures r[id].freed <==> h[id].refcount == 1
    ensures forall k :: 0 <= k < |h| && k != id ==> r[k] == h[k]
    ensures Wf(h) ==> Wf(r)
  {
    var c := h[id].refcount - 1;
    h[id := Buffer(h[id].content, c, c == 0)]
  }
}
