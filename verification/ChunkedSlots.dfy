/**
 Chunked storage behind short references: reference r denotes slot r % capacity of
 chunk r / capacity. Laid end to end the chunks are one array indexed by reference,
 and a new chunk only ever extends it.
 */
module ChunkedSlots {
  import opened Arith

  ghost predicate Uniform(chunks: seq<seq<int>>, chunkCapacity: nat) {
    0 < chunkCapacity && forall c {:trigger chunks[c]} | 0 <= c < |chunks| :: |chunks[c]| == chunkCapacity
  }

  /** The slots of all chunks, by reference. */
  ghost function Flat(chunks: seq<seq<int>>): seq<int> {
    if chunks == [] then [] else Flat(chunks[..|chunks| - 1]) + chunks[|chunks| - 1]
  }

  lemma FlatPush(chunks: seq<seq<int>>, chunk: seq<int>)
    ensures Flat(chunks + [chunk]) == Flat(chunks) + chunk
  {
    assert (chunks + [chunk])[..|chunks|] == chunks;
  }

  lemma {:induction false} FlatSize(chunks: seq<seq<int>>, chunkCapacity: nat)
    requires Uniform(chunks, chunkCapacity)
    ensures |Flat(chunks)| == |chunks| * chunkCapacity
  {
    if chunks != [] {
      FlatSize(chunks[..|chunks| - 1], chunkCapacity);
      assert |chunks| * chunkCapacity == (|chunks| - 1) * chunkCapacity + chunkCapacity;
    }
  }

  /** The slot at `offset` of chunk `c` is the one with reference c * capacity + offset. */
  lemma {:induction false} FlatAt(chunks: seq<seq<int>>, chunkCapacity: nat, c: nat, offset: nat)
    requires Uniform(chunks, chunkCapacity) && c < |chunks| && offset < chunkCapacity
    ensures 0 <= c * chunkCapacity + offset < |Flat(chunks)|
    ensures Flat(chunks)[c * chunkCapacity + offset] == chunks[c][offset]
  {
    FlatSize(chunks, chunkCapacity);
    var last := |chunks| - 1;
    FlatSize(chunks[..last], chunkCapacity);
    assert |chunks| * chunkCapacity == last * chunkCapacity + chunkCapacity;
    if c < last {
      FlatAt(chunks[..last], chunkCapacity, c, offset);
    }
  }

  lemma {:induction false} FlatWrite(chunks: seq<seq<int>>, chunkCapacity: nat, c: nat, offset: nat, word: int)
    requires Uniform(chunks, chunkCapacity) && c < |chunks| && offset < chunkCapacity
    ensures 0 <= c * chunkCapacity + offset < |Flat(chunks)|
    ensures Flat(chunks[c := chunks[c][offset := word]]) == Flat(chunks)[c * chunkCapacity + offset := word]
  {
    FlatAt(chunks, chunkCapacity, c, offset);
    var last := |chunks| - 1;
    var chunks' := chunks[c := chunks[c][offset := word]];
    FlatSize(chunks[..last], chunkCapacity);
    if c < last {
      assert chunks'[..last] == chunks[..last][c := chunks[c][offset := word]];
      FlatWrite(chunks[..last], chunkCapacity, c, offset, word);
    } else {
      assert chunks'[..last] == chunks[..last];
    }
  }

  /** Splitting a reference finds its slot; it is in bounds exactly when its chunk exists. */
  lemma RefLocates(chunks: seq<seq<int>>, chunkCapacity: nat, ref: nat)
    requires Uniform(chunks, chunkCapacity)
    ensures ref / chunkCapacity < |chunks| <==> ref < |Flat(chunks)|
    ensures ref == ref / chunkCapacity * chunkCapacity + ref % chunkCapacity
    ensures ref < |Flat(chunks)| ==> Flat(chunks)[ref] == chunks[ref / chunkCapacity][ref % chunkCapacity]
  {
    FlatSize(chunks, chunkCapacity);
    QuotientBelow(ref, |chunks|, chunkCapacity);
    var q := ref / chunkCapacity;
    if q < |chunks| {
      FlatAt(chunks, chunkCapacity, q, ref % chunkCapacity);
    }
  }
}
