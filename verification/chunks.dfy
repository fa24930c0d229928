/**
 Byte chunks as delivered by a streamed response body, and the facts about
 laying them end to end that the download assembly relies on.
 */
module Chunks {

  /** One element of a `Uint8Array`. */
  newtype byte = b: int | 0 <= b < 256

  /** One `value` returned by `reader.read()`. */
  type Chunk = seq<byte>

  /** The sum of the chunk lengths: the value `receivedLength` reaches after the
      read loop has seen `chunks`. */
  function TotalLength(chunks: seq<Chunk>): nat
  {
    if |chunks| == 0 then 0
    else TotalLength(chunks[..|chunks| - 1]) + |chunks[|chunks| - 1]|
  }

  /** The chunks laid end to end in arrival order. */
  function Flatten(chunks: seq<Chunk>): seq<byte>
  {
    if |chunks| == 0 then []
    else Flatten(chunks[..|chunks| - 1]) + chunks[|chunks| - 1]
  }

  /** Appending one chunk adds its length to the total. */
  lemma TotalLengthAppend(chunks: seq<Chunk>, c: Chunk)
    ensures TotalLength(chunks + [c]) == TotalLength(chunks) + |c|
  {
    assert (chunks + [c])[..|chunks|] == chunks;
  }

  /** Appending one chunk appends its bytes to the flattening. */
  lemma FlattenAppend(chunks: seq<Chunk>, c: Chunk)
    ensures Flatten(chunks + [c]) == Flatten(chunks) + c
  {
    assert (chunks + [c])[..|chunks|] == chunks;
  }

  /** The flattening is exactly as long as the sum of the chunk lengths:
      no byte is dropped and none is added. */
  lemma {:induction false} FlattenLength(chunks: seq<Chunk>)
    ensures |Flatten(chunks)| == TotalLength(chunks)
  {
    if |chunks| > 0 {
      FlattenLength(chunks[..|chunks| - 1]);
    }
  }

  /** The running total never decreases as more chunks arrive. */
  lemma {:induction false} TotalLengthMonotone(chunks: seq<Chunk>, i: nat, j: nat)
    requires i <= j <= |chunks|
    ensures TotalLength(chunks[..i]) <= TotalLength(chunks[..j])
    decreases j - i
  {
    if i < j {
      TotalLengthMonotone(chunks, i, j - 1);
      assert chunks[..j] == chunks[..j - 1] + [chunks[j - 1]];
      TotalLengthAppend(chunks[..j - 1], chunks[j - 1]);
    }
  }

  /** The flattening of a prefix of the chunks is a prefix of the flattening. */
  lemma {:induction false} FlattenPrefix(chunks: seq<Chunk>, i: nat)
    requires i <= |chunks|
    ensures |Flatten(chunks[..i])| <= |Flatten(chunks)|
    ensures Flatten(chunks)[..|Flatten(chunks[..i])|] == Flatten(chunks[..i])
    decreases |chunks| - i
  {
    if i < |chunks| {
      var init := chunks[..|chunks| - 1];
      assert init[..i] == chunks[..i];
      FlattenPrefix(init, i);
    } else {
      assert chunks[..i] == chunks;
    }
  }

  /** Chunk `k` occupies the bytes from offset `TotalLength(chunks[..k])` on:
      every chunk lands where the copy loop puts it, in arrival order. */
  lemma FlattenPlacesChunk(chunks: seq<Chunk>, k: nat)
    requires k < |chunks|
    ensures |Flatten(chunks)| == TotalLength(chunks)
    ensures TotalLength(chunks[..k]) + |chunks[k]| <= TotalLength(chunks)
    ensures Flatten(chunks)[TotalLength(chunks[..k])..TotalLength(chunks[..k]) + |chunks[k]|] == chunks[k]
  {
    var pre := chunks[..k + 1];
    assert pre == chunks[..k] + [chunks[k]];
    FlattenAppend(chunks[..k], chunks[k]);
    FlattenLength(chunks[..k]);
    FlattenLength(pre);
    FlattenLength(chunks);
    FlattenPrefix(chunks, k + 1);
    assert Flatten(pre) == Flatten(chunks[..k]) + chunks[k];
  }
}
