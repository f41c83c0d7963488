/** The injected streaming hash (`hash.Hash`): Reset, then Write of successive chunks, then Sum. */
module Hashing {
  import opened Outcomes

  /** A hash handle seen as a pure value. `sum` maps everything written since the last Reset to the
      digest `Sum(nil)` returns; `write(absorbed, chunk)` is the error `Write(chunk)` returns when
      `absorbed` has been written so far, None when it succeeds. */
  datatype Hasher = Hasher(sum: seq<bv8> -> seq<bv8>, write: (seq<bv8>, seq<bv8>) -> Option<Error>)

  function Concat(chunks: seq<seq<bv8>>): seq<bv8>
  {
    if |chunks| == 0 then [] else chunks[0] + Concat(chunks[1..])
  }

  /** The stream written before chunk i, when `absorbed` was written before the first chunk. */
  function Before(absorbed: seq<bv8>, chunks: seq<seq<bv8>>, i: nat): seq<bv8>
    requires i <= |chunks|
  {
    absorbed + Concat(chunks[..i])
  }

  /** Writes the chunks in order, stopping at the first failing Write and returning its error as is.
      On success the stream is `absorbed` followed by every chunk. */
  function Absorb(h: Hasher, absorbed: seq<bv8>, chunks: seq<seq<bv8>>): (r: Result<seq<bv8>>)
    ensures r.Ok? <==> forall i :: 0 <= i < |chunks| ==> h.write(Before(absorbed, chunks, i), chunks[i]).None?
    ensures r.Ok? ==> r.value == absorbed + Concat(chunks)
    ensures r.Err? ==> exists i :: 0 <= i < |chunks|
                          && h.write(Before(absorbed, chunks, i), chunks[i]) == Some(r.error)
                          && forall j :: 0 <= j < i ==> h.write(Before(absorbed, chunks, j), chunks[j]).None?
    decreases |chunks|
  {
    if |chunks| == 0 then Ok(absorbed)
    else
      var rest := chunks[1..];
      assert forall i :: 0 <= i < |rest| ==> Before(absorbed + chunks[0], rest, i) == Before(absorbed, chunks, i + 1) by {
        forall i | 0 <= i < |rest|
          ensures Before(absorbed + chunks[0], rest, i) == Before(absorbed, chunks, i + 1)
        {
          assert chunks[..i + 1] == [chunks[0]] + rest[..i];
          assert [chunks[0]] + rest[..i] != [];
          assert ([chunks[0]] + rest[..i])[1..] == rest[..i];
        }
      }
      assert Before(absorbed, chunks, 0) == absorbed by { assert chunks[..0] == []; }
      match h.write(absorbed, chunks[0])
      case Some(e) => Err(e)
      case None => Absorb(h, absorbed + chunks[0], rest)
  }
}
