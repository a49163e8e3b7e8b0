/** Bytes, chunks of bytes, and the concatenation of a run of chunks. */
module Bytes {

  type Byte = bv8

  /** One block yielded by a producer; it may be empty. */
  type Chunk = seq<Byte>

  /** The bytes of a run of chunks in order, as `b"".join(chunks)` gives them. */
  function Concat(chunks: seq<Chunk>): (joined: seq<Byte>)
  {
    if chunks == [] then [] else chunks[0] + Concat(chunks[1..])
  }

  lemma ConcatSingle(c: Chunk)
    ensures Concat([c]) == c
  {
  }

  /** Concatenation distributes over joining two runs of chunks. */
  lemma {:induction false} ConcatAppend(a: seq<Chunk>, b: seq<Chunk>)
    ensures Concat(a + b) == Concat(a) + Concat(b)
  {
    if a == [] {
      assert a + b == b;
    } else {
      assert (a + b)[0] == a[0];
      assert (a + b)[1..] == a[1..] + b;
      ConcatAppend(a[1..], b);
    }
  }

  /** Pulling chunk `j` after chunks `i..j` appends exactly its bytes. */
  lemma ConcatExtend(cs: seq<Chunk>, i: nat, j: nat)
    requires i <= j < |cs|
    ensures Concat(cs[i..j + 1]) == Concat(cs[i..j]) + cs[j]
  {
    assert cs[i..j + 1] == cs[i..j] + [cs[j]];
    ConcatAppend(cs[i..j], [cs[j]]);
    ConcatSingle(cs[j]);
  }

  /** Splitting a run of chunks at any index splits its bytes there. */
  lemma ConcatSplit(cs: seq<Chunk>, k: nat)
    requires k <= |cs|
    ensures Concat(cs) == Concat(cs[..k]) + Concat(cs[k..])
  {
    assert cs == cs[..k] + cs[k..];
    ConcatAppend(cs[..k], cs[k..]);
  }

  /** The run of chunks with every empty chunk dropped. */
  function NonEmpty(cs: seq<Chunk>): (r: seq<Chunk>)
    ensures forall i :: 0 <= i < |r| ==> r[i] != []
    ensures |r| <= |cs|
  {
    if cs == [] then []
    else if cs[0] == [] then NonEmpty(cs[1..])
    else [cs[0]] + NonEmpty(cs[1..])
  }

  /** Empty chunks carry no bytes: the byte stream of a producer is the same
      with or without them. */
  lemma {:induction false} EmptyChunksCarryNoBytes(cs: seq<Chunk>)
    ensures Concat(NonEmpty(cs)) == Concat(cs)
  {
    if cs != [] {
      EmptyChunksCarryNoBytes(cs[1..]);
      if cs[0] != [] {
        ConcatAppend([cs[0]], NonEmpty(cs[1..]));
        ConcatSingle(cs[0]);
      }
    }
  }

  /** A run of `n` empty chunks. */
  function EmptyChunks(n: nat): (r: seq<Chunk>)
    ensures |r| == n
  {
    seq(n, _ => [])
  }

  lemma {:induction false} EmptyChunksConcat(n: nat)
    ensures Concat(EmptyChunks(n)) == []
  {
    if n > 0 {
      assert EmptyChunks(n)[1..] == EmptyChunks(n - 1);
      EmptyChunksConcat(n - 1);
    }
  }
}
