/** The raw adapter `RawIterableReader`: a forward-only byte stream over a
    pull-only producer of byte chunks. */
module RawReader {
  import opened Wrappers
  import opened Bytes

  function Min(a: nat, b: nat): (m: nat)
  {
    if a <= b then a else b
  }

  /** The producer behind `_iter`: a finite run of chunks and the index of the
      next one to yield. Its only operation is `Next`, so it is pull-only. */
  datatype Producer = Producer(chunks: seq<Chunk>, cursor: nat)
  {
    /** `next(it)`: the next chunk, or StopIteration once every chunk was yielded. */
    function Next(): (p: Pull)
    {
      if cursor < |chunks| then Yielded(chunks[cursor], Producer(chunks, cursor + 1))
      else StopIteration
    }
  }

  datatype Pull = StopIteration | Yielded(chunk: Chunk, rest: Producer)

  /** Pulling chunks `from..to` onto `pending` never had `n` bytes pending
      before the last pull: the pull loop stops as soon as it has enough. */
  ghost predicate StoppedAtFirstFill(cs: seq<Chunk>, from: nat, to: nat, pending: seq<Byte>, n: nat)
    requires from <= to <= |cs|
  {
    forall k :: from <= k < to ==> |pending| + |Concat(cs[from..k])| < n
  }

  /** The pull loop only goes on while fewer than `n` bytes are pending. */
  lemma StoppedAtFirstFillExtend(cs: seq<Chunk>, from: nat, to: nat, pending: seq<Byte>, n: nat)
    requires from <= to < |cs|
    requires StoppedAtFirstFill(cs, from, to, pending, n)
    requires |pending| + |Concat(cs[from..to])| < n
    ensures StoppedAtFirstFill(cs, from, to + 1, pending, n)
  {
  }

  /** `pending` holds what was pending at `from` and the chunks pulled since;
      pulling chunk `p` keeps it so. */
  lemma PendingExtend(cs: seq<Chunk>, from: nat, p: nat, pending0: seq<Byte>, pending: seq<Byte>)
    requires from <= p < |cs|
    requires pending == pending0 + Concat(cs[from..p])
    ensures pending + cs[p] == pending0 + Concat(cs[from..p + 1])
  {
    ConcatExtend(cs, from, p);
  }

  /** One chunk pulled: it extends the pulled bytes and leaves the unread
      stream as it was. */
  lemma PullOne(cs: seq<Chunk>, p: nat, pending: seq<Byte>)
    requires p < |cs|
    ensures Concat(cs[..p + 1]) == Concat(cs[..p]) + cs[p]
    ensures pending + Concat(cs[p..]) == (pending + cs[p]) + Concat(cs[p + 1..])
  {
    ConcatExtend(cs, 0, p);
    assert cs[0..p] == cs[..p];
    assert cs[0..p + 1] == cs[..p + 1];
    assert cs[p..] == [cs[p]] + cs[p + 1..];
    ConcatAppend([cs[p]], cs[p + 1..]);
    ConcatSingle(cs[p]);
  }

  /** Handing out `len(b)` bytes from the front of `_extra`, which holds
      everything left whenever it holds fewer, takes them from the front of the
      unread stream. */
  lemma TakeFromStream(pending: seq<Byte>, unpulled: seq<Byte>, n: nat)
    requires |pending| < n ==> unpulled == []
    ensures Min(n, |pending|) == Min(n, |pending + unpulled|)
    ensures pending[..Min(n, |pending|)] == (pending + unpulled)[..Min(n, |pending|)]
    ensures pending[Min(n, |pending|)..] + unpulled == (pending + unpulled)[Min(n, |pending|)..]
  {
  }

  /** The ValueError raised by an operation on a closed stream. */
  datatype IOError = ClosedFile

  class RawIterableReader {
    /** `_iter`: the producer, or None once it is exhausted or the reader is closed. */
    var iter: Option<Producer>
    /** `_extra`: bytes pulled from the producer and not yet delivered. */
    var extra: seq<Byte>
    /** `_total`: the number of bytes ever pulled. */
    var total: nat
    /** `closed`, kept by the io base class. */
    var closed: bool

    /** Every chunk the producer yields over its lifetime. */
    ghost const Chunks: seq<Chunk>
    /** How many chunks have been pulled so far. */
    ghost var Pulled: nat
    /** The bytes handed to callers so far, in order. */
    ghost var Delivered: seq<Byte>

    ghost predicate Valid()
      reads this
    {
      && Pulled <= |Chunks|
      && (iter.Some? ==> iter.value == Producer(Chunks, Pulled))
      && (iter.None? && !closed ==> Pulled == |Chunks|)
      && (closed ==> iter.None?)
      && total == |Concat(Chunks[..Pulled])|
      && Delivered + extra == Concat(Chunks[..Pulled])
    }

    /** The bytes still to be delivered: the pending ones, then those the
        producer has not yielded yet. */
    ghost function Remaining(): (rest: seq<Byte>)
      reads this
      requires Valid()
    {
      extra + Concat(Chunks[Pulled..])
    }

    /** Nothing is lost, duplicated or reordered: what was delivered followed by
        what remains is the whole concatenation of the producer's chunks. */
    lemma StreamIsConcat()
      requires Valid()
      ensures Delivered + Remaining() == Concat(Chunks)
      ensures |Remaining()| == |Concat(Chunks)| - |Delivered|
    {
      ConcatSplit(Chunks, Pulled);
    }

    constructor (chunks: seq<Chunk>)
      ensures Valid() && !closed
      ensures Chunks == chunks && Delivered == [] && Remaining() == Concat(chunks)
      ensures iter == Some(Producer(chunks, 0)) && extra == [] && total == 0
    {
      iter := Some(Producer(chunks, 0));
      extra := [];
      total := 0;
      closed := false;
      Chunks := chunks;
      Pulled := 0;
      Delivered := [];
      new;
      assert chunks[0..] == chunks;
    }

    function Readable(): (r: bool)
      ensures r
    {
      true
    }

    /** Releases the producer and marks the stream closed; the pending bytes
        are left where they are. */
    method Close()
      requires Valid()
      modifies this
      ensures Valid() && closed && iter.None?
      ensures extra == old(extra) && total == old(total)
      ensures Pulled == old(Pulled) && Delivered == old(Delivered)
    {
      iter := None;
      closed := true;
    }

    /** The stream position: the number of bytes delivered so far. */
    method Tell() returns (r: Result<nat, IOError>)
      requires Valid()
      ensures closed ==> r == Failure(ClosedFile)
      ensures !closed ==> r == Success(|Delivered|)
    {
      if closed {
        return Failure(ClosedFile);
      }
      return Success(total - |extra|);
    }

    /** One `next(self._iter)` of the pull loop: either a chunk is appended to
        `_extra` and counted in `_total`, or StopIteration drops `_iter`. */
    method PullNext() returns (stopped: bool)
      requires Valid() && iter.Some? && !closed
      modifies this
      ensures Valid() && !closed && Delivered == old(Delivered)
      ensures Remaining() == old(Remaining())
      ensures stopped <==> old(Pulled) == |Chunks|
      ensures stopped ==> iter.None? && Pulled == old(Pulled) && extra == old(extra) && total == old(total)
      ensures !stopped ==> iter.Some? && Pulled == old(Pulled) + 1
                           && extra == old(extra) + Chunks[old(Pulled)]
                           && total == old(total) + |Chunks[old(Pulled)]|
    {
      match iter.value.Next()
      case StopIteration =>
        iter := None;
        return true;
      case Yielded(chunk, rest) =>
        PullOne(Chunks, Pulled, extra);
        total := total + |chunk|;
        extra := extra + chunk;
        iter := Some(rest);
        Pulled := Pulled + 1;
        return false;
    }

    /** The pull loop of `readinto`: pulls chunks onto `_extra` until at least
        `num` bytes are pending or the producer raises StopIteration, in which
        case `_iter` is dropped. */
    method PullUntil(num: nat)
      requires Valid() && !closed
      modifies this
      ensures Valid() && !closed && Delivered == old(Delivered)
      ensures Remaining() == old(Remaining())
      ensures old(Pulled) <= Pulled && old(total) <= total
      ensures extra == old(extra) + Concat(Chunks[old(Pulled)..Pulled])
      // `_iter` is dropped exactly when the producer raised StopIteration
      ensures iter.None? <==> old(iter).None? || |extra| < num
      ensures old(iter).None? || |old(extra)| >= num ==> iter == old(iter) && Pulled == old(Pulled)
      ensures StoppedAtFirstFill(Chunks, old(Pulled), Pulled, old(extra), num)
    {
      assert Chunks[Pulled..Pulled] == [];
      if iter.Some? {
        while |extra| < num
          invariant Valid() && iter.Some? && !closed && Delivered == old(Delivered)
          invariant old(Pulled) <= Pulled && old(total) <= total
          invariant extra == old(extra) + Concat(Chunks[old(Pulled)..Pulled])
          invariant Remaining() == old(Remaining())
          invariant StoppedAtFirstFill(Chunks, old(Pulled), Pulled, old(extra), num)
          decreases |Chunks| - Pulled
        {
          ghost var pulled, pending := Pulled, extra;
          var stopped := PullNext();
          if stopped {
            break;
          }
          PendingExtend(Chunks, old(Pulled), pulled, old(extra), pending);
          StoppedAtFirstFillExtend(Chunks, old(Pulled), pulled, old(extra), num);
        }
      }
    }

    /** `readinto`: fills a prefix of `b` from the stream and returns its
        length; 0 means end of stream. */
    method ReadInto(b: array<Byte>) returns (r: Result<nat, IOError>)
      requires Valid()
      modifies this, b
      ensures Valid() && closed == old(closed)
      ensures old(closed) ==> r == Failure(ClosedFile) && unchanged(this) && unchanged(b)
      // exactly len(b) bytes, or everything that is left when that is less
      ensures !old(closed) ==> r.Success? && r.value == Min(b.Length, |old(Remaining())|)
      // the bytes are the next ones of the stream; the rest of `b` is untouched
      ensures r.Success? ==> b[..r.value] == old(Remaining())[..r.value]
                             && b[r.value..] == old(b[r.value..])
      ensures r.Success? ==> Remaining() == old(Remaining())[r.value..]
                             && Delivered == old(Delivered) + b[..r.value]
      // a short read only happens once the producer is exhausted and `_extra` drained
      ensures r.Success? && r.value < b.Length ==> iter.None? && extra == []
      // `_iter` is dropped only by a StopIteration, which only a short read meets
      ensures r.Success? ==> (iter.None? <==> old(iter).None? || r.value < b.Length)
      // an exhausted producer, or a request of length 0, is never pulled
      ensures old(iter).None? || b.Length == 0 ==> iter == old(iter) && Pulled == old(Pulled)
      // pulling stops at the first chunk that makes enough bytes pending
      ensures old(Pulled) <= Pulled && old(total) <= total
      ensures StoppedAtFirstFill(Chunks, old(Pulled), Pulled, old(extra), b.Length)
    {
      if closed {
        return Failure(ClosedFile);
      }
      var num := b.Length;
      PullUntil(num);
      assert |extra| < num ==> Chunks[Pulled..] == [];
      TakeFromStream(extra, Concat(Chunks[Pulled..]), num);
      var ret := extra[..Min(num, |extra|)];
      var lret := |ret|;
      assert ret + extra[lret..] == extra;
      extra := extra[lret..];
      Delivered := Delivered + ret;
      CopyInto(b, ret);
      return Success(lret);
    }
  }

  /** `b[:len(src)] = src`: overwrites a prefix of `b` and nothing else. */
  method CopyInto(b: array<Byte>, src: seq<Byte>)
    requires |src| <= b.Length
    modifies b
    ensures b[..|src|] == src && b[|src|..] == old(b[|src|..])
  {
    forall i | 0 <= i < |src| {
      b[i] := src[i];
    }
  }

  /** What a run of reads with the request lengths `sizes` returned (`outs`)
      and the positions reported after each (`tells`), over a stream of
      `length` bytes: each position counts the bytes delivered so far, a read
      is short only when it reaches the end of the stream, and a read issued
      at the end of the stream returns nothing. */
  ghost predicate ReadLog(length: nat, sizes: seq<nat>, outs: seq<seq<Byte>>, tells: seq<nat>)
  {
    && |outs| == |tells| <= |sizes|
    && Positions(outs, tells)
    && ShortOnlyAtEnd(length, sizes, outs, tells)
    && EmptyAfterEnd(length, outs)
  }

  ghost predicate Positions(outs: seq<seq<Byte>>, tells: seq<nat>)
    requires |outs| == |tells|
  {
    forall j :: 0 <= j < |outs| ==> tells[j] == |Concat(outs[..j + 1])|
  }

  ghost predicate ShortOnlyAtEnd(length: nat, sizes: seq<nat>, outs: seq<seq<Byte>>, tells: seq<nat>)
    requires |outs| == |tells| <= |sizes|
  {
    forall j :: 0 <= j < |outs| ==>
      |outs[j]| == sizes[j] || (|outs[j]| < sizes[j] && tells[j] == length)
  }

  ghost predicate EmptyAfterEnd(length: nat, outs: seq<seq<Byte>>)
  {
    forall j :: 0 <= j < |outs| && |Concat(outs[..j])| == length ==> outs[j] == []
  }

  lemma PositionsExtend(outs: seq<seq<Byte>>, tells: seq<nat>, got: seq<Byte>, pos: nat)
    requires |outs| == |tells| && Positions(outs, tells)
    requires pos == |Concat(outs)| + |got|
    ensures Positions(outs + [got], tells + [pos])
  {
    ConcatAppend(outs, [got]);
    ConcatSingle(got);
    var outs', tells' := outs + [got], tells + [pos];
    assert outs'[..|outs| + 1] == outs';
    forall j | 0 <= j < |outs'|
      ensures tells'[j] == |Concat(outs'[..j + 1])|
    {
      if j < |outs| {
        assert outs'[..j + 1] == outs[..j + 1];
      }
    }
  }

  lemma EmptyAfterEndExtend(length: nat, outs: seq<seq<Byte>>, got: seq<Byte>)
    requires EmptyAfterEnd(length, outs)
    requires |Concat(outs)| == length ==> got == []
    ensures EmptyAfterEnd(length, outs + [got])
  {
    var outs' := outs + [got];
    forall j | 0 <= j < |outs'| && |Concat(outs'[..j])| == length
      ensures outs'[j] == []
    {
      if j < |outs| {
        assert outs'[..j] == outs[..j];
      } else {
        assert outs'[..j] == outs;
      }
    }
  }

  /** Recording one more read keeps the log consistent. */
  lemma ReadLogExtend(length: nat, sizes: seq<nat>, outs: seq<seq<Byte>>, tells: seq<nat>, got: seq<Byte>, pos: nat)
    requires ReadLog(length, sizes, outs, tells) && |outs| < |sizes|
    requires |got| == sizes[|outs|] || (|got| < sizes[|outs|] && pos == length)
    requires pos == |Concat(outs)| + |got|
    requires |Concat(outs)| == length ==> got == []
    ensures ReadLog(length, sizes, outs + [got], tells + [pos])
    ensures Concat(outs + [got]) == Concat(outs) + got
  {
    ConcatAppend(outs, [got]);
    ConcatSingle(got);
    PositionsExtend(outs, tells, got, pos);
    EmptyAfterEndExtend(length, outs, got);
    assert ShortOnlyAtEnd(length, sizes, outs + [got], tells + [pos]);
  }

  /** `d = reader.read(n)` followed by `reader.tell()`, on an open reader. */
  method ReadAndTell(reader: RawIterableReader, n: nat) returns (got: seq<Byte>, pos: nat)
    requires reader.Valid() && !reader.closed
    modifies reader
    ensures reader.Valid() && !reader.closed
    ensures |got| == Min(n, |old(reader.Remaining())|)
    ensures reader.Delivered == old(reader.Delivered) + got
    ensures pos == |reader.Delivered|
  {
    var buf := new Byte[n];
    var r := reader.ReadInto(buf);
    got := buf[..r.value];
    var p := reader.Tell();
    pos := p.value;
  }

  /** Opens a reader over `chunks`, reads it with the request lengths in
      `sizes` and asks for the position after every read. */
  method ReadInSizes(chunks: seq<Chunk>, sizes: seq<nat>) returns (outs: seq<seq<Byte>>, tells: seq<nat>)
    ensures |outs| == |sizes| && |tells| == |sizes|
    // the reads, joined, are the producer's bytes up to the final position
    ensures Concat(outs) <= Concat(chunks)
    // the position after each read is the number of bytes delivered so far
    ensures forall i :: 0 <= i < |sizes| ==> tells[i] == |Concat(outs[..i + 1])|
    // a read is short only when it reaches the end of the producer's bytes
    ensures forall i :: 0 <= i < |sizes| ==>
              |outs[i]| == sizes[i] || (|outs[i]| < sizes[i] && tells[i] == |Concat(chunks)|)
    // once the end is reached, every later read returns nothing
    ensures forall i :: 0 <= i < |sizes| && |Concat(outs[..i])| == |Concat(chunks)| ==> outs[i] == []
  {
    var reader := new RawIterableReader(chunks);
    outs, tells := [], [];
    for i := 0 to |sizes|
      invariant fresh(reader) && reader.Valid() && !reader.closed && reader.Chunks == chunks
      invariant |outs| == i && reader.Delivered == Concat(outs)
      invariant ReadLog(|Concat(chunks)|, sizes, outs, tells)
    {
      reader.StreamIsConcat();
      var got, pos := ReadAndTell(reader, sizes[i]);
      ReadLogExtend(|Concat(chunks)|, sizes, outs, tells, got, pos);
      outs := outs + [got];
      tells := tells + [pos];
    }
    reader.StreamIsConcat();
  }

  /** Opens a reader over `chunks` and reads one byte at a time until a read
      comes back empty. */
  method ReadByteByByte(chunks: seq<Chunk>) returns (outs: seq<seq<Byte>>)
    ensures Concat(outs) == Concat(chunks)
    ensures |outs| == |Concat(chunks)|
    ensures forall i :: 0 <= i < |outs| ==> |outs[i]| == 1
  {
    var reader := new RawIterableReader(chunks);
    outs := [];
    while true
      invariant fresh(reader) && reader.Valid() && !reader.closed && reader.Chunks == chunks
      invariant reader.Delivered == Concat(outs) && |Concat(outs)| == |outs|
      invariant forall i :: 0 <= i < |outs| ==> |outs[i]| == 1
      decreases |reader.Remaining()|
    {
      reader.StreamIsConcat();
      var buf := new Byte[1];
      var r := reader.ReadInto(buf);
      if r.value == 0 {
        break;
      }
      var got := buf[..1];
      ConcatAppend(outs, [got]);
      ConcatSingle(got);
      outs := outs + [got];
    }
    reader.StreamIsConcat();
  }

  /** The producer of the empty-chunk scenario: "1", seven empty chunks, "2",
      "3", six empty chunks, "4". */
  function EmptyChunkProducer(): (cs: seq<Chunk>)
  {
    [[0x31]] + EmptyChunks(7) + [[0x32], [0x33]] + EmptyChunks(6) + [[0x34]]
  }

  lemma EmptyChunkProducerBytes()
    ensures Concat(EmptyChunkProducer()) == [0x31, 0x32, 0x33, 0x34]
  {
    EmptyChunksConcat(7);
    EmptyChunksConcat(6);
    ConcatSingle([0x31]);
    ConcatSingle([0x32]);
    ConcatSingle([0x33]);
    ConcatSingle([0x34]);
    var one := [[0x31]] + EmptyChunks(7);
    ConcatAppend([[0x31]], EmptyChunks(7));
    assert Concat(one) == [0x31];
    assert [[0x32], [0x33]] == [[0x32]] + [[0x33]];
    ConcatAppend([[0x32]], [[0x33]]);
    var three := one + [[0x32], [0x33]];
    ConcatAppend(one, [[0x32], [0x33]]);
    assert Concat(three) == [0x31, 0x32, 0x33];
    var still := three + EmptyChunks(6);
    ConcatAppend(three, EmptyChunks(6));
    assert Concat(still) == [0x31, 0x32, 0x33];
    ConcatAppend(still, [[0x34]]);
    assert Concat(still + [[0x34]]) == [0x31, 0x32, 0x33, 0x34];
  }

  /** Reading the empty-chunk producer one byte at a time gives "1234" in four
      reads: no empty chunk is taken for the end of the stream. */
  method EmptyChunksDoNotEndStream() returns (joined: seq<Byte>, readCount: nat)
    ensures joined == [0x31, 0x32, 0x33, 0x34] && readCount == 4
  {
    var outs := ReadByteByByte(EmptyChunkProducer());
    EmptyChunkProducerBytes();
    joined, readCount := Concat(outs), |outs|;
  }

  /** Over a producer yielding "12345": a read of 0 bytes returns nothing, a
      read of 1 byte returns "1", and after close both a read and a position
      query fail as closed. */
  method UnreadableAfterClose() returns (first: seq<Byte>, second: seq<Byte>,
                                         readAfter: Result<nat, IOError>, tellAfter: Result<nat, IOError>)
    ensures first == [] && second == [0x31]
    ensures readAfter == Failure(ClosedFile) && tellAfter == Failure(ClosedFile)
  {
    var chunk: Chunk := [0x31, 0x32, 0x33, 0x34, 0x35];
    var reader := new RawIterableReader([chunk]);
    ConcatSingle(chunk);
    var none := new Byte[0];
    var r := reader.ReadInto(none);
    first := none[..r.value];
    var one := new Byte[1];
    r := reader.ReadInto(one);
    second := one[..r.value];
    reader.Close();
    readAfter := reader.ReadInto(one);
    tellAfter := reader.Tell();
  }
}
