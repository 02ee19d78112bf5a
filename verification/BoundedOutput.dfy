/** Bounded capture of a drained pipe (smartbench/subprocess_utils.py): a streaming head and
    tail buffer that refines a batch description of the whole stream. */
module BoundedOutput {

  type Byte = bv8

  function Max(a: int, b: int): int { if a >= b then a else b }

  function Min(a: int, b: int): int { if a <= b then a else b }

  /** What a read loop delivers: every block up to the first empty one. */
  function Delivered(blocks: seq<seq<Byte>>): seq<Byte> {
    if blocks == [] || blocks[0] == [] then [] else blocks[0] + Delivered(blocks[1..])
  }

  /** block[:n] */
  function Take(block: seq<Byte>, n: nat): seq<Byte> { block[..Min(n, |block|)] }

  /** block[n:] */
  function Drop(block: seq<Byte>, n: nat): seq<Byte> { block[Min(n, |block|)..] }

  /** What is left after del tail[:-n] on a buffer that has outgrown n. */
  function KeepLast(tail: seq<Byte>, n: nat): seq<Byte> {
    if |tail| > n then tail[|tail| - n..] else tail
  }

  /** The first bytes of the stream, up to the head limit. */
  function HeadOf(data: seq<Byte>, headLimit: nat): seq<Byte> {
    data[..Min(|data|, headLimit)]
  }

  /** The last bytes after the head, up to the tail limit. */
  function TailOf(data: seq<Byte>, headLimit: nat, tailLimit: nat): seq<Byte> {
    var rest := data[Min(|data|, headLimit)..];
    rest[|rest| - Min(|rest|, tailLimit)..]
  }

  datatype Text = Whole(bytes: seq<Byte>) | Elided(head: seq<Byte>, omitted: int, tail: seq<Byte>)

  class Capture {
    const limit: nat
    const headLimit: nat
    const tailLimit: nat
    var head: seq<Byte>
    var tail: seq<Byte>
    var total: nat
    ghost var received: seq<Byte>

    /** The buffers are exactly the batch head and tail of everything received so far. */
    ghost predicate Valid()
      reads this
    {
      && 1 <= limit == headLimit + tailLimit && 1 <= headLimit
      && total == |received|
      && head == HeadOf(received, headLimit)
      && tail == TailOf(received, headLimit, tailLimit)
    }

    constructor (requested: int)
      ensures Valid() && received == []
      ensures limit == Max(1, requested) && headLimit == Max(1, limit * 3 / 4)
    {
      limit := Max(1, requested);
      headLimit := Max(1, Max(1, requested) * 3 / 4);
      tailLimit := Max(0, Max(1, requested) - Max(1, Max(1, requested) * 3 / 4));
      head, tail, total, received := [], [], 0, [];
    }

    /** consume: the list of blocks ends where the stream ends or reading fails. */
    method Consume(blocks: seq<seq<Byte>>)
      requires Valid()
      modifies this
      ensures Valid()
      ensures received == old(received) + Delivered(blocks)
    {
      var i := 0;
      while i < |blocks|
        invariant 0 <= i <= |blocks| && Valid()
        invariant received + Delivered(blocks[i..]) == old(received) + Delivered(blocks)
        decreases |blocks| - i
      {
        var block := blocks[i];
        i := i + 1;
        if block == [] {
          break;
        }
        TakeBlock(received, blocks, i - 1);
        Absorb(block);
      }
    }

    /** One iteration: fill the head first, then keep the newest bytes in the tail. */
    method Absorb(read: seq<Byte>)
      requires Valid()
      modifies this
      ensures Valid()
      ensures received == old(received) + read
    {
      AbsorbedBuffers(received, read, headLimit, tailLimit);
      var missingHead := headLimit - |head|;
      var block := read;
      if missingHead > 0 {
        head := head + Take(block, missingHead);
        block := Drop(block, missingHead);
      }
      if block != [] && tailLimit != 0 {
        tail := KeepLast(tail + block, tailLimit);
      }
      total := total + |read|;
      received := received + read;
    }

    /** text: the whole stream when it fits, else the head, the exact number of bytes left out,
        and the tail. */
    method Render() returns (text: Text)
      requires Valid()
      ensures text.Whole? <==> |received| <= limit
      ensures text.Whole? ==> text.bytes == received
      ensures text.Elided? ==> IsElision(received, text) && |text.head| == headLimit && |text.tail| == tailLimit
    {
      if total <= limit {
        WholeStreamFits(received, headLimit, tailLimit);
        text := Whole(head + tail);
      } else {
        ElisionIsExact(received, headLimit, tailLimit);
        text := Elided(head, total - |head| - |tail|, tail);
      }
    }
  }

  /** The omitted count is positive and is the number of bytes between head and tail. */
  ghost predicate IsElision(data: seq<Byte>, text: Text)
    requires text.Elided?
  {
    && text.omitted > 0
    && |text.head| + text.omitted + |text.tail| == |data|
    && data[..|text.head|] == text.head
    && data[|data| - |text.tail|..] == text.tail
  }

  lemma TakeBlock(sofar: seq<Byte>, blocks: seq<seq<Byte>>, i: nat)
    requires i < |blocks| && blocks[i] != []
    ensures sofar + Delivered(blocks[i..]) == (sofar + blocks[i]) + Delivered(blocks[i + 1..])
  {
    assert blocks[i..][1..] == blocks[i + 1..];
  }

  lemma HeadGrows(data: seq<Byte>, read: seq<Byte>, headLimit: nat)
    ensures |HeadOf(data, headLimit)| <= headLimit
    ensures HeadOf(data + read, headLimit) ==
            HeadOf(data, headLimit) + Take(read, headLimit - |HeadOf(data, headLimit)|)
  {}

  /** Appending a block to the tail and trimming equals taking the tail of the longer stream. */
  lemma TailGrows(data: seq<Byte>, read: seq<Byte>, headLimit: nat, tailLimit: nat)
    ensures |HeadOf(data, headLimit)| <= headLimit && |TailOf(data, headLimit, tailLimit)| <= tailLimit
    ensures TailOf(data + read, headLimit, tailLimit) ==
            LastOf(TailOf(data, headLimit, tailLimit) + Drop(read, headLimit - |HeadOf(data, headLimit)|), tailLimit)
  {
    var rest := Drop(read, headLimit - |HeadOf(data, headLimit)|);
    var old_ := data[Min(|data|, headLimit)..];
    assert (data + read)[Min(|data + read|, headLimit)..] == old_ + rest;
  }

  function LastOf(s: seq<Byte>, n: nat): seq<Byte> { s[Max(0, |s| - n)..] }

  lemma TrimTail(tail: seq<Byte>, block: seq<Byte>, tailLimit: nat)
    requires |tail| <= tailLimit
    ensures LastOf(tail + block, tailLimit) ==
            if block != [] && tailLimit != 0 then KeepLast(tail + block, tailLimit) else tail
  {}

  /** The batch buffers of a longer stream, computed from those of the shorter one. */
  lemma AbsorbedBuffers(data: seq<Byte>, read: seq<Byte>, headLimit: nat, tailLimit: nat)
    ensures var head, tail := HeadOf(data, headLimit), TailOf(data, headLimit, tailLimit);
            var missing := headLimit - |head|;
            var block := if missing > 0 then Drop(read, missing) else read;
            && 0 <= missing
            && HeadOf(data + read, headLimit) == (if missing > 0 then head + Take(read, missing) else head)
            && TailOf(data + read, headLimit, tailLimit) ==
               (if block != [] && tailLimit != 0 then KeepLast(tail + block, tailLimit) else tail)
  {
    HeadGrows(data, read, headLimit);
    TailGrows(data, read, headLimit, tailLimit);
    TrimTail(TailOf(data, headLimit, tailLimit), Drop(read, headLimit - |HeadOf(data, headLimit)|), tailLimit);
    TakeNothing(HeadOf(data, headLimit), read);
  }

  lemma TakeNothing(head: seq<Byte>, read: seq<Byte>)
    ensures head + Take(read, 0) == head && Drop(read, 0) == read
  {}

  lemma WholeStreamFits(data: seq<Byte>, headLimit: nat, tailLimit: nat)
    requires |data| <= headLimit + tailLimit
    ensures HeadOf(data, headLimit) + TailOf(data, headLimit, tailLimit) == data
  {}

  lemma ElisionIsExact(data: seq<Byte>, headLimit: nat, tailLimit: nat)
    requires |data| > headLimit + tailLimit
    ensures var head, tail := HeadOf(data, headLimit), TailOf(data, headLimit, tailLimit);
            |head| == headLimit && |tail| == tailLimit && IsElision(data, Elided(head, |data| - |head| - |tail|, tail))
  {}

  /** Chunking does not matter: feeding a stream in pieces leaves the buffers of one big read. */
  lemma {:induction false} ChunkingIsIrrelevant(blocks: seq<seq<Byte>>, more: seq<seq<Byte>>)
    requires forall i :: 0 <= i < |blocks| ==> blocks[i] != []
    ensures Delivered(blocks + more) == Delivered(blocks) + Delivered(more)
    decreases |blocks|
  {
    if blocks == [] {
      assert blocks + more == more;
    } else {
      ChunkingIsIrrelevant(blocks[1..], more);
      assert (blocks + more)[1..] == blocks[1..] + more;
    }
  }
}
