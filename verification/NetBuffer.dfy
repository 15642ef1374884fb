/** The network ring buffer of hm_netbuf.c: a circle of fixed-size blocks between the
    writers of a connection and a flusher that accepts as many bytes as it likes. The
    result is that the circle is one first-in first-out queue of bytes. */
module NetBuffer {
  import opened Octets

  const MAX_IO_BUFFER_SIZE: nat := 65536
  const E_PACKET2LONG: int := 1

  /** One block; its bytes in use are rawData[startPos..endPos]. */
  datatype Block = Block(isBusy: bool, startPos: nat, endPos: nat, rawData: seq<byte>) {
    predicate Ok()
    {
      |rawData| == MAX_IO_BUFFER_SIZE && startPos <= endPos <= MAX_IO_BUFFER_SIZE
    }

    function Bytes(): seq<byte>
      requires Ok()
    {
      rawData[startPos..endPos]
    }
  }

  /** memcpy of data into a block at the given position. */
  function Overwrite(raw: seq<byte>, pos: nat, data: seq<byte>): (r: seq<byte>)
    requires pos + |data| <= |raw|
    ensures |r| == |raw| && r[pos..pos + |data|] == data
    ensures forall k | 0 <= k < pos || pos + |data| <= k < |raw| :: r[k] == raw[k]
  {
    raw[..pos] + data + raw[pos + |data|..]
  }

  /** One call of the flush callback. */
  datatype Call = Call(offered: seq<byte>, ret: int) {
    predicate Full() { ret == |offered| }
  }

  /** A write goes straight to the callback when no block is busy. */
  predicate Direct(count: nat, data: seq<byte>) { count == 0 && 0 < |data| <= MAX_IO_BUFFER_SIZE }

  /** The flush callback: it fails, or accepts a prefix of the bytes it is offered. */
  class Flusher {
    var accepted: seq<byte>
    ghost var calls: seq<Call>

    constructor ()
      ensures accepted == [] && calls == []
    {
      accepted, calls := [], [];
    }

    method Flush(data: seq<byte>) returns (ret: int)
      modifies this
      ensures ret <= |data| && calls == old(calls) + [Call(data, ret)]
      ensures accepted == old(accepted) + data[..if ret < 0 then 0 else ret]
    {
      ret :| ret <= |data|;
      accepted := accepted + data[..if ret < 0 then 0 else ret];
      calls := calls + [Call(data, ret)];
    }
  }

  /** The calls after the first `n` are those of one flush: it goes on as long as the callback
      takes all it is offered. */
  ghost predicate StopsWhenShort(calls: seq<Call>, n: nat)
  {
    n <= |calls| && forall i | n <= i < |calls| - 1 :: calls[i].Full()
  }

  /** No call was made, or the last one took all it was offered. */
  ghost predicate EndsFull(calls: seq<Call>, n: nat) { |calls| <= n || calls[|calls| - 1].Full() }

  // ---------- The circle as a sequence of blocks ----------

  /** Index of the k-th busy block, counted from next_deal around the circle. */
  function Slot(first: nat, k: nat, n: nat): (i: nat)
    requires first < n && k <= n
    ensures i < n
  {
    if first + k < n then first + k else first + k - n
  }

  ghost predicate BlocksOk(blocks: seq<Block>) { forall i | 0 <= i < |blocks| :: blocks[i].Ok() }

  /** The bytes of `count` blocks from `first` on, in circular order. */
  ghost function Queue(blocks: seq<Block>, first: nat, count: nat): seq<byte>
    requires BlocksOk(blocks) && first < |blocks| && count <= |blocks|
    decreases count
  {
    if count == 0 then []
    else Queue(blocks, first, count - 1) + blocks[Slot(first, count - 1, |blocks|)].Bytes()
  }

  lemma {:induction false} QueueSame(blocks: seq<Block>, blocks': seq<Block>, first: nat, count: nat)
    requires BlocksOk(blocks) && BlocksOk(blocks') && |blocks| == |blocks'|
    requires first < |blocks| && count <= |blocks|
    requires forall k | 0 <= k < count ::
        blocks'[Slot(first, k, |blocks|)].Bytes() == blocks[Slot(first, k, |blocks|)].Bytes()
    ensures Queue(blocks', first, count) == Queue(blocks, first, count)
  {
    if count > 0 { QueueSame(blocks, blocks', first, count - 1); }
  }

  /** The queue can be read from its other end. */
  lemma {:induction false} QueueFirst(blocks: seq<Block>, first: nat, count: nat)
    requires BlocksOk(blocks) && first < |blocks| && 0 < count <= |blocks|
    ensures Queue(blocks, first, count) == blocks[first].Bytes() + Queue(blocks, Slot(first, 1, |blocks|), count - 1)
  {
    if count > 1 {
      var n, next, last := |blocks|, Slot(first, 1, |blocks|), blocks[Slot(first, count - 1, |blocks|)].Bytes();
      QueueFirst(blocks, first, count - 1);
      assert Slot(next, count - 2, n) == Slot(first, count - 1, n);
      calc {
        Queue(blocks, first, count);
        Queue(blocks, first, count - 1) + last;
        (blocks[first].Bytes() + Queue(blocks, next, count - 2)) + last;
        blocks[first].Bytes() + (Queue(blocks, next, count - 2) + last);
        blocks[first].Bytes() + Queue(blocks, next, count - 1);
      }
    }
  }

  /** The k-th slots of a circle are pairwise different. */
  lemma SlotInjective(first: nat, j: nat, k: nat, n: nat)
    requires first < n && j < k < n
    ensures Slot(first, j, n) != Slot(first, k, n)
  {
  }

  ghost predicate Busy(b: Block) { b.isBusy && b.startPos < b.endPos }

  /** The busy blocks are exactly the `count` ones from `first` on, and none is empty. */
  ghost predicate BusyRun(blocks: seq<Block>, first: nat, count: nat)
  {
    && first < |blocks| && count <= |blocks|
    && BlocksOk(blocks)
    && (forall k | 0 <= k < count :: Busy(blocks[Slot(first, k, |blocks|)]))
    && (forall k | count <= k < |blocks| :: !blocks[Slot(first, k, |blocks|)].isBusy)
  }

  /** The block after the last busy one is filled. */
  lemma AddLast(blocks: seq<Block>, b: Block, first: nat, count: nat)
    requires BusyRun(blocks, first, count) && count < |blocks| && b.Ok() && Busy(b)
    ensures
      var blocks' := blocks[Slot(first, count, |blocks|) := b];
      BusyRun(blocks', first, count + 1) && Queue(blocks', first, count + 1) == Queue(blocks, first, count) + b.Bytes()
  {
    var n := |blocks|;
    var blocks' := blocks[Slot(first, count, n) := b];
    forall k | 0 <= k < n && k != count ensures blocks'[Slot(first, k, n)] == blocks[Slot(first, k, n)] {
      if k < count { SlotInjective(first, k, count, n); } else { SlotInjective(first, count, k, n); }
    }
    QueueSame(blocks, blocks', first, count);
  }

  /** The last busy block is replaced by a longer one. */
  lemma ReplaceLast(blocks: seq<Block>, b: Block, first: nat, count: nat)
    requires BusyRun(blocks, first, count) && count > 0 && b.Ok() && Busy(b)
    ensures
      var blocks' := blocks[Slot(first, count - 1, |blocks|) := b];
      BusyRun(blocks', first, count) && Queue(blocks', first, count) == Queue(blocks, first, count - 1) + b.Bytes()
  {
    var n := |blocks|;
    var blocks' := blocks[Slot(first, count - 1, n) := b];
    forall k | 0 <= k < n && k != count - 1 ensures blocks'[Slot(first, k, n)] == blocks[Slot(first, k, n)] {
      if k < count - 1 { SlotInjective(first, k, count - 1, n); } else { SlotInjective(first, count - 1, k, n); }
    }
    QueueSame(blocks, blocks', first, count - 1);
  }

  /** The oldest block is replaced; the rest of the queue stays. */
  lemma ReplaceFirst(blocks: seq<Block>, b: Block, first: nat, count: nat)
    requires BusyRun(blocks, first, count) && count > 0 && b.Ok()
    ensures
      var blocks', next := blocks[first := b], Slot(first, 1, |blocks|);
      && (Busy(b) ==> BusyRun(blocks', first, count))
      && (!b.isBusy ==> BusyRun(blocks', next, count - 1))
      && Queue(blocks', first, count) == b.Bytes() + Queue(blocks', next, count - 1)
      && Queue(blocks, first, count) == blocks[first].Bytes() + Queue(blocks', next, count - 1)
  {
    var n := |blocks|;
    var blocks', next := blocks[first := b], Slot(first, 1, n);
    assert Slot(first, 0, n) == first;
    forall k | 1 <= k < n ensures blocks'[Slot(first, k, n)] == blocks[Slot(first, k, n)] {
      SlotInjective(first, 0, k, n);
    }
    assert forall k | 0 <= k < n :: Slot(next, k, n) == if k == n - 1 then first else Slot(first, k + 1, n);
    QueueFirst(blocks, first, count);
    QueueFirst(blocks', first, count);
    QueueSame(blocks, blocks', next, count - 1);
  }

  /** Bytes that move from the front of a queue to the end of what was sent. */
  lemma Moved(sent: seq<byte>, bytes: seq<byte>, rest: seq<byte>)
    ensures (sent + bytes) + rest == sent + (bytes + rest)
  {
  }

  class NetBuf {
    const flush: Flusher
    const numBuffers: nat
    const buff: array<Block>
    var noBlocks: bool
    var nextUse: nat
    var nextDeal: nat      // numBuffers when nothing is buffered
    var bufferBytes: int
    ghost var count: nat   // busy blocks

    /** First busy block, or where the next one goes. */
    ghost function First(): nat
      reads this
    {
      if count == 0 then nextUse else nextDeal
    }

    /** The indices describe a run of `count` blocks that starts at First. */
    ghost predicate Indices()
      reads this
    {
      && buff.Length == numBuffers && count <= numBuffers && nextUse < numBuffers
      && (count == 0 <==> nextDeal == numBuffers)
      && (count > 0 ==> nextDeal < numBuffers && nextUse == Slot(nextDeal, count, numBuffers))
      && (noBlocks <==> count == numBuffers)
    }

    ghost predicate Shape()
      reads this, buff
    {
      Indices() && BusyRun(buff[..], First(), count)
    }

    /** The bytes buffered, oldest first. */
    ghost function Contents(): seq<byte>
      requires Shape()
      reads this, buff
    {
      Queue(buff[..], First(), count)
    }

    /** Free bytes at the end of the last busy block. */
    ghost function LastRoom(): int
      requires Shape()
      reads this, buff
    {
      if count == 0 then 0 else MAX_IO_BUFFER_SIZE - buff[Slot(First(), count - 1, numBuffers)].endPos
    }

    ghost predicate Valid()
      reads this, buff
    {
      Shape() && bufferBytes == |Contents()|
    }

    constructor (nBlocks: nat, worker: Flusher)
      requires nBlocks > 0
      ensures Valid() && Contents() == [] && flush == worker && numBuffers == nBlocks && fresh(buff)
    {
      flush := worker;
      numBuffers := nBlocks;
      var zeros := seq(MAX_IO_BUFFER_SIZE, _ => 0);
      buff := new Block[nBlocks](_ => Block(false, 0, 0, zeros));
      noBlocks, nextUse, nextDeal, bufferBytes, count := false, 0, nBlocks, 0, 0;
    }

    /** hm_net_buf_last_pos */
    method LastPos() returns (last: int)
      requires Shape()
      ensures last == if count == 0 then -1 else Slot(First(), count - 1, numBuffers)
    {
      last := nextUse - 1;
      if last < 0 {
        last := numBuffers - 1;
      }
      assert last == Slot(First(), if count == 0 then numBuffers - 1 else count - 1, numBuffers);
      assert buff[last] == buff[..][last];
      if !buff[last].isBusy {
        last := -1;
      }
    }

    /** hm_net_buf_write_ok: one more block, at next_use, is busy. */
    method WriteOk()
      requires Indices() && count < numBuffers
      modifies this`nextDeal, this`nextUse, this`noBlocks, this`count
      ensures Indices() && count == old(count) + 1 && First() == old(First())
    {
      if nextDeal == numBuffers {
        nextDeal := nextUse;
      }
      nextUse := nextUse + 1;
      if nextUse >= numBuffers {
        nextUse := 0;
      }
      if nextUse == nextDeal {
        noBlocks := true;
      }
      count := count + 1;
    }

    /** hm_net_buf_flush_ok: the oldest block is free again. */
    method FlushOk()
      requires Shape() && count > 0
      modifies this`nextDeal, this`noBlocks, this`count, buff
      ensures Shape() && count == old(count) - 1
      ensures old(buff[nextDeal].Bytes()) + Contents() == old(Contents())
    {
      ghost var was, first, next := buff[..], nextDeal, Slot(nextDeal, 1, numBuffers);
      var b := buff[nextDeal].(isBusy := false, startPos := 0, endPos := 0);
      ReplaceFirst(was, b, first, count);
      buff[nextDeal] := b;
      noBlocks := false;
      nextDeal := nextDeal + 1;
      if nextDeal >= numBuffers {
        nextDeal := 0;
      }
      assert buff[..] == was[first := b] && Slot(next, 0, numBuffers) == next;
      b := buff[nextDeal];
      assert b == buff[..][next] && (b.isBusy <==> count > 1);
      if !b.isBusy {
        nextDeal := numBuffers;
      }
      count := count - 1;
    }

    /** The oldest block, whose flags the flush loop checks before it offers its bytes. */
    method Oldest() returns (b: Block)
      requires Shape() && count > 0
      ensures b == buff[nextDeal] && b.Ok() && Busy(b)
    {
      b := buff[nextDeal];
      assert b == buff[..][Slot(First(), 0, numBuffers)];
    }

    /** The flusher took only the first `taken` bytes of the oldest block. */
    method Consume(taken: nat)
      requires Shape() && count > 0
      requires buff[nextDeal].Ok() && taken < |buff[nextDeal].Bytes()|
      modifies buff
      ensures Shape()
      ensures old(buff[nextDeal].Bytes()[..taken]) + Contents() == old(Contents())
    {
      var b := Oldest();
      ghost var was := buff[..];
      var b' := b.(startPos := b.startPos + taken);
      ReplaceFirst(was, b', nextDeal, count);
      buff[nextDeal] := b';
      assert buff[..] == was[nextDeal := b'];
      assert b.Bytes() == b.Bytes()[..taken] + b'.Bytes();
    }

    /** Nothing is buffered exactly when no block is busy. */
    lemma EmptyWhenNone()
      requires Shape()
      ensures Contents() == [] <==> count == 0
      ensures count > 0 ==> buff[nextDeal].Ok()
    {
      if count > 0 {
        QueueFirst(buff[..], nextDeal, count);
        assert Busy(buff[..][Slot(nextDeal, 0, numBuffers)]);
      }
    }

    /** One offer of the flush loop: the oldest block, to the flusher. The result says
        whether the flusher took all of it; the counters follow what it took. */
    method Offer() returns (ret: int, all: bool)
      requires Valid() && count > 0 && buff[nextDeal].Ok()
      modifies this, buff, flush
      ensures Valid()
      ensures flush.accepted + Contents() == old(flush.accepted + Contents())
      ensures old(flush.accepted) <= flush.accepted
      ensures all ==> ret > 0 && count == old(count) - 1
      ensures !all ==> count == old(count)
      ensures flush.calls == old(flush.calls) + [Call(old(buff[nextDeal].Bytes()), ret)]
      ensures all <==> ret == |old(buff[nextDeal].Bytes())|
    {
      var b := Oldest();
      assert b.isBusy;
      var left := b.endPos - b.startPos;
      assert left > 0;
      ghost var sent := flush.accepted;
      ret := flush.Flush(b.rawData[b.startPos..b.startPos + left]);
      all := ret == left;
      if ret >= 0 {
        bufferBytes := bufferBytes - ret;
        if all {
          FlushOk();
          Moved(sent, b.Bytes(), Contents());
        } else {
          Consume(ret);
          Moved(sent, b.Bytes()[..ret], Contents());
        }
      }
    }

    /** __hm_net_buf_flush: offers the oldest bytes until the flusher takes fewer than
        a block or fails. No BUG() of the source is reachable. */
    method Flush() returns (ret: int)
      requires Valid()
      modifies this, buff, flush
      ensures Valid()
      ensures old(flush.accepted) <= flush.accepted
      ensures flush.accepted + Contents() == old(flush.accepted + Contents())
      ensures ret >= 0 ==> ret == |Contents()|
      ensures old(flush.calls) <= flush.calls && StopsWhenShort(flush.calls, |old(flush.calls)|)
      ensures Contents() == [] <==> EndsFull(flush.calls, |old(flush.calls)|)
      ensures ret < 0 ==> flush.calls != old(flush.calls) && flush.calls[|flush.calls| - 1].ret == ret
      ensures old(Contents()) == [] ==> flush.calls == old(flush.calls)
      ensures old(Contents()) != [] ==> flush.calls != old(flush.calls)
    {
      ghost var before, total, calls := flush.accepted, flush.accepted + Contents(), flush.calls;
      while true
        invariant Valid() && before <= flush.accepted
        invariant flush.accepted + Contents() == total
        invariant calls <= flush.calls && forall i | |calls| <= i < |flush.calls| :: flush.calls[i].Full()
        invariant flush.calls == calls ==> Contents() == old(Contents())
        invariant old(Contents()) == [] ==> flush.calls == calls
        decreases count
      {
        EmptyWhenNone();
        if nextDeal == numBuffers {
          return 0;
        }
        var all: bool;
        ret, all := Offer();
        if ret < 0 {
          return;
        }
        if !all {
          return bufferBytes;
        }
      }
    }

    /** The data goes behind the bytes of the last busy block. */
    method ExtendLast(last: nat, data: seq<byte>)
      requires Shape() && count > 0 && last == Slot(First(), count - 1, numBuffers)
      requires buff[last].endPos + |data| <= MAX_IO_BUFFER_SIZE
      modifies buff
      ensures Shape() && Contents() == old(Contents()) + data
    {
      ghost var was := buff[..];
      var b := buff[last];
      assert b == was[last] && Busy(b);
      var b' := b.(rawData := Overwrite(b.rawData, b.endPos, data), endPos := b.endPos + |data|);
      assert b'.Bytes() == b.Bytes() + data;
      ReplaceLast(was, b', First(), count);
      buff[last] := b';
      assert buff[..] == was[last := b'];
    }

    /** hm_net_buf_append: straight to the flusher when nothing is buffered, otherwise at the
        end of the last block if there is room. */
    method Append(data: seq<byte>, pending: int) returns (ret: int, pending': int)
      requires Valid()
      modifies this, buff, flush
      ensures Valid() && count == old(count) && noBlocks == old(noBlocks) && ret <= |data|
      ensures
        var taken := data[..if ret < 0 then 0 else ret];
        if count == 0 then Contents() == [] && flush.accepted == old(flush.accepted) + taken
        else flush.accepted == old(flush.accepted) && Contents() == old(Contents()) + taken
      ensures pending' == if data == [] || |data| > MAX_IO_BUFFER_SIZE then pending
                          else if count == 0 && ret == |data| then 0 else 1
      ensures |data| > MAX_IO_BUFFER_SIZE ==> ret == -E_PACKET2LONG && flush.accepted == old(flush.accepted)
      ensures data == [] ==> ret == 0
      ensures flush.calls == old(flush.calls) + if Direct(old(count), data) then [Call(data, ret)] else []
      ensures count > 0 && 0 < |data| <= MAX_IO_BUFFER_SIZE ==> ret == if old(LastRoom()) >= |data| then |data| else 0
    {
      if |data| > MAX_IO_BUFFER_SIZE {
        return -E_PACKET2LONG, pending;
      }
      if data == [] {
        return 0, pending;
      }
      pending' := 1;
      var last := LastPos();
      if last < 0 {
        var left := flush.Flush(data);
        if left == |data| {
          pending' := 0;
        }
        return left, pending';
      }
      var left := MAX_IO_BUFFER_SIZE - buff[last].endPos;
      if left >= |data| {
        ExtendLast(last, data);
        bufferBytes := bufferBytes + |data|;
        return |data|, pending';
      }
      return 0, pending';
    }

    /** The data fills the block at next_use. */
    method FillNext(data: seq<byte>)
      requires Valid() && count < numBuffers && 0 < |data| <= MAX_IO_BUFFER_SIZE
      modifies this, buff
      ensures Valid() && Contents() == old(Contents()) + data
    {
      ghost var was := buff[..];
      var b := buff[nextUse];
      assert nextUse == Slot(First(), count, numBuffers) && b == was[nextUse];
      assert !b.isBusy;
      var b' := Block(true, 0, |data|, Overwrite(b.rawData, 0, data));
      AddLast(was, b', First(), count);
      buff[nextUse] := b';
      assert buff[..] == was[nextUse := b'];
      bufferBytes := bufferBytes + |data|;
      WriteOk();
    }

    /** __hm_net_buf_write: a write is taken as a whole or not at all. */
    method Write(data: seq<byte>, pending: int) returns (ret: int, pending': int)
      requires Valid()
      modifies this, buff, flush
      ensures Valid()
      ensures ret > 0 ==> ret == |data|
      ensures ret > 0 ==> flush.accepted + Contents() == old(flush.accepted + Contents()) + data
      ensures old(flush.accepted) <= flush.accepted
      ensures ret <= 0 ==> flush.accepted == old(flush.accepted) && Contents() == old(Contents())
      ensures |data| > MAX_IO_BUFFER_SIZE ==> ret == -E_PACKET2LONG
      ensures ret == 0 <==> data == [] || (old(count) == numBuffers && old(LastRoom()) < |data| <= MAX_IO_BUFFER_SIZE)
      ensures ret > 0 ==> pending' == if Contents() == [] then 0 else 1
      ensures Direct(old(count), data) ==> exists taken ::
        flush.calls == old(flush.calls) + [Call(data, taken)] && ret == if taken < 0 then taken else |data|
      ensures !Direct(old(count), data) ==> flush.calls == old(flush.calls)
      ensures !Direct(old(count), data) && |data| <= MAX_IO_BUFFER_SIZE ==> ret >= 0
    {
      ghost var before, queued := flush.accepted, Contents();
      ret, pending' := Append(data, pending);
      if ret < 0 {
        return;
      }
      assert data[..ret] + data[ret..] == data;
      ghost var sent := flush.accepted;
      assert sent + Contents() == before + queued + data[..ret];
      var size := |data| - ret;
      if size == 0 {
        return |data|, pending';
      }
      if noBlocks {
        return 0, pending';
      }
      ghost var kept := Contents();
      FillNext(data[ret..]);
      Moved(sent, kept, data[ret..]);
      Moved(before + queued, data[..ret], data[ret..]);
      return |data|, pending';
    }
  }

  // ---------- Whole runs ----------

  datatype Op = Write(data: seq<byte>) | Flush

  ghost function TakenBy(op: Op, ret: int): seq<byte> { if op.Write? && ret > 0 then op.data else [] }

  /** The bytes of the writes that were taken. */
  ghost function Taken(ops: seq<Op>, rets: seq<int>): seq<byte>
    requires |ops| == |rets|
  {
    if ops == [] then []
    else
      var n := |ops| - 1;
      Taken(ops[..n], rets[..n]) + TakenBy(ops[n], rets[n])
  }

  lemma TakenStep(ops: seq<Op>, rets: seq<int>, ret: int)
    requires |rets| < |ops|
    ensures
      var n := |rets|;
      Taken(ops[..n + 1], rets + [ret]) == Taken(ops[..n], rets) + TakenBy(ops[n], ret)
  {
    assert ops[..|rets| + 1][..|rets|] == ops[..|rets|] && (rets + [ret])[..|rets|] == rets;
  }

  method Perform(buf: NetBuf, op: Op, pending: int) returns (ret: int, pending': int)
    requires buf.Valid()
    modifies buf, buf.buff, buf.flush
    ensures buf.Valid()
    ensures op.Write? && ret > 0 ==> ret == |op.data|
    ensures buf.flush.accepted + buf.Contents() == old(buf.flush.accepted + buf.Contents()) + TakenBy(op, ret)
  {
    pending' := pending;
    match op
    case Write(data) => ret, pending' := buf.Write(data, pending);
    case Flush => ret := buf.Flush();
  }

  /** Any sequence of writes and flushes, with any flusher: what the flusher has accepted
      and then what is still buffered is the concatenation of the writes that were taken. */
  method Run(buf: NetBuf, ops: seq<Op>) returns (rets: seq<int>)
    requires buf.Valid()
    modifies buf, buf.buff, buf.flush
    ensures buf.Valid() && |rets| == |ops|
    ensures buf.flush.accepted + buf.Contents() == old(buf.flush.accepted + buf.Contents()) + Taken(ops, rets)
  {
    rets := [];
    var pending := 0;
    ghost var start := buf.flush.accepted + buf.Contents();
    while |rets| < |ops|
      invariant buf.Valid() && |rets| <= |ops|
      invariant buf.flush.accepted + buf.Contents() == start + Taken(ops[..|rets|], rets)
    {
      var ret: int;
      ret, pending := Perform(buf, ops[|rets|], pending);
      TakenStep(ops, rets, ret);
      Moved(start, Taken(ops[..|rets|], rets), TakenBy(ops[|rets|], ret));
      rets := rets + [ret];
    }
    assert ops[..|ops|] == ops;
  }

  /** hm_net_buf_alloc */
  method Alloc(nBlocks: int, worker: Flusher?) returns (buf: NetBuf?)
    ensures buf == null <==> nBlocks <= 0 || worker == null
    ensures buf != null ==> fresh(buf) && buf.Valid() && buf.Contents() == [] && buf.flush == worker
  {
    if nBlocks <= 0 || worker == null {
      return null;
    }
    buf := new NetBuf(nBlocks, worker);
  }
}
