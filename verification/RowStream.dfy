/** Result streaming of the Go driver: readRows, Next, fill, Close and finishLocked against a server
    that follows the protocol. */
module RowStream {
  import opened Bytes

  type Row = seq<byte>

  datatype Frame =
    | RowDesc
    | DataBatch(rows: seq<Row>)
    | CommandComplete(affected: int)
    | ErrorFrame(code: int)
    | Ready

  datatype End = Completes(affected: int) | Fails(code: int)

  /** What a conforming server sends for one statement: a description and batches, or neither,
      then the outcome and Ready. */
  datatype Script = Script(described: bool, batches: seq<seq<Row>>, end: End)

  function EndFrames(e: End): seq<Frame>
  {
    [if e.Completes? then CommandComplete(e.affected) else ErrorFrame(e.code), Ready]
  }

  function BatchFrames(bs: seq<seq<Row>>): (fs: seq<Frame>)
    ensures |fs| == |bs|
  {
    seq(|bs|, k requires 0 <= k < |bs| => DataBatch(bs[k]))
  }

  function Concat(bs: seq<seq<Row>>): seq<Row>
  {
    if bs == [] then [] else Concat(bs[..|bs| - 1]) + bs[|bs| - 1]
  }

  /** FlowAcks due for the first k batches: one for each batch that has rows. */
  function Acked(bs: seq<seq<Row>>): nat
  {
    if bs == [] then 0 else Acked(bs[..|bs| - 1]) + (if bs[|bs| - 1] != [] then 1 else 0)
  }

  predicate NonEmpty(bs: seq<seq<Row>>)
  {
    forall k :: 0 <= k < |bs| ==> bs[k] != []
  }

  lemma {:induction false} AckedAll(bs: seq<seq<Row>>)
    ensures Acked(bs) <= |bs|
    ensures Acked(bs) == |bs| <==> NonEmpty(bs)
  {
    if bs != [] {
      var init := bs[..|bs| - 1];
      AckedAll(init);
      assert NonEmpty(bs) <==> NonEmpty(init) && bs[|bs| - 1] != [];
    }
  }

  lemma {:induction false} ConcatPrefix(bs: seq<seq<Row>>, k: nat)
    requires k < |bs|
    ensures Concat(bs[..k + 1]) == Concat(bs[..k]) + bs[k]
    ensures Concat(bs[..k + 1]) <= Concat(bs)
    decreases |bs|
  {
    assert bs[..k + 1][..k] == bs[..k];
    if k == |bs| - 1 {
      assert bs[..k + 1] == bs;
    } else {
      var init := bs[..|bs| - 1];
      ConcatPrefix(init, k);
      assert init[..k + 1] == bs[..k + 1];
    }
  }

  datatype Call = CallNext | CallClose

  class Rows {
    // the connection
    var inbox: seq<Frame>
    var acks: nat
    var busy: bool
    var unlocks: nat
    // the result
    var batch: seq<Row>
    var i: nat
    var done: bool
    var closed: bool
    var err: Option<int>
    var affected: int

    ghost const script: Script
    ghost const rest: seq<Frame>
    /** Batches read so far, and rows stepped over so far. */
    ghost var read: nat
    ghost var pos: nat

    ghost predicate Streaming()
      reads this
    {
      && !closed && !done && err.None? && busy && unlocks == 0
      && read <= |script.batches|
      && inbox == BatchFrames(script.batches[read..]) + EndFrames(script.end) + rest
      && batch == (if read == 0 then [] else script.batches[read - 1]) && i <= |batch|
      && acks == (if read == 0 then 0 else Acked(script.batches[..read - 1]))
      && pos == (if read == 0 then 0 else |Concat(script.batches[..read - 1])|) + i
    }

    /** The statement ran to its outcome: every frame through Ready is consumed, every batch that
        had rows was acknowledged, every row was stepped over, the lock was released once. */
    ghost predicate Finished()
      reads this
    {
      && closed && !busy && unlocks == 1 && inbox == rest
      && read == |script.batches| && acks == Acked(script.batches) && pos == |Concat(script.batches)|
      && i == |batch|
      && (script.end.Completes? ==> err.None? && done && affected == script.end.affected)
      && (script.end.Fails? ==> err == Some(script.end.code))
    }

    /** Closed early, which only an empty batch can cause. */
    ghost predicate Abandoned()
      reads this
    {
      && closed && !done && err.None? && !busy && unlocks == 1
      && 0 < read <= |script.batches| && script.batches[read - 1] == []
      && inbox == BatchFrames(script.batches[read..]) + EndFrames(script.end) + rest
    }

    ghost predicate Valid()
      reads this
    {
      (Streaming() && script.described) || Finished() || Abandoned()
    }

    /** readRows: the first frame decides. Query holds the lock and has set busy. */
    constructor (script: Script, rest: seq<Frame>)
      requires !script.described ==> script.batches == []
      ensures Valid() && this.script == script && this.rest == rest
      ensures script.described ==> Streaming() && read == 0 && pos == 0
      ensures !script.described ==> Finished()
    {
      inbox := (if script.described then [RowDesc] else []) + BatchFrames(script.batches) + EndFrames(script.end)
          + rest;
      acks, busy, unlocks, batch, i, done, closed, err, affected := 0, true, 0, [], 0, false, false, None, 0;
      this.script, this.rest, read, pos := script, rest, 0, 0;
      new;
      assert script.batches[0..] == script.batches;
      match inbox[0]
      case RowDesc =>
        inbox := inbox[1..];
        assert inbox == BatchFrames(script.batches) + EndFrames(script.end) + rest;
      case CommandComplete(n) =>
        affected, done := n, true;
        inbox := inbox[2..];
        busy, unlocks, closed := false, unlocks + 1, true;
        assert inbox == rest;
      case ErrorFrame(code) =>
        err := Some(code);
        inbox := inbox[2..];
        busy, unlocks, closed := false, unlocks + 1, true;
        assert inbox == rest;
      case _ =>
        assert false;
    }

    method FinishLocked()
      requires busy <==> !closed
      modifies this
      ensures closed && !busy && unlocks == if old(closed) then old(unlocks) else old(unlocks) + 1
      ensures inbox == old(inbox) && acks == old(acks) && batch == old(batch) && i == old(i) && done == old(done)
      ensures err == old(err) && affected == old(affected) && read == old(read) && pos == old(pos)
    {
      if !closed {
        busy, unlocks := false, unlocks + 1;
      }
      closed := true;
    }

    /** fill and the error path of Next: acknowledge the spent batch, read one frame, act on it. */
    method Fill()
      requires Streaming() && script.described && i == |batch|
      modifies this
      ensures pos == old(pos)
      ensures old(read) < |script.batches| ==>
                Streaming() && read == old(read) + 1 && i == 0 && batch == script.batches[old(read)]
      ensures old(read) == |script.batches| ==> Finished()
    {
      hide Concat, Acked, BatchFrames, EndFrames;
      if !done && |batch| > 0 {
        acks := acks + 1;
      }
      AckStep();
      FramesFrom();
      if inbox[0].DataBatch? {
        inbox, batch, i, read := inbox[1..], inbox[0].rows, 0, read + 1;
      } else {
        Outcome();
      }
    }

    /** The outcome frame and the Ready behind it. */
    method Outcome()
      requires !closed && !done && err.None? && busy && unlocks == 0 && |inbox| >= 2 && inbox[2..] == rest
      requires inbox[0]
               == if script.end.Completes? then CommandComplete(script.end.affected) else ErrorFrame(script.end.code)
      requires read == |script.batches| && acks == Acked(script.batches) && pos == |Concat(script.batches)|
               && i == |batch|
      modifies this
      ensures Finished() && pos == old(pos) && read == old(read)
    {
      hide Concat, Acked;
      if inbox[0].CommandComplete? {
        affected, done, batch, i := inbox[0].affected, true, [], 0;
      } else {
        err := Some(inbox[0].code);
      }
      inbox := inbox[2..];
      FinishLocked();
    }

    lemma AckStep()
      requires read <= |script.batches|
      ensures read > 0
              ==> Acked(script.batches[..read])
                  == Acked(script.batches[..read - 1]) + (if script.batches[read - 1] != [] then 1 else 0)
      ensures read > 0
              ==> |Concat(script.batches[..read])| == |Concat(script.batches[..read - 1])| + |script.batches[read - 1]|
      ensures script.batches[..|script.batches|] == script.batches
      ensures Acked(script.batches[..0]) == 0 && |Concat(script.batches[..0])| == 0
    {
      if read > 0 {
        assert script.batches[..read][..read - 1] == script.batches[..read - 1];
      }
    }

    lemma FramesFrom()
      requires read <= |script.batches|
      requires inbox == BatchFrames(script.batches[read..]) + EndFrames(script.end) + rest
      ensures read < |script.batches| ==>
                && inbox[0] == DataBatch(script.batches[read])
                && inbox[1..] == BatchFrames(script.batches[read + 1..]) + EndFrames(script.end) + rest
      ensures read == |script.batches| ==>
                && |inbox| >= 2 && inbox[2..] == rest
                && inbox[0]
                   == if script.end.Completes? then CommandComplete(script.end.affected)
                       else ErrorFrame(script.end.code)
    {
      var bs := script.batches[read..];
      if read < |script.batches| {
        assert bs[1..] == script.batches[read + 1..];
        assert BatchFrames(bs)[1..] == BatchFrames(bs[1..]);
      }
    }

    /** One step of the iteration. True hands out the next row of the concatenated batches; false
        means the result is over, or the batch just read had no rows. */
    method Next() returns (more: bool)
      requires Valid()
      modifies this
      ensures Valid()
      ensures more ==> Streaming() && old(pos) < |Concat(script.batches)| && pos == old(pos) + 1
                       && 0 < i <= |batch| && batch[i - 1] == Concat(script.batches)[old(pos)]
      ensures !more ==> pos == old(pos)
      ensures !more ==> closed || (Streaming() && 0 < read && batch == [])
      ensures NonEmpty(script.batches) && !more && !old(Abandoned()) ==> Finished()
      ensures old(closed) ==> unchanged(this) && !more
      ensures old(Streaming()) && (more || Streaming())
              ==> read == old(read) || (read == old(read) + 1 && (more ==> script.batches[old(read)] != []))
      ensures old(Streaming()) && !more && Streaming() ==> read == old(read) + 1
      ensures old(Streaming()) && Finished() ==> read == old(read)
      ensures old(Streaming()) ==> !Abandoned()
    {
      hide Concat, Acked, BatchFrames, EndFrames;
      if closed || err.Some? { return false; }
      if i < |batch| {
        RowAt();
        i := i + 1;
        pos := pos + 1;
        return true;
      }
      if done { return false; }
      Fill();
      if err.None? && !closed && i < |batch| {
        RowAt();
        i := i + 1;
        pos := pos + 1;
        return true;
      }
      return false;
    }

    lemma RowAt()
      requires Streaming() && i < |batch|
      ensures pos < |Concat(script.batches)| && Concat(script.batches)[pos] == batch[i]
    {
      ConcatPrefix(script.batches, read - 1);
      var c, p := Concat(script.batches), Concat(script.batches[..read - 1]);
      assert p + batch <= c;
      assert (p + batch)[|p| + i] == batch[i];
    }

    /** Every caller order: the rows Next hands out before any Close are the concatenated batches in
        order, and the lock is released at most once. */
    method Drive(calls: seq<Call>) returns (got: seq<Row>)
      requires Streaming() && script.described && pos == 0
      modifies this
      ensures Valid() && unlocks == (if closed then 1 else 0)
      ensures got <= Concat(script.batches)
      ensures NonEmpty(script.batches) && closed ==> Finished() && acks == |script.batches|
      ensures NonEmpty(script.batches) && closed && CallClose !in calls ==> got == Concat(script.batches)
    {
      hide Acked, BatchFrames, EndFrames, Concat, NonEmpty;
      got := [];
      var handing := true;
      for k := 0 to |calls|
        invariant Valid() && unlocks == (if closed then 1 else 0)
        invariant handing ==> pos <= |Concat(script.batches)| && got == Concat(script.batches)[..pos]
        invariant got <= Concat(script.batches)
        invariant CallClose !in calls[..k] ==> handing
        invariant NonEmpty(script.batches) && closed ==> Finished()
      {
        match calls[k]
        case CallNext =>
          ghost var before := pos;
          var more := Next();
          if more && handing {
            got := got + [batch[i - 1]];
            assert Concat(script.batches)[..before] + [Concat(script.batches)[before]]
              == Concat(script.batches)[..before + 1];
          }
        case CallClose =>
          handing := false;
          CloseRows();
      }
      AckedAll(script.batches);
    }

    /** Close drains what is left. It reaches the frame boundary exactly when no batch still to be
        read is empty; otherwise it releases the connection with frames of this statement unread. */
    method CloseRows()
      requires Valid()
      modifies this
      ensures Valid() && closed && unlocks == 1
      ensures NonEmpty(script.batches) && !old(Abandoned()) ==> Finished()
      ensures old(Streaming()) ==> (Finished() <==> NonEmpty(script.batches[old(read)..]))
      ensures old(Streaming()) ==> (inbox == rest <==> NonEmpty(script.batches[old(read)..]))
      ensures old(closed) ==> unchanged(this)
    {
      hide Concat, Acked, BatchFrames, EndFrames;
      if closed { return; }
      ghost var from := read;
      Drain();
      if !closed {
        FinishLocked();
        FramesLeft(from);
      } else {
        AllRead(from);
      }
    }

    /** The loop of Close: it stops at the outcome or at the first empty batch. */
    method Drain()
      requires Streaming() && script.described
      modifies this
      ensures Valid() && !Abandoned() && old(read) <= read
      ensures !closed ==> Streaming() && old(read) < read && batch == []
      ensures closed ==> forall k :: old(read) <= k < read ==> script.batches[k] != []
    {
      hide Concat, Acked, BatchFrames, EndFrames;
      ghost var from := read;
      var more := Next();
      while more
        invariant Valid() && (more ==> Streaming()) && !Abandoned()
        invariant !more ==> closed || (Streaming() && from < read && batch == [])
        invariant from <= read
        invariant more || closed ==> forall k :: from <= k < read ==> script.batches[k] != []
        decreases more, |Concat(script.batches)| - pos
      {
        more := Next();
      }
    }

    lemma AllRead(from: nat)
      requires from <= |script.batches| && forall k :: from <= k < |script.batches| ==> script.batches[k] != []
      ensures NonEmpty(script.batches[from..])
    {
    }

    lemma FramesLeft(from: nat)
      requires from < read <= |script.batches| && script.batches[read - 1] == []
      ensures !NonEmpty(script.batches[from..])
      ensures |BatchFrames(script.batches[read..]) + EndFrames(script.end) + rest| > |rest|
    {
      assert script.batches[from..][read - 1 - from] == [];
    }
  }

  /** One empty batch: Close releases the connection with the outcome of the statement and its Ready still unread. */
  method EmptyBatch(affected: int) returns (r: Rows)
    ensures r.closed && !r.busy && r.unlocks == 1 && r.rest == [] && r.inbox == [CommandComplete(affected), Ready]
  {
    r := new Rows(Script(true, [[]], Completes(affected)), []);
    assert r.script.batches[0..][0] == [];
    r.CloseRows();
    assert BatchFrames(r.script.batches[1..]) + EndFrames(r.script.end) + [] == [CommandComplete(affected), Ready];
  }
}
