/** The thread that encodes the blocks of a result (src/block_encoder.hpp), as atomic steps: each method is one region
    under the mutex, or the encoding of one block between two of them, so any sequence of calls is an interleaving. */
module BlockEncoder {
  import opened Common

  type Block = int

  /** What the worker thread does. */
  datatype Worker = Waiting | Encoding(block: Block) | Gone

  datatype Submission = Blocked | Pushed | Failed | Canceled

  /** The blocks that a worker still holds. */
  function Held(w: Worker): seq<Block> {
    if w.Encoding? then [w.block] else []
  }

  class BlockEncoder {
    const depth: nat
    var queue: seq<Block>
    var closing: bool
    var error: bool
    var worker: Worker
    ghost var submitted: seq<Block>
    ghost var encoded: seq<Block>
    // The blocks that were submitted when the end was marked; nothing before it.
    ghost var atClose: Option<seq<Block>>
    ghost var dropped: bool

    ghost predicate Valid()
      reads this
    {
      && depth > 0 && |queue| <= depth
      && encoded + Held(worker) + queue <= submitted
      && (!error && !dropped ==> encoded + Held(worker) + queue == submitted)
      && (error ==> worker == Gone && queue == [])
      && (worker == Gone && !error ==> closing)
      && (closing <==> atClose.Some?)
      && (closing ==> atClose.value <= submitted)
      && (dropped ==> closing && queue == [])
      && (worker == Gone && !error && !dropped ==> atClose.value <= encoded)
    }

    constructor (depth: nat)
      ensures Valid() && submitted == [] && encoded == [] && !closing && !error && !dropped
      ensures this.depth == Max(1, depth) && queue == [] && worker == Waiting
    {
      this.depth := Max(1, depth);
      queue, closing, error, worker := [], false, false, Waiting;
      submitted, encoded, atClose, dropped := [], [], None, false;
    }

    /** What the producer waits for. */
    predicate CanSubmit(canceled: bool)
      reads this
    {
      |queue| < depth || error || canceled
    }

    /** One try of submit. Only the destructor drops blocks, and nobody submits after it. */
    method Submit(block: Block, canceled: bool) returns (result: Submission)
      requires Valid() && !dropped
      modifies `queue, `submitted
      ensures Valid()
      ensures result.Blocked? <==> !old(CanSubmit(canceled))
      ensures result.Failed? <==> error
      ensures result.Canceled? <==> !error && canceled
      ensures if result.Pushed? then submitted == old(submitted) + [block] && queue == old(queue) + [block]
              else submitted == old(submitted) && queue == old(queue)
    {
      if !CanSubmit(canceled) {
        result := Blocked;
      } else if error {
        result := Failed;
      } else if canceled {
        result := Canceled;
      } else {
        ConcatAssociative(encoded + Held(worker), queue, [block]);
        queue, submitted := queue + [block], submitted + [block];
        result := Pushed;
      }
    }

    /** stop(drain): the end is marked; without drain the waiting blocks are dropped. */
    method Close(drain: bool)
      requires Valid()
      modifies `closing, `queue, `atClose, `dropped
      ensures Valid() && closing
      ensures atClose == if old(closing) then old(atClose) else Some(submitted)
      ensures queue == (if drain then old(queue) else []) && dropped == (old(dropped) || !drain)
    {
      atClose := if closing then atClose else Some(submitted);
      closing := true;
      if !drain {
        PrefixWithout(encoded + Held(worker), queue, submitted);
        queue, dropped := [], true;
      }
    }

    /** The steps that the worker still has, when nothing more is submitted. */
    ghost function Remaining(): nat
      reads this
    {
      2 * |queue| + (if worker.Gone? then 0 else if worker.Encoding? then 2 else 1)
    }

    /** The worker takes the next block, or it leaves when the end is marked and nothing waits. */
    method Take() returns (moved: bool)
      requires Valid() && worker.Waiting?
      modifies `worker, `queue
      ensures Valid()
      ensures moved <==> old(queue) != [] || closing
      ensures old(queue) != [] ==> worker == Encoding(old(queue)[0]) && queue == old(queue)[1..]
      ensures old(queue) == [] ==> queue == [] && worker == if closing then Gone else Waiting
      ensures moved ==> Remaining() < old(Remaining())
    {
      moved := true;
      if queue != [] {
        assert encoded + Held(worker) + queue == encoded + [queue[0]] + queue[1..];
        worker, queue := Encoding(queue[0]), queue[1..];
      } else if closing {
        assert encoded + [] + [] == encoded;
        worker := Gone;
      } else {
        moved := false;
      }
    }

    /** The encoder took the block, or it threw: then nothing more is encoded. */
    method Encode(ok: bool)
      requires Valid() && worker.Encoding?
      modifies `worker, `encoded, `error, `queue
      ensures Valid()
      ensures ok ==> encoded == old(encoded) + [old(worker).block] && worker == Waiting && queue == old(queue) && !error
      ensures !ok ==> encoded == old(encoded) && worker == Gone && queue == [] && error
      ensures Remaining() < old(Remaining())
    {
      if ok {
        ghost var was := encoded + Held(worker) + queue;
        encoded, worker := encoded + [worker.block], Waiting;
        assert encoded + [] + queue == was;
      } else {
        PrefixWithout(encoded, Held(worker) + queue, submitted);
        ConcatAssociative(encoded, Held(worker), queue);
        error, worker, queue := true, Gone, [];
      }
    }

    /** finish() after the worker thread is joined: the blocks that were submitted before the end was marked are
        encoded, each once and in their order. A block that was submitted when the worker had already left is not: every
        submitted block is encoded exactly when nothing waits in the queue. */
    method Finish() returns (ok: bool)
      requires Valid() && worker.Gone? && closing && !dropped
      ensures ok <==> !error
      ensures ok ==> atClose.value <= encoded <= submitted && submitted == encoded + queue
      ensures ok ==> (encoded == submitted <==> queue == [])
      ensures ok && submitted == atClose.value ==> encoded == submitted
      ensures !ok ==> encoded <= submitted
    {
      ok := !error;
      PrefixWithout(encoded, Held(worker) + queue, submitted);
      ConcatAssociative(encoded, Held(worker), queue);
    }

    /** The worker alone, after the end is marked: it needs no more than `Remaining` steps. */
    method Join(failAt: nat) returns (steps: nat)
      requires Valid() && closing
      modifies `worker, `queue, `encoded, `error
      ensures Valid() && worker.Gone? && steps <= old(Remaining())
      ensures submitted == old(submitted) && old(encoded) <= encoded
      ensures dropped ==> encoded <= old(encoded + Held(worker))
    {
      steps := 0;
      while !worker.Gone?
        invariant Valid() && old(encoded) <= encoded
        invariant dropped ==> encoded + Held(worker) <= old(encoded + Held(worker))
        invariant steps + Remaining() <= old(Remaining())
        decreases Remaining()
      {
        if worker.Waiting? {
          var moved := Take();
        } else {
          Encode(steps != failAt);
        }
        steps := steps + 1;
      }
    }
  }

  lemma PrefixWithout(a: seq<Block>, b: seq<Block>, all: seq<Block>)
    requires a + b <= all
    ensures a + [] <= all && a <= all && a + [] + [] <= all
  {
    assert a == (a + b)[..|a|] == all[..|a|];
  }

  /** What every reachable state says of the encoded blocks: they are the first submitted ones, in their order. After
      the destructor only the block in the hand of the worker can still come. */
  lemma EncodedIsAPrefix(e: BlockEncoder)
    requires e.Valid()
    ensures e.encoded <= e.submitted
    ensures e.dropped ==> e.closing && e.queue == [] && e.Remaining() <= 2
    ensures e.error ==> e.worker.Gone?
  {
    PrefixWithout(e.encoded, Held(e.worker) + e.queue, e.submitted);
    ConcatAssociative(e.encoded, Held(e.worker), e.queue);
  }

  /** A block that comes when the worker has left is lost, and finish() returns normally: one place in the queue, the
      end is marked, the worker leaves, block 7 is submitted. */
  method LateBlockIsLost() returns (e: BlockEncoder, ok: bool)
    ensures fresh(e) && ok && e.encoded == [] && e.submitted == [7] && e.queue == [7]
  {
    e := new BlockEncoder(1);
    e.Close(true);
    var moved := e.Take();
    var result := e.Submit(7, false);
    ok := e.Finish();
  }
}
