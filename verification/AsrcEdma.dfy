/** The ASRC eDMA transfer rings (drivers/asrc/fsl_asrc_edma.c:56-102, 249-365, 423-471). */
module AsrcEdma {
  import opened Powers

  const IN_QUEUE_SIZE: nat := 4
  const OUT_QUEUE_SIZE: nat := 8

  /** A queued buffer; addresses are nonzero, since the zero address marks a free slot. */
  datatype Transfer = Transfer(address: nat, size: nat)

  datatype Status = Success | QueueFull | Idle | QueueIdle

  /** Slot i places behind the driver index. */
  function Slot(start: nat, i: nat, n: nat): (s: nat)
    requires start < n && i <= n
    ensures s < n
  {
    if start + i < n then start + i else start + i - n
  }

  lemma SlotIsModulo(start: nat, i: nat, n: nat)
    requires start < n && i <= n
    ensures (start + i) % n == Slot(start, i, n)
  {
    if start + i < n {
      DivModUnique(start + i, n, 0, start + i);
    } else {
      DivModUnique(start + i, n, 1, start + i - n);
    }
  }

  class Ring {
    const queue: array<nat>
    const sizes: array<nat>
    var queueUser: nat
    var queueDriver: nat
    /** The transfers submitted and not yet retired or dropped, oldest first. */
    ghost var pending: seq<Transfer>
    /** Every transfer ever accepted, and every one retired by a completion or dropped by a
        termination, in order. */
    ghost var accepted: seq<Transfer>
    ghost var finished: seq<Transfer>

    /** The slots from the driver index hold the pending transfers, the other slots are free, and
        what was accepted is what is finished followed by what is pending. */
    ghost predicate Valid()
      reads this, queue, sizes
    {
      var n := queue.Length;
      && n == sizes.Length && n > 0 && queue != sizes
      && |pending| <= n && queueDriver < n
      && queueUser == Slot(queueDriver, |pending|, n)
      && (forall i | 0 <= i < |pending| ::
            pending[i].address > 0
            && queue[Slot(queueDriver, i, n)] == pending[i].address
            && sizes[Slot(queueDriver, i, n)] == pending[i].size)
      && (forall i | |pending| <= i < n :: queue[Slot(queueDriver, i, n)] == 0)
      && accepted == finished + pending
    }

    constructor (n: nat)
      requires n > 0
      ensures Valid() && queue.Length == n && pending == [] && accepted == [] && finished == []
      ensures fresh(queue) && fresh(sizes)
    {
      queue := new nat[n](i => 0);
      sizes := new nat[n](i => 0);
      queueUser, queueDriver := 0, 0;
      pending, accepted, finished := [], [], [];
    }

    /** Refused exactly when the ring is full; otherwise the transfer joins the end. */
    method Submit(address: nat, size: nat) returns (status: Status)
      requires Valid() && address > 0
      modifies this, queue, sizes
      ensures Valid()
      ensures status == if |old(pending)| == queue.Length then QueueFull else Success
      ensures status == Success ==>
        && pending == old(pending) + [Transfer(address, size)]
        && accepted == old(accepted) + [Transfer(address, size)]
      ensures status == QueueFull ==> pending == old(pending) && accepted == old(accepted)
      ensures finished == old(finished)
    {
      ghost var n := queue.Length;
      assert |pending| == n ==> queue[queueUser] == pending[0].address by {
        assert Slot(queueDriver, 0, n) == queueDriver;
      }
      if queue[queueUser] != 0 {
        return QueueFull;
      }
      SlotsDistinct(queueDriver, n);
      SlotIsModulo(queueUser, 1, n);
      queue[queueUser] := address;
      sizes[queueUser] := size;
      queueUser := (queueUser + 1) % queue.Length;
      pending := pending + [Transfer(address, size)];
      accepted := accepted + [Transfer(address, size)];
      return Success;
    }

    /** A completion retires the oldest transfer; queue-idle is reported exactly when none is left. */
    method Complete() returns (status: Status)
      requires Valid() && pending != []
      modifies this, queue
      ensures Valid()
      ensures pending == old(pending)[1..] && accepted == old(accepted)
      ensures finished == old(finished) + [old(pending)[0]]
      ensures status == if pending == [] then QueueIdle else Idle
    {
      ghost var n := queue.Length;
      SlotIsModulo(queueDriver, 1, n);
      SlotsDistinct(queueDriver, n);
      Advance(queueDriver, n);
      queue[queueDriver] := 0;
      queueDriver := (queueDriver + 1) % queue.Length;
      finished := finished + [pending[0]];
      pending := pending[1..];
      status := Idle;
      if queue[queueDriver] == 0 {
        status := QueueIdle;
      }
      assert pending != [] ==> Slot(queueDriver, 0, n) == queueDriver && pending[0].address > 0;
      assert pending == [] ==> queue[Slot(queueDriver, 0, n)] == 0;
    }

    /** Termination drops everything that is pending. */
    method Terminate()
      requires Valid()
      modifies this, queue, sizes
      ensures Valid() && pending == [] && accepted == old(accepted) && finished == old(accepted)
      ensures queueUser == queueDriver == 0
      ensures forall i | 0 <= i < queue.Length :: queue[i] == 0 && sizes[i] == 0
    {
      // The abort inside advances the driver index first; the reset overrides it.
      queue[queueDriver] := 0;
      forall i | 0 <= i < queue.Length {
        queue[i] := 0;
      }
      forall i | 0 <= i < sizes.Length {
        sizes[i] := 0;
      }
      queueUser, queueDriver := 0, 0;
      finished := accepted;
      pending := [];
    }
  }

  lemma SlotsDistinct(start: nat, n: nat)
    requires start < n
    ensures forall i, j | 0 <= i < j < n :: Slot(start, i, n) != Slot(start, j, n)
  {
  }

  /** Slots seen from the next driver index. */
  lemma Advance(start: nat, n: nat)
    requires start < n
    ensures forall i | 0 <= i < n :: Slot(Slot(start, 1, n), i, n) == Slot(start, (i + 1), n)
    ensures Slot(Slot(start, 1, n), n - 1, n) == start
  {
  }

  class EdmaHandle {
    const input: Ring
    const output: Ring
    /** Calls whose output half was queued and whose input half was refused. */
    ghost var inputRefusals: nat

    /** Outputs accepted exceed inputs accepted by exactly the calls refused on the input side. */
    ghost predicate Valid()
      reads this, input, output, input.queue, input.sizes, output.queue, output.sizes
    {
      && input != output && input.Valid() && output.Valid()
      && input.queue.Length == IN_QUEUE_SIZE && output.queue.Length == OUT_QUEUE_SIZE
      && {input.queue, input.sizes} !! {output.queue, output.sizes}
      && |output.accepted| == |input.accepted| + inputRefusals
    }

    constructor ()
      ensures Valid() && inputRefusals == 0 && input.pending == [] && output.pending == []
    {
      input := new Ring(IN_QUEUE_SIZE);
      output := new Ring(OUT_QUEUE_SIZE);
      inputRefusals := 0;
    }

    /** Queues the output buffer and then the input buffer; the first half stays queued when the
        second is refused. */
    method TransferEdma(outAddress: nat, outSize: nat, inAddress: nat, inSize: nat) returns (status: Status)
      requires Valid() && outAddress > 0 && inAddress > 0
      modifies this, input, output, input.queue, input.sizes, output.queue, output.sizes
      ensures Valid()
      ensures status == if |old(output.pending)| < OUT_QUEUE_SIZE && |old(input.pending)| < IN_QUEUE_SIZE
                        then Success else QueueFull
      ensures output.pending == old(output.pending) +
        if |old(output.pending)| < OUT_QUEUE_SIZE then [Transfer(outAddress, outSize)] else []
      ensures input.pending == old(input.pending) +
        if status == Success then [Transfer(inAddress, inSize)] else []
      ensures inputRefusals == old(inputRefusals) +
        if |old(output.pending)| < OUT_QUEUE_SIZE && |old(input.pending)| == IN_QUEUE_SIZE then 1 else 0
      ensures output.finished == old(output.finished) && input.finished == old(input.finished)
    {
      status := output.Submit(outAddress, outSize);
      if status != Success {
        return QueueFull;
      }
      status := input.Submit(inAddress, inSize);
      if status != Success {
        inputRefusals := inputRefusals + 1;
        return QueueFull;
      }
      return Success;
    }

    method InputCompleted() returns (status: Status)
      requires Valid() && input.pending != []
      modifies input, input.queue
      ensures Valid() && input.pending == old(input.pending)[1..]
      ensures input.finished == old(input.finished) + [old(input.pending)[0]]
      ensures status == if input.pending == [] then QueueIdle else Idle
    {
      status := input.Complete();
    }

    method OutputCompleted() returns (status: Status)
      requires Valid() && output.pending != []
      modifies output, output.queue
      ensures Valid() && output.pending == old(output.pending)[1..]
      ensures output.finished == old(output.finished) + [old(output.pending)[0]]
      ensures status == if output.pending == [] then QueueIdle else Idle
    {
      status := output.Complete();
    }

    method TerminateInput()
      requires Valid()
      modifies input, input.queue, input.sizes
      ensures Valid() && input.pending == [] && input.accepted == old(input.accepted)
    {
      input.Terminate();
    }

    method TerminateOutput()
      requires Valid()
      modifies output, output.queue, output.sizes
      ensures Valid() && output.pending == [] && output.accepted == old(output.accepted)
    {
      output.Terminate();
    }
  }
}
