/** The ring of SATA read buffers: the firmware fills them from flash, the SATA
    hardware empties them towards the host at its own pace. */
module ReadRing {
  import Division

  class Ring {
    const size: nat              // number of read buffers
    var bufId: nat               // next buffer of the firmware
    var sataPtr: nat             // next buffer of the SATA hardware
    var pending: nat             // buffers handed to the hardware, not yet transmitted
    ghost var sent: nat          // buffers transmitted so far

    ghost predicate Counts()
      reads this
    {
      2 <= size && sataPtr == sent % size
    }

    ghost predicate Valid()
      reads this
    {
      Counts() && pending <= size - 1 && bufId == (sent + pending) % size
    }

    constructor (size: nat)
      requires 2 <= size
      ensures Valid() && this.size == size && pending == 0
    {
      this.size := size;
      bufId, sataPtr, pending, sent := 0, 0, 0, 0;
    }

    /** The hardware finishes transmitting the oldest buffer, if there is one. */
    method Transmit()
      requires Counts()
      modifies this`sataPtr, this`sent, this`pending
      ensures Counts() && sent + pending == old(sent + pending)
      ensures pending == if old(pending) == 0 then 0 else old(pending) - 1
    {
      if pending > 0 {
        Division.NextResidue(sent, size);
        sataPtr := (sataPtr + 1) % size;
        pending := pending - 1;
        sent := sent + 1;
      }
    }

    /** Any number of buffers are transmitted, possibly none. */
    method TransmitAny()
      requires Counts()
      modifies this`sataPtr, this`sent, this`pending
      ensures Counts() && sent + pending == old(sent + pending) && pending <= old(pending)
    {
      while *
        invariant Counts() && sent + pending == old(sent + pending) && pending <= old(pending)
        decreases pending
      {
        if pending == 0 { break; }
        Transmit();
      }
    }

    /** The firmware's wait before a read for the host: the buffer id advances,
        and the flash command may only be issued once the advanced id differs
        from the consumer's. The consumer may move at any time: before the first
        comparison, between two of them, and before the command is issued. The
        returned buffer, target of the DMA, then is none of those that still await
        transmission. */
    method Take() returns (buf: nat)
      requires Valid()
      modifies this
      ensures Valid() && sent + pending == old(sent + pending) + 1
      ensures buf == old(bufId) < size && bufId == (buf + 1) % size
      ensures forall k: nat :: sent <= k < sent + pending - 1 ==> k % size != buf
    {
      buf := bufId;
      ghost var handed := sent + pending;
      Division.NextResidue(handed, size);
      bufId := (bufId + 1) % size;
      TransmitAny();
      while bufId == sataPtr
        invariant Counts() && sent + pending == handed && pending <= size - 1
        invariant bufId == (handed + 1) % size
        decreases pending
      {
        Division.SameResidue(sent, handed + 1, size);
        Transmit();  // while the ring is full, it is polled until the consumer has moved
        TransmitAny();
      }
      NotFull(handed);
      TransmitAny();
      NotAwaiting(handed);
      pending := pending + 1;
    }

    /** Different positions of the two ids mean that a buffer is left over. */
    lemma NotFull(handed: nat)
      requires Counts() && sent + pending == handed && (handed + 1) % size != sataPtr
      ensures pending != size - 1
    {
      if pending == size - 1 {
        Division.DivUnique(handed + 1, sent / size + 1, sent % size, size);
      }
    }

    lemma NotAwaiting(handed: nat)
      requires Counts() && sent + pending == handed && pending <= size - 1
      ensures forall k: nat :: sent <= k < handed ==> k % size != handed % size
    {
      forall k: nat | sent <= k < handed ensures k % size != handed % size {
        if k % size == handed % size { Division.SameResidue(k, handed, size); }
      }
    }
  }
}
