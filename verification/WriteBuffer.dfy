/** The write buffer of ssd.c: bytes are taken when a write is accepted and given back when the
    flash operation that drains them is due. */
module WriteBufferModel {

  class WriteBuffer {
    const size: nat
    var remaining: int

    // Releases that are scheduled but not done yet, and the bytes partly written pages give back
    // beyond what they took.
    ghost var pending: int
    ghost var excess: int

    /** buffer_init */
    constructor (size: nat)
      ensures this.size == size && remaining == size && pending == 0 && excess == 0
    {
      this.size := size;
      remaining := size;
      pending, excess := 0, 0;
    }

    /** The bytes taken are the bytes `inFlight` that no release is scheduled for yet, and the
        scheduled releases, less the excess. */
    ghost predicate Holds(inFlight: int)
      reads this
    {
      size - remaining == inFlight + pending - excess
    }

    /** buffer_allocate: all or nothing. */
    method Allocate(bytes: nat) returns (granted: nat)
      modifies `remaining
      ensures granted == if old(remaining) < bytes then 0 else bytes
      ensures remaining == old(remaining) - granted
    {
      granted := bytes;
      if remaining < bytes {
        granted := 0;
      }
      remaining := remaining - granted;
    }

    /** schedule_internal_operation of a release, always with success. */
    ghost method Schedule(bytes: nat)
      modifies `pending
      ensures pending == old(pending) + bytes
    {
      pending := pending + bytes;
    }

    /** buffer_release, as a worker does it when a scheduled release is due. */
    method Release(bytes: nat, ghost inFlight: int)
      requires Holds(inFlight) && bytes <= pending
      modifies `remaining, `pending
      ensures Holds(inFlight) && remaining == old(remaining) + bytes && pending == old(pending) - bytes
    {
      remaining := remaining + bytes;
      pending := pending - bytes;
    }
  }
}
