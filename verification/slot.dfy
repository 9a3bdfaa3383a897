/** The ring cell (include/slot.h): a published sequence number and storage
    for at most one value.  The raw aligned byte buffer and the `constructed`
    flag are modelled together as an Option: `None` is the unconstructed
    state, `Some(v)` a live value v. */
module Slots {

  datatype Option<T> = None | Some(value: T)

  datatype Slot<T> = Slot(sequence: nat, storage: Option<T>) {

    /** The source's `constructed` flag. */
    predicate Constructed() {
      storage.Some?
    }

    /** The value in the storage; reading an unconstructed slot is undefined behaviour. */
    function Get(): T
      requires Constructed()
    {
      storage.value
    }

    /** Placement-constructs v into the storage; the sequence number is untouched. */
    function Construct(v: T): (r: Slot<T>)
      ensures r.Constructed() && r.Get() == v
      ensures r.sequence == sequence
    {
      Slot(sequence, Some(v))
    }

    /** Runs the value's destructor if there is one; a no-op on an unconstructed slot. */
    function Destroy(): (r: Slot<T>)
      ensures !r.Constructed() && r.sequence == sequence
      ensures !Constructed() ==> r == this
    {
      if Constructed() then Slot(sequence, None) else this
    }

    /** Stores a new sequence number; the value and the constructed flag are untouched. */
    function ResetSeq(n: nat): (r: Slot<T>)
      ensures r.sequence == n
      ensures r.Constructed() == Constructed()
      ensures Constructed() ==> r.Get() == Get()
    {
      Slot(n, storage)
    }
  }

  /** The default constructor: sequence 0, nothing constructed. */
  function Fresh<T>(): (s: Slot<T>)
    ensures s.sequence == 0 && !s.Constructed()
  {
    Slot(0, None)
  }

  /** Destroying twice is destroying once. */
  lemma DestroyIdempotent<T>(s: Slot<T>)
    ensures s.Destroy().Destroy() == s.Destroy()
  {
  }

  /** Constructing into an empty slot and destroying again restores the slot exactly. */
  lemma ConstructDestroyRoundTrip<T>(s: Slot<T>, v: T)
    requires !s.Constructed()
    ensures s.Construct(v).Destroy() == s
  {
  }

  /** Sequence stores and value lifecycle operations act on disjoint parts of a slot. */
  lemma ResetSeqCommutes<T>(s: Slot<T>, v: T, n: nat)
    ensures s.Construct(v).ResetSeq(n) == s.ResetSeq(n).Construct(v)
    ensures s.Destroy().ResetSeq(n) == s.ResetSeq(n).Destroy()
  {
  }
}
