/**
  The single-slot store of the most recent frame (the process-wide latest frame
  and its lock). Every access to the slot in the server happens inside one
  critical section, so each access is modelled as one atomic method call.
*/
module FrameCache {
  import opened Wrappers
  import opened Image

  class FrameSlot {
    /** The most recent frame, or None before the first write. */
    var latest: Option<Frame>

    /** What every writer of the server keeps true: only canonical frames are stored. */
    ghost predicate Valid()
      reads this
    {
      latest.Some? ==> Canonical(latest.value)
    }

    /** The slot starts empty. */
    constructor ()
      ensures latest == None
      ensures Valid()
    {
      latest := None;
    }

    /** Overwrites the slot unconditionally; the last writer wins. */
    method Publish(frame: Frame)
      modifies this
      ensures latest == Some(frame)
      ensures Canonical(frame) ==> Valid()
    {
      latest := Some(frame);
    }

    /**
      Returns a copy of the slot's content (None when empty). A Frame is a value,
      so later writes to the slot cannot change a copy already handed out, and
      the caller cannot change the slot through it.
    */
    method Snapshot() returns (copy: Option<Frame>)
      ensures copy == latest
      ensures Valid() ==> copy.None? || Canonical(copy.value)
    {
      copy := latest;
    }
  }
}
