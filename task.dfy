/**
 * A single task: a numeric identifier and a description fixed at creation,
 * and a completion flag and an optional deadline that can be overwritten.
 */
module TaskModel {
  import opened Wrappers

  /**
   * A calendar date, as a day count from a fixed epoch (the way a date
   * converts to an epoch day). Dates are only compared for equality and
   * order, and day numbers compare exactly as the dates do.
   */
  type Date = int

  /** What a task holds at one moment; the views hand these out. */
  datatype TaskRecord = TaskRecord(id: int, description: string, done: bool, deadline: Option<Date>)

  class Task {
    const id: int
    const description: string
    var done: bool
    var deadline: Option<Date>

    /** A new task is not done and has no deadline. */
    constructor (id: int, description: string)
      ensures Snapshot() == TaskRecord(id, description, false, None)
    {
      this.id := id;
      this.description := description;
      this.done := false;
      this.deadline := None;
    }

    /** The current value of all four fields. */
    function Snapshot(): TaskRecord
      reads this
    {
      TaskRecord(id, description, done, deadline)
    }

    /** Overwrites the completion flag; the other fields keep their values. */
    method SetDone(done: bool)
      modifies this
      ensures Snapshot() == old(Snapshot()).(done := done)
    {
      this.done := done;
    }

    /** Overwrites the deadline (None clears it); the other fields keep their values. */
    method SetDeadline(deadline: Option<Date>)
      modifies this
      ensures Snapshot() == old(Snapshot()).(deadline := deadline)
    {
      this.deadline := deadline;
    }
  }
}
