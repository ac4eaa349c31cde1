/** The SafeNewDelete ledger object: the trace list, the two counters, the
    allocation and deallocation gateways and the shutdown audit. */
module Tracker {
  import opened Trace

  /** Opaque, non-null address of a heap value made by `new T`. */
  type Token = nat

  /** How the heap value was constructed: `new T{}` or `new T{ init_value }`
      (the template's type is abstracted to an integer payload). */
  datatype Init = ValueInitialised | InitialisedWith(v: int)

  datatype HeapValue = HeapValue(token: Token, init: Init)

  /** What the allocator does on a call to `new_s`: it hands out a value;
      or `new T` throws `std::bad_alloc` before the slot is written; or the
      value is made and stored but growing the trace list throws. */
  datatype AllocOutcome = Granted(token: Token) | ValueExhausted | TraceExhausted(token: Token)

  /** The three ways the tracker ends the process through `abort()`. */
  datatype Fault = AllocationExhausted | NullDelete | LeakDetected

  datatype Status = Running | Aborted(fault: Fault) | Exited

  /** The caller's pointer variables, by address; an absent key is `nullptr`. */
  class Slots {
    var cells: map<Slot, HeapValue>

    constructor (initial: map<Slot, HeapValue>)
      ensures cells == initial
    {
      cells := initial;
    }
  }

  class SafeNewDelete {
    var records: seq<TraceRecord>
    var newCount: nat
    var deleteCount: nat
    var status: Status

    /** One record per counted allocation, and, until the audit marks the
        leftovers, no more records marked than deallocations counted. */
    ghost predicate Valid()
      reads this
    {
      && |records| == newCount
      && (status != Aborted(LeakDetected) ==> MarkedCount(records) <= deleteCount)
    }

    constructor ()
      ensures Valid() && status == Running
      ensures records == [] && newCount == 0 && deleteCount == 0
    {
      records, newCount, deleteCount := [], 0, 0;
      status := Running;
    }

    /** The allocation number the log shows before `new_s` runs: the index
        the next record will take. */
    function GetNewId(): (id: nat)
      reads this
      requires Valid()
      ensures id == |records|
    {
      newCount
    }

    /** `new_s`, both overloads (`init` tells which). */
    method NewS(vars: Slots, slot: Slot, init: Init, outcome: AllocOutcome)
      requires Valid() && status == Running
      modifies this, vars
      ensures Valid()
      ensures Extends(old(records), records)
      ensures deleteCount == old(deleteCount)
      ensures outcome.Granted? ==>
        && status == Running
        && vars.cells == old(vars.cells)[slot := HeapValue(outcome.token, init)]
        && records == old(records) + [TraceRecord(slot, false)]
        && records[old(GetNewId())] == TraceRecord(slot, false)
        && newCount == old(newCount) + 1
      ensures outcome.ValueExhausted? ==>
        && status == Aborted(AllocationExhausted)
        && vars.cells == old(vars.cells)
        && records == old(records) && newCount == old(newCount)
      ensures outcome.TraceExhausted? ==>
        && status == Aborted(AllocationExhausted)
        && vars.cells == old(vars.cells)[slot := HeapValue(outcome.token, init)]
        && records == old(records) && newCount == old(newCount)
    {
      match outcome
      case ValueExhausted =>
        status := Aborted(AllocationExhausted);
      case TraceExhausted(token) =>
        vars.cells := vars.cells[slot := HeapValue(token, init)];
        status := Aborted(AllocationExhausted);
      case Granted(token) =>
        vars.cells := vars.cells[slot := HeapValue(token, init)];
        MarkedCountAppend(records, TraceRecord(slot, false));
        records := records + [TraceRecord(slot, false)];
        newCount := newCount + 1;
    }

    /** `delete_s`: `seen` is the record index it reports ("SEE LOG_NEW #i"). */
    method DeleteS(vars: Slots, slot: Slot) returns (seen: Option<nat>)
      requires Valid() && status == Running
      modifies this, vars
      ensures Valid()
      ensures Extends(old(records), records)
      ensures newCount == old(newCount)
      ensures slot !in old(vars.cells) ==>
        && status == Aborted(NullDelete)
        && vars.cells == old(vars.cells)
        && records == old(records) && deleteCount == old(deleteCount)
        && seen == None
      ensures slot in old(vars.cells) ==>
        && status == Running
        && vars.cells == old(vars.cells) - {slot}
        && deleteCount == old(deleteCount) + 1
        && seen == FirstMatch(old(records), slot)
        && records == AfterDelete(old(records), slot)
    {
      seen := None;
      if slot in vars.cells {
        vars.cells := vars.cells - {slot};
        var i := 0;
        while i < |records|
          invariant i <= |records|
          invariant records == old(records)
          invariant forall j :: 0 <= j < i ==> records[j].pointer != slot
        {
          if records[i].pointer == slot {
            records := records[i := records[i].(isDeleted := true)];
            seen := Some(i);
            break;
          }
          i := i + 1;
        }
        AfterDeleteMarksFirstMatch(old(records), slot);
        DeleteFlipsAtMostOne(old(records), slot);
        DeleteMarksAtMostOne(old(records), slot);
        deleteCount := deleteCount + 1;
      } else {
        status := Aborted(NullDelete);
      }
    }

    /** The destructor: `leaked` lists the record indices it reports. */
    method Shutdown() returns (leaked: seq<nat>)
      requires Valid() && status == Running
      modifies this
      ensures Valid()
      ensures Extends(old(records), records)
      ensures newCount == old(newCount) && deleteCount == old(deleteCount)
      ensures newCount == deleteCount ==>
        status == Exited && leaked == [] && records == old(records)
      ensures newCount != deleteCount ==>
        && status == Aborted(LeakDetected)
        && leaked == Unmarked(old(records))
        && records == MarkAll(old(records))
      ensures newCount > deleteCount ==> |leaked| >= newCount - deleteCount
    {
      leaked := [];
      if newCount != deleteCount {
        ghost var before := records;
        var i := 0;
        while i < |records|
          modifies this`records
          invariant i <= |records| == |before|
          invariant forall j :: 0 <= j < i ==> records[j] == before[j].(isDeleted := true)
          invariant forall j :: i <= j < |records| ==> records[j] == before[j]
          invariant leaked == Unmarked(before[..i])
        {
          UnmarkedPrefix(before, i);
          if !records[i].isDeleted {
            records := records[i := records[i].(isDeleted := true)];
            leaked := leaked + [i];
          }
          i := i + 1;
        }
        assert before[..i] == before;
        assert records == MarkAll(before);
        MarkAllExtends(before);
        UnmarkedCount(before);
        status := Aborted(LeakDetected);
      } else {
        status := Exited;
      }
    }
  }
}
