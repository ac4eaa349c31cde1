/** Call sequences a program using the tracker goes through, checked
    against the contracts of the gateways and the audit alone. */
module Scenarios {
  import opened Trace
  import opened Tracker

  /** The trace list of the leak scenario: `a` freed, `b` not. */
  lemma LeakTrace(a: Slot, b: Slot)
    requires a != b
    ensures AfterDelete([TraceRecord(a, false), TraceRecord(b, false)], a)
         == [TraceRecord(a, true), TraceRecord(b, false)]
    ensures Unmarked([TraceRecord(a, true), TraceRecord(b, false)]) == [1]
  {
    var rs := [TraceRecord(a, true), TraceRecord(b, false)];
    assert rs[..1] == [TraceRecord(a, true)] && rs[..1][..0] == [];
    assert Unmarked(rs[..1]) == [];
  }

  /** Freeing the only allocation marks its record. */
  lemma DeleteOnlyRecord(a: Slot)
    ensures AfterDelete([TraceRecord(a, false)], a) == [TraceRecord(a, true)]
  {
  }

  /** The trace list of the slot-reuse scenario before and after the
      second delete. */
  lemma ReuseTrace(a: Slot)
    ensures FirstMatch([TraceRecord(a, true), TraceRecord(a, false)], a) == Some(0)
    ensures AfterDelete([TraceRecord(a, true), TraceRecord(a, false)], a)
         == [TraceRecord(a, true), TraceRecord(a, false)]
  {
  }

  /** Allocate `a` (#0) and `b` (#1), free both: the audit finds no leak. */
  method CleanShutdown(a: Slot, b: Slot, ta: Token, tb: Token)
    requires a != b
  {
    var vars := new Slots(map[]);
    var snd := new SafeNewDelete();
    var id := snd.GetNewId();
    assert id == 0;
    snd.NewS(vars, a, ValueInitialised, Granted(ta));
    id := snd.GetNewId();
    assert id == 1;
    snd.NewS(vars, b, InitialisedWith(7), Granted(tb));
    var seen := snd.DeleteS(vars, a);
    seen := snd.DeleteS(vars, b);
    assert snd.newCount == 2 && snd.deleteCount == 2;
    var leaked := snd.Shutdown();
    assert leaked == [] && snd.status == Exited;
  }

  /** Allocate `a` (#0) and `b` (#1), free only `a`: the audit reports #1
      and aborts. */
  method Leak(a: Slot, b: Slot, ta: Token, tb: Token)
    requires a != b
  {
    var vars := new Slots(map[]);
    var snd := new SafeNewDelete();
    snd.NewS(vars, a, ValueInitialised, Granted(ta));
    snd.NewS(vars, b, ValueInitialised, Granted(tb));
    LeakTrace(a, b);
    var seen := snd.DeleteS(vars, a);
    var leaked := snd.Shutdown();
    assert leaked == [1] && snd.status == Aborted(LeakDetected);
  }

  /** Deleting a slot that is already null aborts and changes nothing. */
  method DoubleDelete(a: Slot, ta: Token)
  {
    var vars := new Slots(map[]);
    var snd := new SafeNewDelete();
    snd.NewS(vars, a, ValueInitialised, Granted(ta));
    DeleteOnlyRecord(a);
    var seen := snd.DeleteS(vars, a);
    seen := snd.DeleteS(vars, a);
    assert seen == None && snd.status == Aborted(NullDelete);
    assert snd.deleteCount == 1 && snd.records == [TraceRecord(a, true)];
  }

  /** Reusing a slot: the second delete re-marks record #0, #1 stays
      unmarked, yet the counters balance and the audit is clean. */
  method SlotReuse(a: Slot, t0: Token, t1: Token)
  {
    var vars := new Slots(map[]);
    var snd := new SafeNewDelete();
    DeleteOnlyRecord(a);
    ReuseTrace(a);
    snd.NewS(vars, a, ValueInitialised, Granted(t0));
    ghost var first := snd.records;
    var seen := snd.DeleteS(vars, a);
    ghost var freed := snd.records;
    snd.NewS(vars, a, ValueInitialised, Granted(t1));
    ExtendsTransitive(first, freed, snd.records);
    ghost var reused := snd.records;
    seen := snd.DeleteS(vars, a);
    ExtendsTransitive(first, reused, snd.records);
    assert seen == Some(0);
    assert snd.records == [TraceRecord(a, true), TraceRecord(a, false)];
    assert Extends(first, snd.records);
    var leaked := snd.Shutdown();
    assert leaked == [] && snd.status == Exited;
  }
}
