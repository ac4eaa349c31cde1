/** The trace list of SafeNewDelete as a value: one record per tracked
    allocation, in allocation order, and the functions that say what the
    deallocation gateway and the shutdown audit do to it. */
module Trace {

  /** Address of a caller's pointer variable: the `T**` handed to the
      gateways, which is also the key a record is stored under. */
  type Slot = nat

  datatype Option<T> = None | Some(value: T)

  /** One entry of `m_trace_list`: the slot that was allocated into and
      whether a deallocation (or the audit) has marked it. */
  datatype TraceRecord = TraceRecord(pointer: Slot, isDeleted: bool)

  /** Index of the first record whose pointer is `slot`, whatever its flag. */
  function FirstMatch(rs: seq<TraceRecord>, slot: Slot): (r: Option<nat>)
    ensures r.Some? ==> r.value < |rs| && rs[r.value].pointer == slot
    ensures r.Some? ==> forall j :: 0 <= j < r.value ==> rs[j].pointer != slot
    ensures r.None? <==> forall j :: 0 <= j < |rs| ==> rs[j].pointer != slot
  {
    if rs == [] then None
    else if rs[0].pointer == slot then Some(0)
    else match FirstMatch(rs[1..], slot)
      case None => None
      case Some(k) => Some(k + 1)
  }

  /** Record `i` with its deletion flag set. */
  function Mark(rs: seq<TraceRecord>, i: nat): seq<TraceRecord>
    requires i < |rs|
  {
    rs[i := rs[i].(isDeleted := true)]
  }

  /** The trace list after `delete_s` on a non-null slot: the first record
      keyed by the slot is marked (even if it already was), no other. */
  function AfterDelete(rs: seq<TraceRecord>, slot: Slot): seq<TraceRecord>
  {
    match FirstMatch(rs, slot)
    case None => rs
    case Some(i) => Mark(rs, i)
  }

  /** The trace list after the leak audit's loop: every record marked. */
  function MarkAll(rs: seq<TraceRecord>): seq<TraceRecord>
  {
    seq(|rs|, j requires 0 <= j < |rs| => rs[j].(isDeleted := true))
  }

  /** Number of marked records. */
  function MarkedCount(rs: seq<TraceRecord>): (n: nat)
    ensures n <= |rs|
  {
    if rs == [] then 0
    else MarkedCount(rs[..|rs| - 1]) + (if rs[|rs| - 1].isDeleted then 1 else 0)
  }

  /** The indices the audit reports as leaked, in the order it reports them. */
  function Unmarked(rs: seq<TraceRecord>): (r: seq<nat>)
    ensures forall k :: 0 <= k < |r| ==> r[k] < |rs| && !rs[r[k]].isDeleted
    ensures forall i :: 0 <= i < |rs| && !rs[i].isDeleted ==> i in r
    ensures forall k, l :: 0 <= k < l < |r| ==> r[k] < r[l]
  {
    if rs == [] then []
    else Unmarked(rs[..|rs| - 1]) + (if rs[|rs| - 1].isDeleted then [] else [|rs| - 1])
  }

  /** Extending a prefix by one record extends the report by that record's
      index exactly when it is unmarked. */
  lemma UnmarkedPrefix(rs: seq<TraceRecord>, i: nat)
    requires i < |rs|
    ensures Unmarked(rs[..i + 1]) == Unmarked(rs[..i]) + (if rs[i].isDeleted then [] else [i])
  {
    assert rs[..i + 1][..i] == rs[..i];
  }

  /** `after` is a later state of the trace list `before`: records are only
      appended, keep their slot, and a set flag is never cleared. */
  ghost predicate Extends(before: seq<TraceRecord>, after: seq<TraceRecord>)
  {
    && |before| <= |after|
    && forall j :: 0 <= j < |before| ==>
         after[j].pointer == before[j].pointer && (before[j].isDeleted ==> after[j].isDeleted)
  }

  lemma ExtendsTransitive(a: seq<TraceRecord>, b: seq<TraceRecord>, c: seq<TraceRecord>)
    requires Extends(a, b) && Extends(b, c)
    ensures Extends(a, c)
  {
  }

  /** `delete_s` keeps every slot, clears no flag, and sets exactly the flag
      of the first record keyed by the slot: stated without FirstMatch. */
  lemma AfterDeleteMarksFirstMatch(rs: seq<TraceRecord>, slot: Slot)
    ensures |AfterDelete(rs, slot)| == |rs|
    ensures forall j :: 0 <= j < |rs| ==>
      AfterDelete(rs, slot)[j].pointer == rs[j].pointer &&
      (AfterDelete(rs, slot)[j].isDeleted <==>
        rs[j].isDeleted || (rs[j].pointer == slot && forall k :: 0 <= k < j ==> rs[k].pointer != slot))
    ensures Extends(rs, AfterDelete(rs, slot))
  {
    match FirstMatch(rs, slot)
    case None =>
    case Some(i) =>
      forall j | 0 <= j < |rs| && rs[j].pointer == slot && (forall k :: 0 <= k < j ==> rs[k].pointer != slot)
        ensures j == i
      {
      }
  }

  /** When a slot is reused, a record after the first one keyed by that slot
      is never marked by `delete_s`, even when the first is already marked. */
  lemma SlotReuseLeavesLaterRecord(rs: seq<TraceRecord>, slot: Slot, i: nat, j: nat)
    requires i < j < |rs| && rs[i].pointer == slot && rs[j].pointer == slot
    ensures AfterDelete(rs, slot)[j] == rs[j]
  {
    var first := FirstMatch(rs, slot);
    assert first.Some? && first.value <= i;
  }

  lemma MarkAllExtends(rs: seq<TraceRecord>)
    ensures Extends(rs, MarkAll(rs))
    ensures |MarkAll(rs)| == |rs|
    ensures Unmarked(MarkAll(rs)) == []
  {
    NothingUnmarked(MarkAll(rs));
  }

  /** A trace list with every record marked has no leak to report. */
  lemma {:induction false} NothingUnmarked(rs: seq<TraceRecord>)
    requires forall j :: 0 <= j < |rs| ==> rs[j].isDeleted
    ensures Unmarked(rs) == []
  {
    if rs != [] {
      NothingUnmarked(rs[..|rs| - 1]);
    }
  }

  lemma MarkedCountAppend(rs: seq<TraceRecord>, x: TraceRecord)
    ensures MarkedCount(rs + [x]) == MarkedCount(rs) + (if x.isDeleted then 1 else 0)
  {
    assert (rs + [x])[..|rs|] == rs;
  }

  /** Marking one record raises the marked count by one exactly when it was unmarked. */
  lemma {:induction false} MarkedCountMark(rs: seq<TraceRecord>, i: nat)
    requires i < |rs|
    ensures MarkedCount(Mark(rs, i)) == MarkedCount(rs) + (if rs[i].isDeleted then 0 else 1)
  {
    var n := |rs| - 1;
    if i == n {
      assert Mark(rs, i)[..n] == rs[..n];
    } else {
      assert Mark(rs, i)[..n] == Mark(rs[..n], i);
      MarkedCountMark(rs[..n], i);
    }
  }

  /** One `delete_s` clears no flag, keeps every slot, and turns at most one
      unmarked record into a marked one. */
  lemma DeleteFlipsAtMostOne(rs: seq<TraceRecord>, slot: Slot)
    ensures Extends(rs, AfterDelete(rs, slot))
    ensures forall j, k ::
      (0 <= j < |rs| && 0 <= k < |rs| &&
       !rs[j].isDeleted && AfterDelete(rs, slot)[j].isDeleted &&
       !rs[k].isDeleted && AfterDelete(rs, slot)[k].isDeleted) ==> j == k
  {
    AfterDeleteMarksFirstMatch(rs, slot);
  }

  /** Hence the marked count rises by 0 or 1 on each `delete_s`. */
  lemma DeleteMarksAtMostOne(rs: seq<TraceRecord>, slot: Slot)
    ensures MarkedCount(rs) <= MarkedCount(AfterDelete(rs, slot)) <= MarkedCount(rs) + 1
  {
    match FirstMatch(rs, slot)
    case None =>
    case Some(i) => MarkedCountMark(rs, i);
  }

  /** Every record is either marked or reported by the audit. */
  lemma {:induction false} UnmarkedCount(rs: seq<TraceRecord>)
    ensures |Unmarked(rs)| + MarkedCount(rs) == |rs|
  {
    if rs != [] {
      UnmarkedCount(rs[..|rs| - 1]);
    }
  }
}
