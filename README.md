# SafeNewDelete allocation ledger, modelled in Dafny

SafeNewDelete is a header-only C++ allocation tracer. Call sites allocate through
`new_s` and free through `delete_s`. A single ledger object records one trace entry
per allocation. Each entry is keyed by the address of the caller's pointer variable
(the "slot") and carries an `is_deleted` flag. The ledger also keeps two counters,
`m_new_count` and `m_delete_count`. When the ledger is destroyed at process exit, its
destructor compares the counters. If they differ, it reports and marks every unmarked
entry, then calls `abort()`.

The model has three files:

- `trace.dfy` (module `Trace`): the trace record, and the trace list as a value. It
  defines what `delete_s` does to the list (`FirstMatch`, `AfterDelete`), what the
  audit reports and leaves behind (`Unmarked`, `MarkAll`), and the number of marked
  records (`MarkedCount`). It also proves the properties of these functions.
- `tracker.dfy` (module `Tracker`): the ledger as a class `SafeNewDelete`.
  - Fields: the trace list as a `seq`, the two counters, and a `status`.
  - `status` records how the process ended: `Running`, `Aborted(fault)` for each
    `abort()`, or `Exited` for a clean shutdown.
  - The caller's pointer variables are a separate class `Slots`. It maps a slot
    address to the heap value stored there; a missing key means `nullptr`.
  - The methods run the same loops as the source: `delete_s` scans with `break`,
    and the destructor marks in place. Their `ensures` clauses tie the new state
    to the `Trace` functions.
  - `Valid()` holds after every operation. It says the trace list has exactly
    `m_new_count` entries. Until the leak audit runs, it also says no more entries
    are marked than `m_delete_count`.
- `scenarios.dfy` (module `Scenarios`): client call sequences checked against the
  contracts alone: clean shutdown, a leak, deleting a null slot, and reusing a slot.

Two details of `delete_s` (SafeNewDelete.h:104-117) shape the model:

- It marks the first record whose pointer equals the slot, even if that record is
  already marked.
- It increments `m_delete_count` whether or not a record matched.

So a reused slot re-marks its earliest record, and the later record stays unmarked
(`Trace.SlotReuseLeavesLaterRecord`, `Scenarios.SlotReuse`).

## Model

| member | source | states |
|---|---|---|
| `Trace.FirstMatch` | SafeNewDelete.h:103-115 | the index `delete_s` stops at: the lowest index whose pointer equals the slot, whatever its flag; `None` exactly when no record holds that slot |
| `Trace.AfterDeleteMarksFirstMatch` | SafeNewDelete.h:103-115 | after `delete_s` the list has the same length and slots; a record is marked iff it was marked before, or it is the earliest record keyed by the slot; no flag is cleared |
| `Trace.SlotReuseLeavesLaterRecord` | SafeNewDelete.h:104-113 | when two records share a slot, `delete_s` never changes the later one |
| `Trace.MarkedCountMark` | SafeNewDelete.h:108 | setting one flag raises the marked count by one exactly when that flag was clear |
| `Trace.MarkedCountAppend` | SafeNewDelete.h:64 | appending a record raises the marked count by that record's flag |
| `Trace.DeleteFlipsAtMostOne` | SafeNewDelete.h:103-115 | one `delete_s` clears no flag and keeps every slot; at most one record goes from unmarked to marked |
| `Trace.DeleteMarksAtMostOne` | SafeNewDelete.h:103-117 | one `delete_s` raises the marked count by 0 or 1, which keeps it at or below `m_delete_count` |
| `Trace.Unmarked` | SafeNewDelete.h:31-42 | the indices the audit reports are exactly the indices of unmarked records, strictly ascending |
| `Trace.UnmarkedPrefix` | SafeNewDelete.h:32-41 | one more step of the audit loop adds index `i` to the report exactly when record `i` is unmarked |
| `Trace.UnmarkedCount` | SafeNewDelete.h:25-42 | every record is either marked or reported: reported count + marked count = list length |
| `Trace.NothingUnmarked` | SafeNewDelete.h:34-36 | a list whose records are all marked yields no leak report |
| `Trace.MarkAllExtends` | SafeNewDelete.h:32-42 | the audit's marking keeps length and slots, clears no flag, and leaves nothing unmarked |
| `Trace.ExtendsTransitive` | SafeNewDelete.h:57-117 | "records only appended, slots kept, flags never cleared" composes across successive operations |
| `Scenarios.LeakTrace` | SafeNewDelete.h:31-42 | allocate `a` and `b`, free `a`: the list becomes `[(a, true), (b, false)]` and the audit reports exactly `#1` |
| `Scenarios.DeleteOnlyRecord` | SafeNewDelete.h:104-113 | freeing the only allocation marks its record |
| `Scenarios.ReuseTrace` | SafeNewDelete.h:104-113 | allocate `a`, free it, allocate `a` again, free it: the second free re-marks record `#0` and leaves `#1` unmarked |
| `Tracker.SafeNewDelete.constructor` | SafeNewDelete.h:19 | a fresh ledger has an empty trace list and both counters at zero |
| `Tracker.SafeNewDelete.GetNewId` | SafeNewDelete.h:150 | `get_new_id()` is the index the next record will take (the trace list's length) |
| `Tracker.SafeNewDelete.NewS` | SafeNewDelete.h:57-93 | success: the slot holds the new value, one record `(slot, false)` is appended at index `get_new_id()`, and `m_new_count` rises by 1. `bad_alloc`: abort with no record and no count; the slot is written only if `new` succeeded. Both overloads: `init` gives the value's initialiser |
| `Tracker.SafeNewDelete.DeleteS` | SafeNewDelete.h:95-127 | null slot: abort with counters, records and slots unchanged. Otherwise: the slot becomes null, `m_delete_count` rises by 1 whether or not a record matched, and the list becomes `AfterDelete`; the reported index is `FirstMatch` |
| `Tracker.SafeNewDelete.Shutdown` | SafeNewDelete.h:20-55 | equal counters: clean exit, nothing reported, records untouched. Unequal: exactly the unmarked indices are reported in ascending order, every record ends marked, then abort. If `m_new_count > m_delete_count`, at least their difference is reported |

## Left out

- `log_new`, `log_delete` and all console output (SafeNewDelete.h:129-148, and the
  `std::cout` lines in the gateways and destructor) are not modelled. The indices
  that the gateways and the audit print are modelled as method results (`seen`,
  `leaked`).
- `m_log_id` (SafeNewDelete.h:154) is not modelled. It is never initialised, and it
  only numbers log lines.
- `std::cin.get()` on a clean shutdown (SafeNewDelete.h:52) is console interaction.
- The real heap, `typeid` and template genericity are not modelled.
  - An allocated value is an opaque token, plus an integer initial value for the
    `new T{ init_value }` overload.
  - Freeing a value only nulls the slot; the heap's own state is not tracked.
- `std::bad_alloc` is not decided by the model. The allocator's behaviour is a
  parameter (`AllocOutcome`) of `NewS`.
- The macros, the `__FILE__`/`__LINE__`/`__func__` capture and the `static` global
  instance (SafeNewDelete.h:162-166) are not modelled. The ledger object is passed
  explicitly. The macros' one semantic point, that the logged id is `get_new_id()`
  taken before allocation, is stated in `NewS`.
- `abort()` does not end anything in the model. It sets a terminal `status`, and
  every operation requires `status == Running`.
- The counters are `long long` in the source. The model uses unbounded `nat`, since
  2^63 allocations cannot be reached.
- The ledger is single-threaded; concurrent use is not modelled.
