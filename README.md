# acts_as_lockable in Dafny

A model of the advisory per-record locking of `acts_as_lockable`
(`Thincloud::Acts::Lockable::InstanceMethods`). A lockable record owns a
collection of lock rows; each row has an optional owner (`user_id`), an
optional expiry instant (`timeout`) and a free-text description (`desc`).
`locked?` derives the record's state from its first row, the acting user
and the current time; `lock!` and `unlock!` are guarded replacements of the
rows; two hooks refuse destroying and updating a locked record.

- `lockable.dfy`, module `Lockable`: the row datatype, the four error
  classes, `locked?` and the two hooks as functions of the rows, and the
  effect of `lock!` and `unlock!` as functions returning the outcome and the
  new rows. A four-state model of the record (`Unlocked`, `LockedNoOwner`,
  `OwnedActive`, `OwnedExpired`) is the reference `locked?` is proved
  against.
- `record.dfy`, module `LockableRecord`: class `Record`, whose `locks`
  field (a `seq<LockRow>`) `Lock` and `Unlock` change in place — destroy
  every row, then create one — and whose contracts tie the new rows to the
  functions above.
- `traces.dfy`, module `LockTraces`: sequences of `lock!`/`unlock!` calls
  by various users at various times, and what survives them.

The acting user (`current_user.id`) and the clock (`Time.now`) are
parameters of every operation; the actor is an `int`, so a missing current
user cannot be passed, which is how the model excludes that caller error.
Timestamps are integers. `locked?` returns nil in two cases, when the
record has no lock rows and when its first row is owned and expired (both
branches at lib/acts_as_lockable.rb:76-81 fall through); both are read as
`false`.

An owner can `unlock!` their own lock: line 71 raises only when `locked?`
holds, and `locked?` is false for the owner (`UnlockStep`,
`TimedOwnedLockScenario`).

The comments at lib/acts_as_lockable.rb:28 and :33 say that nobody but the
owner can lock an owned record. The code at line 61 raises only when the new
request names an owner, so another user's `lock!` with only a description
succeeds: it destroys the owned lock and puts an unowned lock in its place,
which locks out the former owner too. The model follows the code
(`LockStep`, `OwnerlessLockTakesOverOwnedLock`); `OwnedLockWithstandsOthers`
covers only `lock!` calls that name an owner for this reason.

## Model

| member | source | states |
|---|---|---|
| Lockable.IsLocked | lib/acts_as_lockable.rb:75-82 | `locked?` agrees with the four-state model: false with no rows, true for everybody under an unowned first row whatever its timeout, true exactly for non-owners under an owned row whose timeout is absent or strictly after now, false once the timeout is at or before now |
| Lockable.OnlyFirstRowCounts | lib/acts_as_lockable.rb:75-82 | two row lists with the same first row are locked for the same users at the same times |
| Lockable.LockStep | lib/acts_as_lockable.rb:59-68 | `lock!` fails with `LockedLockError` exactly when the request names an owner and the record is unowned-locked or actively owned by another user, leaving the rows unchanged; otherwise exactly one row remains, carrying the requested desc, timeout and owner, and it is then locked for everybody (no owner) or for every other user while unexpired |
| Lockable.UnlockStep | lib/acts_as_lockable.rb:70-73 | `unlock!` fails with `LockedUnlockError` exactly when an unexpired lock is owned by another user, rows unchanged; otherwise it returns the destroyed rows and leaves none, so unowned or expired locks are cleared by anyone and owners clear their own |
| Lockable.PreventDestroyLockPick | lib/acts_as_lockable.rb:86-88 | the destroy hook rejects with `LockedDestroyError` exactly when the record is locked for the actor |
| Lockable.PreventUpdateLockPick | lib/acts_as_lockable.rb:90-96 | the update hook as written: a nil dereference with no rows; given a row, rejects with `LockedUpdateError` exactly when `locked?` holds, and never rejects the row's owner |
| Lockable.UpdateOfUnlockedRecordFails | lib/acts_as_lockable.rb:90-96 | a record with no rows is not locked, yet the update hook as written rejects it |
| Lockable.PreventUpdateLockPickChecked | lib/acts_as_lockable.rb:90-96 | the update hook with an emptiness check rejects exactly when the record is locked, just as the destroy hook does |
| LockableRecord.Record.Lock | lib/acts_as_lockable.rb:59-68 | raises before touching the rows when locked for the actor and an owner is requested; otherwise the rows become exactly the requested row |
| LockableRecord.Record.Unlock | lib/acts_as_lockable.rb:70-73 | raises when locked for the actor and the first row has an owner, rows unchanged; otherwise returns the old rows and leaves none |
| LockTraces.RunKeepsAtMostOneRow | lib/acts_as_lockable.rb:59-73 | a record with at most one row keeps at most one row through any sequence of `lock!`/`unlock!` calls |
| LockTraces.RunAfterSuccessHasAtMostOneRow | lib/acts_as_lockable.rb:59-73 | when the first call changes the rows, at most one row remains after all the calls, whatever the record held before |
| LockTraces.RunAppend | lib/acts_as_lockable.rb:59-73 | running a sequence of calls split in two is running the first part and then the second on its result |
| LockTraces.AnyChangingCall | lib/acts_as_lockable.rb:59-73 | once any call in a sequence changes the rows, at most one row remains at the end, whatever the record held before |
| LockTraces.OwnerlessLockTakesOverOwnedLock | lib/acts_as_lockable.rb:61-67 | another user's `lock!` naming no owner succeeds against an unexpired owned lock, and the resulting unowned lock locks out the former owner |
| LockTraces.OwnedLockWithstandsOthers | lib/acts_as_lockable.rb:59-73 | while an owned lock has not expired, no sequence of owned `lock!` and `unlock!` calls by other users changes the rows |
| LockTraces.UnownedLockWithstandsClaims | lib/acts_as_lockable.rb:59-68 | no sequence of `lock!` calls naming an owner changes an unowned lock, whoever makes them |
| LockTraces.TimedOwnedLockScenario | lib/acts_as_lockable.rb:24-28 | user 7 locks until 300: not locked for 7, locked for 9; at 300 expired for 9 with the row still present; 7 can unlock, 9 cannot |
| LockTraces.UnownedLockScenario | lib/acts_as_lockable.rb:6-10 | a lock with only a description locks every user, its placer included, and anyone can unlock it |

## Left out

- The `acts_as_lockable` class macro (the `has_many` association and the `before_destroy`/`before_update` registration) and `lockable?`: framework wiring with no lock logic.
- Persistence: the polymorphic `locked_id`/`locked_type` key and the `created_at`/`updated_at` stamps; each record's rows are an in-memory sequence.
- The update and destroy operations themselves: the hooks are modelled, what the framework then does with the record is not.
- `Time.now` and the global `current_user`: parameters instead; a nil current user is excluded by the actor's type.
- Concurrent callers racing between `destroy_all` and `create`: the model is sequential, each call atomic.

## Findings

| source | as written | input that shows it | evidently intended | confidence | as-written member | corrected member |
|---|---|---|---|---|---|---|
| lib/acts_as_lockable.rb:92 | the update hook reads `locks.first.user_id` with no check that a row exists | any update of a record that has no lock rows: `locks.first` is nil and the hook raises NoMethodError | an unlocked record can be updated; the hook rejects only when `locked?` holds | high, not executed | Lockable.UpdateOfUnlockedRecordFails | Lockable.PreventUpdateLockPickChecked |
