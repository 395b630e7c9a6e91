/** Advisory per-record locking: the lock rows of one record, the `locked?`
    query, the two mutation guards and the effect of `lock!` and `unlock!`
    on the rows, as functions of the rows, the acting user and the time.
    The acting user (`current_user.id`) and the clock (`Time.now`) are
    parameters; timestamps are integers. */
module Lockable {

  datatype Option<+T> = None | Some(value: T)

  /** One row of the `locks` table: free-text description, optional expiry
      instant and optional owner. The polymorphic key and the audit
      timestamps are not modelled. */
  datatype LockRow = LockRow(desc: Option<string>, timeout: Option<int>, userId: Option<int>)

  /** The options hash given to `lock!`. */
  datatype LockOptions = LockOptions(desc: Option<string>, userId: Option<int>, timeout: Option<int>)

  /** The four exception classes, plus the NoMethodError raised when a guard
      dereferences the first row of a record that has none. */
  datatype LockError =
    | LockedDestroyError
    | LockedUpdateError
    | LockedLockError
    | LockedUnlockError
    | NilFirstLock

  datatype Result<+T> = Ok(value: T) | Err(error: LockError)

  /** The outcome of an operation and the record's rows afterwards. */
  datatype Step<+T> = Step(result: Result<T>, rows: seq<LockRow>)

  /** The four states a record can be in, derived from its first row: no
      row, an unowned row, an owned row that has not expired, an owned row
      that has. The reference against which `locked?` is checked. */
  datatype LockState =
    | Unlocked
    | LockedNoOwner
    | OwnedActive(owner: int)
    | OwnedExpired(owner: int)

  /** A row's timeout is absent or strictly after `now`. */
  predicate Unexpired(row: LockRow, now: int) {
    row.timeout.None? || row.timeout.value > now
  }

  function StateOf(rows: seq<LockRow>, now: int): LockState {
    if rows == [] then Unlocked
    else match rows[0].userId
      case None => LockedNoOwner
      case Some(u) => if Unexpired(rows[0], now) then OwnedActive(u) else OwnedExpired(u)
  }

  /** Whether a record in state `s` is closed to `actor`. */
  predicate Blocks(s: LockState, actor: int) {
    s.LockedNoOwner? || (s.OwnedActive? && s.owner != actor)
  }

  /** `locked?`: an unowned first row locks everybody; an owned first row that
      has not expired locks everybody but its owner; an expired row or no row
      at all locks nobody (in both cases the source returns nil). */
  function IsLocked(rows: seq<LockRow>, actor: int, now: int): (locked: bool)
    ensures locked == Blocks(StateOf(rows, now), actor)
  {
    if |rows| > 0 && rows[0].userId.None? then
      true
    else if |rows| > 0 && (rows[0].timeout.None? || rows[0].timeout.value > now) then
      rows[0].userId.value != actor
    else
      false
  }

  /** Only the first row is ever consulted. */
  lemma OnlyFirstRowCounts(a: seq<LockRow>, b: seq<LockRow>, actor: int, now: int)
    requires a != [] && b != [] && a[0] == b[0]
    ensures IsLocked(a, actor, now) == IsLocked(b, actor, now)
  {
  }

  /** The row `lock!` creates from its options. */
  function RowOf(opts: LockOptions): LockRow {
    LockRow(opts.desc, opts.timeout, opts.userId)
  }

  /** `lock!`: rejected when the record is locked for `actor` and the request
      names an owner; otherwise every row is destroyed and the new one is the
      only row left. */
  function LockStep(rows: seq<LockRow>, actor: int, now: int, opts: LockOptions): (r: Step<LockRow>)
    ensures r.result.Err? <==> opts.userId.Some? && Blocks(StateOf(rows, now), actor)
    ensures r.result.Err? ==> r.result.error == LockedLockError && r.rows == rows
    ensures r.result.Ok? ==>
      && r.rows == [r.result.value]
      && r.result.value.desc == opts.desc
      && r.result.value.timeout == opts.timeout
      && r.result.value.userId == opts.userId
    ensures r.result.Ok? ==> forall other :: IsLocked(r.rows, other, now) <==>
      opts.userId.None? || (opts.userId.value != other && Unexpired(RowOf(opts), now))
  {
    if IsLocked(rows, actor, now) && opts.userId.Some? then
      Step(Err(LockedLockError), rows)
    else
      var row := RowOf(opts);
      Step(Ok(row), [row])
  }

  /** `unlock!`: rejected when the record is locked for `actor` by a named
      owner, that is, an unexpired lock owned by somebody else; otherwise all
      rows are destroyed and returned. */
  function UnlockStep(rows: seq<LockRow>, actor: int, now: int): (r: Step<seq<LockRow>>)
    ensures r.result.Err? <==> StateOf(rows, now).OwnedActive? && StateOf(rows, now).owner != actor
    ensures r.result.Err? ==> r.result.error == LockedUnlockError && r.rows == rows
    ensures r.result.Ok? ==> r.rows == [] && r.result.value == rows
    ensures r.result.Ok? ==> forall other :: !IsLocked(r.rows, other, now)
  {
    if IsLocked(rows, actor, now) && rows[0].userId.Some? then
      Step(Err(LockedUnlockError), rows)
    else
      Step(Ok(rows), [])
  }

  /** The before-destroy hook: rejects exactly when the record is locked. */
  function PreventDestroyLockPick(rows: seq<LockRow>, actor: int, now: int): (r: Result<()>)
    ensures r.Err? <==> Blocks(StateOf(rows, now), actor)
    ensures r.Err? ==> r.error == LockedDestroyError
  {
    if IsLocked(rows, actor, now) then Err(LockedDestroyError) else Ok(())
  }

  /** The before-update hook as written: it reads the first row's owner
      without checking that a row exists, so a record with no rows fails
      with a nil dereference; given a row, it rejects exactly when the record
      is locked, and never rejects the row's owner. */
  function PreventUpdateLockPick(rows: seq<LockRow>, actor: int, now: int): (r: Result<()>)
    ensures rows == [] ==> r == Err(NilFirstLock)
    ensures rows != [] ==> (r.Err? <==> IsLocked(rows, actor, now))
    ensures rows != [] && r.Err? ==> r.error == LockedUpdateError
    ensures rows != [] && rows[0].userId == Some(actor) ==> r.Ok?
  {
    if rows == [] then
      Err(NilFirstLock)
    else if rows[0].userId.None? || rows[0].userId.value != actor then
      if IsLocked(rows, actor, now) then Err(LockedUpdateError) else Ok(())
    else
      Ok(())
  }

  /** An update of a record with no lock rows is refused by the hook as
      written, although nothing locks the record. */
  lemma UpdateOfUnlockedRecordFails(actor: int, now: int)
    ensures !IsLocked([], actor, now)
    ensures PreventUpdateLockPick([], actor, now).Err?
  {
  }

  /** The before-update hook with the missing emptiness check: it rejects
      exactly when the record is locked, so it agrees with the destroy hook. */
  function PreventUpdateLockPickChecked(rows: seq<LockRow>, actor: int, now: int): (r: Result<()>)
    ensures r.Err? <==> Blocks(StateOf(rows, now), actor)
    ensures r.Err? ==> r.error == LockedUpdateError
    ensures r.Err? <==> PreventDestroyLockPick(rows, actor, now).Err?
  {
    if rows == [] then Ok(()) else PreventUpdateLockPick(rows, actor, now)
  }
}
