/** A lockable record: the object whose `locks` association `lock!` and
    `unlock!` change in place. */
module LockableRecord {
  import opened Lockable

  class Record {
    /** The rows of the record's `locks` association, first row first. */
    var locks: seq<LockRow>

    constructor (rows: seq<LockRow>)
      ensures locks == rows
    {
      locks := rows;
    }

    /** `lock!`: raise before touching the rows when the record is locked for
        `actor` and the request names an owner; otherwise destroy every row,
        then create the requested one. */
    method Lock(actor: int, now: int, opts: LockOptions) returns (r: Result<LockRow>)
      modifies this
      ensures Step(r, locks) == LockStep(old(locks), actor, now, opts)
      ensures r.Err? <==> IsLocked(old(locks), actor, now) && opts.userId.Some?
      ensures r.Err? ==> locks == old(locks)
      ensures r.Ok? ==> locks == [RowOf(opts)]
    {
      if IsLocked(locks, actor, now) && opts.userId.Some? {
        return Err(LockedLockError);
      }
      locks := [];
      var row := RowOf(opts);
      locks := locks + [row];
      r := Ok(row);
    }

    /** `unlock!`: raise when the record is locked for `actor` and its first
        row has an owner; otherwise destroy every row and return them. */
    method Unlock(actor: int, now: int) returns (r: Result<seq<LockRow>>)
      modifies this
      ensures Step(r, locks) == UnlockStep(old(locks), actor, now)
      ensures r.Err? <==> IsLocked(old(locks), actor, now) && old(locks)[0].userId.Some?
      ensures r.Err? ==> locks == old(locks)
      ensures r.Ok? ==> locks == [] && r.value == old(locks)
    {
      if IsLocked(locks, actor, now) && locks[0].userId.Some? {
        return Err(LockedUnlockError);
      }
      r := Ok(locks);
      locks := [];
    }
  }
}
