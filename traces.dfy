/** Sequences of `lock!` and `unlock!` calls on one record, each by some
    acting user at some time, and what the lock rows guarantee across them. */
module LockTraces {
  import opened Lockable

  datatype Call =
    | LockCall(actor: int, now: int, opts: LockOptions)
    | UnlockCall(actor: int, now: int)

  /** The record's rows after one call, whether it succeeds or is rejected. */
  function Apply(rows: seq<LockRow>, c: Call): seq<LockRow> {
    match c
    case LockCall(actor, now, opts) => LockStep(rows, actor, now, opts).rows
    case UnlockCall(actor, now) => UnlockStep(rows, actor, now).rows
  }

  /** The record's rows after the calls, in order. */
  function Run(rows: seq<LockRow>, calls: seq<Call>): seq<LockRow>
    decreases |calls|
  {
    if calls == [] then rows else Run(Apply(rows, calls[0]), calls[1..])
  }

  /** A record never gains a second row through `lock!` or `unlock!`:
      `lock!` replaces, `unlock!` clears. */
  lemma {:induction false} RunKeepsAtMostOneRow(rows: seq<LockRow>, calls: seq<Call>)
    requires |rows| <= 1
    ensures |Run(rows, calls)| <= 1
    decreases |calls|
  {
    if calls != [] {
      RunKeepsAtMostOneRow(Apply(rows, calls[0]), calls[1..]);
    }
  }

  /** When the first call changes the rows, at most one row remains from
      then on, whatever the record held before. */
  lemma {:induction false} RunAfterSuccessHasAtMostOneRow(rows: seq<LockRow>, calls: seq<Call>)
    requires calls != [] && Apply(rows, calls[0]) != rows
    ensures |Run(rows, calls)| <= 1
  {
    var c := calls[0];
    match c {
      case LockCall(actor, now, opts) =>
        assert LockStep(rows, actor, now, opts).result.Ok?;
      case UnlockCall(actor, now) =>
        assert UnlockStep(rows, actor, now).result.Ok?;
    }
    RunKeepsAtMostOneRow(Apply(rows, c), calls[1..]);
  }

  /** Running a sequence of calls split in two is running the first part,
      then the second. */
  lemma {:induction false} RunAppend(rows: seq<LockRow>, p: seq<Call>, s: seq<Call>)
    ensures Run(rows, p + s) == Run(Run(rows, p), s)
    decreases |p|
  {
    if p == [] {
      assert p + s == s;
    } else {
      assert (p + s)[0] == p[0];
      assert (p + s)[1..] == p[1..] + s;
      RunAppend(Apply(rows, p[0]), p[1..], s);
    }
  }

  /** Once any call changes the rows, at most one row remains at the end,
      whatever the record held before. */
  lemma {:induction false} AnyChangingCall(rows: seq<LockRow>, calls: seq<Call>, k: int)
    requires 0 <= k < |calls|
    requires Apply(Run(rows, calls[..k]), calls[k]) != Run(rows, calls[..k])
    ensures |Run(rows, calls)| <= 1
  {
    assert calls == calls[..k] + calls[k..];
    RunAppend(rows, calls[..k], calls[k..]);
    assert calls[k..][0] == calls[k];
    RunAfterSuccessHasAtMostOneRow(Run(rows, calls[..k]), calls[k..]);
  }

  /** A call by somebody other than `owner`, made while `row` has not
      expired, and which, if it is a `lock!`, claims the record for a named
      owner. A `lock!` that names no owner is left out on purpose: it always
      succeeds and replaces the lock (`OwnerlessLockTakesOverOwnedLock`). */
  predicate Contends(c: Call, owner: int, row: LockRow) {
    c.actor != owner && Unexpired(row, c.now) && (c.LockCall? ==> c.opts.userId.Some?)
  }

  /** While a lock owned by `owner` has not expired, no other user can take
      it over with an owned `lock!` or remove it with `unlock!`. */
  lemma {:induction false} OwnedLockWithstandsOthers(rows: seq<LockRow>, owner: int, calls: seq<Call>)
    requires rows != [] && rows[0].userId == Some(owner)
    requires forall i :: 0 <= i < |calls| ==> Contends(calls[i], owner, rows[0])
    ensures Run(rows, calls) == rows
    decreases |calls|
  {
    if calls != [] {
      var c := calls[0];
      assert Contends(c, owner, rows[0]);
      assert StateOf(rows, c.now) == OwnedActive(owner);
      assert Apply(rows, c) == rows;
      forall i | 0 <= i < |calls[1..]|
        ensures Contends(calls[1..][i], owner, rows[0])
      {
        assert calls[1..][i] == calls[i + 1];
      }
      OwnedLockWithstandsOthers(rows, owner, calls[1..]);
    }
  }

  /** Any other user's `lock!` that names no owner succeeds against an
      unexpired owned lock and leaves an unowned lock that locks out the
      former owner too. */
  lemma OwnerlessLockTakesOverOwnedLock(rows: seq<LockRow>, owner: int, other: int, now: int, d: Option<string>)
    requires StateOf(rows, now) == OwnedActive(owner) && other != owner
    ensures LockStep(rows, other, now, LockOptions(d, None, None)).result.Ok?
    ensures IsLocked(LockStep(rows, other, now, LockOptions(d, None, None)).rows, owner, now)
  {
  }

  /** A lock with no owner cannot be taken over by any `lock!` that names an
      owner, not even by the user who placed it. */
  lemma {:induction false} UnownedLockWithstandsClaims(rows: seq<LockRow>, calls: seq<Call>)
    requires rows != [] && rows[0].userId.None?
    requires forall i :: 0 <= i < |calls| ==> calls[i].LockCall? && calls[i].opts.userId.Some?
    ensures Run(rows, calls) == rows
    decreases |calls|
  {
    if calls != [] {
      var c := calls[0];
      assert StateOf(rows, c.now) == LockedNoOwner;
      assert Apply(rows, c) == rows;
      forall i | 0 <= i < |calls[1..]|
        ensures calls[1..][i].LockCall? && calls[1..][i].opts.userId.Some?
      {
        assert calls[1..][i] == calls[i + 1];
      }
      UnownedLockWithstandsClaims(rows, calls[1..]);
    }
  }

  /** User 7 locks for 300 time units at time 0: user 7 is not locked out,
      user 9 is; at time 300 the lock has expired for user 9 but its row is
      still there; user 7 may unlock it before then. */
  lemma TimedOwnedLockScenario()
    ensures var rows := Run([], [LockCall(1, 0, LockOptions(None, Some(7), Some(300)))]);
      && |rows| == 1
      && !IsLocked(rows, 7, 0)
      && IsLocked(rows, 9, 0)
      && !IsLocked(rows, 9, 300)
      && Run(rows, [UnlockCall(7, 10)]) == []
      && Run(rows, [UnlockCall(9, 10)]) == rows
  {
  }

  /** A lock placed without an owner locks every user, the one who placed it
      included, and any user may then unlock it. */
  lemma UnownedLockScenario(placer: int, other: int, now: int)
    ensures var rows := Run([], [LockCall(placer, now, LockOptions(Some("maintenance"), None, None))]);
      && IsLocked(rows, placer, now)
      && IsLocked(rows, other, now)
      && Run(rows, [UnlockCall(other, now)]) == []
  {
  }
}
