/** `lib/lock.go`: running a command under the lock file that ADD, DEL and the tool share. */
module Lockfile {

  /** What `TryLock` answers. */
  datatype Answer = Locked | ErrBusy | ErrNotExist | OtherError

  const TRIES := 1000

  class Lock {
    /** Whether this process holds the lock, and the answers that it got so far. */
    var held: bool
    ghost var answers: seq<Answer>
    /** How the command ended, each time that it ran. */
    ghost var results: seq<bool>

    constructor ()
      ensures !held && answers == [] && results == []
    {
      held, answers, results := false, [], [];
    }

    method TryLock() returns (answer: Answer)
      requires !held
      modifies this
      ensures held == (answer == Locked)
      ensures answers == old(answers) + [answer] && results == old(results)
    {
      answer := *;
      held, answers := answer == Locked, answers + [answer];
    }

    method Unlock()
      modifies this`held
      ensures !held
    {
      held := false;
    }

    /** The command.  It can only be started while the lock is held. */
    method Run() returns (ok: bool)
      requires held
      modifies this`results
      ensures results == old(results) + [ok]
    {
      ok := *;
      results := results + [ok];
    }
  }

  predicate Retried(a: Answer) {
    a == ErrBusy || a == ErrNotExist
  }

  datatype Outcome = Finished(ok: bool) | NotAcquired | LockError

  /**
   * `LockfileRun` (`:13-43`).  The command runs once if one of at most 999 attempts gets the lock, and
   * not at all otherwise; its own answer is returned, and the lock is not held afterwards.
   */
  method LockfileRun(l: Lock) returns (r: Outcome)
    requires !l.held && l.answers == []
    modifies l
    ensures !l.held
    ensures |l.answers| < TRIES
    ensures l.results == old(l.results) + if r.Finished? then [r.ok] else []
    ensures forall i | 0 <= i < |l.answers| - 1 :: Retried(l.answers[i])
    ensures r.Finished? <==> l.answers != [] && l.answers[|l.answers| - 1] == Locked
    ensures r.NotAcquired? ==> |l.answers| == TRIES - 1 && Retried(l.answers[|l.answers| - 1])
    ensures r.LockError? ==> l.answers != [] && l.answers[|l.answers| - 1] == OtherError
  {
    var tries := TRIES;
    while true
      invariant !l.held && l.results == old(l.results)
      invariant 0 < tries && |l.answers| == TRIES - tries
      invariant forall i | 0 <= i < |l.answers| :: Retried(l.answers[i])
      decreases tries
    {
      tries := tries - 1;
      if tries <= 0 { return NotAcquired; }
      var answer := l.TryLock();
      if answer == Locked {
        break;
      } else if answer != ErrBusy && answer != ErrNotExist {
        return LockError;
      }
    }
    var ok := l.Run();
    l.Unlock();
    r := Finished(ok);
  }
}
