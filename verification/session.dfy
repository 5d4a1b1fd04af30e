/** The emulator session check and the tick cadence, as functions of the
    plugin's state: what one `_check_emu_status` does to the process handle
    and the ledger, and which ticks schedule the bulk time refresh. */
module Session {
  import opened Wrappers
  import opened TimeLedger

  /** The process handle, the ledger file and the exception that escapes, if
      any, after one session check. `proc` is None when no emulator is
      tracked, otherwise Some(exited). */
  datatype SessionState = SessionState(proc: Option<bool>, ledger: Option<Ledger>, raised: Option<LedgerError>)

  /** One session check. With no handle the poll raises AttributeError and
      is ignored; a running process changes nothing; an exited one is
      recorded in the ledger and the handle dropped. A failed record leaves
      the handle in place: AttributeError (unknown game) is swallowed,
      FileNotFoundError (no ledger file) escapes. */
  function CheckSession(proc: Option<bool>, ledger: Option<Ledger>, runningId: string, duration: int, now: int): SessionState
  {
    if proc != Some(true) then SessionState(proc, ledger, None)
    else match Increment(ledger, runningId, duration, now)
      case Ok(data) => SessionState(None, Some(data), None)
      case Err(UnknownGame) => SessionState(proc, ledger, None)
      case Err(FileMissing) => SessionState(proc, ledger, Some(FileMissing))
  }

  /** Without an exited process the check changes nothing and raises nothing. */
  lemma IdleCheckIsNoOp(proc: Option<bool>, ledger: Option<Ledger>, runningId: string, duration: int, now: int)
    requires proc == None || proc == Some(false)
    ensures CheckSession(proc, ledger, runningId, duration, now) == SessionState(proc, ledger, None)
  {
  }

  /** An exited session of a known game adds its duration to that game, stamps
      it with the current time, touches no other entry and clears the handle;
      a second check right after is a no-op, so a session is counted once. */
  lemma ExitedSessionRecordedOnce(ledger: Ledger, runningId: string, d: int, now: int, d': int, now': int)
    requires runningId in ledger
    ensures var s := CheckSession(Some(true), Some(ledger), runningId, d, now);
      && s.proc == None && s.raised == None && s.ledger.Some?
      && s.ledger.value.Keys == ledger.Keys
      && s.ledger.value[runningId].timePlayed == ledger[runningId].timePlayed + d
      && s.ledger.value[runningId].lastPlayed == Some(now)
      && (forall k :: k in ledger && k != runningId ==> s.ledger.value[k] == ledger[k])
      && CheckSession(s.proc, s.ledger, runningId, d', now') == SessionState(None, s.ledger, None)
  {
  }

  /** A session whose game has no ledger entry is never recorded: the check
      swallows the error and leaves everything as it was, so every later
      check repeats it. */
  lemma UnknownGameSessionStaysOpen(ledger: Ledger, runningId: string, d: int, now: int)
    requires runningId !in ledger
    ensures CheckSession(Some(true), Some(ledger), runningId, d, now) == SessionState(Some(true), Some(ledger), None)
  {
  }

  /** Without a ledger file an exited session raises and nothing changes. */
  lemma MissingLedgerRaises(runningId: string, d: int, now: int)
    ensures CheckSession(Some(true), None, runningId, d, now) == SessionState(Some(true), None, Some(FileMissing))
  {
  }

  /** A check never adds or removes ledger entries, and never creates or
      deletes the file. */
  lemma CheckKeepsLedgerKeys(proc: Option<bool>, ledger: Option<Ledger>, runningId: string, d: int, now: int)
    ensures var s := CheckSession(proc, ledger, runningId, d, now);
      && s.ledger.Some? == ledger.Some?
      && (ledger.Some? ==> s.ledger.value.Keys == ledger.value.Keys)
  {
  }

  /** Two sessions of one game, each run to exit and checked, add up. */
  lemma TwoSessionsAdd(ledger: Ledger, id: string, d1: int, t1: int, d2: int, t2: int)
    requires id in ledger
    ensures var s1 := CheckSession(Some(true), Some(ledger), id, d1, t1);
      s1.ledger.Some? && id in s1.ledger.value &&
      var s2 := CheckSession(Some(true), s1.ledger, id, d2, t2);
      && s2.ledger == Some(Bumped(ledger, id, d1 + d2, t2))
      && s2.ledger.value[id].timePlayed == ledger[id].timePlayed + d1 + d2
  {
    BumpedTwice(ledger, id, d1, t1, d2, t2);
  }

  /** Every fifth tick schedules the bulk refresh of game times. */
  const RefreshPeriod: nat := 5

  /** Whether the tick that brings the counter to `count` schedules a refresh. */
  predicate RefreshDue(count: nat)
  {
    count % RefreshPeriod == 0
  }

  /** How many of the `k` ticks after the counter reads `c` schedule a refresh. */
  function RefreshesAfter(c: nat, k: nat): nat
  {
    if k == 0 then 0 else RefreshesAfter(c, k - 1) + (if RefreshDue(c + k) then 1 else 0)
  }

  /** The cadence: the ticks from counter `c` to `c + k` schedule exactly as
      many refreshes as there are multiples of five in that range. */
  lemma {:induction false} RefreshCount(c: nat, k: nat)
    ensures RefreshesAfter(c, k) == (c + k) / RefreshPeriod - c / RefreshPeriod
  {
    if k > 0 {
      RefreshCount(c, k - 1);
      var n := c + k;
      assert n / 5 == (n - 1) / 5 + (if n % 5 == 0 then 1 else 0);
    }
  }
}
