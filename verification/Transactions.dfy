/** Transactions with retry on deadlock (DB.WithTransaction and isDeadlock, backend/internal/db/postgres.go). */
module Transactions {
  import opened Common
  import opened Strings

  predicate IsDeadlock(error: string) {
    error == "pq: deadlock detected" || Contains(error, "40P01")
  }

  /** A deadlock is told from the error text: the driver's message, or the code 40P01 anywhere in it. */
  lemma DeadlockIff(error: string)
    ensures IsDeadlock(error) <==> error == "pq: deadlock detected" || exists a, b :: error == a + "40P01" + b
  {
    ContainsIff(error, "40P01");
  }

  /**
   * Everything outside the retry loop that one attempt meets: what others commit before it begins, whether BEGIN
   * fails, what the caller's function makes of the store, and whether COMMIT fails.
   */
  datatype Attempt<!S> = Attempt(others: S -> S, beginError: Option<string>, fn: S -> Result<S>, commitError: Option<string>)

  /** The error of an attempt on the store it began with, as the database or the function reports it. */
  function RawError<S>(a: Attempt<S>, begin: S): Option<string> {
    if a.beginError.Some? then a.beginError
    else if a.fn(begin).Err? then Some(a.fn(begin).error)
    else a.commitError
  }

  /** The same error as WithTransaction reports it. */
  function ReportedError<S>(a: Attempt<S>, begin: S): Option<string> {
    if a.beginError.Some? then Some("failed to begin transaction: " + a.beginError.value)
    else if a.fn(begin).Err? then Some(a.fn(begin).error)
    else if a.commitError.Some? then Some("failed to commit transaction: " + a.commitError.value)
    else None
  }

  /** The store at the beginning of attempt `i` when all earlier attempts have left nothing behind. */
  function Begin<S>(script: nat -> Attempt<S>, s0: S, i: nat): S {
    script(i).others(if i == 0 then s0 else Begin(script, s0, i - 1))
  }

  predicate Clean<S>(script: nat -> Attempt<S>, s0: S, i: nat) {
    RawError(script(i), Begin(script, s0, i)).None?
  }

  predicate Deadlocked<S>(script: nat -> Attempt<S>, s0: S, i: nat) {
    var e := RawError(script(i), Begin(script, s0, i));
    e.Some? && IsDeadlock(e.value)
  }

  /** Attempt `k` is reached: every earlier one ended in a deadlock. */
  ghost predicate ReachedBy<S>(script: nat -> Attempt<S>, s0: S, k: nat) {
    forall j: nat :: j < k ==> Deadlocked(script, s0, j)
  }

  /** One of the first three attempts is clean, and only deadlocks come before it. */
  ghost predicate CommitsWithinThree<S>(script: nat -> Attempt<S>, s0: S) {
    exists k: nat :: k < 3 && ReachedBy(script, s0, k) && Clean(script, s0, k)
  }

  /** The attempt at which the loop stops decides: it is clean exactly when any of the three would be reached and clean. */
  lemma LastAttemptDecides<S>(script: nat -> Attempt<S>, s0: S, last: nat)
    requires last < 3 && ReachedBy(script, s0, last)
    requires Clean(script, s0, last) || last == 2 || !Deadlocked(script, s0, last)
    ensures Clean(script, s0, last) <==> CommitsWithinThree(script, s0)
  {
    if k: nat :| k < 3 && ReachedBy(script, s0, k) && Clean(script, s0, k) {
      assert k < last ==> Deadlocked(script, s0, k);
    }
  }

  class DB<S(0)> {
    var store: S

    constructor (s: S)
      ensures store == s
    {
      store := s;
    }

    /**
     * At most three attempts, each after deadlocks only. Success means one clean attempt, and the store is then one
     * application of its function to the store it began with; on error the store holds what others committed, no more.
     */
    method WithTransaction(script: nat -> Attempt<S>) returns (err: Option<string>, attempts: nat, slept: nat)
      modifies this
      ensures 1 <= attempts <= 3 && ReachedBy(script, old(store), attempts - 1)
      ensures err == ReportedError(script(attempts - 1), Begin(script, old(store), attempts - 1))
      ensures var a, s := script(attempts - 1), Begin(script, old(store), attempts - 1);
              if a.beginError.Some? then err == Some("failed to begin transaction: " + a.beginError.value)
              else if a.fn(s).Err? then err == Some(a.fn(s).error)
              else if a.commitError.Some? then err == Some("failed to commit transaction: " + a.commitError.value)
              else err == None
      ensures err.None? <==> CommitsWithinThree(script, old(store))
      ensures err.Some? ==> attempts == 3 || !Deadlocked(script, old(store), attempts - 1)
      ensures err.None? ==> store == script(attempts - 1).fn(Begin(script, old(store), attempts - 1)).value
      ensures err.Some? ==> store == Begin(script, old(store), attempts - 1)
      ensures slept == 50 * attempts * (attempts - 1)
    {
      err, attempts, slept := None, 0, 0;
      ghost var s0 := store;
      for i := 0 to 3
        invariant i <= 2 && attempts == i && ReachedBy(script, s0, i)
        invariant store == if i == 0 then s0 else Begin(script, s0, i - 1)
        invariant slept == 50 * i * (i + 1)
      {
        store := script(i).others(store);
        attempts := i + 1;
        slept := 50 * i * (i + 1);
        if script(i).beginError.Some? {
          if IsDeadlock(script(i).beginError.value) && i < 2 {
            slept := slept + (i + 1) * 100;
            continue;
          }
          LastAttemptDecides(script, s0, i);
          err := Some("failed to begin transaction: " + script(i).beginError.value);
          return;
        }
        var result := script(i).fn(store);
        if result.Err? {
          if IsDeadlock(result.error) && i < 2 {
            slept := slept + (i + 1) * 100;
            continue;
          }
          LastAttemptDecides(script, s0, i);
          err := Some(result.error);
          return;
        }
        if script(i).commitError.Some? {
          if IsDeadlock(script(i).commitError.value) && i < 2 {
            slept := slept + (i + 1) * 100;
            continue;
          }
          LastAttemptDecides(script, s0, i);
          err := Some("failed to commit transaction: " + script(i).commitError.value);
          return;
        }
        LastAttemptDecides(script, s0, i);
        store := result.value;
        return;
      }
      // The statement that follows the loop in the source cannot be reached.
      assert false;
    }
  }

  /** Attempts that find nothing changed by others all begin with the same store. */
  lemma {:induction false} QuietWorld<S>(script: nat -> Attempt<S>, s0: S, k: nat)
    requires forall i: nat, s: S :: script(i).others(s) == s
    ensures Begin(script, s0, k) == s0
  {
    if k == 0 {
    } else {
      QuietWorld(script, s0, k - 1);
    }
  }
}
