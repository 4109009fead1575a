/** SQLite transactions as Python's sqlite3 module drives them: a write outside any
    transaction opens one implicitly, releasing the outermost savepoint commits, and closing
    a connection discards what was not committed. */
module Transactions {
  import opened Basics

  class Connection<T> {
    // What other connections, and a later open, see.
    var durable: T
    // What this connection sees.
    var working: T
    // An implicit BEGIN is open.
    var began: bool
    // The state remembered by the one savepoint the scripts nest.
    var saved: Option<T>

    constructor (state: T)
      ensures durable == working == state && Idle()
    {
      durable, working, began, saved := state, state, false, None;
    }

    ghost predicate Idle()
      reads this
    {
      !began && saved.None? && working == durable
    }

    method Savepoint()
      requires saved.None?
      modifies this`saved
      ensures saved == Some(working)
    {
      saved := Some(working);
    }

    method Write(state: T)
      modifies this`working, this`began
      ensures working == state && began == (old(began) || saved.None?)
    {
      if saved.None? {
        began := true;
      }
      working := state;
    }

    method RollbackTo()
      requires saved.Some?
      modifies this`working
      ensures working == saved.value
    {
      working := saved.value;
    }

    /** Releasing a savepoint inside an open transaction leaves the transaction open. */
    method Release()
      requires saved.Some?
      modifies this`saved, this`durable
      ensures saved.None? && durable == if began then old(durable) else working
    {
      saved := None;
      if !began {
        durable := working;
      }
    }

    method Commit()
      requires saved.None?
      modifies this`durable, this`began
      ensures durable == working && !began
    {
      durable, began := working, false;
    }

    /** rollback(), and close() with a transaction open. */
    method Rollback()
      modifies this`working, this`began, this`saved
      ensures Idle()
    {
      working, began, saved := durable, false, None;
    }
  }

  /** One unit of a batch: written under a savepoint of its own or directly on the
      connection; a step that raises has written something partial before it does. */
  datatype Step<!T> = Step(savepointed: bool, effect: T -> T, partial: T -> T, raises: bool)

  function Effects<T>(steps: seq<Step<T>>, state: T): T {
    if steps == [] then state else steps[|steps| - 1].effect(Effects(steps[..|steps| - 1], state))
  }

  /** How many leading steps are savepointed and do not raise. */
  function ReleasedPrefix<T>(steps: seq<Step<T>>): (n: nat)
    ensures n <= |steps|
    ensures forall i :: 0 <= i < n ==> steps[i].savepointed && !steps[i].raises
    ensures n < |steps| ==> !steps[n].savepointed || steps[n].raises
  {
    if steps != [] && steps[0].savepointed && !steps[0].raises then 1 + ReleasedPrefix(steps[1..]) else 0
  }

  lemma EffectsSnoc<T>(steps: seq<Step<T>>, i: nat, state: T)
    requires i < |steps|
    ensures Effects(steps[..i + 1], state) == steps[i].effect(Effects(steps[..i], state))
  {
    assert steps[..i + 1][..i] == steps[..i];
  }

  /** One step; one that raises also loses what the open transaction holds. */
  method RunStep<T>(conn: Connection<T>, step: Step<T>) returns (ok: bool)
    requires conn.saved.None? && (conn.began || conn.working == conn.durable)
    modifies conn
    ensures ok <==> !step.raises
    ensures ok ==> conn.saved.None? && (conn.began || conn.working == conn.durable)
    ensures ok ==> conn.working == step.effect(old(conn.working))
    ensures ok ==> conn.began == (old(conn.began) || !step.savepointed)
    ensures ok ==> conn.durable == if step.savepointed && !old(conn.began) then conn.working else old(conn.durable)
    ensures !ok ==> conn.Idle() && conn.durable == old(conn.durable)
  {
    if step.savepointed {
      conn.Savepoint();
    }
    if step.raises {
      conn.Write(step.partial(conn.working));
      if step.savepointed {
        conn.RollbackTo();
        conn.Release();
      }
      conn.Rollback();
      return false;
    }
    conn.Write(step.effect(conn.working));
    if step.savepointed {
      conn.Release();
    }
    return true;
  }

  /** After i steps without a failure: the connection sees all of them, durable are those whose
      savepoint was outermost, and a transaction is open once there are others. */
  ghost predicate Batched<T>(steps: seq<Step<T>>, start: T, i: nat, working: T, durable: T, began: bool)
    requires i <= |steps|
  {
    var r := ReleasedPrefix(steps);
    && (forall k :: 0 <= k < i ==> !steps[k].raises) && (began <==> i > r)
    && working == Effects(steps[..i], start) && durable == Effects(steps[..Min(i, r)], start)
  }

  lemma BatchedStep<T>(steps: seq<Step<T>>, start: T, i: nat, working: T, durable: T, began: bool)
    requires i < |steps| && !steps[i].raises && Batched(steps, start, i, working, durable, began)
    ensures var step := steps[i];
            Batched(steps, start, i + 1, step.effect(working),
                    if step.savepointed && !began then step.effect(working) else durable, began || !step.savepointed)
  {
    EffectsSnoc(steps, i, start);
  }

  lemma BatchStopped<T>(steps: seq<Step<T>>, start: T, i: nat, working: T, durable: T, began: bool)
    requires i < |steps| && steps[i].raises && Batched(steps, start, i, working, durable, began)
    ensures durable == Effects(steps[..ReleasedPrefix(steps)], start)
    ensures exists k :: 0 <= k < |steps| && steps[k].raises
  {
  }

  /** The batch loop of resolve_selected_markets with the commit that follows it. A batch that
      completes is durable as a whole. One that raises leaves durable exactly the leading
      steps whose savepoints were outermost when they were released: the first step written
      directly opens a transaction that takes every later step with it. */
  method RunBatch<T>(conn: Connection<T>, steps: seq<Step<T>>) returns (completed: bool)
    requires conn.Idle()
    modifies conn
    ensures conn.Idle()
    ensures completed <==> forall i :: 0 <= i < |steps| ==> !steps[i].raises
    ensures completed ==> conn.durable == Effects(steps, old(conn.durable))
    ensures !completed ==> conn.durable == Effects(steps[..ReleasedPrefix(steps)], old(conn.durable))
  {
    ghost var start := conn.durable;
    for i := 0 to |steps|
      invariant conn.saved.None? && (conn.began || conn.working == conn.durable)
      invariant Batched(steps, start, i, conn.working, conn.durable, conn.began)
    {
      if !steps[i].raises {
        BatchedStep(steps, start, i, conn.working, conn.durable, conn.began);
      } else {
        BatchStopped(steps, start, i, conn.working, conn.durable, conn.began);
      }
      var ok := RunStep(conn, steps[i]);
      if !ok {
        return false;
      }
    }
    assert steps[..|steps|] == steps;
    conn.Commit();
    completed := true;
  }

  /** A failure leaves exactly the steps before it, and nothing of the failing step, when and
      only when every step before it has a savepoint of its own. */
  lemma {:induction false} PrefixAtomicExactlyWhen<T>(steps: seq<Step<T>>, k: nat)
    requires k < |steps| && steps[k].raises
    requires forall i :: 0 <= i < k ==> !steps[i].raises
    ensures ReleasedPrefix(steps) == k <==> forall i :: 0 <= i < k ==> steps[i].savepointed
  {
    if k > 0 {
      assert steps[1..][k - 1] == steps[k];
      PrefixAtomicExactlyWhen(steps[1..], k - 1);
      assert forall i :: 0 < i < k ==> steps[i] == steps[1..][i - 1];
      assert forall i :: 0 <= i < k - 1 ==> steps[1..][i] == steps[i + 1];
    }
  }
}
