/**
 * The fiber's default command executor: one running flag, read before every
 * command of a batch. Stop is cooperative: a command already running is never
 * interrupted, and once the flag is off the rest of the batch is skipped.
 */
module Invoker {
  import opened Batch

  class RunnableInvokerImpl {
    var running: bool

    /** Every command this invoker has run, across all batches, in order. */
    ghost var executed: seq<Command>

    /** Every value ever stored by SetRunning on this invoker, in order. */
    ghost var writes: seq<bool>

    /** The flag holds the last value stored through SetRunning, or its initial true. */
    ghost predicate Valid()
      reads this
    {
      running == FlagAfter(true, writes)
    }

    constructor ()
      ensures Valid()
      ensures IsRunning()
      ensures executed == [] && writes == []
    {
      running := true;
      executed := [];
      writes := [];
    }

    /** Reports the value last stored by SetRunning, or true if it was never called. */
    predicate IsRunning()
      reads this
      requires Valid()
      ensures IsRunning() <==> (writes == [] || writes[|writes| - 1])
    {
      running
    }

    method SetRunning(b: bool)
      requires Valid()
      modifies this
      ensures Valid()
      ensures IsRunning() == b
      ensures writes == old(writes) + [b]
      ensures executed == old(executed)
    {
      running := b;
      writes := writes + [b];
    }

    /**
     * Runs one command to completion: it joins the trace, and each setRunning
     * call it makes goes through SetRunning like any other caller's.
     */
    method RunCommand(c: Command)
      requires Valid()
      modifies this
      ensures Valid()
      ensures executed == old(executed) + [c]
      ensures writes == old(writes) + c.calls
      ensures running == After(c, old(running))
    {
      executed := executed + [c];
      ghost var writes0 := writes;
      ghost var entry := running;
      for k := 0 to |c.calls|
        invariant Valid()
        invariant writes == writes0 + c.calls[..k]
        invariant running == FlagAfter(entry, c.calls[..k])
        invariant executed == old(executed) + [c]
      {
        SetRunning(c.calls[k]);
      }
      assert c.calls[..|c.calls|] == c.calls;
    }

    /**
     * Runs the commands of `toExecute` in order, each one only if the flag is
     * still true when it is reached. The invoker never writes the flag itself;
     * only the commands that run do. A command that throws ends the call.
     */
    method ExecuteAll(toExecute: array<Command>) returns (outcome: Outcome)
      requires Valid()
      modifies this
      ensures Valid()
      ensures !old(running) ==> executed == old(executed) && writes == old(writes)
                                && !running && outcome == Completed
      ensures toExecute.Length == 0 ==> executed == old(executed) && writes == old(writes)
                                        && running == old(running) && outcome == Completed
      ensures var r := Exec(old(toExecute[..]), old(running));
              executed == old(executed) + r.trace
              && writes == old(writes) + r.writes
              && running == r.flag
              && outcome == r.outcome
    {
      ghost var batch := toExecute[..];
      ghost var entry := running;
      ghost var executed0 := executed;
      ghost var writes0 := writes;
      ghost var r := Run([], [], entry, Completed);
      outcome := Completed;
      var i := 0;
      while i < toExecute.Length && outcome == Completed
        invariant 0 <= i <= toExecute.Length
        invariant Valid()
        invariant r == RunPrefix(batch, i, entry)
        invariant executed == executed0 + r.trace
        invariant writes == writes0 + r.writes
        invariant running == r.flag && outcome == r.outcome
      {
        var command := toExecute[i];
        assert command == batch[i];
        if running {
          RunCommand(command);
          assert writes == writes0 + (r.writes + command.calls);
          assert executed == executed0 + (r.trace + [command]);
          if command.throws {
            outcome := Threw(i);
          }
        }
        r := Step(r, command, i);
        i := i + 1;
      }
      if i < toExecute.Length {
        PrefixHalted(batch, i, |batch|, entry);
      }
      ExecNotRunning(batch);
    }
  }
}
