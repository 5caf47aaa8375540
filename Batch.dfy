/**
 * Commands handed to an invoker, and the reference semantics of running a
 * batch of them under a cooperative stop flag.
 *
 * A command is an opaque callback. The model keeps only what the invoker can
 * observe of it: an identity for the trace, the values it passes to
 * setRunning, and whether it ends by throwing.
 */
module Batch {

  /**
   * A command, seen from the invoker: its identity, the values it passes to
   * setRunning while it runs (in call order), and whether it ends by throwing.
   */
  datatype Command = Command(id: nat, calls: seq<bool>, throws: bool)

  /** How a call to executeAll ends: normally, or by the exception of the command at `index`. */
  datatype Outcome = Completed | Threw(index: nat)

  /**
   * The commands that ran, the setRunning calls they made, the flag left
   * behind, and how the batch ended.
   */
  datatype Run = Run(trace: seq<Command>, writes: seq<bool>, flag: bool, outcome: Outcome)

  /** The setRunning calls made by a trace of commands, in the order they were made. */
  function WritesOf(trace: seq<Command>): seq<bool>
    decreases |trace|
  {
    if trace == [] then []
    else WritesOf(trace[..|trace| - 1]) + trace[|trace| - 1].calls
  }

  /** A flag that starts as `initial` and then receives the writes `w`. */
  function FlagAfter(initial: bool, w: seq<bool>): bool
  {
    if w == [] then initial else w[|w| - 1]
  }

  /** The flag after command `c` has run, given the flag before it. */
  function After(c: Command, flag: bool): bool
  {
    FlagAfter(flag, c.calls)
  }

  /** From state `r` the next command is run: nothing has thrown and the flag is set. */
  predicate Proceeds(r: Run)
  {
    r.outcome == Completed && r.flag
  }

  /**
   * Reaching command `c`, at position `index` of its batch, from state `prev`:
   * it runs if the flag is true and nothing has thrown, and is skipped otherwise.
   */
  function Step(prev: Run, c: Command, index: nat): Run
  {
    if !Proceeds(prev) then prev
    else Run(prev.trace + [c], prev.writes + c.calls, After(c, prev.flag),
             if c.throws then Threw(index) else Completed)
  }

  /** The state reached after the first `n` commands of `batch`, starting with the flag `flag`. */
  function RunPrefix(batch: seq<Command>, n: nat, flag: bool): Run
    requires n <= |batch|
    decreases n
  {
    if n == 0 then Run([], [], flag, Completed)
    else Step(RunPrefix(batch, n - 1, flag), batch[n - 1], n - 1)
  }

  /**
   * Running `batch` with the flag initially `flag`: each command, in order, is
   * run when the flag is true at the moment it is reached and skipped
   * otherwise; a throw abandons the rest of the batch.
   */
  function Exec(batch: seq<Command>, flag: bool): Run
  {
    RunPrefix(batch, |batch|, flag)
  }

  lemma WritesOfSnoc(trace: seq<Command>, c: Command)
    ensures WritesOf(trace + [c]) == WritesOf(trace) + c.calls
  {
    var t := trace + [c];
    assert t[..|t| - 1] == trace;
  }

  lemma FlagAfterAppend(initial: bool, w1: seq<bool>, w2: seq<bool>)
    ensures FlagAfter(initial, w1 + w2) == FlagAfter(FlagAfter(initial, w1), w2)
  {
    if w2 != [] {
      assert (w1 + w2)[|w1 + w2| - 1] == w2[|w2| - 1];
    } else {
      assert w1 + w2 == w1;
    }
  }

  /**
   * Once the flag is off or a command has thrown, nothing later in the batch
   * runs and nothing changes: every longer prefix ends in the same state.
   */
  lemma {:induction false} PrefixHalted(batch: seq<Command>, k: nat, n: nat, flag: bool)
    requires k <= n <= |batch|
    requires !Proceeds(RunPrefix(batch, k, flag))
    ensures RunPrefix(batch, n, flag) == RunPrefix(batch, k, flag)
    decreases n
  {
    if n > k {
      PrefixHalted(batch, k, n - 1, flag);
    }
  }

  /** If the next command would still be run, every command so far has run. */
  lemma {:induction false} PrefixProceedsRanAll(batch: seq<Command>, n: nat, flag: bool)
    requires n <= |batch|
    requires Proceeds(RunPrefix(batch, n, flag))
    ensures RunPrefix(batch, n, flag).trace == batch[..n]
    decreases n
  {
    if n > 0 {
      PrefixProceedsRanAll(batch, n - 1, flag);
      assert batch[..n - 1] + [batch[n - 1]] == batch[..n];
    }
  }

  /** The commands run within the first n form a prefix of those n. */
  lemma {:induction false} PrefixTraceIsPrefix(batch: seq<Command>, n: nat, flag: bool)
    requires n <= |batch|
    ensures var r := RunPrefix(batch, n, flag);
            |r.trace| <= n && r.trace == batch[..|r.trace|]
    decreases n
  {
    if n > 0 {
      PrefixTraceIsPrefix(batch, n - 1, flag);
      if Proceeds(RunPrefix(batch, n - 1, flag)) {
        PrefixProceedsRanAll(batch, n - 1, flag);
        assert batch[..n - 1] + [batch[n - 1]] == batch[..n];
      }
    }
  }

  /** Within the first n commands, the one at index k < n runs exactly when the state before it proceeds. */
  lemma {:induction false} PrefixRunsExactlyWhen(batch: seq<Command>, n: nat, flag: bool, k: nat)
    requires k < n <= |batch|
    ensures k < |RunPrefix(batch, n, flag).trace| <==> Proceeds(RunPrefix(batch, k, flag))
    decreases n
  {
    PrefixTraceIsPrefix(batch, n - 1, flag);
    if Proceeds(RunPrefix(batch, n - 1, flag)) {
      PrefixProceedsRanAll(batch, n - 1, flag);
    }
    if k < n - 1 {
      PrefixRunsExactlyWhen(batch, n - 1, flag, k);
    }
  }

  /** With the flag false on entry, no command of the batch runs and the flag stays false. */
  lemma {:induction false} ExecNotRunning(batch: seq<Command>)
    ensures Exec(batch, false) == Run([], [], false, Completed)
  {
    PrefixHalted(batch, 0, |batch|, false);
  }

  /**
   * The commands that run are a prefix of the batch: they run in array order,
   * each at most once, and none is skipped in between.
   */
  lemma ExecTraceIsPrefix(batch: seq<Command>, flag: bool)
    ensures var r := Exec(batch, flag);
            |r.trace| <= |batch| && r.trace == batch[..|r.trace|]
  {
    PrefixTraceIsPrefix(batch, |batch|, flag);
  }

  /**
   * The command at index k runs exactly when the state reached just before it
   * lets it run: the flag is true at that moment and no earlier command threw.
   * The command at that index of the trace is then batch[k] itself.
   */
  lemma ExecRunsExactlyWhen(batch: seq<Command>, flag: bool, k: nat)
    requires k < |batch|
    ensures var r := Exec(batch, flag);
            k < |r.trace| <==> Proceeds(RunPrefix(batch, k, flag))
    ensures var r := Exec(batch, flag);
            k < |r.trace| ==> r.trace[k] == batch[k]
  {
    PrefixRunsExactlyWhen(batch, |batch|, flag, k);
    PrefixTraceIsPrefix(batch, |batch|, flag);
  }

  /**
   * The state before index k lets the next command run exactly when the entry
   * flag is true and every earlier command left a true flag true and did not throw.
   */
  lemma {:induction false} PrefixProceedsIff(batch: seq<Command>, k: nat, flag: bool)
    requires k <= |batch|
    ensures Proceeds(RunPrefix(batch, k, flag))
            <==> flag && forall j :: 0 <= j < k ==> After(batch[j], true) && !batch[j].throws
    decreases k
  {
    if k > 0 {
      PrefixProceedsIff(batch, k - 1, flag);
    }
  }

  /**
   * Closed form of ExecRunsExactlyWhen: the command at index k runs exactly
   * when the flag is true on entry and no earlier command turned it off or threw.
   */
  lemma ExecRunsIff(batch: seq<Command>, flag: bool, k: nat)
    requires k < |batch|
    ensures k < |Exec(batch, flag).trace|
            <==> flag && forall j :: 0 <= j < k ==> After(batch[j], true) && !batch[j].throws
  {
    ExecRunsExactlyWhen(batch, flag, k);
    PrefixProceedsIff(batch, k, flag);
  }

  /**
   * A command that runs and turns the flag off, or throws, still runs to
   * completion (it is in the trace), and it is the last command of the batch
   * to run. A throw is reported at that command's index.
   */
  lemma ExecStopsAfter(batch: seq<Command>, flag: bool, j: nat)
    requires j < |batch| && j < |Exec(batch, flag).trace|
    requires !After(batch[j], true) || batch[j].throws
    ensures var r := Exec(batch, flag);
            |r.trace| == j + 1 && r.trace[j] == batch[j]
    ensures batch[j].throws ==> Exec(batch, flag).outcome == Threw(j)
    ensures !batch[j].throws ==> var r := Exec(batch, flag);
                                 r.trace == batch[..j + 1] && !r.flag && r.outcome == Completed
  {
    PrefixRunsExactlyWhen(batch, |batch|, flag, j);
    PrefixProceedsRanAll(batch, j, flag);
    assert batch[..j] + [batch[j]] == batch[..j + 1];
    PrefixHalted(batch, j + 1, |batch|, flag);
  }

  /**
   * With the flag true on entry, and no command turning it off or throwing,
   * every command runs exactly once, in order, and the flag is still true.
   */
  lemma ExecAllRun(batch: seq<Command>)
    requires forall k :: 0 <= k < |batch| ==> After(batch[k], true) && !batch[k].throws
    ensures var r := Exec(batch, true);
            r.trace == batch && r.flag && r.outcome == Completed
  {
    AllRunPrefix(batch, |batch|);
    assert batch[..|batch|] == batch;
  }

  lemma {:induction false} AllRunPrefix(batch: seq<Command>, n: nat)
    requires n <= |batch|
    requires forall k :: 0 <= k < |batch| ==> After(batch[k], true) && !batch[k].throws
    ensures var r := RunPrefix(batch, n, true);
            r.trace == batch[..n] && r.flag && r.outcome == Completed
    decreases n
  {
    if n > 0 {
      AllRunPrefix(batch, n - 1);
      assert batch[..n - 1] + [batch[n - 1]] == batch[..n];
    }
  }

  /** After any prefix, the writes are exactly those of the commands that ran, in order. */
  lemma {:induction false} PrefixWrites(batch: seq<Command>, n: nat, flag: bool)
    requires n <= |batch|
    ensures var r := RunPrefix(batch, n, flag);
            r.writes == WritesOf(r.trace)
    decreases n
  {
    if n > 0 {
      PrefixWrites(batch, n - 1, flag);
      var prev := RunPrefix(batch, n - 1, flag);
      if Proceeds(prev) {
        WritesOfSnoc(prev.trace, batch[n - 1]);
      }
    }
  }

  /** After any prefix, the flag is the last value written, or the entry value if there is none. */
  lemma {:induction false} PrefixFlag(batch: seq<Command>, n: nat, flag: bool)
    requires n <= |batch|
    ensures var r := RunPrefix(batch, n, flag);
            r.flag == FlagAfter(flag, r.writes)
    decreases n
  {
    if n > 0 {
      PrefixFlag(batch, n - 1, flag);
      var prev := RunPrefix(batch, n - 1, flag);
      if Proceeds(prev) {
        FlagAfterAppend(flag, prev.writes, batch[n - 1].calls);
      }
    }
  }

  /**
   * The only setRunning calls made during a batch are those of the commands
   * that ran, in order; the flag on exit is the value written by the last of
   * them, or the entry value if none wrote it; an empty batch changes nothing.
   */
  lemma ExecFinalFlag(batch: seq<Command>, flag: bool)
    ensures var r := Exec(batch, flag);
            r.writes == WritesOf(r.trace) && r.flag == FlagAfter(flag, WritesOf(r.trace))
    ensures batch == [] ==> Exec(batch, flag) == Run([], [], flag, Completed)
  {
    PrefixWrites(batch, |batch|, flag);
    PrefixFlag(batch, |batch|, flag);
  }

  lemma {:induction false} PrefixOutcome(batch: seq<Command>, n: nat, flag: bool)
    requires n <= |batch|
    ensures var r := RunPrefix(batch, n, flag);
            r.outcome == Completed <==> forall i :: 0 <= i < |r.trace| ==> !r.trace[i].throws
    ensures var r := RunPrefix(batch, n, flag);
            r.outcome.Threw? ==> r.outcome.index == |r.trace| - 1 && r.trace[r.outcome.index].throws
    decreases n
  {
    if n > 0 {
      PrefixOutcome(batch, n - 1, flag);
      var prev := RunPrefix(batch, n - 1, flag);
      if Proceeds(prev) {
        PrefixProceedsRanAll(batch, n - 1, flag);
        var t := prev.trace + [batch[n - 1]];
        assert forall i :: 0 <= i < |prev.trace| ==> t[i] == prev.trace[i];
        assert t[|prev.trace|] == batch[n - 1];
      }
    }
  }

  /**
   * The batch ends normally exactly when no command that ran threw; otherwise
   * the throwing command is the last one that ran.
   */
  lemma ExecOutcome(batch: seq<Command>, flag: bool)
    ensures var r := Exec(batch, flag);
            r.outcome == Completed <==> forall i :: 0 <= i < |r.trace| ==> !r.trace[i].throws
    ensures var r := Exec(batch, flag);
            r.outcome.Threw? ==> r.outcome.index == |r.trace| - 1 && r.trace[r.outcome.index].throws
  {
    PrefixOutcome(batch, |batch|, flag);
  }
}
