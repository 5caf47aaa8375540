# jetlang default command executor, in Dafny

This project models `RunnableInvokerImpl`, the default command executor behind a
jetlang fiber. A fiber hands the executor batches of queued commands. The
executor holds one `running` flag, which starts `true` and is read and written
through `isRunning`/`setRunning`. `executeAll` walks a batch in array order
and runs each command only if the flag is still true when that command is
reached. This is how a fiber stops cooperatively. The command that is running
is never interrupted. Once the flag is false, the rest of the batch is skipped
and is not queued again.

Two modules:

- `Batch` (Batch.dfy) treats commands as values. A `Command` has an identity,
  the values it passes to `setRunning` while it runs (in call order), and
  whether it ends by throwing. `Exec(batch, flag)` is the reference semantics
  of one `executeAll` call. It returns a `Run`: the commands that ran, the
  `setRunning` calls they made, the flag left behind, and whether the batch
  completed or stopped at a throw. `Exec` is a left fold of `Step` over the
  batch: `RunPrefix(batch, n, flag)` is the state after the first `n`
  commands. The lemmas state what the executor promises about `Exec`.
- `Invoker` (RunnableInvokerImpl.dfy) is the executor as a class. It has the
  `running` field and two ghost fields. `executed` is every command run so far
  across all batches. `writes` is every value ever stored by `SetRunning`. The
  class invariant `Valid()` says the flag is the last value written, or `true`
  if nothing was written. `ExecuteAll` is a loop over an `array<Command>`,
  proved against `Exec`. A running command's flag changes go through
  `SetRunning` (`RunCommand`), the same as any other caller's.

A command that throws ends `executeAll`. The loop has no try/catch
(project/src/org/jetlang/core/RunnableInvokerImpl.java:24-28), so the exception
leaves the method and the rest of the batch is not run. `ExecuteAll` returns
`Threw(i)` for a throw at index `i`, and that command is the last in the trace.

## Model

| member | source | states |
|---|---|---|
| `Invoker.RunnableInvokerImpl.constructor` | project/src/org/jetlang/core/RunnableInvokerImpl.java:17 | A new executor reports `IsRunning()`. It has run no command, and no `setRunning` call has been made. |
| `Invoker.RunnableInvokerImpl.IsRunning` | project/src/org/jetlang/core/RunnableInvokerImpl.java:9-11 | The flag is the value last stored by `setRunning`, or `true` if it was never called. |
| `Invoker.RunnableInvokerImpl.SetRunning` | project/src/org/jetlang/core/RunnableInvokerImpl.java:13-15 | Afterwards `IsRunning() == b`. The write is appended to the log of writes. The executed trace is unchanged. |
| `Invoker.RunnableInvokerImpl.RunCommand` | project/src/org/jetlang/core/RunnableInvokerImpl.java:26 | Running one command appends it to the trace. Each of its `setRunning` calls is appended to the write log. The flag ends as the command's last write, or stays unchanged if it wrote nothing. |
| `Invoker.RunnableInvokerImpl.ExecuteAll` | project/src/org/jetlang/core/RunnableInvokerImpl.java:23-28 | The new trace, write log, flag and outcome are exactly those of `Exec(batch, entry flag)`. So the executor adds no flag write of its own: the only new writes are those of the commands that ran. With the flag false on entry, or an empty batch, nothing runs and nothing changes. |
| `Batch.ExecNotRunning` | project/src/org/jetlang/core/RunnableInvokerImpl.java:23-28 | If the flag is false on entry, no command of the batch runs, nothing is written and the batch completes. |
| `Batch.ExecTraceIsPrefix` | project/src/org/jetlang/core/RunnableInvokerImpl.java:24-26 | The commands that run form a prefix of the batch. They run in array order, each at most once, with none skipped between them. |
| `Batch.ExecRunsExactlyWhen` | project/src/org/jetlang/core/RunnableInvokerImpl.java:25-26 | The command at index k runs if and only if, just before it is reached, the flag is true and no earlier command threw. When it runs, it is at index k of the trace. |
| `Batch.ExecRunsIff` | project/src/org/jetlang/core/RunnableInvokerImpl.java:24-26 | Closed form, without the fold: the command at index k runs if and only if the flag is true on entry and every earlier command leaves a true flag true and does not throw. |
| `Batch.PrefixHalted` | project/src/org/jetlang/core/RunnableInvokerImpl.java:24-28 | Once the flag is off or a command has thrown, every longer prefix of the batch ends in the same state. Later commands change nothing. |
| `Batch.ExecStopsAfter` | project/src/org/jetlang/core/RunnableInvokerImpl.java:24-28 | A command that runs and leaves the flag false, or throws, still completes: it is in the trace, and it is the last command of the batch to run. A throw is reported at its index. Otherwise the trace is the batch up to and including it, and the flag is false. |
| `Batch.ExecAllRun` | project/src/org/jetlang/core/RunnableInvokerImpl.java:23-28 | If the flag is true on entry and no command leaves it false or throws, every command runs once, in order. The flag stays true and the batch completes. |
| `Batch.ExecFinalFlag` | project/src/org/jetlang/core/RunnableInvokerImpl.java:23-28 | The writes of a batch are exactly the `setRunning` calls of the commands that ran, in order. The exit flag is the last of them, or the entry value if there is none. An empty batch leaves everything unchanged. |
| `Batch.ExecOutcome` | project/src/org/jetlang/core/RunnableInvokerImpl.java:24-28 | The batch completes if and only if no command that ran threw. Otherwise the command that threw is the last one that ran, and its index is reported. |

## Left out

- Other threads calling `setRunning`. The field is not `volatile` (project/src/org/jetlang/core/RunnableInvokerImpl.java:17), so when a write from another thread becomes visible is a Java memory-model question. The model has only sequential writes: by commands in the batch, or by a caller between batches.
- What a command does besides calling `setRunning` or throwing. Commands are foreign callbacks. A command that reads `isRunning`, modifies the array being iterated, or calls `executeAll` again on the same executor is not modelled.
- When a command's `setRunning` calls happen relative to its throw. The model applies all of a throwing command's writes, then the throw. Only the last write matters to the flag.
- A null array. Java would raise `NullPointerException` at the loop (project/src/org/jetlang/core/RunnableInvokerImpl.java:24); Dafny arrays are never null. A null element needs no separate case: it is skipped when the flag is false, and reached with the flag true it throws without writing, which is the command `Command(id, [], true)`.
- The `RunnableInvoker` interface and the test src/test/java/org/jetlang/channels/MemoryRequestChannelTest.java are not part of this model. The channel, request and fiber classes the test drives, with its thread pool, latches and timeouts, are outside this executor.
