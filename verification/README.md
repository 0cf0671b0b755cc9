# starter — a verified model of systemd job correlation and batch start/stop

The library controls systemd units over D-Bus. A `Starter` owns one unit:
`start()`/`stop()` call `StartUnit`/`StopUnit` on the systemd manager with mode
`"replace"` and remember the returned job path; a background signal handler
buffers every `JobRemoved` completion that names the unit; `poll()` waits
until the buffer holds the completion of the remembered job, returning on
`"done"` and throwing `"<unit> <result>"` otherwise. `MassProcess` queues unit
names, optionally suffixed with a context (`name@ctx.service`, else
`name.service`). Its `start()`/`stop()` drive one `Starter` per queued unit in
order, collect every failure, and throw one aggregated error at the end.

The Dafny project models this as pure functions over immutable data:

- `text.dfy` (module `Text`) covers how a C string is read back: everything before
  the first NUL. It also joins the report lines.
- `starter.dfy` (module `Starter`) covers the controller state (`State`),
  the signal handler, job requests, `poll` as a drain of the buffer
  (`Drain`/`Poll`, plus `PollLoop` in the source's loop shape), and the
  factory's bounded error text.
- `mass_process.dfy` (module `MassProcess`) covers the queue, unit-name
  suffixing, enqueueing and `process`. `process` is modelled as a fold whose
  per-unit outcome comes from an oracle `Bus`.
- `scenarios.dfy` (module `Scenarios`) holds concrete cases: the naming
  examples, two batches (all done / one unit failed) and two controllers on
  one unit.
- `options.dfy` (module `Options`) defines `Option`.

Two behaviours of the code worth noting:

- The unit-name check is made only when a signal is buffered
  (`SignalHandler`), never in `poll`.
- The message that resolves `poll` is left at the front of the buffer; it is
  not consumed. As a result, polling again without new signals gives the same
  result (`PollIdempotent`).

## Model

| member | source | states |
|---|---|---|
| Starter.SignalHandler | src/lib/dbus.cpp:23-40 | a signal naming another unit leaves the controller unchanged; one naming its unit appends exactly `Message(path, result)` at the tail, earlier entries untouched; the buffer grows iff the unit matches |
| Starter.DeliverAppendsAccepted | src/lib/dbus.cpp:30-37 | delivering any signal stream appends exactly the messages of the signals naming the unit, in delivery order, and changes neither unit nor job path |
| Starter.ForeignSignalsIgnored | src/lib/dbus.cpp:30-32 | signals for other units have no effect: the full stream and its own-unit part leave the same state |
| Starter.Start | src/lib/dbus.cpp:41-50 | `start()` calls `StartUnit(unit, "replace")` on interface `org.freedesktop.systemd1.Manager` of `/org/freedesktop/systemd1` at `org.freedesktop.systemd1`, makes the path the call returned the outstanding job and changes nothing else |
| Starter.Stop | src/lib/dbus.cpp:51-60 | `stop()` calls `StopUnit(unit, "replace")` on the same manager interface, makes the path the call returned the outstanding job and changes nothing else |
| Starter.RequestCommutesWithDelivery | src/lib/dbus.cpp:15-60 | completions delivered before `start()`/`stop()` stores the job path leave the same controller as those delivered after it |
| Starter.LatestRequestWins | src/lib/dbus.cpp:41-60 | a second request overwrites the first one's job path, whatever the kinds of the two requests |
| Starter.DrainSpec | src/lib/dbus.cpp:66-76 | the drain leaves a suffix of the buffer that is empty iff no message has the job path, else starts with a message of the job; only messages of other jobs are discarded |
| Starter.PollResolvesFirstMatch | src/lib/dbus.cpp:61-78 | `poll` keeps waiting (buffer emptied) iff no buffered message has the job path; otherwise the first such message decides: `"done"` returns, any other result fails with exactly `unit + " " + result`; messages before it are removed and it stays at the front; whenever a match exists, the number of removed messages is the position of the first match |
| Starter.PollLoop | src/lib/dbus.cpp:61-78 | the source's front-popping loop computes the same state and outcome as `Poll` |
| Starter.DrainAppend | src/lib/dbus.cpp:63-77 | draining a buffer with later arrivals behind it: a match in the front part keeps the arrivals untouched after it; no match consumes the front part entirely |
| Starter.PollIdempotent | src/lib/dbus.cpp:67-75 | because the matching message is not popped, polling again without new signals yields the same state and outcome |
| Starter.DecidedPollIsFinal | src/lib/dbus.cpp:67-75 | once `poll` has returned or thrown, signals that arrive later cannot change what it reports |
| Starter.PollEarlyIsHarmless | src/lib/dbus.cpp:62-77 | a pass that waits and is resumed after more signals ends exactly as one pass over all signals would |
| Starter.StaleMessagesIgnored | src/lib/dbus.cpp:66-76 | completions of earlier jobs left in the buffer do not affect a new job whose path they do not carry |
| Starter.CreateError | src/lib/dbus.cpp:9-11 | the factory's error text is at most 1023 characters, NUL-free, the prefix of `"Cannot create new object " + what` (read as a C string) whose length is that text's length when it fits and exactly 1023 otherwise, as `snprintf` cuts it |
| Text.CStringSpec | src/lib/dbus.hpp:170 | reading an exception text as a C string yields a NUL-free prefix that stops only at a NUL or at the end |
| Text.TerminatedIsJoinPlusNewline | src/lib/dbus.hpp:170-177 | lines each followed by `"\n"` are the lines joined by `"\n"` plus one newline; dropping the last character yields the join |
| MassProcess.UnitNameShape | src/lib/dbus.hpp:116-124 | the synthesised unit starts with the name and ends with `.service`; with a context, `@` and the context sit between them; without one, nothing else is added |
| MassProcess.UnitNameInjective | src/lib/dbus.hpp:116-124 | under one context, distinct names give distinct unit names |
| MassProcess.AddQueueDefault | src/lib/dbus.hpp:115-125 | existing entries are kept and the arguments' suffixed unit names are appended after them in call order; the context is unchanged |
| MassProcess.UnitNamesAt | src/lib/dbus.hpp:117-123 | the unit name enqueued for the i-th argument is that argument's suffixed name |
| MassProcess.AddQueueCustom | src/lib/dbus.hpp:136-138 | the arguments are appended verbatim, in order, after the existing entries |
| MassProcess.DefaultIsCustomOfUnitNames | src/lib/dbus.hpp:115-138 | default enqueueing equals custom enqueueing of the suffixed names |
| MassProcess.EnqueueInTwoCalls | src/lib/dbus.hpp:189-195 | enqueueing in two calls equals one call with the concatenated arguments, for both forms |
| MassProcess.ErrorUnitIsTerminatedLines | src/lib/dbus.hpp:162-172 | the accumulator built unit by unit holds each failed unit's `"unit: what"` line followed by a newline, in queue order |
| MassProcess.FailureLinesEmpty | src/lib/dbus.hpp:173 | there are no report lines iff no queued unit failed |
| MassProcess.LineWithoutNul | src/lib/dbus.hpp:170 | an exception text without NUL appears whole after `"unit: "` |
| MassProcess.ProcessReportsFailures | src/lib/dbus.hpp:160-183 | `process` returns iff every unit succeeded; otherwise it throws the operation's heading followed by the failure lines joined by `"\n"`, with no trailing newline |
| MassProcess.FailureIsolated | src/lib/dbus.hpp:162-172 | a failed unit's line appears at its queue position whatever the other units did |
| MassProcess.ProcessLoop | src/lib/dbus.hpp:160-183 | the loop attempts every queued unit once, in order, with the batch's operation, and produces `Process`'s result |
| MassProcess.Start | src/lib/dbus.hpp:146 | returns iff every unit started; otherwise throws `"while start unit:\n"` plus the joined failure lines |
| MassProcess.Stop | src/lib/dbus.hpp:153 | returns iff every unit stopped; otherwise throws `"while stop unit:\n"` plus the joined failure lines |
| Scenarios.RunUnitResolvesOwnJob | src/lib/dbus.cpp:30-75 | for every signal stream, a fresh controller's episode waits iff no completion names its unit with its job path; otherwise the first such completion decides: `"done"` returns, any other result fails with `unit + " " + result` |
| Scenarios.OnlyBFailsIsStarterOutcome | src/lib/dbus.cpp:61-78 | the batch scenario's per-unit results for `a.service` and `b.service` are what the controller model computes on the scenario's signal stream |
| Scenarios.NamingExamples | src/lib/dbus.hpp:115-138 | context `fw1` gives `svc1@fw1.service`, `svc2@fw1.service`; no context gives `svc1.service`, `svc2.service`; custom names are unchanged |
| Scenarios.UnitBFails | src/lib/dbus.cpp:61-78 | for the two-unit signal stream, the `b.service` controller fails with `b.service failed` and the `a.service` controller returns |
| Scenarios.ScenarioAllDone | src/lib/dbus.hpp:160-183 | with both units done, `stop()` on queue `a`, `b` returns normally |
| Scenarios.ScenarioBFails | src/lib/dbus.hpp:160-183 | with `b.service` failing, `stop()` throws exactly `"while stop unit:\nb.service: b.service failed"` |
| Scenarios.TwoControllersSameUnit | src/lib/dbus.cpp:66-74 | two controllers for one unit, each with its own job, each resolve on their own job's completion, in both arrival orders of the two completions |

## Left out

- The sdbus-c++ connection, proxy creation, signal registration and the
  asynchronous event loop (src/lib/dbus.cpp:15-22) are left out because they are I/O and
  a background thread. Signal arrival is an explicit `SignalHandler`/`Deliver` step.
- Unmarshalling the `JobRemoved` arguments (src/lib/dbus.cpp:28) is left out:
  the decoded `(id, path, unit, result)` is the input.
- The `StartUnit`/`StopUnit` calls themselves are foreign calls. `Start`/`Stop`
  return the call they issue (method name and arguments), and the job path the
  manager returns is a parameter. A call that fails throws `sdbus::Error`
  from `callMethod`, leaving `job_path` unchanged; that error path is not
  modelled for a single controller, and in a batch the `Bus` oracle covers it.
- The mutex and the condition-variable wait in `poll` (src/lib/dbus.cpp:62-64)
  are left out. A pass that finds no match ends in `Pending` with an empty buffer,
  where the source blocks. `PollEarlyIsHarmless` shows that resuming after
  more signals equals one pass over everything. If no completion ever arrives,
  the source never returns; that case is not modelled.
- The `IStarter` interface, heap allocation and `unique_ptr` ownership
  (src/lib/include/starter/starter.hpp) are left out as memory management. Only the
  bounded error text of the factory is kept (`CreateError`).
- `MassProcess`'s `TypeData` template parameter is specialised to `std::string`.
- In `process`, what `Starter(unit).stop().poll()` / `Starter(unit).start().poll()`
  does for one unit is an oracle `Bus`: `None` if it returns, `Some(what)` if it throws.
  This includes exceptions thrown while connecting. `Scenarios.RunUnit` with
  `AsBusResult` shows how the `Starter` model supplies such outcomes for an
  episode that ends; one that stays `Pending` makes `process` hang and has no
  bus result.
- src/example/main.cpp is left out: it is a console demo.
- Starter.CreateError: strings are byte strings, one Dafny `char` per byte
  of the `std::string`, so the 1023 bound and the cut count bytes as
  `snprintf` does; multi-byte encodings are not modelled.
- MassProcess.AddQueueDefault: the arguments are taken as `std::string`, so
  a name is appended whole; a `const char*` argument holding a NUL would be
  cut there by the `std::string` constructor, which is not modelled.
- MassProcess.AddQueueCustom: as for `AddQueueDefault`, arguments are
  `std::string` and appended whole; the cut of a `const char*` at its first
  NUL by the `string_view` conversion is not modelled.
