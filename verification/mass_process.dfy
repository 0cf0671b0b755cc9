/** The batch orchestrator (`MassProcess` in src/lib/dbus.hpp), specialised to
    `std::string` unit names: a queue of unit names, optionally suffixed with a
    shared context, driven one by one through start or stop with every
    failure recorded, and one aggregated error raised at the end.

    What `Starter(unit).stop().poll()` or `Starter(unit).start().poll()` does
    for one unit is the `Bus` oracle: `None` when the call sequence returns,
    `Some(what)` when it throws an exception whose `what()` is `what`. */
module MassProcess {
  import opened Options
  import Text

  /** `TYPE_PROCESS`: which operation a batch applies. */
  datatype Operation = StopUnits | RunUnits

  /** The orchestrator: the optional context name and the queued units. */
  datatype Queue = Queue(context: Option<string>, units: seq<string>)

  /** The result of one unit's construct, request and poll. */
  type Bus = (string, Operation) -> Option<string>

  const ServiceSuffix := ".service"

  /** Default constructor: no context, nothing queued. */
  function Empty(): Queue
  {
    Queue(None, [])
  }

  /** Constructor with a context name. */
  function WithContext(contextName: string): Queue
  {
    Queue(Some(contextName), [])
  }

  /** The unit name `add_queue_default` synthesises from a bare name. */
  function UnitName(name: string, context: Option<string>): string
  {
    match context
    case Some(c) => name + "@" + c + ServiceSuffix
    case None => name + ServiceSuffix
  }

  /** A synthesised unit name starts with the bare name and ends with
      `.service`; with a context, `@` and the context sit in between, and
      without one nothing else is added. */
  lemma UnitNameShape(name: string, context: Option<string>)
    ensures name <= UnitName(name, context)
    ensures var r := UnitName(name, context);
            |r| >= |name| + |ServiceSuffix| && r[|r| - |ServiceSuffix|..] == ServiceSuffix
    ensures context.None? ==> |UnitName(name, context)| == |name| + |ServiceSuffix|
    ensures context.Some? ==>
              var r := UnitName(name, context);
              && |r| == |name| + 1 + |context.value| + |ServiceSuffix|
              && r[|name|] == '@'
              && r[|name| + 1..|r| - |ServiceSuffix|] == context.value
  {
  }

  /** Distinct names give distinct units under the same context, so the
      suffixing never merges two queued services. */
  lemma UnitNameInjective(a: string, b: string, context: Option<string>)
    requires UnitName(a, context) == UnitName(b, context)
    ensures a == b
  {
    var r := UnitName(a, context);
    UnitNameShape(a, context);
    UnitNameShape(b, context);
    assert |a| == |b|;
    assert a == r[..|a|] == b;
  }

  /** `fill_vector`: append one unit at the back of the queue. */
  function FillVector(q: Queue, unit: string): Queue
  {
    q.(units := q.units + [unit])
  }

  /** The unit names for a list of bare names, position by position. */
  function UnitNames(names: seq<string>, context: Option<string>): (r: seq<string>)
    ensures |r| == |names|
  {
    if names == [] then [] else [UnitName(names[0], context)] + UnitNames(names[1..], context)
  }

  /** Position `i` of the unit names is the unit name of argument `i`. */
  lemma {:induction false} UnitNamesAt(names: seq<string>, context: Option<string>, i: nat)
    requires i < |names|
    ensures UnitNames(names, context)[i] == UnitName(names[i], context)
  {
    if i > 0 {
      UnitNamesAt(names[1..], context, i - 1);
    }
  }

  /** `add_queue_default(args...)`: each argument, in order, suffixed and
      appended after the existing entries. */
  function AddQueueDefault(q: Queue, names: seq<string>): (q': Queue)
    ensures q'.context == q.context
    ensures q'.units == q.units + UnitNames(names, q.context)
    decreases |names|
  {
    if names == [] then q
    else
      var x := UnitName(names[0], q.context);
      var r := AddQueueDefault(FillVector(q, x), names[1..]);
      assert (q.units + [x]) + UnitNames(names[1..], q.context) == q.units + ([x] + UnitNames(names[1..], q.context));
      r
  }

  /** `add_queue_custom(args...)`: each argument, in order, unchanged. */
  function AddQueueCustom(q: Queue, names: seq<string>): (q': Queue)
    ensures q'.context == q.context
    ensures q'.units == q.units + names
    decreases |names|
  {
    if names == [] then q
    else
      var r := AddQueueCustom(FillVector(q, names[0]), names[1..]);
      assert [names[0]] + names[1..] == names;
      r
  }

  /** Default enqueueing is custom enqueueing of the synthesised unit names. */
  lemma DefaultIsCustomOfUnitNames(q: Queue, names: seq<string>)
    ensures AddQueueDefault(q, names) == AddQueueCustom(q, UnitNames(names, q.context))
  {
  }

  lemma {:induction false} UnitNamesAppend(a: seq<string>, b: seq<string>, context: Option<string>)
    ensures UnitNames(a + b, context) == UnitNames(a, context) + UnitNames(b, context)
  {
    if a == [] {
      assert a + b == b;
    } else {
      assert (a + b)[0] == a[0];
      assert (a + b)[1..] == a[1..] + b;
      UnitNamesAppend(a[1..], b, context);
    }
  }

  /** Enqueueing in two calls is enqueueing the concatenated arguments in one. */
  lemma EnqueueInTwoCalls(q: Queue, a: seq<string>, b: seq<string>)
    ensures AddQueueDefault(AddQueueDefault(q, a), b) == AddQueueDefault(q, a + b)
    ensures AddQueueCustom(AddQueueCustom(q, a), b) == AddQueueCustom(q, a + b)
  {
    UnitNamesAppend(a, b, q.context);
    assert q.units + UnitNames(a, q.context) + UnitNames(b, q.context)
        == q.units + UnitNames(a + b, q.context);
    assert q.units + a + b == q.units + (a + b);
  }

  /** The text `process` appends for one unit: nothing on success, and
      `"<unit>: <what>\n"` on an exception. */
  function Entry(unit: string, result: Option<string>): string
  {
    match result
    case None => []
    case Some(what) => unit + ": " + Text.CString(what) + "\n"
  }

  /** The report line for a failed unit. */
  function Line(unit: string, what: string): string
  {
    unit + ": " + Text.CString(what)
  }

  /** An exception text without NUL appears whole in its line. */
  lemma LineWithoutNul(unit: string, what: string)
    requires Text.Nul !in what
    ensures Line(unit, what) == unit + ": " + what
  {
    Text.CStringWithoutNul(what);
  }

  /** The `error_unit` accumulator after the loop of `process` has visited
      `units` in order. */
  function ErrorUnit(units: seq<string>, op: Operation, bus: Bus): string
  {
    if units == [] then []
    else ErrorUnit(units[..|units| - 1], op, bus) + Entry(units[|units| - 1], bus(units[|units| - 1], op))
  }

  /** Reference definition of the report: the failed units' lines, in queue
      order. */
  function FailureLines(units: seq<string>, op: Operation, bus: Bus): (r: seq<string>)
    ensures |r| <= |units|
  {
    if units == [] then []
    else
      (match bus(units[0], op)
       case None => []
       case Some(what) => [Line(units[0], what)])
      + FailureLines(units[1..], op, bus)
  }

  /** The heading of the aggregated error. */
  function Heading(op: Operation): string
  {
    match op
    case StopUnits => "while stop unit:\n"
    case RunUnits => "while start unit:\n"
  }

  /** `process(type)`: `None` when it returns, `Some(message)` when it throws. */
  function Process(q: Queue, op: Operation, bus: Bus): Option<string>
  {
    var e := ErrorUnit(q.units, op, bus);
    if e == [] then None else Some(Heading(op) + e[..|e| - 1])
  }

  /** `start()`: returns when every queued unit started; otherwise throws
      "while start unit:" and the failure lines. */
  function Start(q: Queue, bus: Bus): (r: Option<string>)
    ensures r.None? <==> forall i :: 0 <= i < |q.units| ==> bus(q.units[i], RunUnits).None?
    ensures r.Some? ==> r.value == "while start unit:\n" + Text.Join(FailureLines(q.units, RunUnits, bus), "\n")
  {
    ProcessReportsFailures(q, RunUnits, bus);
    Process(q, RunUnits, bus)
  }

  /** `stop()`: returns when every queued unit stopped; otherwise throws
      "while stop unit:" and the failure lines. */
  function Stop(q: Queue, bus: Bus): (r: Option<string>)
    ensures r.None? <==> forall i :: 0 <= i < |q.units| ==> bus(q.units[i], StopUnits).None?
    ensures r.Some? ==> r.value == "while stop unit:\n" + Text.Join(FailureLines(q.units, StopUnits, bus), "\n")
  {
    ProcessReportsFailures(q, StopUnits, bus);
    Process(q, StopUnits, bus)
  }

  lemma {:induction false} FailureLinesAppend(a: seq<string>, b: seq<string>, op: Operation, bus: Bus)
    ensures FailureLines(a + b, op, bus) == FailureLines(a, op, bus) + FailureLines(b, op, bus)
  {
    if a == [] {
      assert a + b == b;
    } else {
      assert (a + b)[1..] == a[1..] + b;
      FailureLinesAppend(a[1..], b, op, bus);
    }
  }

  /** The accumulator holds every failure line followed by a newline. */
  lemma {:induction false} ErrorUnitIsTerminatedLines(units: seq<string>, op: Operation, bus: Bus)
    ensures ErrorUnit(units, op, bus) == Text.Terminated(FailureLines(units, op, bus))
    decreases |units|
  {
    if units != [] {
      var init := units[..|units| - 1];
      var last := units[|units| - 1];
      ErrorUnitIsTerminatedLines(init, op, bus);
      assert init + [last] == units;
      FailureLinesAppend(init, [last], op, bus);
      Text.TerminatedAppend(FailureLines(init, op, bus), FailureLines([last], op, bus));
      assert [last][1..] == [];
      match bus(last, op)
      case None =>
      case Some(what) =>
        assert Text.Terminated([Line(last, what)]) == Line(last, what) + "\n";
    }
  }

  /** Some unit's operation failed. */
  ghost predicate AnyFailed(units: seq<string>, op: Operation, bus: Bus)
  {
    exists i :: 0 <= i < |units| && bus(units[i], op).Some?
  }

  lemma {:induction false} FailureLinesEmpty(units: seq<string>, op: Operation, bus: Bus)
    ensures FailureLines(units, op, bus) == [] <==> !AnyFailed(units, op, bus)
  {
    if units != [] {
      FailureLinesEmpty(units[1..], op, bus);
      if AnyFailed(units[1..], op, bus) {
        var i :| 0 <= i < |units[1..]| && bus(units[1..][i], op).Some?;
        assert bus(units[i + 1], op).Some?;
      }
      if AnyFailed(units, op, bus) && bus(units[0], op).None? {
        var i :| 0 <= i < |units| && bus(units[i], op).Some?;
        assert units[1..][i - 1] == units[i];
      }
    }
  }

  /** What `process` promises: it returns exactly when every queued unit
      succeeded; otherwise it throws one error whose text is the operation's
      heading followed by the failed units' `"<unit>: <what>"` lines in queue
      order, joined by newlines with no trailing newline. */
  lemma ProcessReportsFailures(q: Queue, op: Operation, bus: Bus)
    ensures Process(q, op, bus).None? <==> forall i :: 0 <= i < |q.units| ==> bus(q.units[i], op).None?
    ensures Process(q, op, bus).Some? ==>
              Process(q, op, bus).value == Heading(op) + Text.Join(FailureLines(q.units, op, bus), "\n")
  {
    ErrorUnitIsTerminatedLines(q.units, op, bus);
    FailureLinesEmpty(q.units, op, bus);
    Text.TerminatedEmpty(FailureLines(q.units, op, bus));
    if FailureLines(q.units, op, bus) != [] {
      Text.TerminatedIsJoinPlusNewline(FailureLines(q.units, op, bus));
    }
  }

  /** Failure isolation: a unit's failure line appears in the report at its
      queue position whatever the units before and after it did. */
  lemma FailureIsolated(units: seq<string>, op: Operation, bus: Bus, i: nat)
    requires i < |units| && bus(units[i], op).Some?
    ensures FailureLines(units, op, bus)
         == FailureLines(units[..i], op, bus)
            + [Line(units[i], bus(units[i], op).value)]
            + FailureLines(units[i + 1..], op, bus)
  {
    assert units == units[..i] + ([units[i]] + units[i + 1..]);
    FailureLinesAppend(units[..i], [units[i]] + units[i + 1..], op, bus);
    assert ([units[i]] + units[i + 1..])[1..] == units[i + 1..];
  }

  /** The source's loop over the queue: every unit is attempted, in order,
      with the batch's operation, and the result agrees with `Process`. */
  method ProcessLoop(q: Queue, op: Operation, bus: Bus)
    returns (result: Option<string>, attempted: seq<(string, Operation)>)
    ensures |attempted| == |q.units|
    ensures forall i :: 0 <= i < |q.units| ==> attempted[i] == (q.units[i], op)
    ensures result == Process(q, op, bus)
  {
    var errorUnit: string := [];
    attempted := [];
    var n := 0;
    while n < |q.units|
      invariant 0 <= n <= |q.units|
      invariant |attempted| == n
      invariant forall i :: 0 <= i < n ==> attempted[i] == (q.units[i], op)
      invariant errorUnit == ErrorUnit(q.units[..n], op, bus)
    {
      var unit := q.units[n];
      attempted := attempted + [(unit, op)];
      errorUnit := errorUnit + Entry(unit, bus(unit, op));
      assert q.units[..n + 1][..n] == q.units[..n];
      n := n + 1;
    }
    assert q.units[..n] == q.units;
    if errorUnit == [] {
      result := None;
    } else {
      result := Some(Heading(op) + errorUnit[..|errorUnit| - 1]);
    }
  }
}
