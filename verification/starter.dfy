/** One unit's controller (`Starter` in src/lib/dbus.cpp): it buffers the
    `JobRemoved` completion signals that name its unit, remembers the job path
    returned by the last StartUnit/StopUnit call, and resolves `poll` against
    the buffer. The bus connection, the RPCs and the background delivery
    thread are outside the model: the job path a call returns and each
    delivered signal are parameters, and the blocking wait of `poll` is the
    outcome `Pending`. */
module Starter {
  import Text

  newtype uint32 = x: int | 0 <= x < 0x1_0000_0000

  /** The systemd manager's bus name, object and interface. */
  const ServiceName := "org.freedesktop.systemd1"
  const ObjectPath := "/org/freedesktop/systemd1"
  const InterfaceName := "org.freedesktop.systemd1.Manager"
  /** Job mode passed to StartUnit and StopUnit. */
  const ReplaceMode := "replace"
  /** The one job result that counts as success. */
  const DoneResult := "done"
  /** Size of the buffer the factory formats its error text into. */
  const MaxBufferSize := 1024
  const CreateErrorPrefix := "Cannot create new object "

  /** A buffered completion: job path and job result. */
  datatype Message = Message(path: string, res: string)

  /** The arguments of one `JobRemoved(u, o, s, s)` signal. */
  datatype JobRemoved = JobRemoved(id: uint32, path: string, unit: string, result: string)

  /** The state of one controller: its unit, the path of its outstanding job
      and the FIFO of buffered completions. */
  datatype State = State(unitName: string, jobPath: string, messages: seq<Message>)

  /** What one pass of `poll` ends in: it returns (`Done`), it throws with the
      given text (`Failed`), or nothing in the buffer matched and it would go
      back to waiting (`Pending`). */
  datatype Outcome = Done | Failed(msg: string) | Pending

  datatype Polled = Polled(state: State, outcome: Outcome)

  /** A method call: destination, object, interface, method name and string
      arguments. */
  datatype BusCall = BusCall(destination: string, object: string, iface: string,
                             member: string, args: seq<string>)

  /** A call on the systemd manager. */
  function ManagerCall(member: string, args: seq<string>): BusCall
  {
    BusCall(ServiceName, ObjectPath, InterfaceName, member, args)
  }

  /** A job request: the controller after it, and the manager call it made. */
  datatype Requested = Requested(state: State, call: BusCall)

  /** A freshly constructed controller: nothing buffered, and the job path
      still the empty default string. */
  function New(unit: string): State
  {
    State(unit, "", [])
  }

  /** The completion a signal contributes to the buffer of the controller for
      `unit`, if any. */
  function AcceptedOne(unit: string, sig: JobRemoved): seq<Message>
  {
    if sig.unit == unit then [Message(sig.path, sig.result)] else []
  }

  /** Handling one delivered signal: a signal for another unit is dropped; one
      for this unit is appended at the tail of the buffer. */
  function SignalHandler(s: State, sig: JobRemoved): (s': State)
    ensures s'.unitName == s.unitName && s'.jobPath == s.jobPath
    ensures sig.unit == s.unitName <==> |s'.messages| == |s.messages| + 1
    ensures sig.unit != s.unitName ==> s' == s
    ensures sig.unit == s.unitName ==>
              && s'.messages[..|s.messages|] == s.messages
              && s'.messages[|s.messages|] == Message(sig.path, sig.result)
  {
    if sig.unit != s.unitName then s
    else s.(messages := s.messages + [Message(sig.path, sig.result)])
  }

  /** Delivering a sequence of signals one after another. */
  function Deliver(s: State, sigs: seq<JobRemoved>): State
    decreases |sigs|
  {
    if sigs == [] then s else Deliver(SignalHandler(s, sigs[0]), sigs[1..])
  }

  /** Reference definition of what a signal sequence adds to a buffer: the
      signals naming `unit`, in delivery order, as messages. */
  function Accepted(unit: string, sigs: seq<JobRemoved>): seq<Message>
  {
    if sigs == [] then [] else AcceptedOne(unit, sigs[0]) + Accepted(unit, sigs[1..])
  }

  /** Only the signals naming `unit`. */
  function OnlyUnit(unit: string, sigs: seq<JobRemoved>): (r: seq<JobRemoved>)
    ensures forall i :: 0 <= i < |r| ==> r[i].unit == unit
  {
    if sigs == [] then []
    else (if sigs[0].unit == unit then [sigs[0]] else []) + OnlyUnit(unit, sigs[1..])
  }

  /** Delivery appends exactly the accepted messages, in order, after the
      existing buffer, and touches nothing else. */
  lemma {:induction false} DeliverAppendsAccepted(s: State, sigs: seq<JobRemoved>)
    decreases |sigs|
    ensures Deliver(s, sigs) == s.(messages := s.messages + Accepted(s.unitName, sigs))
  {
    if sigs != [] {
      var s1 := SignalHandler(s, sigs[0]);
      DeliverAppendsAccepted(s1, sigs[1..]);
      assert s1.messages == s.messages + AcceptedOne(s.unitName, sigs[0]);
    }
  }

  /** Signals for other units never influence a controller: delivering the
      full stream leaves the same state as delivering only its own unit's
      signals. */
  lemma {:induction false} ForeignSignalsIgnored(s: State, sigs: seq<JobRemoved>)
    ensures Deliver(s, sigs) == Deliver(s, OnlyUnit(s.unitName, sigs))
  {
    AcceptedOfOnlyUnit(s.unitName, sigs);
    DeliverAppendsAccepted(s, sigs);
    DeliverAppendsAccepted(s, OnlyUnit(s.unitName, sigs));
  }

  lemma {:induction false} AcceptedOfOnlyUnit(unit: string, sigs: seq<JobRemoved>)
    ensures Accepted(unit, OnlyUnit(unit, sigs)) == Accepted(unit, sigs)
  {
    if sigs != [] {
      AcceptedOfOnlyUnit(unit, sigs[1..]);
      AcceptedAppend(unit, if sigs[0].unit == unit then [sigs[0]] else [], OnlyUnit(unit, sigs[1..]));
      if sigs[0].unit == unit {
        assert Accepted(unit, [sigs[0]]) == AcceptedOne(unit, sigs[0]);
      }
    }
  }

  lemma {:induction false} AcceptedAppend(unit: string, a: seq<JobRemoved>, b: seq<JobRemoved>)
    ensures Accepted(unit, a + b) == Accepted(unit, a) + Accepted(unit, b)
  {
    if a == [] {
      assert a + b == b;
    } else {
      assert (a + b)[1..] == a[1..] + b;
      AcceptedAppend(unit, a[1..], b);
    }
  }

  /** `start()`: calls StartUnit for this unit in mode "replace"; the job
      path the call returned becomes the outstanding job, and the unit and
      the buffer are unchanged. */
  function Start(s: State, returned: string): (r: Requested)
    ensures r.call == BusCall(ServiceName, ObjectPath, InterfaceName, "StartUnit", [s.unitName, ReplaceMode])
    ensures r.state.jobPath == returned
    ensures r.state.unitName == s.unitName && r.state.messages == s.messages
  {
    Requested(s.(jobPath := returned), ManagerCall("StartUnit", [s.unitName, ReplaceMode]))
  }

  /** `stop()`: as `start()`, but calls StopUnit. */
  function Stop(s: State, returned: string): (r: Requested)
    ensures r.call == BusCall(ServiceName, ObjectPath, InterfaceName, "StopUnit", [s.unitName, ReplaceMode])
    ensures r.state.jobPath == returned
    ensures r.state.unitName == s.unitName && r.state.messages == s.messages
  {
    Requested(s.(jobPath := returned), ManagerCall("StopUnit", [s.unitName, ReplaceMode]))
  }

  /** A second request before the first is resolved abandons the first: only
      the latest returned path is remembered, whichever kinds the two
      requests were. */
  lemma LatestRequestWins(s: State, p1: string, p2: string)
    ensures Start(Stop(s, p1).state, p2).state == Start(s, p2).state
    ensures Stop(Start(s, p1).state, p2).state == Stop(s, p2).state
    ensures Start(s, p2).state == Stop(s, p2).state
  {
  }

  /** The event loop runs from construction on, so completions may be
      buffered before or after the request stores its job path: both orders
      give the same controller. */
  lemma RequestCommutesWithDelivery(s: State, returned: string, sigs: seq<JobRemoved>)
    ensures Deliver(Start(s, returned).state, sigs) == Start(Deliver(s, sigs), returned).state
    ensures Deliver(Stop(s, returned).state, sigs) == Stop(Deliver(s, sigs), returned).state
  {
    DeliverAppendsAccepted(s, sigs);
    DeliverAppendsAccepted(Start(s, returned).state, sigs);
  }

  /** `i` is the position of the first buffered message for job `job`. */
  ghost predicate IsFirstMatch(msgs: seq<Message>, job: string, i: int)
  {
    && 0 <= i < |msgs|
    && msgs[i].path == job
    && forall k :: 0 <= k < i ==> msgs[k].path != job
  }

  /** Some buffered message belongs to job `job`. */
  predicate HasMatch(msgs: seq<Message>, job: string)
  {
    exists i :: 0 <= i < |msgs| && msgs[i].path == job
  }

  /** The inner loop of `poll`: pop messages from the front until the front
      one belongs to `job` (which stays) or the buffer is empty. */
  function Drain(msgs: seq<Message>, job: string): seq<Message>
  {
    if msgs == [] then []
    else if msgs[0].path == job then msgs
    else Drain(msgs[1..], job)
  }

  /** What the drain leaves: a suffix of the buffer that is empty or starts
      with a message of `job`, after discarding only messages of other jobs. */
  lemma {:induction false} DrainSpec(msgs: seq<Message>, job: string)
    ensures |Drain(msgs, job)| <= |msgs|
    ensures Drain(msgs, job) == msgs[|msgs| - |Drain(msgs, job)|..]
    ensures Drain(msgs, job) != [] ==> Drain(msgs, job)[0].path == job
    ensures forall k :: 0 <= k < |msgs| - |Drain(msgs, job)| ==> msgs[k].path != job
    ensures Drain(msgs, job) == [] <==> !HasMatch(msgs, job)
  {
    if msgs != [] && msgs[0].path == job {
      assert HasMatch(msgs, job);
    }
    if msgs != [] && msgs[0].path != job {
      var rest := Drain(msgs[1..], job);
      DrainSpec(msgs[1..], job);
      assert forall k :: 1 <= k < |msgs| - |rest| ==> msgs[k] == msgs[1..][k - 1];
    }
  }

  /** One pass of `poll`: drain the buffer up to the first message of the
      outstanding job; succeed on "done", fail with "<unit> <result>"
      otherwise, and keep waiting (with an empty buffer) if nothing matched. */
  function Poll(s: State): Polled
  {
    var rest := Drain(s.messages, s.jobPath);
    var s' := s.(messages := rest);
    if rest == [] then Polled(s', Pending)
    else if rest[0].res == DoneResult then Polled(s', Done)
    else Polled(s', Failed(s.unitName + " " + rest[0].res))
  }

  /** What `poll` promises: it waits on (`Pending`, buffer emptied) exactly
      when no buffered message belongs to the outstanding job; otherwise the
      first such message alone decides: "done" returns, any other result
      throws "<unit> <result>", and that message is left at the front with
      everything before it discarded. The unit and job are unchanged. */
  lemma PollResolvesFirstMatch(s: State)
    ensures Poll(s).state.unitName == s.unitName && Poll(s).state.jobPath == s.jobPath
    ensures Poll(s).outcome == Pending <==> !HasMatch(s.messages, s.jobPath)
    ensures HasMatch(s.messages, s.jobPath) ==>
              IsFirstMatch(s.messages, s.jobPath, |s.messages| - |Poll(s).state.messages|)
    ensures Poll(s).outcome == Pending ==> Poll(s).state.messages == []
    ensures forall i {:trigger IsFirstMatch(s.messages, s.jobPath, i)} ::
              IsFirstMatch(s.messages, s.jobPath, i) ==>
                && Poll(s).state.messages == s.messages[i..]
                && (Poll(s).outcome == Done <==> s.messages[i].res == DoneResult)
                && (s.messages[i].res != DoneResult ==>
                      Poll(s).outcome == Failed(s.unitName + " " + s.messages[i].res))
  {
    var rest := Drain(s.messages, s.jobPath);
    DrainSpec(s.messages, s.jobPath);
    if rest == [] {
      assert !HasMatch(s.messages, s.jobPath);
    } else {
      assert s.messages[|s.messages| - |rest|] == rest[0];
    }
  }

  /** The same pass written as the source's loop over the front of the
      buffer; it agrees with `Poll`. */
  method PollLoop(s: State) returns (p: Polled)
    ensures p == Poll(s)
  {
    var messages := s.messages;
    while messages != []
      invariant Drain(messages, s.jobPath) == Drain(s.messages, s.jobPath)
      decreases |messages|
    {
      var message := messages[0];
      if message.path == s.jobPath {
        if message.res == DoneResult {
          return Polled(s.(messages := messages), Done);
        } else {
          return Polled(s.(messages := messages), Failed(s.unitName + " " + message.res));
        }
      }
      messages := messages[1..];
    }
    return Polled(s.(messages := []), Pending);
  }

  /** A drained buffer is already drained. */
  lemma DrainIdempotent(msgs: seq<Message>, job: string)
    ensures Drain(Drain(msgs, job), job) == Drain(msgs, job)
  {
  }

  /** Draining a buffer with more messages behind it: if the front part holds
      a match, the tail is carried along untouched; otherwise the front part
      is consumed entirely. */
  lemma {:induction false} DrainAppend(msgs: seq<Message>, more: seq<Message>, job: string)
    ensures HasMatch(msgs, job) ==> Drain(msgs + more, job) == Drain(msgs, job) + more
    ensures !HasMatch(msgs, job) ==> Drain(msgs + more, job) == Drain(more, job)
  {
    if msgs == [] {
      assert msgs + more == more;
    } else if msgs[0].path == job {
      assert HasMatch(msgs, job);
    } else {
      assert (msgs + more)[1..] == msgs[1..] + more;
      DrainAppend(msgs[1..], more, job);
      if HasMatch(msgs, job) {
        var i :| 0 <= i < |msgs| && msgs[i].path == job;
        assert msgs[1..][i - 1].path == job;
      }
      if HasMatch(msgs[1..], job) {
        var i :| 0 <= i < |msgs[1..]| && msgs[1..][i].path == job;
        assert msgs[i + 1].path == job;
      }
    }
  }

  /** The matching message is left at the front, so polling again without
      new signals gives the same result and the same state. */
  lemma PollIdempotent(s: State)
    ensures Poll(Poll(s).state) == Poll(s)
  {
    DrainIdempotent(s.messages, s.jobPath);
  }

  /** Once a pass has decided, signals delivered afterwards cannot change the
      decision: they are appended behind the matching message. */
  lemma DecidedPollIsFinal(s: State, sigs: seq<JobRemoved>)
    requires Poll(s).outcome != Pending
    ensures Poll(Deliver(s, sigs)).outcome == Poll(s).outcome
  {
    var a := Accepted(s.unitName, sigs);
    DeliverAppendsAccepted(s, sigs);
    DrainSpec(s.messages, s.jobPath);
    DrainAppend(s.messages, a, s.jobPath);
    var rest := Drain(s.messages, s.jobPath);
    assert (rest + a)[0] == rest[0];
  }

  /** Modelling the blocking wait as a `Pending` pass followed by a later
      pass loses nothing: polling early, then delivering more signals and
      polling again, ends exactly as one pass over all the signals would. */
  lemma PollEarlyIsHarmless(s: State, sigs: seq<JobRemoved>)
    ensures Poll(Deliver(Poll(s).state, sigs)) == Poll(Deliver(s, sigs))
  {
    var a := Accepted(s.unitName, sigs);
    var rest := Drain(s.messages, s.jobPath);
    DeliverAppendsAccepted(s, sigs);
    DeliverAppendsAccepted(Poll(s).state, sigs);
    DrainAppend(s.messages, a, s.jobPath);
    DrainSpec(s.messages, s.jobPath);
    if HasMatch(s.messages, s.jobPath) {
      DrainAppend(rest, a, s.jobPath);
      assert rest[0].path == s.jobPath;
      assert HasMatch(rest, s.jobPath);
      assert Drain(rest, s.jobPath) == rest;
    } else {
      assert rest == [];
      assert rest + a == a;
    }
  }

  /** Stale completions are harmless: when no buffered message belongs to the
      new job (job paths are not reused), a new request resolves exactly as if
      the buffer had been empty when it was issued. */
  lemma StaleMessagesIgnored(s: State, returned: string, sigs: seq<JobRemoved>)
    requires forall i :: 0 <= i < |s.messages| ==> s.messages[i].path != returned
    ensures Poll(Deliver(Start(s, returned).state, sigs)).outcome
         == Poll(Deliver(Start(s.(messages := []), returned).state, sigs)).outcome
  {
    var a := Accepted(s.unitName, sigs);
    DeliverAppendsAccepted(Start(s, returned).state, sigs);
    DeliverAppendsAccepted(Start(s.(messages := []), returned).state, sigs);
    DrainAppend(s.messages, a, returned);
    assert [] + a == a;
  }

  /** The text the factory reports when construction throws: the prefix and
      the exception text read as a C string, cut to what fits a 1024-byte
      buffer with its terminating NUL. */
  function CreateError(what: string): (msg: string)
    ensures |msg| <= MaxBufferSize - 1
    ensures msg <= CreateErrorPrefix + Text.CString(what)
    ensures |CreateErrorPrefix + Text.CString(what)| <= MaxBufferSize - 1 ==>
              msg == CreateErrorPrefix + Text.CString(what)
    ensures Text.Nul !in msg
    ensures |msg| == if |CreateErrorPrefix + Text.CString(what)| < MaxBufferSize
                     then |CreateErrorPrefix + Text.CString(what)|
                     else MaxBufferSize - 1
  {
    Text.CStringSpec(what);
    var full := CreateErrorPrefix + Text.CString(what);
    if |full| < MaxBufferSize then full else full[..MaxBufferSize - 1]
  }
}
