/** Concrete cases of the model: the naming examples, the two end-to-end
    batches, and two controllers watching the same unit. */
module Scenarios {
  import opened Options
  import Starter
  import MassProcess
  import Text

  /** One unit's episode as the batch drives it: construct, issue the request
      (the manager returns `returned`), receive `sigs`, poll once. */
  function RunUnit(unit: string, op: MassProcess.Operation, returned: string,
                   sigs: seq<Starter.JobRemoved>): Starter.Outcome
  {
    var s := Starter.New(unit);
    var requested := if op == MassProcess.StopUnits then Starter.Stop(s, returned) else Starter.Start(s, returned);
    Starter.Poll(Starter.Deliver(requested.state, sigs)).outcome
  }

  /** Whatever the signal stream, a fresh controller's episode is decided by
      the first completion that names its unit and carries its own job path:
      it waits when there is none, returns on "done" and otherwise fails with
      "<unit> <result>". Completions of other jobs, even of the same unit, and
      completions of other units never decide it. */
  lemma RunUnitResolvesOwnJob(unit: string, op: MassProcess.Operation, returned: string,
                              sigs: seq<Starter.JobRemoved>)
    ensures var msgs := Starter.Accepted(unit, sigs);
            RunUnit(unit, op, returned, sigs) == Starter.Pending <==> !Starter.HasMatch(msgs, returned)
    ensures var msgs := Starter.Accepted(unit, sigs);
            forall i {:trigger Starter.IsFirstMatch(msgs, returned, i)} ::
              Starter.IsFirstMatch(msgs, returned, i) ==>
                RunUnit(unit, op, returned, sigs)
                == (if msgs[i].res == Starter.DoneResult then Starter.Done
                    else Starter.Failed(unit + " " + msgs[i].res))
  {
    var s := Starter.New(unit);
    var requested := if op == MassProcess.StopUnits then Starter.Stop(s, returned) else Starter.Start(s, returned);
    var msgs := Starter.Accepted(unit, sigs);
    Starter.DeliverAppendsAccepted(requested.state, sigs);
    assert [] + msgs == msgs;
    assert Starter.Deliver(requested.state, sigs) == Starter.State(unit, returned, msgs);
    Starter.PollResolvesFirstMatch(Starter.State(unit, returned, msgs));
  }

  /** With context "fw1" the default names get "@fw1.service"; without a
      context they get ".service"; custom names pass through unchanged. */
  lemma NamingExamples()
    ensures MassProcess.AddQueueDefault(MassProcess.WithContext("fw1"), ["svc1", "svc2"]).units
         == ["svc1@fw1.service", "svc2@fw1.service"]
    ensures MassProcess.AddQueueDefault(MassProcess.Empty(), ["svc1", "svc2"]).units
         == ["svc1.service", "svc2.service"]
    ensures MassProcess.AddQueueCustom(MassProcess.Empty(), ["svc1", "svc2"]).units
         == ["svc1", "svc2"]
  {
    var ctx := MassProcess.AddQueueDefault(MassProcess.WithContext("fw1"), ["svc1", "svc2"]).units;
    assert ctx[0] == MassProcess.UnitName("svc1", Some("fw1")) == "svc1@fw1.service";
    assert ctx[1] == MassProcess.UnitName("svc2", Some("fw1")) == "svc2@fw1.service";
    var plain := MassProcess.AddQueueDefault(MassProcess.Empty(), ["svc1", "svc2"]).units;
    assert plain[0] == MassProcess.UnitName("svc1", None) == "svc1.service";
    assert plain[1] == MassProcess.UnitName("svc2", None) == "svc2.service";
  }

  /** The signal stream the manager emits for the two batch scenarios: the
      job of "a.service" ends "done", that of "b.service" ends `bResult`. */
  function BatchSignals(bResult: string): seq<Starter.JobRemoved>
  {
    [ Starter.JobRemoved(7, "/org/freedesktop/systemd1/job/7", "a.service", "done"),
      Starter.JobRemoved(8, "/org/freedesktop/systemd1/job/8", "b.service", bResult) ]
  }

  /** Each controller buffers only the completion of its own unit. */
  lemma BatchSignalsAccepted()
    ensures Starter.Accepted("a.service", BatchSignals("failed"))
         == [Starter.Message("/org/freedesktop/systemd1/job/7", "done")]
    ensures Starter.Accepted("b.service", BatchSignals("failed"))
         == [Starter.Message("/org/freedesktop/systemd1/job/8", "failed")]
  {
    var sigs := BatchSignals("failed");
    // The two unit names differ in their first character.
    assert "a.service"[0] != "b.service"[0];
    assert sigs[1..][1..] == [];
    assert Starter.AcceptedOne("a.service", sigs[1]) == [];
    assert Starter.AcceptedOne("b.service", sigs[0]) == [];
  }

  /** The controller for "b.service" fails with its unit name and the result;
      the one for "a.service" returns. */
  lemma UnitBFails()
    ensures RunUnit("b.service", MassProcess.StopUnits, "/org/freedesktop/systemd1/job/8", BatchSignals("failed"))
         == Starter.Failed("b.service failed")
    ensures RunUnit("a.service", MassProcess.StopUnits, "/org/freedesktop/systemd1/job/7", BatchSignals("failed"))
         == Starter.Done
  {
    var sigs := BatchSignals("failed");
    BatchSignalsAccepted();
    var b := Starter.Stop(Starter.New("b.service"), "/org/freedesktop/systemd1/job/8").state;
    Starter.DeliverAppendsAccepted(b, sigs);
    var a := Starter.Stop(Starter.New("a.service"), "/org/freedesktop/systemd1/job/7").state;
    Starter.DeliverAppendsAccepted(a, sigs);
    assert "b.service" + " " + "failed" == "b.service failed";
  }

  /** The bus of scenario A: every unit's job ends "done". */
  function AllDone(unit: string, op: MassProcess.Operation): Option<string>
  {
    None
  }

  /** The bus of scenario B, written out by hand: the controller for
      "b.service" throws "b.service failed" and every other one returns.
      `OnlyBFailsIsStarterOutcome` derives the two entries the scenario uses
      from the `Starter` model. */
  function OnlyBFails(unit: string, op: MassProcess.Operation): Option<string>
  {
    if unit == "b.service" then Some("b.service failed") else None
  }

  /** How the batch sees one controller's episode: a returned `poll` is
      `None`, a thrown one carries its text. A `Pending` episode never ends
      in the source (`process` would hang), so it has no bus result. */
  function AsBusResult(o: Starter.Outcome): Option<string>
    requires o != Starter.Pending
  {
    match o
    case Failed(msg) => Some(msg)
    case _ => None
  }

  /** The hand-written bus of scenario B is what the `Starter` model computes
      for both queued units on the scenario's signal stream. */
  lemma OnlyBFailsIsStarterOutcome()
    ensures OnlyBFails("a.service", MassProcess.StopUnits)
         == AsBusResult(RunUnit("a.service", MassProcess.StopUnits, "/org/freedesktop/systemd1/job/7", BatchSignals("failed")))
    ensures OnlyBFails("b.service", MassProcess.StopUnits)
         == AsBusResult(RunUnit("b.service", MassProcess.StopUnits, "/org/freedesktop/systemd1/job/8", BatchSignals("failed")))
  {
    UnitBFails();
    // The two unit names differ in their first character.
    assert "a.service"[0] != "b.service"[0];
  }

  /** The queue of both scenarios: "a" and "b" enqueued without a context. */
  lemma ScenarioQueue()
    ensures MassProcess.AddQueueDefault(MassProcess.Empty(), ["a", "b"]).units == ["a.service", "b.service"]
  {
    var q := MassProcess.AddQueueDefault(MassProcess.Empty(), ["a", "b"]);
    assert q.units[0] == MassProcess.UnitName("a", None) == "a.service";
    assert q.units[1] == MassProcess.UnitName("b", None) == "b.service";
  }

  /** Scenario A: both jobs done, so `stop()` returns normally. */
  lemma ScenarioAllDone()
    ensures MassProcess.Stop(MassProcess.AddQueueDefault(MassProcess.Empty(), ["a", "b"]), AllDone) == None
  {
    var q := MassProcess.AddQueueDefault(MassProcess.Empty(), ["a", "b"]);
    ScenarioQueue();
    MassProcess.ProcessReportsFailures(q, MassProcess.StopUnits, AllDone);
  }

  /** The report line of "b.service" carries its exception text whole. */
  lemma ScenarioBLine()
    ensures MassProcess.Line("b.service", "b.service failed") == "b.service: b.service failed"
  {
    assert Text.Nul !in "b.service failed";
    MassProcess.LineWithoutNul("b.service", "b.service failed");
    ReportLineText();
  }

  /** The literal concatenation behind the report line, kept apart so that the
      scenario proofs see only its result. */
  lemma ReportLineText()
    ensures "b.service" + ": " + "b.service failed" == "b.service: b.service failed"
  {
  }

  /** Only "b.service" contributes a report line, and it is read back whole. */
  lemma ScenarioBLines()
    ensures MassProcess.FailureLines(["a.service", "b.service"], MassProcess.StopUnits, OnlyBFails)
         == ["b.service: b.service failed"]
  {
    var units := ["a.service", "b.service"];
    assert OnlyBFails(units[1], MassProcess.StopUnits).Some?;
    MassProcess.FailureIsolated(units, MassProcess.StopUnits, OnlyBFails, 1);
    assert units[..1] == ["a.service"] && units[2..] == [];
    // The two unit names differ in their first character.
    assert "a.service"[0] != "b.service"[0];
    MassProcess.FailureLinesEmpty(units[..1], MassProcess.StopUnits, OnlyBFails);
    ScenarioBLine();
    var line := MassProcess.Line("b.service", "b.service failed");
    assert MassProcess.FailureLines(units, MassProcess.StopUnits, OnlyBFails) == [] + [line] + [];
  }

  /** Scenario B: "b.service" fails, so `stop()` throws a report of exactly one
      line, and "a.service" was attempted before it. */
  lemma ScenarioBFails()
    ensures MassProcess.Stop(MassProcess.AddQueueDefault(MassProcess.Empty(), ["a", "b"]), OnlyBFails)
         == Some("while stop unit:\nb.service: b.service failed")
  {
    var q := MassProcess.AddQueueDefault(MassProcess.Empty(), ["a", "b"]);
    ScenarioQueue();
    ScenarioBLines();
    MassProcess.ProcessReportsFailures(q, MassProcess.StopUnits, OnlyBFails);
    assert OnlyBFails(q.units[1], MassProcess.StopUnits).Some?;
    var r := MassProcess.Stop(q, OnlyBFails);
    assert r.Some?;
    assert MassProcess.FailureLines(q.units, MassProcess.StopUnits, OnlyBFails) == ["b.service: b.service failed"];
    assert Text.Join(["b.service: b.service failed"], "\n") == "b.service: b.service failed";
    assert r.value == MassProcess.Heading(MassProcess.StopUnits) + "b.service: b.service failed";
    ReportText();
  }

  /** The literal concatenation behind the whole report, kept apart for the
      same reason. */
  lemma ReportText()
    ensures MassProcess.Heading(MassProcess.StopUnits) + "b.service: b.service failed"
         == "while stop unit:\nb.service: b.service failed"
  {
  }

  /** Two controllers for the same unit with different jobs: each resolves on
      its own job's completion, in either order of arrival of the two
      completions. (`RunUnitResolvesOwnJob` states this for every stream.) */
  lemma TwoControllersSameUnit()
    ensures RunUnit("chrony.service", MassProcess.StopUnits, "/job/1",
                    [ Starter.JobRemoved(2, "/job/2", "chrony.service", "canceled"),
                      Starter.JobRemoved(1, "/job/1", "chrony.service", "done") ])
         == Starter.Done
    ensures RunUnit("chrony.service", MassProcess.StopUnits, "/job/2",
                    [ Starter.JobRemoved(2, "/job/2", "chrony.service", "canceled"),
                      Starter.JobRemoved(1, "/job/1", "chrony.service", "done") ])
         == Starter.Failed("chrony.service canceled")
    ensures RunUnit("chrony.service", MassProcess.StopUnits, "/job/1",
                    [ Starter.JobRemoved(1, "/job/1", "chrony.service", "done"),
                      Starter.JobRemoved(2, "/job/2", "chrony.service", "canceled") ])
         == Starter.Done
    ensures RunUnit("chrony.service", MassProcess.StopUnits, "/job/2",
                    [ Starter.JobRemoved(1, "/job/1", "chrony.service", "done"),
                      Starter.JobRemoved(2, "/job/2", "chrony.service", "canceled") ])
         == Starter.Failed("chrony.service canceled")
  {
    var s1 := Starter.Stop(Starter.New("chrony.service"), "/job/1").state;
    var s2 := Starter.Stop(Starter.New("chrony.service"), "/job/2").state;
    // The two job paths differ in their last character.
    assert "/job/2"[5] != "/job/1"[5];
    var late := [ Starter.JobRemoved(2, "/job/2", "chrony.service", "canceled"),
                  Starter.JobRemoved(1, "/job/1", "chrony.service", "done") ];
    Starter.DeliverAppendsAccepted(s1, late);
    Starter.DeliverAppendsAccepted(s2, late);
    var msgs := [Starter.Message("/job/2", "canceled"), Starter.Message("/job/1", "done")];
    assert Starter.Accepted("chrony.service", late) == msgs;
    assert Starter.Drain(msgs, "/job/1") == Starter.Drain(msgs[1..], "/job/1") == msgs[1..];
    assert Starter.Drain(msgs, "/job/2") == msgs;
    var early := [ Starter.JobRemoved(1, "/job/1", "chrony.service", "done"),
                   Starter.JobRemoved(2, "/job/2", "chrony.service", "canceled") ];
    Starter.DeliverAppendsAccepted(s1, early);
    Starter.DeliverAppendsAccepted(s2, early);
    var rev := [Starter.Message("/job/1", "done"), Starter.Message("/job/2", "canceled")];
    assert Starter.Accepted("chrony.service", early) == rev;
    assert Starter.Drain(rev, "/job/1") == rev;
    assert Starter.Drain(rev, "/job/2") == Starter.Drain(rev[1..], "/job/2") == rev[1..];
    assert "chrony.service" + " " + "canceled" == "chrony.service canceled";
  }
}
