/** Any number of processes racing to publish one immutable cache directory by rename. */
module CachePublish {
  import opened Wrappers
  import Sets

  type Pid = int
  type Tree = map<string, seq<int>>

  datatype Outcome = Published | Replayed

  /** Where one publisher stands; `Crashed` remembers whether its rename had gone through. */
  datatype Phase =
    | Starting
    | Checked
    | Removing
    | Syncing(outcome: Outcome)
    | Finished(outcome: Outcome)
    | Raised
    | Crashed(renamed: bool)

  /** `candidate` is what is at the publisher's own path now, `original` what it prepared. */
  datatype Publisher = Publisher(phase: Phase, candidate: Option<Tree>, original: Tree)

  datatype State = State(publishers: map<Pid, Publisher>, destination: Option<Tree>)

  /** rename(2) of a directory onto a directory succeeds only over an empty one. */
  predicate RenameSucceeds(destination: Option<Tree>) {
    destination.None? || destination.value == map[]
  }

  datatype Action = Check | Rename | RemoveEntry(name: string) | RemoveDirectory | Sync | Crash

  datatype Step = Step(pid: Pid, action: Action)

  /** What one action does to the publisher that takes it and to the destination. */
  ghost predicate Acts(
    p: Publisher, destination: Option<Tree>, action: Action, p': Publisher, destination': Option<Tree>) {
    && p'.original == p.original
    && match action
       case Check =>
         && p.phase == Starting && destination' == destination
         && p' == p.(phase := if p.candidate.Some? then Checked else Raised)
       case Rename =>
         && p.phase == Checked
         && (if p.candidate.None? then destination' == destination && p' == p.(phase := Raised)
             else if RenameSucceeds(destination)
               then destination' == p.candidate && p' == p.(phase := Syncing(Published), candidate := None)
             else destination' == destination && p' == p.(phase := Removing))
       case RemoveEntry(name) =>
         && p.phase == Removing && destination' == destination && p.candidate.Some? && name in p.candidate.value
         && p' == p.(candidate := Some(p.candidate.value - {name}))
       case RemoveDirectory =>
         && p.phase == Removing && destination' == destination && p.candidate == Some(map[])
         && p' == p.(phase := Syncing(Replayed), candidate := None)
       case Sync =>
         && p.phase.Syncing? && destination' == destination
         && p' == p.(phase := Finished(p.phase.outcome))
       case Crash =>
         && !p.phase.Finished? && !p.phase.Raised? && !p.phase.Crashed? && destination' == destination
         && p' == p.(phase := Crashed(p.phase == Syncing(Published)))
  }

  /** One action of one publisher; the others do not move. */
  ghost predicate Takes(s: State, step: Step, s': State) {
    && step.pid in s.publishers && step.pid in s'.publishers
    && Acts(s.publishers[step.pid], s.destination, step.action, s'.publishers[step.pid], s'.destination)
    && s'.publishers == s.publishers[step.pid := s'.publishers[step.pid]]
  }

  /** Everybody has its candidate ready and nothing is published yet. */
  ghost predicate Initial(s: State) {
    && s.destination.None?
    && forall pid | pid in s.publishers ::
       var p := s.publishers[pid]; p.phase == Starting && p.candidate == Some(p.original)
  }

  ghost predicate NonEmptyCandidates(s: State) {
    forall pid | pid in s.publishers :: s.publishers[pid].original != map[]
  }

  ghost predicate IsRun(states: seq<State>, steps: seq<Step>) {
    && |states| == |steps| + 1 && Initial(states[0])
    && forall i | 0 <= i < |steps| :: Takes(states[i], steps[i], states[i + 1])
  }

  // ---- what every interleaving keeps ----

  predicate HasPublished(p: Phase) {
    p == Syncing(Published) || p == Finished(Published) || p == Crashed(true)
  }

  predicate MayStillRename(p: Phase) {
    p == Starting || p == Checked
  }

  /** What one publisher's phase says about its candidate and the destination. */
  ghost predicate PublisherGood(destination: Option<Tree>, p: Publisher) {
    && p.original != map[]
    && p.phase != Raised
    && (MayStillRename(p.phase) ==> p.candidate == Some(p.original))
    && (p.phase == Removing ==> p.candidate.Some? && destination.Some?)
    && (p.phase.Syncing? || p.phase.Finished? ==> p.candidate.None? && destination.Some?)
    && (HasPublished(p.phase) ==> destination == Some(p.original))
  }

  ghost predicate Good(s: State) {
    && (forall pid | pid in s.publishers :: PublisherGood(s.destination, s.publishers[pid]))
    && (s.destination.Some? ==> s.destination.value != map[] && exists pid :: PublishedBy(s, pid))
    && OnePublisher(s)
  }

  ghost predicate PublishedBy(s: State, pid: Pid) {
    pid in s.publishers && HasPublished(s.publishers[pid].phase)
  }

  ghost predicate OnePublisher(s: State) {
    forall a, b | PublishedBy(s, a) && PublishedBy(s, b) :: a == b
  }

  lemma ActionKeepsGood(p: Publisher, d: Option<Tree>, action: Action, p': Publisher, d': Option<Tree>)
    requires PublisherGood(d, p) && Acts(p, d, action, p', d') && d != Some(map[])
    ensures PublisherGood(d', p')
    ensures d.Some? ==> d' == d
    ensures d' != Some(map[])
    ensures HasPublished(p.phase) ==> HasPublished(p'.phase)
    ensures HasPublished(p'.phase) && !HasPublished(p.phase) ==> d.None?
    ensures d.None? && d'.Some? ==> HasPublished(p'.phase)
  {
  }

  lemma OthersStayGood(d: Option<Tree>, d': Option<Tree>, q: Publisher)
    requires PublisherGood(d, q) && (d.Some? ==> d' == d)
    ensures PublisherGood(d', q)
    ensures d.None? ==> !HasPublished(q.phase)
  {
  }

  lemma StepKeepsGood(s: State, step: Step, s': State)
    requires Good(s) && Takes(s, step, s')
    ensures Good(s')
    ensures s.destination.Some? ==> s'.destination == s.destination
  {
    ActionKeepsGood(s.publishers[step.pid], s.destination, step.action, s'.publishers[step.pid], s'.destination);
    hide Acts;
    forall pid | pid in s.publishers
      ensures PublisherGood(s'.destination, s.publishers[pid])
      ensures s.destination.None? ==> !HasPublished(s.publishers[pid].phase)
    {
      OthersStayGood(s.destination, s'.destination, s.publishers[pid]);
    }
    hide PublisherGood;
    if winner :| PublishedBy(s, winner) { assert PublishedBy(s', winner); }
    if s.destination.None? && s'.destination.Some? { assert PublishedBy(s', step.pid); }
    forall a, b | PublishedBy(s', a) && PublishedBy(s', b) ensures a == b {
      if a != step.pid || HasPublished(s.publishers[a].phase) { assert PublishedBy(s, a); }
      if b != step.pid || HasPublished(s.publishers[b].phase) { assert PublishedBy(s, b); }
    }
  }

  lemma {:induction false} RunsStayGood(states: seq<State>, steps: seq<Step>, i: nat)
    requires IsRun(states, steps) && NonEmptyCandidates(states[0]) && i < |states|
    ensures Good(states[i])
  {
    if i > 0 {
      hide Takes, Good;
      RunsStayGood(states, steps, i - 1);
      StepKeepsGood(states[i - 1], steps[i - 1], states[i]);
    } else {
      assert Initial(states[0]);
    }
  }

  // ---- the protocol's promises ----

  /** At most one publisher ever publishes, and by the time any has finished exactly one has;
      the destination then holds that publisher's directory and nothing else. */
  lemma ExactlyOnePublisher(states: seq<State>, steps: seq<Step>, i: nat)
    requires IsRun(states, steps) && NonEmptyCandidates(states[0]) && i < |states|
    ensures forall a, b | PublishedBy(states[i], a) && PublishedBy(states[i], b) :: a == b
    ensures forall pid | pid in states[i].publishers && states[i].publishers[pid].phase.Finished? ::
      && states[i].publishers[pid].candidate.None?
      && exists winner :: PublishedBy(states[i], winner)
    ensures forall winner | PublishedBy(states[i], winner) ::
      states[i].destination == Some(states[i].publishers[winner].original)
  {
    RunsStayGood(states, steps, i);
    forall pid | pid in states[i].publishers ensures PublisherGood(states[i].destination, states[i].publishers[pid]) { }
  }

  /** Whoever replays has lost to another publisher. */
  lemma ReplayedMeansLost(states: seq<State>, steps: seq<Step>, i: nat, pid: Pid)
    requires IsRun(states, steps) && NonEmptyCandidates(states[0]) && i < |states|
    requires pid in states[i].publishers
    requires states[i].publishers[pid].phase in {Finished(Replayed), Syncing(Replayed), Removing}
    ensures exists winner :: winner != pid && PublishedBy(states[i], winner)
  {
    RunsStayGood(states, steps, i);
    assert PublisherGood(states[i].destination, states[i].publishers[pid]);
    var winner :| PublishedBy(states[i], winner);
  }

  predicate Ended(p: Phase) {
    p.Finished? || p.Raised? || p.Crashed?
  }

  /** How many actions a publisher has left at most. */
  function ActionsLeft(p: Publisher): nat {
    var files := if p.candidate.Some? then |p.candidate.value| else 0;
    match p.phase
    case Starting => files + 4
    case Checked => files + 3
    case Removing => files + 2
    case Syncing(_) => 1
    case _ => 0
  }

  /** Every action brings its publisher nearer to its end, so a publisher ends or is at a point
      where it can go on by itself, whatever the others do. */
  lemma ActionsRunOut(p: Publisher, d: Option<Tree>, action: Action, p': Publisher, d': Option<Tree>)
    requires Acts(p, d, action, p', d')
    ensures ActionsLeft(p') < ActionsLeft(p) || (Ended(p'.phase) && !Ended(p.phase))
  {
    match action
    case RemoveEntry(name) => OneEntryLess(p.candidate.value, name);
    case _ =>
  }

  lemma OneEntryLess(files: Tree, name: string)
    requires name in files
    ensures |files - {name}| == |files| - 1
  {
    assert (files - {name}).Keys == files.Keys - {name};
    Sets.MapSize(files);
    Sets.MapSize(files - {name});
  }

  lemma CanGoOn(s: State, pid: Pid) returns (step: Step, s': State)
    requires Good(s) && pid in s.publishers && !Ended(s.publishers[pid].phase)
    ensures step.pid == pid && step.action != Crash && Takes(s, step, s')
    ensures ActionsLeft(s'.publishers[pid]) < ActionsLeft(s.publishers[pid])
  {
    var p := s.publishers[pid];
    assert PublisherGood(s.destination, p);
    match p.phase {
      case Starting =>
        step, s' := Step(pid, Check), s.(publishers := s.publishers[pid := p.(phase := Checked)]);
      case Checked =>
        step := Step(pid, Rename);
        s' := if RenameSucceeds(s.destination)
          then State(s.publishers[pid := p.(phase := Syncing(Published), candidate := None)], p.candidate)
          else s.(publishers := s.publishers[pid := p.(phase := Removing)]);
      case Removing =>
        if p.candidate.value == map[] {
          step := Step(pid, RemoveDirectory);
          s' := s.(publishers := s.publishers[pid := p.(phase := Syncing(Replayed), candidate := None)]);
        } else {
          var name :| name in p.candidate.value;
          step := Step(pid, RemoveEntry(name));
          s' := s.(publishers := s.publishers[pid := p.(candidate := Some(p.candidate.value - {name}))]);
          OneEntryLess(p.candidate.value, name);
        }
      case Syncing(outcome) =>
        step, s' := Step(pid, Sync), s.(publishers := s.publishers[pid := p.(phase := Finished(outcome))]);
    }
  }

  /** From any state of a run, whatever has crashed by then, a publisher that is still at work can
      finish on its own. */
  lemma {:induction false} CanFinish(s: State, pid: Pid) returns (states: seq<State>, steps: seq<Step>)
    requires Good(s) && pid in s.publishers && !Ended(s.publishers[pid].phase)
    ensures |states| == |steps| + 1 && states[0] == s
    ensures forall i | 0 <= i < |steps| :: steps[i].pid == pid && Takes(states[i], steps[i], states[i + 1])
    ensures pid in states[|steps|].publishers && states[|steps|].publishers[pid].phase.Finished?
    decreases ActionsLeft(s.publishers[pid])
  {
    var step, s' := CanGoOn(s, pid);
    hide Acts, ActionsLeft;
    StepKeepsGood(s, step, s');
    NeverRaised(s', pid);
    if s'.publishers[pid].phase.Finished? {
      states, steps := [s, s'], [step];
    } else {
      StillGoing(s, step, s');
      var more, rest := CanFinish(s', pid);
      states, steps := [s] + more, [step] + rest;
    }
  }

  lemma NeverRaised(s: State, pid: Pid)
    requires Good(s) && pid in s.publishers
    ensures s.publishers[pid].phase != Raised
  {
    assert PublisherGood(s.destination, s.publishers[pid]);
  }

  lemma StillGoing(s: State, step: Step, s': State)
    requires Takes(s, step, s') && step.action != Crash
    ensures !s'.publishers[step.pid].phase.Crashed?
  {
  }

  /** Once it exists, the destination never changes again. */
  lemma {:induction false} DestinationNeverChanges(states: seq<State>, steps: seq<Step>, i: nat, j: nat)
    requires IsRun(states, steps) && NonEmptyCandidates(states[0])
    requires i <= j < |states| && states[i].destination.Some?
    ensures states[j].destination == states[i].destination
    decreases j
  {
    if i < j {
      hide Takes, Good;
      DestinationNeverChanges(states, steps, i, j - 1);
      RunsStayGood(states, steps, j - 1);
      StepKeepsGood(states[j - 1], steps[j - 1], states[j]);
    }
  }

  /** No publisher ever fails: it publishes, replays or is killed. */
  lemma NoPublisherRaises(states: seq<State>, steps: seq<Step>, i: nat, pid: Pid)
    requires IsRun(states, steps) && NonEmptyCandidates(states[0])
    requires i < |states| && pid in states[i].publishers
    ensures states[i].publishers[pid].phase != Raised
  {
    RunsStayGood(states, steps, i);
    assert PublisherGood(states[i].destination, states[i].publishers[pid]);
  }

  /** The candidates have to be non-empty: with an empty one and any rival there is a run in
      which both of them publish, the rival renaming over the directory just published. */
  lemma EmptyCandidateIsOverwritten(s: State, empty: Pid, rival: Pid) returns (states: seq<State>, steps: seq<Step>)
    requires Initial(s) && empty in s.publishers && rival in s.publishers && empty != rival
    requires s.publishers[empty].original == map[]
    ensures IsRun(states, steps) && states[0] == s
    ensures var last := states[|states| - 1];
            && PublishedBy(last, empty) && PublishedBy(last, rival)
            && last.destination == Some(s.publishers[rival].original)
  {
    var e, r := s.publishers[empty], s.publishers[rival];
    var s1 := s.(publishers := s.publishers[empty := e.(phase := Checked)]);
    var s2 := State(s.publishers[empty := e.(phase := Syncing(Published), candidate := None)], Some(map[]));
    var s3 := s2.(publishers := s2.publishers[rival := r.(phase := Checked)]);
    var s4 := State(s2.publishers[rival := r.(phase := Syncing(Published), candidate := None)], Some(r.original));
    states := [s, s1, s2, s3, s4];
    steps := [Step(empty, Check), Step(empty, Rename), Step(rival, Check), Step(rival, Rename)];
    assert Takes(s, steps[0], s1) && Takes(s1, steps[1], s2) && Takes(s2, steps[2], s3) && Takes(s3, steps[3], s4);
  }

  /** Whether no run from a state ever has two publishers. */
  ghost predicate AlwaysAtMostOne(s: State) {
    forall states, steps, i | IsRun(states, steps) && states[0] == s && 0 <= i < |states| :: OnePublisher(states[i])
  }

  /** With two or more publishers the race is safe exactly when every candidate is non-empty. */
  lemma SafeIffNonEmpty(s: State, a: Pid, b: Pid)
    requires Initial(s) && a in s.publishers && b in s.publishers && a != b
    ensures AlwaysAtMostOne(s) <==> NonEmptyCandidates(s)
  {
    if NonEmptyCandidates(s) {
      forall states, steps, i | IsRun(states, steps) && states[0] == s && 0 <= i < |states|
        ensures OnePublisher(states[i]) {
        ExactlyOnePublisher(states, steps, i);
      }
    } else {
      var empty :| empty in s.publishers && s.publishers[empty].original == map[];
      var rival := if empty == a then b else a;
      var states, steps := EmptyCandidateIsOverwritten(s, empty, rival);
      hide IsRun;
      assert !OnePublisher(states[|states| - 1]);
    }
  }

  // ---- one publisher on its own ----

  datatype RenameError = NoEntry | NotEmpty

  /** The two paths a publisher works on, when nobody else does. */
  class CachePaths {
    var candidate: Option<Tree>
    var destination: Option<Tree>

    constructor (candidate: Option<Tree>, destination: Option<Tree>)
      ensures this.candidate == candidate && this.destination == destination
    {
      this.candidate := candidate;
      this.destination := destination;
    }

    method Rename() returns (error: Option<RenameError>)
      modifies this
      ensures old(candidate).None? ==> error == Some(NoEntry)
      ensures old(candidate).Some? ==> (error == None <==> RenameSucceeds(old(destination))) && error != Some(NoEntry)
      ensures error == None ==> destination == old(candidate) && candidate == None
      ensures error.Some? ==> destination == old(destination) && candidate == old(candidate)
    {
      if candidate.None? { return Some(NoEntry); }
      if !RenameSucceeds(destination) { return Some(NotEmpty); }
      destination := candidate;
      candidate := None;
      error := None;
    }

    method RemoveTree()
      requires candidate.Some?
      modifies this`candidate
      ensures candidate == None
    {
      var left := candidate.value;
      while left != map[]
        decreases |left|
      {
        var name :| name in left;
        left := left - {name};
        candidate := Some(left);
      }
      candidate := None;
    }

    /** Whoever finds the destination missing or empty publishes its directory whole; anybody
        else leaves the destination alone. Either way the candidate is gone. */
    method Publish() returns (outcome: Option<Outcome>)
      modifies this
      ensures outcome.None? <==> old(candidate).None?
      ensures outcome == Some(Published) <==> old(candidate).Some? && RenameSucceeds(old(destination))
      ensures candidate == None
      ensures destination == if outcome == Some(Published) then old(candidate) else old(destination)
    {
      if candidate.None? { return None; }
      var error := Rename();
      if error == None { return Some(Published); }
      RemoveTree();
      outcome := Some(Replayed);
    }
  }
}
