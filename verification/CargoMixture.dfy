/** The other half: where objects of two builds can link to something else, a match after an
    unrecorded compile does spoil a binary. */
module CargoMixture {
  import opened Wrappers
  import opened Bytes
  import opened CargoGeneration
  import Sets

  // ---- runs, step by step ----

  lemma OneStepMore(t: Toolchain, states: seq<State>, steps: seq<Step>, step: Step, s: State)
    requires IsRun(t, states, steps) && Takes(t, states[|states| - 1], step, s)
    ensures IsRun(t, states + [s], steps + [step])
  {
    hide Takes;
    var more, further := states + [s], steps + [step];
    forall i | 0 <= i < |further| ensures Takes(t, more[i], further[i], more[i + 1]) {
      if i < |steps| { assert Takes(t, states[i], steps[i], states[i + 1]); }
    }
  }

  /** Sources that look older than anything ever built. */
  function Old(contents: Contents): Candidate {
    Candidate(contents, map p | p in contents :: 0)
  }

  /** A request gets its candidate prepared, whether or not its generation matches. */
  lemma PrepareStep(t: Toolchain, s: State, g: Generation, contents: Contents) returns (step: Step, s': State)
    requires s.phase == Idle && g.sourceKey == t.keyOf(contents) && contents != map[]
    requires StampedBy(s.target, s.clock) && (s.target.binary.Some? ==> s.target.binary.value.mtime <= s.clock)
    ensures step.Prepare? && Takes(t, s, step, s')
    ensures s'.target == s.target && s'.clock == s.clock + 1
    ensures s'.phase.Prepared? && s'.phase.generation == g && s'.phase.candidate.contents == contents
    ensures GenerationMatches(t, s.target, g) ==> s'.phase.candidate == Old(contents)
  {
    var now := s.clock + 1;
    step := Prepare(g, Old(contents), now, now);
    s' := State(s.target,
      Prepared(g, if GenerationMatches(t, s.target, g) then Old(contents) else Touched(Old(contents), now)), now);
    hide GenerationMatches;
  }

  lemma BuildStep(t: Toolchain, s: State, rebuilt: set<Unit>) returns (step: Step, s': State)
    requires s.phase.Prepared? && Rebuildable(t, s.target, s.phase.candidate, rebuilt)
    ensures step.Build? && Takes(t, s, step, s')
    ensures s' == State(Built(t, s.target, s.phase.generation, s.phase.candidate.contents, rebuilt, s.clock),
                        Done(s.phase.generation, s.phase.candidate), s.clock)
  {
    step := Build(rebuilt, s.clock);
    s' := State(Built(t, s.target, s.phase.generation, s.phase.candidate.contents, rebuilt, s.clock),
                Done(s.phase.generation, s.phase.candidate), s.clock);
    hide Built, Rebuildable;
  }

  // ---- a directory that waits to be matched ----

  /** The clean binary of `g` with a receipt that matches, over stamps newer than old sources;
      the objects of the units of `mix`, but for those pending, are those of `mix`. */
  ghost predicate Ready(
    t: Toolchain, g: Generation, contents: Contents, mix: map<Unit, Text>, pending: set<Unit>, target: Target,
    clock: int) {
    && target.binary.Some?
    && target.binary.value.bytes == CleanBinary(t, g, contents) && target.binary.value.mtime <= clock
    && GenerationMatches(t, target, g)
    && StampedBy(target, clock) && (forall u | u in target.stamps :: target.stamps[u] >= 1)
    && UnitsOf(t, contents) <= target.stamps.Keys
    && forall u | u in mix :: u in target.objects && (u !in pending ==> target.objects[u] == mix[u])
  }

  ghost predicate Waits(
    t: Toolchain, g: Generation, contents: Contents, mix: map<Unit, Text>, pending: set<Unit>, states: seq<State>,
    steps: seq<Step>) {
    && IsRun(t, states, steps)
    && var s := states[|states| - 1];
    s.phase == Idle && Ready(t, g, contents, mix, pending, s.target, s.clock)
  }

  lemma SomeContents(t: Toolchain, contents: Contents)
    ensures contents != map[] <==> UnitsOf(t, contents) != {}
  {
    if p :| p in contents { assert t.unitOf(p) in UnitsOf(t, contents); }
  }

  lemma CleanObjects(t: Toolchain, target: Target, g: Generation, contents: Contents, now: int)
    ensures Restricted(Compiled(t, target, g, contents, UnitsOf(t, contents), now).objects, UnitsOf(t, contents))
      == ObjectsOf(t, g, contents)
  {
    hide UnitsOf;
  }

  /** A clean build over nothing, recorded. */
  lemma FirstReady(t: Toolchain, g: Generation, contents: Contents, mix: map<Unit, Text>, pending: set<Unit>, now: int)
    requires now >= 1 && contents != map[] && mix.Keys == UnitsOf(t, contents)
    requires forall u | u in mix && u !in pending :: mix[u] == t.compile(g, u, contents)
    ensures var built := Built(t, Target(map[], map[], None, None), g, contents, UnitsOf(t, contents), now);
            built.binary.Some?
              && Ready(t, g, contents, mix, pending, Recorded(t, built, g, built.binary.value.bytes, now + 1), now + 1)
  {
    SomeContents(t, contents);
    CleanObjects(t, Target(map[], map[], None, None), g, contents, now);
    hide UnitsOf, ObjectsOf, Restricted;
  }

  /** A whole request: prepared, built, recorded and left. */
  lemma FirstRequest(t: Toolchain, g: Generation, contents: Contents, mix: map<Unit, Text>, pending: set<Unit>)
    returns (states: seq<State>, steps: seq<Step>)
    requires g.sourceKey == t.keyOf(contents) && contents != map[] && mix.Keys == UnitsOf(t, contents)
    requires forall u | u in mix && u !in pending :: mix[u] == t.compile(g, u, contents)
    ensures Waits(t, g, contents, mix, pending, states, steps) && states[|states| - 1].clock >= 0
    ensures forall step | step in steps :: !step.Interrupt?
  {
    var empty := State(Target(map[], map[], None, None), Idle, 0);
    var prepare, prepared := PrepareStep(t, empty, g, contents);
    var build, built, record, recorded, abandon, idle := FirstSteps(t, g, contents, mix, pending, prepared);
    assert IsRun(t, [empty], []);
    hide IsRun, Takes, Ready, UnitsOf;
    states, steps := [empty], [];
    OneStepMore(t, states, steps, prepare, prepared);
    states, steps := states + [prepared], steps + [prepare];
    OneStepMore(t, states, steps, build, built);
    states, steps := states + [built], steps + [build];
    OneStepMore(t, states, steps, record, recorded);
    states, steps := states + [recorded], steps + [record];
    OneStepMore(t, states, steps, abandon, idle);
    states, steps := states + [idle], steps + [abandon];
  }

  lemma FirstSteps(
    t: Toolchain, g: Generation, contents: Contents, mix: map<Unit, Text>, pending: set<Unit>, prepared: State)
    returns (build: Step, built: State, record: Step, recorded: State, abandon: Step, idle: State)
    requires contents != map[] && mix.Keys == UnitsOf(t, contents)
    requires forall u | u in mix && u !in pending :: mix[u] == t.compile(g, u, contents)
    requires prepared.target == Target(map[], map[], None, None) && prepared.clock >= 1
    requires prepared.phase.Prepared? && prepared.phase.generation == g && prepared.phase.candidate.contents == contents
    ensures build.Build? && Takes(t, prepared, build, built)
    ensures record.Record? && Takes(t, built, record, recorded)
    ensures abandon.Abandon? && Takes(t, recorded, abandon, idle)
    ensures idle.phase == Idle && idle.clock >= 0 && Ready(t, g, contents, mix, pending, idle.target, idle.clock)
  {
    hide UnitsOf;
    build, built := BuildStep(t, prepared, UnitsOf(t, contents));
    FirstReady(t, g, contents, mix, pending, prepared.clock);
    hide Built, Ready;
    record := Record(built.clock + 1);
    recorded := State(Recorded(t, built.target, g, built.target.binary.value.bytes, built.clock + 1), built.phase,
      built.clock + 1);
    abandon := Abandon(recorded.clock);
    idle := recorded.(phase := Idle);
    hide Recorded;
  }

  /** Old sources over such a directory leave nothing stale; rebuilding one unit links the rest
      of the mixture to it. */
  lemma LastBuild(
    t: Toolchain, g: Generation, contents: Contents, mix: map<Unit, Text>, right: Unit, target: Target,
    clock: int)
    requires mix.Keys == UnitsOf(t, contents) && right in mix && mix[right] == t.compile(g, right, contents)
    requires Ready(t, g, contents, mix, {right}, target, clock)
    ensures Rebuildable(t, target, Old(contents), {right})
    ensures Built(t, target, g, contents, {right}, clock + 1).binary == Some(Output(t.link(mix), clock + 1))
  {
    hide GenerationMatches, StampedBy, CleanBinary;
    assert forall u | u in UnitsOf(t, contents) :: !StaleInput(t, target, Old(contents), u);
    hide UnitsOf, StaleInput;
    assert Restricted(Compiled(t, target, g, contents, {right}, clock + 1).objects, UnitsOf(t, contents)) == mix;
  }

  /** The recorded generation is asked for again, matches, and one unit is rebuilt. */
  lemma LastRequest(
    t: Toolchain, g: Generation, contents: Contents, mix: map<Unit, Text>, right: Unit, states: seq<State>,
    steps: seq<Step>)
    returns (states': seq<State>, steps': seq<Step>)
    requires g.sourceKey == t.keyOf(contents) && mix.Keys == UnitsOf(t, contents)
    requires right in mix && mix[right] == t.compile(g, right, contents) && t.link(mix) != CleanBinary(t, g, contents)
    requires Waits(t, g, contents, mix, {right}, states, steps)
    ensures IsRun(t, states', steps') && states' != [] && !Clean(t, states'[|states'| - 1])
    ensures (forall step | step in steps :: !step.Interrupt?) ==> forall step | step in steps' :: !step.Interrupt?
  {
    SomeContents(t, contents);
    RunsHaveStates(t, states, steps);
    hide IsRun;
    var s := states[|states| - 1];
    var prepare, prepared, build, built := LastSteps(t, g, contents, mix, right, s);
    hide Takes, Clean, Ready;
    OneStepMore(t, states, steps, prepare, prepared);
    states', steps' := states + [prepared], steps + [prepare];
    OneStepMore(t, states', steps', build, built);
    states', steps' := states' + [built], steps' + [build];
  }

  lemma LastSteps(t: Toolchain, g: Generation, contents: Contents, mix: map<Unit, Text>, right: Unit, s: State)
    returns (prepare: Step, prepared: State, build: Step, built: State)
    requires g.sourceKey == t.keyOf(contents) && mix.Keys == UnitsOf(t, contents) && contents != map[]
    requires right in mix && mix[right] == t.compile(g, right, contents) && t.link(mix) != CleanBinary(t, g, contents)
    requires s.phase == Idle && Ready(t, g, contents, mix, {right}, s.target, s.clock)
    ensures prepare.Prepare? && Takes(t, s, prepare, prepared)
    ensures build.Build? && Takes(t, prepared, build, built) && !Clean(t, built)
  {
    LastBuild(t, g, contents, mix, right, s.target, s.clock);
    hide UnitsOf, GenerationMatches, StampedBy, CleanBinary, Rebuildable;
    prepare, prepared := PrepareStep(t, s, g, contents);
    hide Ready, Takes;
    build, built := BuildStep(t, prepared, {right});
    hide Built;
  }

  // ---- builds that die ----

  lemma InterruptedReady(t: Toolchain, g: Generation, contents: Contents, mix: map<Unit, Text>, pending: set<Unit>,
    target: Target, clock: int,
                         g': Generation, contents': Contents, u: Unit, now: int)
    requires Ready(t, g, contents, mix, pending, target, clock) && 1 <= now && clock <= now
    requires u in mix && mix[u] == t.compile(g', u, contents')
    ensures Ready(t, g, contents, mix, pending - {u}, Compiled(t, target, g', contents', {u}, now), now)
  {
    hide UnitsOf, CleanBinary;
  }

  /** A build of other sources dies after compiling one unit. */
  lemma InterruptedRequest(
    t: Toolchain, g: Generation, contents: Contents, mix: map<Unit, Text>, pending: set<Unit>, u: Unit,
    states: seq<State>, steps: seq<Step>)
    returns (states': seq<State>, steps': seq<Step>)
    requires u in mix && IsObject(t, u, mix[u])
    requires Waits(t, g, contents, mix, pending, states, steps) && states[|states| - 1].clock >= 0
    ensures Waits(t, g, contents, mix, pending - {u}, states', steps') && states'[|states'| - 1].clock >= 0
  {
    var s := states[|states| - 1];
    var g', contents' :| Produces(t, g', contents', u, mix[u]);
    SomeContents(t, contents');
    hide UnitsOf, GenerationMatches, StampedBy, CleanBinary;
    var prepare, prepared := PrepareStep(t, s, g', contents');
    var now := prepared.clock;
    InterruptedReady(t, g, contents, mix, pending, s.target, s.clock, g', contents', u, now);
    hide Ready;
    var interrupt := Interrupt({u}, s.target.binary, now);
    var dead := State(Compiled(t, s.target, g', contents', {u}, now), Idle, now);
    assert Takes(t, prepared, interrupt, dead);
    hide Takes, Compiled;
    OneStepMore(t, states, steps, prepare, prepared);
    states', steps' := states + [prepared], steps + [prepare];
    hide IsRun;
    OneStepMore(t, states', steps', interrupt, dead);
    states', steps' := states' + [dead], steps' + [interrupt];
  }

  lemma {:induction false} InterruptedRequests(
    t: Toolchain, g: Generation, contents: Contents, mix: map<Unit, Text>, pending: set<Unit>,
    states: seq<State>, steps: seq<Step>)
    returns (states': seq<State>, steps': seq<Step>)
    requires pending <= mix.Keys && forall u | u in pending :: IsObject(t, u, mix[u])
    requires Waits(t, g, contents, mix, pending, states, steps) && states[|states| - 1].clock >= 0
    ensures Waits(t, g, contents, mix, {}, states', steps')
    decreases |pending|
  {
    hide IsRun, Ready, IsObject;
    states', steps' := states, steps;
    if pending != {} {
      var u := Sets.Pick(pending);
      states', steps' := InterruptedRequest(t, g, contents, mix, pending, u, states, steps);
      states', steps' := InterruptedRequests(t, g, contents, mix, pending - {u}, states', steps');
    }
  }

  /** Whatever objects of different builds make a difference to some binary, some run of
      requests that die while compiling ends with that binary. */
  lemma MixtureSpoilsARun(t: Toolchain, g: Generation, contents: Contents, mix: map<Unit, Text>, right: Unit)
    returns (states: seq<State>, steps: seq<Step>)
    requires Mixture(t, g, contents, mix, right)
    ensures IsRun(t, states, steps) && states != [] && !Clean(t, states[|states| - 1])
  {
    SomeContents(t, contents);
    var others := mix.Keys - {right};
    states, steps := FirstRequest(t, g, contents, mix, others);
    hide UnitsOf, IsRun, Ready, IsObject, CleanBinary;
    states, steps := InterruptedRequests(t, g, contents, mix, others, states, steps);
    FewerPending(t, g, contents, mix, {right}, states, steps);
    states, steps := LastRequest(t, g, contents, mix, right, states, steps);
  }

  lemma FewerPending(
    t: Toolchain, g: Generation, contents: Contents, mix: map<Unit, Text>, pending: set<Unit>,
    states: seq<State>, steps: seq<Step>)
    requires Waits(t, g, contents, mix, {}, states, steps)
    ensures Waits(t, g, contents, mix, pending, states, steps)
  {
    hide IsRun, GenerationMatches, UnitsOf, CleanBinary, StampedBy;
  }

  /** For every toolchain without collisions: all builds of all runs are clean exactly when
      nothing matches after an unrecorded compile, or no mixture of objects makes a difference. */
  lemma AlwaysCleanIff(t: Toolchain, guarded: bool)
    requires CollisionFree(t)
    ensures AlwaysClean(t, guarded) <==> guarded || !HasMixture(t)
  {
    hide CollisionFree, Mixture, IsRun, MatchesUndisturbed, Clean;
    if guarded || !HasMixture(t) {
      forall states, steps, i: nat | IsRun(t, states, steps) && i < |states|
        && (guarded ==> MatchesUndisturbed(t, states, steps))
        ensures Clean(t, states[i])
      {
        EveryBuildIsClean(t, guarded, states, steps, i);
      }
    } else {
      var g, contents, mix, right :| Mixture(t, g, contents, mix, right);
      var states, steps := MixtureSpoilsARun(t, g, contents, mix, right);
      RunsHaveStates(t, states, steps);
      var last: nat := |states| - 1;
      assert !Clean(t, states[last]);
    }
  }

  lemma RunsHaveStates(t: Toolchain, states: seq<State>, steps: seq<Step>)
    requires IsRun(t, states, steps)
    ensures states != []
  {
  }

  lemma UncleanRunsAreDisturbed(t: Toolchain, states: seq<State>, steps: seq<Step>)
    requires CollisionFree(t) && IsRun(t, states, steps) && states != [] && !Clean(t, states[|states| - 1])
    ensures !MatchesUndisturbed(t, states, steps)
  {
    if MatchesUndisturbed(t, states, steps) { EveryBuildIsClean(t, true, states, steps, |states| - 1); }
  }

  // ---- requests that crash between their steps ----

  /** The objects of one build, but for one unit of another. */
  function Overlaid(
    t: Toolchain, g: Generation, contents: Contents, g': Generation, contents': Contents, right: Unit)
    : map<Unit, Text> {
    map u | u in UnitsOf(t, contents) ::
      if u == right || u !in UnitsOf(t, contents') then t.compile(g, u, contents) else t.compile(g', u, contents')
  }

  /** No build has to die: it is enough that another generation links to the very same binary
      and is not recorded. */
  lemma UnrecordedBuildSpoilsARun(
    t: Toolchain, g: Generation, contents: Contents, g': Generation, contents': Contents, right: Unit)
    returns (states: seq<State>, steps: seq<Step>)
    requires g.sourceKey == t.keyOf(contents) && g'.sourceKey == t.keyOf(contents')
    requires right in UnitsOf(t, contents) && contents' != map[]
    requires CleanBinary(t, g', contents') == CleanBinary(t, g, contents)
    requires t.link(Overlaid(t, g, contents, g', contents', right)) != CleanBinary(t, g, contents)
    ensures IsRun(t, states, steps) && states != [] && !Clean(t, states[|states| - 1])
    ensures forall step | step in steps :: !step.Interrupt?
  {
    SomeContents(t, contents);
    var mix := Overlaid(t, g, contents, g', contents', right);
    assert mix[right] == t.compile(g, right, contents);
    hide IsRun, Ready, CleanBinary, Overlaid;
    states, steps := FirstRequest(t, g, contents, ObjectsOf(t, g, contents), {});
    hide UnitsOf, ObjectsOf;
    states, steps := UnrecordedRequest(t, g, contents, g', contents', right, states, steps);
    states, steps := LastRequest(t, g, contents, mix, right, states, steps);
  }

  lemma UnrecordedReady(t: Toolchain, g: Generation, contents: Contents, target: Target, clock: int,
                        g': Generation, contents': Contents, right: Unit, now: int)
    requires Ready(t, g, contents, ObjectsOf(t, g, contents), {}, target, clock) && 1 <= now && clock <= now
    requires contents' != map[] && CleanBinary(t, g', contents') == CleanBinary(t, g, contents)
    ensures Ready(t, g, contents, Overlaid(t, g, contents, g', contents', right), {right},
                  Built(t, target, g', contents', UnitsOf(t, contents'), now), now)
  {
    SomeContents(t, contents');
    CleanObjects(t, target, g', contents', now);
    hide UnitsOf, Restricted;
  }

  /** Another generation is built whole; then the request crashes before it is recorded. */
  lemma UnrecordedRequest(
    t: Toolchain, g: Generation, contents: Contents, g': Generation, contents': Contents, right: Unit,
    states: seq<State>, steps: seq<Step>)
    returns (states': seq<State>, steps': seq<Step>)
    requires g'.sourceKey == t.keyOf(contents') && contents' != map[]
    requires CleanBinary(t, g', contents') == CleanBinary(t, g, contents)
    requires Waits(t, g, contents, ObjectsOf(t, g, contents), {}, states, steps) && states[|states| - 1].clock >= 0
    ensures Waits(t, g, contents, Overlaid(t, g, contents, g', contents', right), {right}, states', steps')
    ensures (forall step | step in steps :: !step.Interrupt?) ==> forall step | step in steps' :: !step.Interrupt?
  {
    var s := states[|states| - 1];
    hide UnitsOf, GenerationMatches, StampedBy, CleanBinary, Overlaid, ObjectsOf;
    var prepare, prepared := PrepareStep(t, s, g', contents');
    UnrecordedReady(t, g, contents, s.target, s.clock, g', contents', right, prepared.clock);
    hide Ready;
    var build, built := BuildStep(t, prepared, UnitsOf(t, contents'));
    hide Built;
    var idle := built.(phase := Idle);
    assert Takes(t, built, Abandon(built.clock), idle);
    hide Takes;
    OneStepMore(t, states, steps, prepare, prepared);
    OneStepMore(t, states + [prepared], steps + [prepare], build, built);
    states', steps' := states + [prepared] + [built], steps + [prepare] + [build];
    hide IsRun;
    OneStepMore(t, states', steps', Abandon(built.clock), idle);
    states', steps' := states' + [idle], steps' + [Abandon(built.clock)];
  }

  // ---- a toolchain without collisions ----

  function Quoted(text: Text): Text {
    if text == [] then [0] else [1, text[0]] + Quoted(text[1..])
  }

  lemma {:induction false} QuotedCancel(a: Text, x: Text, b: Text, y: Text)
    requires Quoted(a) + x == Quoted(b) + y
    ensures a == b && x == y
  {
    var whole := Quoted(a) + x;
    assert whole[0] == (if a == [] then 0 else 1) == (if b == [] then 0 else 1);
    if a == [] {
      assert x == whole[1..] == y;
    } else {
      assert whole[1] == a[0] == b[0];
      assert whole[2..] == Quoted(a[1..]) + x == Quoted(b[1..]) + y;
      QuotedCancel(a[1..], x, b[1..], y);
    }
  }

  /** Sources written out one after another, each with its path. */
  ghost function Listed(contents: Contents): Text {
    if contents == map[] then []
    else
      var p := Sets.Pick(contents.Keys);
      Quoted(p) + (Quoted(contents[p]) + Listed(contents - {p}))
  }

  lemma {:induction false} ListedInjective(a: Contents, b: Contents)
    requires Listed(a) == Listed(b)
    ensures a == b
  {
    if a != map[] && b != map[] {
      var p, q := Sets.Pick(a.Keys), Sets.Pick(b.Keys);
      var restA, restB := Listed(a - {p}), Listed(b - {q});
      hide Listed;
      assert Quoted(p) + (Quoted(a[p]) + restA) == Quoted(q) + (Quoted(b[q]) + restB);
      QuotedCancel(p, Quoted(a[p]) + restA, q, Quoted(b[q]) + restB);
      QuotedCancel(a[p], restA, b[q], restB);
      ListedInjective(a - {p}, b - {q});
      assert a == (a - {p})[p := a[p]] && b == (b - {q})[q := b[q]];
    }
  }

  /** Each file is a unit and compiles to its content; the binary says whether two agree. */
  ghost function Comparing(a: Unit, b: Unit): Toolchain {
    Toolchain(
      (p: Path) => p,
      (g: Generation, u: Unit, contents: Contents) => if u in contents then contents[u] else [],
      (objects: map<Unit, Text>) => if a in objects && b in objects && objects[a] == objects[b] then [1] else [0],
      (bytes: Text) => bytes,
      (contents: Contents) => Listed(contents))
  }

  lemma ComparingCollisionFree(a: Unit, b: Unit)
    ensures CollisionFree(Comparing(a, b))
  {
    var t := Comparing(a, b);
    forall x: Contents, y: Contents | t.keyOf(x) == t.keyOf(y) ensures x == y {
      ListedInjective(x, y);
    }
  }

  function Both(a: Path, b: Path, text: Text): Contents {
    map[a := text, b := text]
  }

  ghost function Asked(t: Toolchain, contents: Contents): Generation {
    Generation([], [], t.keyOf(contents))
  }

  lemma ComparingBuild(a: Unit, b: Unit, text: Text)
    requires a != b
    ensures var t, contents := Comparing(a, b), Both(a, b, text);
            && UnitsOf(t, contents) == {a, b}
            && (forall g: Generation, u | u in {a, b} :: t.compile(g, u, contents) == text)
            && (forall g: Generation :: CleanBinary(t, g, contents) == [1])
  {
    var t, contents := Comparing(a, b), Both(a, b, text);
    assert a in contents && b in contents;
    assert t.unitOf(a) == a && t.unitOf(b) == b;
    assert UnitsOf(t, contents) == {a, b};
  }

  /** A run in which a build of other sources dies after one unit: the recorded generation
      still matches, and its next build leaves a binary that compares an old and a new file. */
  lemma InterruptedBuildCanMix(a: Unit, b: Unit) returns (states: seq<State>, steps: seq<Step>)
    requires a != b
    ensures var t := Comparing(a, b); CollisionFree(t) && IsRun(t, states, steps) && !Clean(t, states[|states| - 1])
    ensures !MatchesUndisturbed(Comparing(a, b), states, steps)
  {
    var t := Comparing(a, b);
    ComparingCollisionFree(a, b);
    ComparingBuild(a, b, [2]);
    ComparingBuild(a, b, [3]);
    var g, mix := Asked(t, Both(a, b, [2])), map[a := [3], b := [2]];
    assert Produces(t, Asked(t, Both(a, b, [3])), Both(a, b, [3]), a, [3]);
    assert Produces(t, g, Both(a, b, [2]), b, [2]);
    assert t.link(mix) == [0];
    hide UnitsOf, CleanBinary, IsRun, Clean, CollisionFree, Comparing;
    states, steps := MixtureSpoilsARun(t, g, Both(a, b, [2]), mix, b);
    UncleanRunsAreDisturbed(t, states, steps);
  }

  /** A run in which every build finishes: other sources link to the very same binary, the
      request crashes before it records them, and going back mixes the two. */
  lemma CrashBetweenStepsCanMix(a: Unit, b: Unit) returns (states: seq<State>, steps: seq<Step>)
    requires a != b
    ensures var t := Comparing(a, b); CollisionFree(t) && IsRun(t, states, steps) && !Clean(t, states[|states| - 1])
    ensures !MatchesUndisturbed(Comparing(a, b), states, steps)
    ensures forall step | step in steps :: !step.Interrupt?
  {
    var t := Comparing(a, b);
    ComparingCollisionFree(a, b);
    ComparingBuild(a, b, [2]);
    ComparingBuild(a, b, [3]);
    var kept, other := Both(a, b, [2]), Both(a, b, [3]);
    var g, g' := Asked(t, kept), Asked(t, other);
    var mix := Overlaid(t, g, kept, g', other, b);
    assert mix[a] == [3] && mix[b] == [2];
    assert t.link(mix) == [0];
    hide UnitsOf, CleanBinary, IsRun, Clean, CollisionFree, Comparing, Overlaid;
    states, steps := UnrecordedBuildSpoilsARun(t, g, kept, g', other, b);
    UncleanRunsAreDisturbed(t, states, steps);
  }
}
