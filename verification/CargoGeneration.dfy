/** Reuse of a mutable Cargo output directory: what the receipt and the mtimes guarantee over
    any run of prepare, build and record, with crashes between the steps and within a build. */
module CargoGeneration {
  import opened Wrappers
  import opened Bytes
  import Sets

  type Text = seq<byte>
  type Path = Text
  type Unit = Text
  type Contents = map<Path, Text>

  /** What a build is asked for. */
  datatype Generation = Generation(target: Text, buildKey: Text, sourceKey: Text)

  /** A private copy of the product sources, with the mtimes its files carry. */
  datatype Candidate = Candidate(contents: Contents, mtimes: map<Path, int>)

  /** `time` is the mtime of the receipt file itself. */
  datatype Receipt = Receipt(generation: Generation, binarySha: Text, binarySize: int, time: int)

  datatype Output = Output(bytes: Text, mtime: int)

  /** What a compile does, as far as anyone can tell from its results. Different objects may
      well link to the same binary. */
  datatype Toolchain = Toolchain(
    unitOf: Path -> Unit,
    compile: (Generation, Unit, Contents) -> Text,
    link: map<Unit, Text> -> Text,
    digest: Text -> Text,
    keyOf: Contents -> Text)

  /** A digest names one content, a source key one set of sources. */
  ghost predicate CollisionFree(t: Toolchain) {
    && (forall a, b :: t.digest(a) == t.digest(b) ==> a == b)
    && (forall a, b :: t.keyOf(a) == t.keyOf(b) ==> a == b)
  }

  function UnitsOf(t: Toolchain, contents: Contents): set<Unit> {
    set p | p in contents :: t.unitOf(p)
  }

  /** The objects of a clean compile. */
  function ObjectsOf(t: Toolchain, g: Generation, contents: Contents): map<Unit, Text> {
    map u | u in UnitsOf(t, contents) :: t.compile(g, u, contents)
  }

  function CleanBinary(t: Toolchain, g: Generation, contents: Contents): Text {
    t.link(ObjectsOf(t, g, contents))
  }

  // ---- the shared output directory ----

  /** `stamps` are the invocation times Cargo keeps per unit, `objects` what each unit was last
      compiled to. */
  datatype Target = Target(
    stamps: map<Unit, int>,
    objects: map<Unit, Text>,
    binary: Option<Output>,
    receipt: Option<Receipt>)

  function Restricted(objects: map<Unit, Text>, units: set<Unit>): map<Unit, Text> {
    map u | u in objects && u in units :: objects[u]
  }

  // ---- prepare ----

  predicate GenerationMatches(t: Toolchain, target: Target, g: Generation) {
    && target.receipt.Some? && target.receipt.value.generation == g
    && target.binary.Some?
    && target.receipt.value.binarySize == |target.binary.value.bytes|
    && target.receipt.value.binarySha == t.digest(target.binary.value.bytes)
  }

  /** Every stamp is older than the receipt: nothing was compiled since it was recorded. Anyone
      who holds the build lock can look this up. */
  predicate Undisturbed(target: Target) {
    target.receipt.Some? && forall u | u in target.stamps :: target.stamps[u] < target.receipt.value.time
  }

  /** Every input of the candidate carries one time. */
  function Touched(c: Candidate, time: int): Candidate {
    c.(mtimes := map p | p in c.contents :: time)
  }

  /** The invalidation time lies after the clock, every stamp and the binary. */
  ghost predicate AboveEveryStamp(target: Target, now: int, floor: int) {
    && now <= floor
    && (forall u | u in target.stamps :: target.stamps[u] < floor)
    && (target.binary.Some? ==> target.binary.value.mtime < floor)
  }

  /** The least such time. */
  ghost predicate IsFloor(target: Target, now: int, floor: int) {
    && AboveEveryStamp(target, now, floor)
    && (|| floor == now
        || (exists u | u in target.stamps :: floor == target.stamps[u] + 1)
        || (target.binary.Some? && floor == target.binary.value.mtime + 1))
  }

  method FreshnessFloor(now: int, stamps: seq<int>, binary: Option<Output>) returns (floor: int)
    ensures now <= floor
    ensures forall m | m in stamps :: m < floor
    ensures binary.Some? ==> binary.value.mtime < floor
    ensures floor == now || (exists m | m in stamps :: floor == m + 1)
      || (binary.Some? && floor == binary.value.mtime + 1)
  {
    var candidates := if binary.Some? then stamps + [binary.value.mtime] else stamps;
    floor := now;
    var i := 0;
    while i < |candidates|
      invariant 0 <= i <= |candidates| && now <= floor
      invariant forall k | 0 <= k < i :: candidates[k] < floor
      invariant floor == now || exists k | 0 <= k < i :: floor == candidates[k] + 1
    {
      if candidates[i] + 1 > floor { floor := candidates[i] + 1; }
      i := i + 1;
    }
    assert binary.Some? ==> candidates[|stamps|] == binary.value.mtime;
    forall m | m in stamps ensures m < floor {
      var k :| 0 <= k < |stamps| && stamps[k] == m;
      assert candidates[k] == m;
    }
    if floor != now {
      var k :| 0 <= k < |candidates| && floor == candidates[k] + 1;
      if k < |stamps| { assert stamps[k] in stamps; }
    }
  }

  // ---- build ----

  /** Some input of the unit is newer than its stamp, or it has never been built. */
  predicate StaleInput(t: Toolchain, target: Target, c: Candidate, u: Unit) {
    u !in target.stamps || exists p | p in c.contents && p in c.mtimes ::
      t.unitOf(p) == u && c.mtimes[p] > target.stamps[u]
  }

  /** Which units Cargo may rebuild: every one with a stale input, and any others it likes. */
  ghost predicate Rebuildable(t: Toolchain, target: Target, c: Candidate, rebuilt: set<Unit>) {
    && rebuilt <= UnitsOf(t, c.contents)
    && forall u | u in UnitsOf(t, c.contents) && StaleInput(t, target, c, u) :: u in rebuilt
  }

  /** Some units compiled and stamped. */
  function Compiled(
    t: Toolchain, target: Target, g: Generation, contents: Contents, units: set<Unit>, now: int): Target {
    target.(
      stamps := target.stamps + map u | u in units :: now,
      objects := target.objects + map u | u in units :: t.compile(g, u, contents))
  }

  /** Units are recompiled and stamped; the binary is linked again if any were, or if there
      was none. */
  function Built(
    t: Toolchain, target: Target, g: Generation, contents: Contents, rebuilt: set<Unit>, now: int): Target {
    var compiled := Compiled(t, target, g, contents, rebuilt, now);
    if rebuilt == {} && target.binary.Some? then compiled
    else compiled.(binary := Some(Output(t.link(Restricted(compiled.objects, UnitsOf(t, contents))), now)))
  }

  function Recorded(t: Toolchain, target: Target, g: Generation, bytes: Text, now: int): Target {
    target.(receipt := Some(Receipt(g, t.digest(bytes), |bytes|, now)))
  }

  // ---- runs ----

  /** Where a request stands. It holds the build lock, so no other request moves meanwhile. */
  datatype Phase =
    | Idle
    | Prepared(generation: Generation, candidate: Candidate)
    | Done(generation: Generation, candidate: Candidate)

  datatype State = State(target: Target, phase: Phase, clock: int)

  datatype Step =
    | Prepare(generation: Generation, candidate: Candidate, time: int, floor: int)
    | Build(rebuilt: set<Unit>, time: int)
    | Interrupt(compiled: set<Unit>, left: Option<Output>, time: int)
    | Record(time: int)
    | Abandon(time: int)

  /** `Interrupt` is a build that dies: some units were compiled and stamped, and the linker
      left anything or nothing. `Abandon` is the end of a request, finished or crashed, at any
      point between steps. The clock never runs backwards. */
  ghost predicate Takes(t: Toolchain, s: State, step: Step, s': State) {
    && s.clock <= step.time == s'.clock
    && match step
       case Prepare(g, c, now, floor) =>
         && s.phase == Idle && c.mtimes.Keys == c.contents.Keys && g.sourceKey == t.keyOf(c.contents)
         && s'.target == s.target
         && (if GenerationMatches(t, s.target, g) then s'.phase == Prepared(g, c)
             else c.contents != map[] && IsFloor(s.target, now, floor) && s'.phase == Prepared(g, Touched(c, floor)))
       case Build(rebuilt, now) =>
         && s.phase.Prepared? && Rebuildable(t, s.target, s.phase.candidate, rebuilt)
         && s'.target == Built(t, s.target, s.phase.generation, s.phase.candidate.contents, rebuilt, now)
         && s'.phase == Done(s.phase.generation, s.phase.candidate)
       case Interrupt(compiled, left, now) =>
         && s.phase.Prepared? && compiled <= UnitsOf(t, s.phase.candidate.contents)
         && s'.target
            == Compiled(t, s.target, s.phase.generation, s.phase.candidate.contents, compiled, now).(binary := left)
         && s'.phase == Idle
       case Record(now) =>
         && s.phase.Done? && s.target.binary.Some?
         && s'.target == Recorded(t, s.target, s.phase.generation, s.target.binary.value.bytes, now)
         && s'.phase == s.phase
       case Abandon(_) => s'.target == s.target && s'.phase == Idle
  }

  /** A directory no request has recorded yet, whatever else it holds. */
  predicate Initial(s: State) {
    s.phase == Idle && s.target.receipt.None?
  }

  ghost predicate IsRun(t: Toolchain, states: seq<State>, steps: seq<Step>) {
    && |states| == |steps| + 1 && Initial(states[0])
    && forall i | 0 <= i < |steps| :: Takes(t, states[i], steps[i], states[i + 1])
  }

  /** Whenever a generation matches, nothing was compiled since its receipt. */
  ghost predicate MatchesUndisturbed(t: Toolchain, states: seq<State>, steps: seq<Step>) {
    forall i | 0 <= i < |steps| && i < |states| && steps[i].Prepare?
      && GenerationMatches(t, states[i].target, steps[i].generation) ::
      Undisturbed(states[i].target)
  }

  /** If a build has just finished, the binary is the clean compile of what it was asked for. */
  predicate Clean(t: Toolchain, s: State) {
    s.phase.Done? ==>
      && s.target.binary.Some?
      && s.target.binary.value.bytes == CleanBinary(t, s.phase.generation, s.phase.candidate.contents)
  }

  /** Every finished build is clean, in every run or only in those whose matches are undisturbed. */
  ghost predicate AlwaysClean(t: Toolchain, guarded: bool) {
    forall states, steps, i: nat | IsRun(t, states, steps) && i < |states|
      && (guarded ==> MatchesUndisturbed(t, states, steps)) ::
      Clean(t, states[i])
  }

  // ---- mixtures ----

  /** What some build of the unit produces. */
  ghost predicate IsObject(t: Toolchain, u: Unit, code: Text) {
    exists g, contents :: Produces(t, g, contents, u, code)
  }

  ghost predicate Produces(t: Toolchain, g: Generation, contents: Contents, u: Unit, code: Text) {
    g.sourceKey == t.keyOf(contents) && u in UnitsOf(t, contents) && code == t.compile(g, u, contents)
  }

  /** Objects of several builds, one at least from the build of `g`, that do not link to its
      clean binary. */
  ghost predicate Mixture(t: Toolchain, g: Generation, contents: Contents, mix: map<Unit, Text>, right: Unit) {
    && g.sourceKey == t.keyOf(contents)
    && mix.Keys == UnitsOf(t, contents)
    && right in mix && mix[right] == t.compile(g, right, contents)
    && (forall u | u in mix :: IsObject(t, u, mix[u]))
    && t.link(mix) != CleanBinary(t, g, contents)
  }

  ghost predicate HasMixture(t: Toolchain) {
    exists g, contents, mix, right :: Mixture(t, g, contents, mix, right)
  }

  // ---- what every step keeps ----

  /** An object as it should be; as anything some build produced, where mixtures are harmless. */
  ghost predicate Fits(t: Toolchain, guarded: bool, g: Generation, contents: Contents, u: Unit, code: Text) {
    if guarded then code == t.compile(g, u, contents) else IsObject(t, u, code)
  }

  ghost predicate AllFit(t: Toolchain, guarded: bool, objects: map<Unit, Text>, g: Generation, contents: Contents) {
    forall u | u in UnitsOf(t, contents) :: u in objects && Fits(t, guarded, g, contents, u, objects[u])
  }

  ghost predicate Vouches(t: Toolchain, guarded: bool, target: Target, contents: Contents) {
    && target.receipt.Some?
    && var r := target.receipt.value;
    && r.generation.sourceKey == t.keyOf(contents)
    && r.binarySha == t.digest(CleanBinary(t, r.generation, contents))
    && ((guarded ==> Undisturbed(target)) ==> AllFit(t, guarded, target.objects, r.generation, contents))
  }

  /** A receipt vouches for the clean binary of its generation and, while nothing is compiled,
      for the objects behind it. */
  ghost predicate Sound(t: Toolchain, guarded: bool, s: State) {
    s.target.receipt.Some? ==>
      s.target.receipt.value.time <= s.clock && exists contents :: Vouches(t, guarded, s.target, contents)
  }

  /** The binary is the clean compile of what was asked for, and the objects fit it. */
  ghost predicate Right(t: Toolchain, guarded: bool, target: Target, g: Generation, contents: Contents) {
    && target.binary.Some? && target.binary.value.bytes == CleanBinary(t, g, contents)
    && AllFit(t, guarded, target.objects, g, contents)
  }

  ghost predicate AllStale(t: Toolchain, target: Target, c: Candidate) {
    forall u | u in UnitsOf(t, c.contents) :: StaleInput(t, target, c, u)
  }

  ghost predicate Good(t: Toolchain, guarded: bool, s: State) {
    && Sound(t, guarded, s)
    && match s.phase
       case Idle => true
       case Prepared(g, c) =>
         && g.sourceKey == t.keyOf(c.contents)
         && (Right(t, guarded, s.target, g, c.contents) || (c.contents != map[] && AllStale(t, s.target, c)))
       case Done(g, c) => g.sourceKey == t.keyOf(c.contents) && Right(t, guarded, s.target, g, c.contents)
  }

  /** A match means the binary already has the bytes asked for; and the objects too, if nothing
      was compiled since the receipt. */
  lemma MatchIsRight(t: Toolchain, guarded: bool, s: State, g: Generation, contents: Contents)
    requires CollisionFree(t) && Sound(t, guarded, s) && GenerationMatches(t, s.target, g)
      && g.sourceKey == t.keyOf(contents)
    requires guarded ==> Undisturbed(s.target)
    ensures Right(t, guarded, s.target, g, contents)
  {
    hide AllFit, CleanBinary, Undisturbed;
    var vouched :| Vouches(t, guarded, s.target, vouched);
    assert vouched == contents;
  }

  /** What was recorded is matched by the very same request, as long as the binary has the size
      and the digest it was recorded with, and by no other. */
  lemma RecordedMatches(
    t: Toolchain, target: Target, g: Generation, bytes: Text, now: int, later: Target, g': Generation)
    requires later.receipt == Recorded(t, target, g, bytes, now).receipt
    ensures GenerationMatches(t, later, g') <==>
      && g'.target == g.target && g'.buildKey == g.buildKey && g'.sourceKey == g.sourceKey
      && later.binary.Some? && |later.binary.value.bytes| == |bytes|
      && t.digest(later.binary.value.bytes) == t.digest(bytes)
    ensures later.receipt.Some? && later.receipt.value.time == now
    ensures Recorded(t, target, g, bytes, now).(receipt := None) == target.(receipt := None)
  {
  }

  /** A build leaves every unit it does not compile alone, compiles the others from the contents
      it is given, and links what it has of the units asked for, unless there was nothing to do. */
  lemma BuildLeaves(t: Toolchain, target: Target, g: Generation, contents: Contents, rebuilt: set<Unit>, now: int)
    ensures var built := Built(t, target, g, contents, rebuilt, now);
            && built.receipt == target.receipt
            && (forall u | u in rebuilt ::
                 && u in built.stamps && built.stamps[u] == now
                 && u in built.objects && built.objects[u] == t.compile(g, u, contents))
            && (forall u | u !in rebuilt ::
                 && (u in built.stamps <==> u in target.stamps)
                 && (u in built.stamps ==> built.stamps[u] == target.stamps[u])
                 && (u in built.objects <==> u in target.objects)
                 && (u in built.objects ==> built.objects[u] == target.objects[u]))
            && (if rebuilt == {} && target.binary.Some? then built.binary == target.binary
                else built.binary == Some(Output(t.link(
                       map u | u in built.objects && u in UnitsOf(t, contents) :: built.objects[u]), now)))
  {
  }

  /** A mismatch makes every unit of the candidate stale. */
  lemma MismatchInvalidatesEverything(t: Toolchain, target: Target, c: Candidate, now: int, floor: int)
    requires AboveEveryStamp(target, now, floor)
    ensures AllStale(t, target, Touched(c, floor))
  {
    var touched := Touched(c, floor);
    forall u | u in UnitsOf(t, touched.contents) ensures StaleInput(t, target, touched, u) {
      var p :| p in c.contents && t.unitOf(p) == u;
      assert touched.mtimes[p] == floor;
    }
  }

  /** Rebuilding everything, or anything at all over objects that fit, leaves the clean binary. */
  lemma BuildIsRight(
    t: Toolchain, guarded: bool, target: Target, g: Generation, c: Candidate, rebuilt: set<Unit>, now: int)
    requires guarded || !HasMixture(t)
    requires g.sourceKey == t.keyOf(c.contents) && Rebuildable(t, target, c, rebuilt)
    requires Right(t, guarded, target, g, c.contents) || (c.contents != map[] && AllStale(t, target, c))
    ensures Right(t, guarded, Built(t, target, g, c.contents, rebuilt, now), g, c.contents)
  {
    hide StaleInput, HasMixture, CleanBinary, AllFit, Restricted;
    var compiled := Compiled(t, target, g, c.contents, rebuilt, now);
    if p :| p in c.contents { assert t.unitOf(p) in UnitsOf(t, c.contents); }
    hide UnitsOf;
    assert AllStale(t, target, c) ==> rebuilt == UnitsOf(t, c.contents);
    CompiledFit(t, guarded, target, g, c.contents, rebuilt, now);
    hide Compiled;
    if rebuilt != {} { FittingObjectsLink(t, guarded, compiled, g, c.contents, rebuilt); }
  }

  /** Compiling part of the units of a candidate keeps the fit, compiling all establishes it. */
  lemma CompiledFit(
    t: Toolchain, guarded: bool, target: Target, g: Generation, contents: Contents, units: set<Unit>, now: int)
    requires g.sourceKey == t.keyOf(contents) && units <= UnitsOf(t, contents)
    requires AllFit(t, guarded, target.objects, g, contents) || units == UnitsOf(t, contents)
    ensures var compiled := Compiled(t, target, g, contents, units, now);
            && AllFit(t, guarded, compiled.objects, g, contents)
            && (forall u | u in units :: u in compiled.objects && compiled.objects[u] == t.compile(g, u, contents))
  {
    var compiled := Compiled(t, target, g, contents, units, now);
    forall u | u in units ensures Produces(t, g, contents, u, t.compile(g, u, contents)) { }
    hide UnitsOf;
    forall u | u in UnitsOf(t, contents)
      ensures u in compiled.objects && Fits(t, guarded, g, contents, u, compiled.objects[u]) {
      if u in units { assert Produces(t, g, contents, u, compiled.objects[u]); }
    }
  }

  /** Objects that fit link to the clean binary once one of them was compiled for it. */
  lemma FittingObjectsLink(
    t: Toolchain, guarded: bool, compiled: Target, g: Generation, contents: Contents, rebuilt: set<Unit>)
    requires guarded || !HasMixture(t)
    requires g.sourceKey == t.keyOf(contents)
    requires AllFit(t, guarded, compiled.objects, g, contents)
    requires rebuilt != {} && rebuilt <= UnitsOf(t, contents)
    requires forall u | u in rebuilt :: u in compiled.objects && compiled.objects[u] == t.compile(g, u, contents)
    ensures t.link(Restricted(compiled.objects, UnitsOf(t, contents))) == CleanBinary(t, g, contents)
  {
    var units := UnitsOf(t, contents);
    var mix := Restricted(compiled.objects, units);
    assert mix.Keys == units;
    if guarded {
      assert mix == ObjectsOf(t, g, contents);
    } else {
      var right := Sets.Pick(rebuilt);
      hide UnitsOf;
      assert !Mixture(t, g, contents, mix, right);
    }
  }

  /** Compiling anything at or after the receipt disturbs it, and leaves only objects of builds. */
  lemma CompilingKeepsSound(
    t: Toolchain, guarded: bool, s: State, g: Generation, contents: Contents, units: set<Unit>, s': State)
    requires Sound(t, guarded, s) && s.clock <= s'.clock
    requires g.sourceKey == t.keyOf(contents) && units <= UnitsOf(t, contents)
    requires s'.target == Compiled(t, s.target, g, contents, units, s'.clock).(binary := s'.target.binary)
    ensures Sound(t, guarded, s')
  {
    if s.target.receipt.Some? {
      var vouched :| Vouches(t, guarded, s.target, vouched);
      var r := s.target.receipt.value;
      if guarded ==> Undisturbed(s'.target) {
        CompilingDisturbs(t, s.target, g, contents, units, s'.clock);
        forall u | u in UnitsOf(t, vouched)
          ensures u in s'.target.objects && Fits(t, guarded, r.generation, vouched, u, s'.target.objects[u]) {
          if u in units { assert Produces(t, g, contents, u, s'.target.objects[u]); }
        }
      }
      assert Vouches(t, guarded, s'.target, vouched);
    }
  }

  lemma CompilingDisturbs(t: Toolchain, target: Target, g: Generation, contents: Contents, units: set<Unit>, now: int)
    requires target.receipt.Some? && target.receipt.value.time <= now
    ensures Undisturbed(Compiled(t, target, g, contents, units, now)) <==> units == {} && Undisturbed(target)
  {
    var compiled := Compiled(t, target, g, contents, units, now);
    if units == {} {
      assert compiled.stamps == target.stamps;
    } else {
      var u := Sets.Pick(units);
      assert compiled.stamps[u] == now;
    }
  }

  lemma RecordKeepsSound(t: Toolchain, guarded: bool, s: State, s': State)
    requires Good(t, guarded, s) && s.phase.Done? && Takes(t, s, Record(s'.clock), s')
    ensures Good(t, guarded, s')
  {
    hide UnitsOf, Fits, CleanBinary;
    assert Vouches(t, guarded, s'.target, s.phase.candidate.contents);
  }

  lemma StepKeepsGood(t: Toolchain, guarded: bool, s: State, step: Step, s': State)
    requires CollisionFree(t) && (guarded || !HasMixture(t))
    requires Good(t, guarded, s) && Takes(t, s, step, s')
    requires guarded && step.Prepare? && GenerationMatches(t, s.target, step.generation) ==> Undisturbed(s.target)
    ensures Good(t, guarded, s')
  {
    match step
    case Prepare(g, c, now, floor) =>
      hide StaleInput, UnitsOf, Vouches, AllFit, CleanBinary;
      if GenerationMatches(t, s.target, g) {
        MatchIsRight(t, guarded, s, g, c.contents);
      } else {
        MismatchInvalidatesEverything(t, s.target, c, now, floor);
      }
    case Build(rebuilt, now) =>
      hide StaleInput, UnitsOf, Vouches, AllFit, CleanBinary, Compiled, HasMixture;
      var g, c := s.phase.generation, s.phase.candidate;
      BuildIsRight(t, guarded, s.target, g, c, rebuilt, now);
      BuiltIsCompiled(t, s.target, g, c.contents, rebuilt, now);
      CompilingKeepsSound(t, guarded, s, g, c.contents, rebuilt, s');
    case Interrupt(compiled, left, now) =>
      hide StaleInput, UnitsOf, Vouches, AllFit, CleanBinary, Compiled, HasMixture;
      CompilingKeepsSound(t, guarded, s, s.phase.generation, s.phase.candidate.contents, compiled, s');
    case Record(now) =>
      RecordKeepsSound(t, guarded, s, s');
    case Abandon(_) =>
      hide Vouches;
  }

  lemma BuiltIsCompiled(t: Toolchain, target: Target, g: Generation, contents: Contents, rebuilt: set<Unit>, now: int)
    ensures var built := Built(t, target, g, contents, rebuilt, now);
            built == Compiled(t, target, g, contents, rebuilt, now).(binary := built.binary)
  {
    hide Restricted, UnitsOf;
  }

  /** Over every run, wherever requests crash, between their steps or within a build, each
      finished build has left exactly the compile of its own candidate, if no generation is
      ever taken to match after something was compiled since its receipt; and in any case for
      a toolchain that has no mixtures. */
  lemma {:induction false} EveryBuildIsClean(t: Toolchain, guarded: bool, states: seq<State>, steps: seq<Step>, i: nat)
    requires CollisionFree(t) && (guarded || !HasMixture(t))
    requires IsRun(t, states, steps) && i < |states|
    requires guarded ==> MatchesUndisturbed(t, states, steps)
    ensures Good(t, guarded, states[i]) && Clean(t, states[i])
  {
    hide HasMixture, CollisionFree, AllFit, CleanBinary, Vouches;
    if i > 0 {
      EveryBuildIsClean(t, guarded, states, steps, i - 1);
      hide Takes, Good, Clean;
      StepKeepsGood(t, guarded, states[i - 1], steps[i - 1], states[i]);
      GoodIsClean(t, guarded, states[i]);
    }
  }

  lemma GoodIsClean(t: Toolchain, guarded: bool, s: State)
    requires Good(t, guarded, s)
    ensures Clean(t, s)
  {
    hide CleanBinary, Sound, AllFit;
  }

  // ---- requests that record what they build ----

  /** No build dies, and one that compiles anything is recorded, strictly later, before the
      next request. */
  predicate RecordsEveryBuild(states: seq<State>, steps: seq<Step>) {
    && |states| == |steps| + 1
    && (forall i | 0 <= i < |steps| && steps[i].Interrupt? :: steps[i].compiled == {})
    && (forall i | 0 <= i < |steps| && steps[i].Record? :: states[i].clock < steps[i].time)
    && (forall i | 0 <= i < |steps| - 1 && Compiles(steps[i]) :: steps[i + 1].Record?)
  }

  predicate Compiles(step: Step) {
    step.Build? && step.rebuilt != {}
  }

  ghost predicate StampedBy(target: Target, clock: int) {
    forall u | u in target.stamps :: target.stamps[u] <= clock
  }

  /** Such requests may crash anywhere else: a match then always is undisturbed. */
  lemma {:induction false} RecordedRunsUndisturbed(t: Toolchain, states: seq<State>, steps: seq<Step>, i: nat)
    requires IsRun(t, states, steps) && RecordsEveryBuild(states, steps) && i < |states|
    requires StampedBy(states[0].target, states[0].clock)
    ensures StampedBy(states[i].target, states[i].clock)
    ensures states[i].target.receipt.Some? && (i == 0 || !Compiles(steps[i - 1])) ==> Undisturbed(states[i].target)
  {
    if i > 0 {
      RecordedRunsUndisturbed(t, states, steps, i - 1);
      hide StampedBy, Undisturbed, Takes;
      assert Takes(t, states[i - 1], steps[i - 1], states[i]);
      if i > 1 && Compiles(steps[i - 2]) { assert steps[i - 2 + 1].Record?; }
      StepRecorded(t, states[i - 1], steps[i - 1], states[i]);
    }
  }

  lemma StepRecorded(t: Toolchain, s: State, step: Step, s': State)
    requires Takes(t, s, step, s') && StampedBy(s.target, s.clock)
    requires step.Interrupt? ==> step.compiled == {}
    requires step.Record? ==> s.clock < step.time
    ensures StampedBy(s'.target, s'.clock)
    ensures step.Record? ==> Undisturbed(s'.target)
    ensures !Compiles(step) && Undisturbed(s.target) ==> Undisturbed(s'.target)
    ensures !step.Record? ==> s'.target.receipt == s.target.receipt
  {
    hide Restricted, UnitsOf, Rebuildable, GenerationMatches, IsFloor;
  }

  /** So their builds are clean without any further check. */
  lemma RecordedRunsAreClean(t: Toolchain, states: seq<State>, steps: seq<Step>, i: nat)
    requires CollisionFree(t) && IsRun(t, states, steps) && i < |states|
    requires RecordsEveryBuild(states, steps) && StampedBy(states[0].target, states[0].clock)
    ensures Clean(t, states[i])
  {
    hide CollisionFree, Clean, HasMixture, RecordsEveryBuild, StampedBy, Undisturbed;
    forall k | 0 <= k < |steps| && steps[k].Prepare? && GenerationMatches(t, states[k].target, steps[k].generation)
      ensures Undisturbed(states[k].target)
    {
      RecordedRunsUndisturbed(t, states, steps, k);
      assert Takes(t, states[k], steps[k], states[k + 1]);
      if k > 0 { assert Takes(t, states[k - 1], steps[k - 1], states[k]); }
    }
    EveryBuildIsClean(t, true, states, steps, i);
  }

  // ---- prepare as it runs ----

  /** The private copy a request prepares; only its mtimes are written. */
  class Workspace {
    const contents: Contents
    var mtimes: map<Path, int>

    constructor (c: Candidate)
      ensures Current() == c
    {
      contents := c.contents;
      mtimes := c.mtimes;
    }

    function Current(): Candidate
      reads this
    {
      Candidate(contents, mtimes)
    }

    /** Leaves a matching generation alone; otherwise gives every input one time after every
        stamp and the binary. None when the candidate has no inputs. */
    method Prepare(t: Toolchain, target: Target, g: Generation, now: int) returns (floor: Option<int>)
      requires mtimes.Keys == contents.Keys
      modifies this
      ensures GenerationMatches(t, target, g) ==> floor == Some(now) && Current() == old(Current())
      ensures !GenerationMatches(t, target, g) && contents == map[] ==> floor == None && Current() == old(Current())
      ensures !GenerationMatches(t, target, g) && contents != map[] ==>
        && floor.Some? && IsFloor(target, now, floor.value)
        && now <= floor.value && (forall u | u in target.stamps :: target.stamps[u] < floor.value)
        && (target.binary.Some? ==> target.binary.value.mtime < floor.value)
        && mtimes.Keys == contents.Keys && forall p | p in contents :: mtimes[p] == floor.value
    {
      if GenerationMatches(t, target, g) { return Some(now); }
      var stamps := ListTimes(target.stamps);
      var time := FreshnessFloor(now, stamps, target.binary);
      if contents == map[] { return None; }
      TouchInputs(time);
      floor := Some(time);
    }

    method TouchInputs(time: int)
      requires mtimes.Keys == contents.Keys
      modifies this
      ensures Current() == Touched(old(Current()), time)
    {
      var pending := contents.Keys;
      while pending != {}
        invariant pending <= contents.Keys && mtimes.Keys == contents.Keys
        invariant forall p | p in contents.Keys - pending :: mtimes[p] == time
        decreases |pending|
      {
        var p :| p in pending;
        mtimes := mtimes[p := time];
        pending := pending - {p};
      }
    }
  }

  method ListTimes(stamps: map<Unit, int>) returns (times: seq<int>)
    ensures forall u | u in stamps :: stamps[u] in times
    ensures forall m | m in times :: exists u | u in stamps :: stamps[u] == m
  {
    times := [];
    var pending := stamps.Keys;
    while pending != {}
      invariant pending <= stamps.Keys
      invariant forall u | u in stamps.Keys - pending :: stamps[u] in times
      invariant forall m | m in times :: exists u | u in stamps :: stamps[u] == m
      decreases |pending|
    {
      var u :| u in pending;
      times := times + [stamps[u]];
      pending := pending - {u};
    }
  }
}
