/** Epoch-based reclamation as an interleaving of atomic steps.

    Readers register a thread-local word, publish an epoch in it when they enter,
    and clear it when they leave.  The collector advances the global epoch (modulo
    three) after scanning the registered words, stages the limbo stack under the
    new epoch, and passes the list of the epoch about to be reused to the deleter.
    Any number of readers interleave with the collector at the granularity of
    single loads and stores; an epoch load may be arbitrarily older than the store
    that publishes it. */
module EbrProtocol {

  type Tid = nat
  type Obj = nat

  const ACTIVE_FLAG: nat := 0x80000000
  const NUM_EPOCHS: nat := 3

  /** Where a reader stands: outside, between the load and the store of `Enter`, or inside. */
  datatype ReaderPc = Outside | Loaded(epoch: nat) | Inside

  /** A registered reader: its published word, and the objects it picked up since it entered. */
  datatype Reader = Reader(local: nat, pc: ReaderPc, held: set<Obj>)

  /** Where the collector stands in `CycleNoLock`; `i` counts the rounds of its loop. */
  datatype CollectorPc =
    | Idle
    | Round(i: nat)
    | EpochLoaded(i: nat, epoch: nat)
    | Scanning(i: nat, epoch: nat, todo: seq<Tid>)
    | Advanced(i: nat)
    | Reclaiming(slot: nat, rest: seq<Obj>)

  datatype State = State(
    global: nat,
    readers: map<Tid, Reader>,
    tlsList: seq<Tid>,
    linked: set<Obj>,
    unlinked: set<Obj>,
    given: set<Obj>,
    limbo: seq<Obj>,
    epochList: seq<seq<Obj>>,
    deleted: seq<Obj>,
    pc: CollectorPc)

  function GcEpoch(global: nat): (e: nat)
    ensures e < NUM_EPOCHS
  {
    (global + 1) % NUM_EPOCHS
  }

  const START := State(0, map[], [], {}, {}, {}, [], [[], [], []], [], Idle)

  datatype Step =
    | Register(t: Tid)
    | EnterLoad(t: Tid)
    | EnterStore(t: Tid)
    | Acquire(t: Tid, o: Obj)
    | Exit(t: Tid)
    | Link(o: Obj)
    | Unlink(o: Obj)
    | Limbo(o: Obj)
    | BeginCycle
    | LoadEpoch
    | LoadList
    | VisitReader
    | AdvanceEpoch
    | StageAndPick
    | RoundsOver
    | DeleteOne
    | ClearSlot

  /** The scan finds this word blocking: active in another epoch than the one loaded. */
  predicate Blocks(local: nat, epoch: nat) {
    local >= ACTIVE_FLAG && local != epoch + ACTIVE_FLAG
  }

  ghost predicate ReaderStep(s: State, s': State, step: Step) {
    match step
    case Register(t) =>
      && t !in s.readers
      && s' == s.(readers := s.readers[t := Reader(0, Outside, {})], tlsList := [t] + s.tlsList)
    case EnterLoad(t) =>
      && t in s.readers && s.readers[t].pc == Outside
      && s' == s.(readers := s.readers[t := s.readers[t].(pc := Loaded(s.global))])
    case EnterStore(t) =>
      && t in s.readers && s.readers[t].pc.Loaded?
      && s' == s.(readers := s.readers[t := Reader(s.readers[t].pc.epoch + ACTIVE_FLAG, Inside, {})])
    case Acquire(t, o) =>
      && t in s.readers && s.readers[t].pc == Inside && o in s.linked
      && s' == s.(readers := s.readers[t := s.readers[t].(held := s.readers[t].held + {o})])
    case Exit(t) =>
      && t in s.readers && s.readers[t].pc == Inside
      && s' == s.(readers := s.readers[t := Reader(0, Outside, {})])
    case _ => false
  }

  ghost predicate OwnerStep(s: State, s': State, step: Step) {
    match step
    case Link(o) =>
      && o !in s.linked + s.unlinked + s.given
      && s' == s.(linked := s.linked + {o})
    case Unlink(o) =>
      && o in s.linked
      && s' == s.(linked := s.linked - {o}, unlinked := s.unlinked + {o})
    case Limbo(o) =>
      && o in s.unlinked
      && s' == s.(unlinked := s.unlinked - {o}, given := s.given + {o}, limbo := [o] + s.limbo)
    case _ => false
  }

  ghost predicate CollectorStep(s: State, s': State, step: Step) {
    match step
    case BeginCycle =>
      s.pc == Idle && s' == s.(pc := Round(0))
    case LoadEpoch =>
      s.pc.Round? && s.pc.i < NUM_EPOCHS && s' == s.(pc := EpochLoaded(s.pc.i, s.global))
    case LoadList =>
      s.pc.EpochLoaded? && s' == s.(pc := Scanning(s.pc.i, s.pc.epoch, s.tlsList))
    case VisitReader =>
      && s.pc.Scanning? && s.pc.todo != [] && s.pc.todo[0] in s.readers
      && s' == s.(pc := if Blocks(s.readers[s.pc.todo[0]].local, s.pc.epoch) then Idle
                        else s.pc.(todo := s.pc.todo[1..]))
    case AdvanceEpoch =>
      && s.pc.Scanning? && s.pc.todo == []
      && s' == s.(global := (s.pc.epoch + 1) % NUM_EPOCHS, pc := Advanced(s.pc.i))
    case StageAndPick =>
      && s.pc.Advanced? && s.global < |s.epochList| && GcEpoch(s.global) < |s.epochList|
      && var staged := s.epochList[s.global := s.limbo];
      && var gcList := staged[GcEpoch(s.global)];
      && s' == s.(epochList := staged, limbo := [],
                  pc := if gcList != [] then Reclaiming(GcEpoch(s.global), gcList) else Round(s.pc.i + 1))
    case RoundsOver =>
      && s.pc.Round? && s.pc.i == NUM_EPOCHS && GcEpoch(s.global) < |s.epochList|
      && s' == s.(epochList := s.epochList[GcEpoch(s.global) := []], pc := Idle)
    case DeleteOne =>
      && s.pc.Reclaiming? && s.pc.rest != []
      && s' == s.(deleted := s.deleted + [s.pc.rest[0]], pc := s.pc.(rest := s.pc.rest[1..]))
    case ClearSlot =>
      && s.pc.Reclaiming? && s.pc.rest == [] && s.pc.slot < |s.epochList|
      && s' == s.(epochList := s.epochList[s.pc.slot := []], pc := Idle)
    case _ => false
  }

  ghost predicate Next(s: State, s': State, step: Step) {
    ReaderStep(s, s', step) || OwnerStep(s, s', step) || CollectorStep(s, s', step)
  }

  /** A run: some initial state followed by any interleaving of steps. */
  ghost predicate IsRun(states: seq<State>, steps: seq<Step>) {
    && |states| == |steps| + 1
    && states[0] == START
    && forall i :: 0 <= i < |steps| ==> Next(states[i], states[i + 1], steps[i])
  }

  // ----- what every step keeps

  /** What is still owed to the deleter under epoch `k`: while a list is being
      reclaimed, the slot itself still holds the stale head. */
  ghost function Pending(s: State, k: nat): seq<Obj>
    requires k < |s.epochList|
  {
    if s.pc.Reclaiming? && s.pc.slot == k then s.pc.rest else s.epochList[k]
  }

  ghost predicate Shape(s: State) {
    && s.global < NUM_EPOCHS
    && |s.epochList| == NUM_EPOCHS
    && (s.pc.Round? ==> s.pc.i <= NUM_EPOCHS)
    && (s.pc.EpochLoaded? || s.pc.Scanning? ==> s.pc.epoch == s.global && s.pc.i < NUM_EPOCHS)
    && (s.pc.Scanning? ==> forall t :: t in s.pc.todo ==> t in s.readers)
    && (s.pc.Advanced? ==> s.pc.i < NUM_EPOCHS)
    && (s.pc.Reclaiming? ==> s.pc.slot == GcEpoch(s.global))
  }

  ghost predicate ReadersWellFormed(s: State) {
    && (forall t :: t in s.readers <==> t in s.tlsList)
    && (forall t :: t in s.readers && s.readers[t].pc.Loaded? ==> s.readers[t].pc.epoch < NUM_EPOCHS)
    && (forall t :: t in s.readers ==> (s.readers[t].pc == Inside <==> s.readers[t].local >= ACTIVE_FLAG))
    && (forall t :: t in s.readers && s.readers[t].pc != Inside ==> s.readers[t].held == {})
  }

  /** The slot that is reused next is empty unless its list is being reclaimed or
      was just picked, and a freshly advanced epoch finds its staging slot empty. */
  ghost predicate SlotsFree(s: State)
    requires Shape(s)
  {
    && (s.pc.Advanced? ==> s.epochList[s.global] == [])
    && (!s.pc.Advanced? && !s.pc.Reclaiming? ==> s.epochList[GcEpoch(s.global)] == [])
  }

  /** Every object handed to `Limbo` is in exactly one place, exactly once. */
  ghost predicate Conserved(s: State)
    requires |s.epochList| == NUM_EPOCHS
  {
    multiset(s.limbo) + multiset(Pending(s, 0)) + multiset(Pending(s, 1)) + multiset(Pending(s, 2))
    + multiset(s.deleted) == multiset(s.given)
  }

  ghost predicate OwnersDisjoint(s: State) {
    && s.linked !! s.unlinked
    && s.linked !! s.given
    && s.unlinked !! s.given
  }

  /** How far a list can age while somebody still holds one of its objects. */
  ghost predicate HolderPinsEpoch(s: State, t: Tid, o: Obj)
    requires Shape(s) && t in s.readers
  {
    && o !in s.deleted
    && o !in Pending(s, GcEpoch(s.global))
    && (o in Pending(s, s.global) && s.pc.Scanning? && t !in s.pc.todo
        ==> s.readers[t].local == s.global + ACTIVE_FLAG)
    && (o in Pending(s, (s.global + 2) % NUM_EPOCHS)
        ==> && s.readers[t].local == (s.global + 2) % NUM_EPOCHS + ACTIVE_FLAG
            && (s.pc.Scanning? ==> t in s.pc.todo))
  }

  ghost predicate HoldersPin(s: State)
    requires Shape(s)
  {
    forall t, o :: t in s.readers && o in s.readers[t].held ==> HolderPinsEpoch(s, t, o)
  }

  ghost predicate Inv(s: State) {
    && Shape(s)
    && ReadersWellFormed(s)
    && SlotsFree(s)
    && OwnersDisjoint(s)
    && Conserved(s)
    && HoldersPin(s)
  }

  lemma ConservedMembers(s: State, o: Obj)
    requires Shape(s) && Conserved(s)
    ensures o in s.limbo || o in s.deleted || o in Pending(s, 0) || o in Pending(s, 1) || o in Pending(s, 2)
      <==> o in s.given
    ensures o in s.deleted ==> o !in s.limbo && o !in Pending(s, 0) && o !in Pending(s, 1) && o !in Pending(s, 2)
  {
    var m := multiset(s.limbo) + multiset(Pending(s, 0)) + multiset(Pending(s, 1)) + multiset(Pending(s, 2))
             + multiset(s.deleted);
    assert m[o] == multiset(s.given)[o] <= 1;
    assert o in s.limbo <==> o in multiset(s.limbo);
    assert o in s.deleted <==> o in multiset(s.deleted);
    assert forall k: nat :: k < 3 ==> (o in Pending(s, k) <==> o in multiset(Pending(s, k)));
  }

  /** Steps of readers touch neither the lists nor the collector. */
  lemma ReaderStepKeepsLists(s: State, s': State, step: Step)
    requires Inv(s) && ReaderStep(s, s', step)
    ensures Shape(s') && SlotsFree(s') && OwnersDisjoint(s') && Conserved(s')
    ensures forall k: nat :: k < 3 ==> Pending(s', k) == Pending(s, k)
  {
  }

  lemma ReaderStepKeepsReaders(s: State, s': State, step: Step)
    requires Inv(s) && ReaderStep(s, s', step)
    ensures ReadersWellFormed(s')
  {
  }

  lemma AcquiredPins(s: State, s': State, t: Tid, o: Obj)
    requires Inv(s) && ReaderStep(s, s', Acquire(t, o))
    requires Shape(s') && forall k: nat :: k < 3 ==> Pending(s', k) == Pending(s, k)
    ensures HolderPinsEpoch(s', t, o)
  {
    ConservedMembers(s, o);
  }

  lemma ReaderStepKeepsHolder(s: State, s': State, step: Step, t: Tid, o: Obj)
    requires Inv(s) && ReaderStep(s, s', step)
    requires Shape(s') && forall k: nat :: k < 3 ==> Pending(s', k) == Pending(s, k)
    requires t in s'.readers && o in s'.readers[t].held
    ensures HolderPinsEpoch(s', t, o)
  {
    hide Conserved, SlotsFree;
    if step == Acquire(t, o) {
      AcquiredPins(s, s', t, o);
    } else {
      assert HolderPinsEpoch(s, t, o);
    }
  }

  lemma ReaderStepKeepsInv(s: State, s': State, step: Step)
    requires Inv(s) && ReaderStep(s, s', step)
    ensures Inv(s')
  {
    ReaderStepKeepsLists(s, s', step);
    ReaderStepKeepsReaders(s, s', step);
    forall t, o | t in s'.readers && o in s'.readers[t].held {
      ReaderStepKeepsHolder(s, s', step, t, o);
    }
  }

  lemma OneGivenMore(limbo: seq<Obj>, rest: multiset<Obj>, given: set<Obj>, o: Obj)
    requires multiset(limbo) + rest == multiset(given) && o !in given
    ensures multiset([o] + limbo) + rest == multiset(given + {o})
  {
    assert multiset([o] + limbo) == multiset{o} + multiset(limbo);
    assert multiset(given + {o}) == multiset(given) + multiset{o};
  }

  lemma LimboConserves(s: State, s': State, o: Obj)
    requires Shape(s) && OwnersDisjoint(s) && Conserved(s) && OwnerStep(s, s', Limbo(o))
    ensures Conserved(s')
  {
    var rest := multiset(Pending(s, 0)) + multiset(Pending(s, 1)) + multiset(Pending(s, 2)) + multiset(s.deleted);
    assert multiset(s.limbo) + rest == multiset(s.given);
    OneGivenMore(s.limbo, rest, s.given, o);
    assert Pending(s', 0) == Pending(s, 0) && Pending(s', 1) == Pending(s, 1) && Pending(s', 2) == Pending(s, 2);
  }

  lemma OwnerStepKeepsRest(s: State, s': State, step: Step)
    requires Inv(s) && OwnerStep(s, s', step)
    ensures Shape(s') && ReadersWellFormed(s') && SlotsFree(s') && OwnersDisjoint(s')
  {
    hide Conserved, HoldersPin;
  }

  lemma OwnerStepConserves(s: State, s': State, step: Step)
    requires Inv(s) && OwnerStep(s, s', step) && Shape(s')
    ensures Conserved(s')
  {
    hide HoldersPin, SlotsFree, ReadersWellFormed;
    if step.Limbo? {
      LimboConserves(s, s', step.o);
    }
  }

  lemma OwnerStepKeepsHolder(s: State, s': State, step: Step, t: Tid, o: Obj)
    requires Inv(s) && OwnerStep(s, s', step) && Shape(s') && t in s'.readers && o in s'.readers[t].held
    ensures HolderPinsEpoch(s', t, o)
  {
    hide Conserved, SlotsFree, ReadersWellFormed;
    assert HolderPinsEpoch(s, t, o);
  }

  lemma OwnerStepKeepsInv(s: State, s': State, step: Step)
    requires Inv(s) && OwnerStep(s, s', step)
    ensures Inv(s')
  {
    OwnerStepKeepsRest(s, s', step);
    OwnerStepConserves(s, s', step);
    hide Conserved, SlotsFree, ReadersWellFormed, OwnersDisjoint, Shape, HolderPinsEpoch, OwnerStep;
    forall t, o | t in s'.readers && o in s'.readers[t].held
      ensures HolderPinsEpoch(s', t, o)
    {
      OwnerStepKeepsHolder(s, s', step, t, o);
    }
  }

  lemma CollectorStepKeepsInv(s: State, s': State, step: Step)
    requires Inv(s) && CollectorStep(s, s', step)
    ensures Inv(s')
  {
    match step
    case VisitReader =>
      VisitKeepsInv(s, s');
    case AdvanceEpoch =>
      AdvanceKeepsInv(s, s');
    case StageAndPick =>
      StageKeepsInv(s, s');
    case DeleteOne =>
      DeleteKeepsInv(s, s');
    case _ =>
      QuietStepKeepsInv(s, s', step);
  }

  /** The steps that only move the collector, or empty a slot that is already empty. */
  predicate Quiet(step: Step) {
    !(step.VisitReader? || step.AdvanceEpoch? || step.StageAndPick? || step.DeleteOne?)
  }

  lemma QuietStepKeepsLists(s: State, s': State, step: Step)
    requires Inv(s) && CollectorStep(s, s', step) && Quiet(step)
    ensures Shape(s') && SlotsFree(s')
    ensures forall k: nat :: k < 3 ==> Pending(s', k) == Pending(s, k)
  {
  }

  lemma QuietStepKeepsInv(s: State, s': State, step: Step)
    requires Inv(s) && CollectorStep(s, s', step) && Quiet(step)
    ensures Inv(s')
  {
    QuietStepKeepsLists(s, s', step);
    assert Conserved(s');
    forall t, o | t in s'.readers && o in s'.readers[t].held
      ensures HolderPinsEpoch(s', t, o)
    {
      assert HolderPinsEpoch(s, t, o);
    }
  }

  /** A reader that the scan passes is outside or stands in the epoch being closed. */
  lemma VisitKeepsHolder(s: State, s': State, t: Tid, o: Obj)
    requires Shape(s) && CollectorStep(s, s', VisitReader)
    requires t in s.readers && s.readers[t].local >= ACTIVE_FLAG && HolderPinsEpoch(s, t, o)
    ensures Shape(s') && HolderPinsEpoch(s', t, o)
  {
    assert t != s.pc.todo[0] ==> (t in s.pc.todo <==> t in s.pc.todo[1..]);
  }

  lemma VisitKeepsInv(s: State, s': State)
    requires Inv(s) && CollectorStep(s, s', VisitReader)
    ensures Inv(s')
  {
    assert Conserved(s');
    assert forall t :: t in s.pc.todo[1..] ==> t in s.pc.todo;
    forall t, o | t in s'.readers && o in s'.readers[t].held
      ensures HolderPinsEpoch(s', t, o)
    {
      assert HolderPinsEpoch(s, t, o);
      VisitKeepsHolder(s, s', t, o);
    }
  }

  /** The heart of the protocol: after a full scan, lists age by one, and nobody
      inside can hold an object of the list that is now two epochs old. */
  lemma AdvanceAgesHolder(s: State, s': State, t: Tid, o: Obj)
    requires Shape(s) && SlotsFree(s) && CollectorStep(s, s', AdvanceEpoch)
    requires t in s.readers && HolderPinsEpoch(s, t, o)
    ensures Shape(s') && HolderPinsEpoch(s', t, o)
  {
  }

  lemma AdvanceKeepsInv(s: State, s': State)
    requires Inv(s) && CollectorStep(s, s', AdvanceEpoch)
    ensures Inv(s')
  {
    assert Conserved(s');
    forall t, o | t in s'.readers && o in s'.readers[t].held
      ensures HolderPinsEpoch(s', t, o)
    {
      assert HolderPinsEpoch(s, t, o);
      AdvanceAgesHolder(s, s', t, o);
    }
  }

  lemma StageMovesLimbo(s: State, s': State)
    requires Inv(s) && CollectorStep(s, s', StageAndPick)
    ensures Shape(s') && SlotsFree(s') && s'.limbo == [] && s'.deleted == s.deleted && s'.given == s.given
    ensures Pending(s', s.global) == s.limbo && Pending(s, s.global) == []
    ensures forall k: nat :: k < 3 && k != s.global ==> Pending(s', k) == Pending(s, k)
  {
    hide HoldersPin, Conserved;
  }

  lemma StageKeepsHolder(s: State, s': State, t: Tid, o: Obj)
    requires Inv(s) && CollectorStep(s, s', StageAndPick) && t in s'.readers && o in s'.readers[t].held
    ensures Shape(s') && HolderPinsEpoch(s', t, o)
  {
    hide Conserved, ReadersWellFormed, OwnersDisjoint;
    StageMovesLimbo(s, s');
    assert HolderPinsEpoch(s, t, o);
  }

  lemma StageKeepsInv(s: State, s': State)
    requires Inv(s) && CollectorStep(s, s', StageAndPick)
    ensures Inv(s')
  {
    hide HolderPinsEpoch;
    StageMovesLimbo(s, s');
    assert Conserved(s') by {
      hide HoldersPin, Pending, SlotsFree, Shape;
    }
    hide Conserved;
    forall t, o | t in s'.readers && o in s'.readers[t].held
      ensures HolderPinsEpoch(s', t, o)
    {
      StageKeepsHolder(s, s', t, o);
    }
  }

  lemma DeleteConserves(s: State, s': State)
    requires Shape(s) && Conserved(s) && CollectorStep(s, s', DeleteOne)
    ensures Conserved(s')
  {
    var k, o := s.pc.slot, s.pc.rest[0];
    assert s.pc.rest == [o] + s.pc.rest[1..];
    assert multiset(Pending(s, k)) == multiset{o} + multiset(Pending(s', k));
    assert multiset(s'.deleted) == multiset(s.deleted) + multiset{o};
  }

  /** Nobody inside holds an object of the list that is being reclaimed. */
  lemma DeleteKeepsHolder(s: State, s': State, t: Tid, o: Obj)
    requires Shape(s) && CollectorStep(s, s', DeleteOne)
    requires t in s.readers && HolderPinsEpoch(s, t, o)
    ensures Shape(s') && HolderPinsEpoch(s', t, o)
  {
    assert Pending(s, s.pc.slot) == [s.pc.rest[0]] + Pending(s', s.pc.slot);
  }

  lemma DeleteKeepsInv(s: State, s': State)
    requires Inv(s) && CollectorStep(s, s', DeleteOne)
    ensures Inv(s')
  {
    hide Conserved, HolderPinsEpoch;
    DeleteConserves(s, s');
    forall t, o | t in s'.readers && o in s'.readers[t].held
      ensures HolderPinsEpoch(s', t, o)
    {
      assert HolderPinsEpoch(s, t, o);
      DeleteKeepsHolder(s, s', t, o);
    }
  }

  lemma StepKeepsInv(s: State, s': State, step: Step)
    requires Inv(s) && Next(s, s', step)
    ensures Inv(s')
  {
    if ReaderStep(s, s', step) {
      ReaderStepKeepsInv(s, s', step);
    } else if OwnerStep(s, s', step) {
      OwnerStepKeepsInv(s, s', step);
    } else {
      CollectorStepKeepsInv(s, s', step);
    }
  }

  /** The invariant holds in every state of every run. */
  lemma {:induction false} RunKeepsInv(states: seq<State>, steps: seq<Step>, n: nat)
    requires IsRun(states, steps) && n < |states|
    ensures Inv(states[n])
  {
    if n > 0 {
      RunKeepsInv(states, steps, n - 1);
      StepKeepsInv(states[n - 1], states[n - 1 + 1], steps[n - 1]);
    }
  }

  // ----- what readers and owners may rely on

  lemma StepKeepsHeld(s: State, s': State, step: Step, t: Tid, o: Obj)
    requires ReadersWellFormed(s) && Next(s, s', step) && step != Exit(t)
    requires t in s.readers && o in s.readers[t].held
    ensures t in s'.readers && o in s'.readers[t].held
  {
  }

  lemma AcquireHolds(s: State, s': State, t: Tid, o: Obj)
    requires Next(s, s', Acquire(t, o))
    ensures t in s'.readers && o in s'.readers[t].held
  {
  }

  lemma RunSteps(states: seq<State>, steps: seq<Step>, n: nat)
    requires IsRun(states, steps) && n < |steps|
    ensures Next(states[n], states[n + 1], steps[n])
  {
  }

  /** A reader keeps what it picked up until it leaves. */
  lemma {:induction false} HeldUntilExit(states: seq<State>, steps: seq<Step>, i: nat, n: nat, t: Tid, o: Obj)
    requires IsRun(states, steps) && i < n < |states|
    requires steps[i] == Acquire(t, o)
    requires forall k :: i < k < n ==> steps[k] != Exit(t)
    ensures t in states[n].readers && o in states[n].readers[t].held
  {
    hide Next, Shape, SlotsFree, OwnersDisjoint, Conserved, HoldersPin, ReadersWellFormed;
    RunSteps(states, steps, n - 1);
    if n > i + 1 {
      HeldUntilExit(states, steps, i, n - 1, t, o);
      RunKeepsInv(states, steps, n - 1);
      StepKeepsHeld(states[n - 1], states[n], steps[n - 1], t, o);
    } else {
      AcquireHolds(states[i], states[n], t, o);
    }
  }

  /** No object has been passed to the deleter as long as a reader that picked it up
      has not left since, whatever the interleaving in between. */
  lemma NoUseAfterDelete(states: seq<State>, steps: seq<Step>, i: nat, n: nat, t: Tid, o: Obj)
    requires IsRun(states, steps) && i < n < |states|
    requires steps[i] == Acquire(t, o)
    requires forall k :: i < k < n ==> steps[k] != Exit(t)
    ensures o !in states[n].deleted
  {
    HeldUntilExit(states, steps, i, n, t, o);
    RunKeepsInv(states, steps, n);
    assert HolderPinsEpoch(states[n], t, o);
  }

  /** How often `o` is waiting in limbo, waiting in an epoch list, or already deleted. */
  ghost function Places(s: State, o: Obj): nat
    requires |s.epochList| == NUM_EPOCHS
  {
    multiset(s.limbo)[o] + multiset(Pending(s, 0))[o] + multiset(Pending(s, 1))[o] + multiset(Pending(s, 2))[o]
    + multiset(s.deleted)[o]
  }

  /** Nothing is lost and nothing is deleted twice: in every state of every run an
      object is in exactly one place, once, if it was given to `Limbo`, and nowhere otherwise. */
  lemma InExactlyOnePlace(states: seq<State>, steps: seq<Step>, n: nat, o: Obj)
    requires IsRun(states, steps) && n < |states|
    ensures |states[n].epochList| == NUM_EPOCHS
    ensures Places(states[n], o) == if o in states[n].given then 1 else 0
  {
    RunKeepsInv(states, steps, n);
    var s := states[n];
    var m := multiset(s.limbo) + multiset(Pending(s, 0)) + multiset(Pending(s, 1)) + multiset(Pending(s, 2))
             + multiset(s.deleted);
    assert m[o] == Places(s, o);
  }

  /** The staging slot is always empty when the limbo stack is moved into it, and
      between cycles the slot that the next advance will stage into is empty. */
  lemma StagingSlotIsEmpty(states: seq<State>, steps: seq<Step>, n: nat)
    requires IsRun(states, steps) && n < |states|
    ensures var s := states[n];
      && |s.epochList| == NUM_EPOCHS && s.global < NUM_EPOCHS
      && (s.pc.Advanced? ==> s.epochList[s.global] == [])
      && (s.pc.Idle? ==> s.epochList[(s.global + 1) % NUM_EPOCHS] == [])
  {
    RunKeepsInv(states, steps, n);
  }
}

/** The collector as the code runs it: every statement of `EbrGC` that touches shared
    memory is one step of the protocol, recorded in a ghost history. */
module EbrCollector {
  import opened EbrProtocol

  /** A run, latest step first. */
  datatype History = Begin | Then(before: History, step: Step, now: State)

  ghost function Last(h: History): State {
    if h.Begin? then START else h.now
  }

  ghost predicate IsHistory(h: History) {
    h.Then? ==> IsHistory(h.before) && Next(Last(h.before), h.now, h.step)
  }

  ghost function StatesOf(h: History): (states: seq<State>)
    ensures states != [] && states[|states| - 1] == Last(h)
  {
    if h.Begin? then [START] else StatesOf(h.before) + [h.now]
  }

  ghost function StepsOf(h: History): seq<Step> {
    if h.Begin? then [] else StepsOf(h.before) + [h.step]
  }

  /** A history is a run of the protocol, so everything proved of runs holds of it. */
  lemma {:induction false} HistoryIsRun(h: History)
    requires IsHistory(h)
    ensures IsRun(StatesOf(h), StepsOf(h))
    ensures Inv(Last(h))
  {
    if h.Then? {
      HistoryIsRun(h.before);
      StepKeepsInv(Last(h.before), h.now, h.step);
    }
  }

  lemma SlotsFreeNow(h: History)
    requires IsHistory(h)
    ensures Shape(Last(h)) && SlotsFree(Last(h))
  {
    HistoryIsRun(h);
  }

  /** When nothing waits any more, every object ever given was deleted exactly once. */
  lemma NothingWaiting(h: History)
    requires IsHistory(h)
    requires Last(h).pc == Idle && Last(h).limbo == [] && Last(h).epochList == [[], [], []]
    ensures multiset(Last(h).deleted) == multiset(Last(h).given)
  {
    HistoryIsRun(h);
    var s := Last(h);
    assert forall k: nat :: k < 3 ==> Pending(s, k) == [];
  }

  /** What a cycle works on. */
  datatype Shelf = Shelf(global: nat, limbo: seq<Obj>, lists: seq<seq<Obj>>, deleted: seq<Obj>)

  ghost predicate WellFormed(sh: Shelf) {
    sh.global < NUM_EPOCHS && |sh.lists| == NUM_EPOCHS
  }

  /** Somebody registered stands inside another epoch than `epoch`. */
  ghost predicate Blocked(words: map<Tid, nat>, epoch: nat) {
    exists t :: t in words && Blocks(words[t], epoch)
  }

  /** The rest of a cycle from round `i` on, with nobody moving in between. */
  ghost function Rounds(sh: Shelf, words: map<Tid, nat>, i: nat): (r: Shelf)
    requires WellFormed(sh) && i <= NUM_EPOCHS
    ensures WellFormed(r)
    decreases NUM_EPOCHS - i
  {
    if i == NUM_EPOCHS then sh.(lists := sh.lists[GcEpoch(sh.global) := []])
    else if Blocked(words, sh.global) then sh
    else
      var g := (sh.global + 1) % NUM_EPOCHS;
      var staged := sh.lists[g := sh.limbo];
      if staged[GcEpoch(g)] != [] then
        Shelf(g, [], staged[GcEpoch(g) := []], sh.deleted + staged[GcEpoch(g)])
      else
        Rounds(Shelf(g, [], staged, sh.deleted), words, i + 1)
  }

  /** One round that was not blocked. */
  lemma RoundUnfolds(sh: Shelf, words: map<Tid, nat>, i: nat, after: Shelf, more: bool)
    requires WellFormed(sh) && WellFormed(after) && i < NUM_EPOCHS && !Blocked(words, sh.global)
    requires after.global == (sh.global + 1) % NUM_EPOCHS && after.limbo == []
    requires var staged := sh.lists[after.global := sh.limbo];
      && more == (staged[GcEpoch(after.global)] == [])
      && after.lists == (if more then staged else staged[GcEpoch(after.global) := []])
      && after.deleted == (if more then sh.deleted else sh.deleted + staged[GcEpoch(after.global)])
    ensures Rounds(sh, words, i) == if more then Rounds(after, words, i + 1) else after
  {
    hide Blocked;
    var g := after.global;
    assert after == if more then Shelf(g, [], after.lists, sh.deleted) else after;
  }

  lemma RoundsStop(sh: Shelf, words: map<Tid, nat>, i: nat)
    requires WellFormed(sh) && i <= NUM_EPOCHS && (i == NUM_EPOCHS || Blocked(words, sh.global))
    ensures Rounds(sh, words, i) == if i == NUM_EPOCHS then sh.(lists := sh.lists[GcEpoch(sh.global) := []]) else sh
  {
  }

  lemma {:induction false} RoundsKeepLimboEmpty(sh: Shelf, words: map<Tid, nat>, i: nat)
    requires WellFormed(sh) && i <= NUM_EPOCHS && sh.limbo == []
    ensures Rounds(sh, words, i).limbo == []
    decreases NUM_EPOCHS - i
  {
    hide Blocked;
    if i < NUM_EPOCHS {
      var g := (sh.global + 1) % NUM_EPOCHS;
      RoundsKeepLimboEmpty(Shelf(g, [], sh.lists[g := []], sh.deleted), words, i + 1);
    }
  }

  /** Readers of the current epoch do not hold a cycle up: it empties limbo, and with somebody
      inside it advances the epoch by exactly one. */
  lemma CycleProgresses(sh: Shelf, words: map<Tid, nat>)
    requires WellFormed(sh)
    requires forall t :: t in words && words[t] >= 0x8000_0000 ==> words[t] - 0x8000_0000 == sh.global
    ensures Rounds(sh, words, 0).limbo == []
    ensures (exists t :: t in words && words[t] >= 0x8000_0000) ==> Rounds(sh, words, 0).global == (sh.global + 1) % 3
  {
    hide Rounds;
    var g := (sh.global + 1) % NUM_EPOCHS;
    var staged := sh.lists[g := sh.limbo];
    if staged[GcEpoch(g)] != [] {
      var after := Shelf(g, [], staged[GcEpoch(g) := []], sh.deleted + staged[GcEpoch(g)]);
      RoundUnfolds(sh, words, 0, after, false);
    } else {
      var next := Shelf(g, [], staged, sh.deleted);
      RoundUnfolds(sh, words, 0, next, true);
      RoundsKeepLimboEmpty(next, words, 1);
      if t :| t in words && words[t] >= 0x8000_0000 {
        assert Blocks(words[t], g);
        RoundsStop(next, words, 1);
      }
    }
  }

  /** A reader of another epoch holds it up altogether. */
  lemma CycleWaits(sh: Shelf, words: map<Tid, nat>, t: Tid)
    requires WellFormed(sh) && t in words && words[t] >= 0x8000_0000 && words[t] - 0x8000_0000 != sh.global
    ensures Rounds(sh, words, 0) == sh
  {
    assert Blocks(words[t], sh.global);
  }

  ghost function Cycles(sh: Shelf, words: map<Tid, nat>, n: nat): (r: Shelf)
    requires WellFormed(sh)
    ensures WellFormed(r)
  {
    if n == 0 then sh else Rounds(Cycles(sh, words, n - 1), words, 0)
  }

  ghost predicate Empty(sh: Shelf) {
    sh.limbo == [] && sh.lists == [[], [], []]
  }

  /** A cycle empties the limbo stack; whatever was behind it moves one list closer to the deleter. */
  lemma {:induction false} RoundsDrain(sh: Shelf, words: map<Tid, nat>, i: nat)
    requires WellFormed(sh) && i < NUM_EPOCHS && forall e: nat :: !Blocked(words, e)
    requires sh.lists[GcEpoch(sh.global)] == []
    ensures var r := Rounds(sh, words, i);
      && r.limbo == [] && r.lists[GcEpoch(r.global)] == []
      && (sh.limbo == [] ==> r.lists[r.global] == [])
      && (sh.limbo == [] && sh.lists[sh.global] == [] ==> Empty(r))
    decreases NUM_EPOCHS - i
  {
    hide Rounds, Blocked;
    var g := (sh.global + 1) % NUM_EPOCHS;
    var staged := sh.lists[g := sh.limbo];
    if staged[GcEpoch(g)] == [] {
      var next := Shelf(g, [], staged, sh.deleted);
      RoundUnfolds(sh, words, i, next, true);
      if i + 1 < NUM_EPOCHS {
        RoundsDrain(next, words, i + 1);
      } else {
        RoundsStop(next, words, i + 1);
      }
    } else {
      var after := Shelf(g, [], staged[GcEpoch(g) := []], sh.deleted + staged[GcEpoch(g)]);
      RoundUnfolds(sh, words, i, after, false);
    }
  }

  /** With nobody inside and no further calls of `Limbo`, three cycles empty everything. */
  lemma ThreeCyclesDrain(sh: Shelf, words: map<Tid, nat>)
    requires WellFormed(sh) && forall e: nat :: !Blocked(words, e)
    requires sh.lists[GcEpoch(sh.global)] == []
    ensures Empty(Cycles(sh, words, 3))
  {
    var c1 := Rounds(sh, words, 0);
    var c2 := Rounds(c1, words, 0);
    assert Cycles(sh, words, 1) == c1;
    assert Cycles(sh, words, 2) == c2;
    RoundsDrain(sh, words, 0);
    RoundsDrain(c1, words, 0);
    RoundsDrain(c2, words, 0);
  }

  class EbrGC {
    var globalEpoch: nat
    var tlsList: seq<Tid>
    var local: map<Tid, nat>
    var limbo: seq<Obj>
    var epochList: seq<seq<Obj>>
    var deleted: seq<Obj>

    ghost var history: History

    /** The fields are what the last state of the history says. */
    ghost predicate Agrees()
      reads this
    {
      var s := Last(history);
      && IsHistory(history)
      && s.global == globalEpoch < NUM_EPOCHS
      && s.tlsList == tlsList
      && s.limbo == limbo
      && s.epochList == epochList && |epochList| == NUM_EPOCHS
      && s.deleted == deleted
      && (forall t :: t in local <==> t in tlsList)
      && (forall t :: t in tlsList ==> t in s.readers && local[t] == s.readers[t].local)
    }

    ghost predicate Valid()
      reads this
    {
      Agrees() && Last(history).pc == Idle
    }

    /** No registered reader is inside. */
    ghost predicate Quiescent()
      reads this
    {
      forall t :: t in local ==> local[t] < ACTIVE_FLAG
    }

    constructor ()
      ensures Valid() && limbo == [] && tlsList == [] && deleted == [] && history == Begin
    {
      globalEpoch, tlsList, local, limbo, deleted := 0, [], map[], [], [];
      epochList := [[], [], []];
      history := Begin;
    }

    method Register(t: Tid)
      requires Valid()
      modifies this`tlsList, this`local, this`history
      ensures Valid()
      ensures tlsList == if t in old(tlsList) then old(tlsList) else [t] + old(tlsList)
      ensures t !in old(tlsList) ==> local == old(local)[t := 0]
    {
      if t !in tlsList {
        HistoryIsRun(history);
        ghost var s := Last(history);
        local := local[t := 0];
        tlsList := [t] + tlsList;
        history := Then(history, EbrProtocol.Register(t),
                        s.(readers := s.readers[t := Reader(0, Outside, {})], tlsList := tlsList));
      }
    }

    /** `Enter`: the load of the global epoch and the store that publishes it. */
    method Enter(t: Tid)
      requires Valid() && t in local && Last(history).readers[t].pc == Outside
      modifies this`local, this`history
      ensures Valid() && local == old(local)[t := globalEpoch + ACTIVE_FLAG]
    {
      ghost var s := Last(history);
      var epoch := globalEpoch;
      history := Then(history, EnterLoad(t), s.(readers := s.readers[t := s.readers[t].(pc := Loaded(epoch))]));
      local := local[t := epoch + ACTIVE_FLAG];
      s := Last(history);
      history := Then(history, EnterStore(t),
                      s.(readers := s.readers[t := Reader(epoch + ACTIVE_FLAG, Inside, {})]));
    }

    method Exit(t: Tid)
      requires Valid() && t in local && Last(history).readers[t].pc == Inside
      modifies this`local, this`history
      ensures Valid() && local == old(local)[t := 0]
    {
      ghost var s := Last(history);
      local := local[t := 0];
      history := Then(history, EbrProtocol.Exit(t), s.(readers := s.readers[t := Reader(0, Outside, {})]));
    }

    method Limbo(o: Obj)
      requires Valid() && o in Last(history).unlinked
      modifies this`limbo, this`history
      ensures Valid() && limbo == [o] + old(limbo)
    {
      ghost var s := Last(history);
      limbo := [o] + limbo;
      history := Then(history, EbrProtocol.Limbo(o),
                      s.(unlinked := s.unlinked - {o}, given := s.given + {o}, limbo := limbo));
    }

    /** Extends the history by one step of the collector. */
    ghost method Take(step: Step, s: State)
      requires IsHistory(history) && CollectorStep(Last(history), s, step)
      modifies this`history
      ensures IsHistory(history) && Last(history) == s
    {
      history := Then(history, step, s);
    }

    /** The scan of `Sync` over the registered readers. */
    method Scan(epoch: nat) returns (ok: bool)
      requires Agrees() && epoch == globalEpoch
      requires Last(history).pc.Scanning? && Last(history).pc.epoch == epoch && Last(history).pc.todo == tlsList
      modifies this`history
      ensures Agrees()
      ensures ok <==> forall t :: t in tlsList ==> !Blocks(local[t], epoch)
      ensures Last(history).pc == if ok then old(Last(history)).pc.(todo := []) else Idle
    {
      ghost var s := Last(history);
      for n := 0 to |tlsList|
        invariant IsHistory(history) && Last(history) == s.(pc := s.pc.(todo := tlsList[n..]))
        invariant forall k :: 0 <= k < n ==> !Blocks(local[tlsList[k]], epoch)
      {
        assert tlsList[n..][1..] == tlsList[n + 1..] && tlsList[n..][0] == tlsList[n];
        if Blocks(local[tlsList[n]], epoch) {
          Take(VisitReader, s.(pc := Idle));
          return false;
        }
        Take(VisitReader, s.(pc := s.pc.(todo := tlsList[n + 1..])));
      }
      return true;
    }

    /** `Sync`: advances the epoch unless a reader inside published another one. */
    method Sync() returns (ok: bool, gcEpoch: nat)
      requires Agrees() && Last(history).pc.Round? && Last(history).pc.i < NUM_EPOCHS
      modifies this`globalEpoch, this`history
      ensures Agrees()
      ensures ok <==> forall t :: t in tlsList && old(local)[t] >= 0x8000_0000 ==>
        old(local)[t] - 0x8000_0000 == old(globalEpoch)
      ensures globalEpoch == if ok then (old(globalEpoch) + 1) % NUM_EPOCHS else old(globalEpoch)
      ensures Last(history).pc == if ok then Advanced(old(Last(history).pc.i)) else Idle
      ensures gcEpoch == GcEpoch(globalEpoch)
    {
      ghost var i := Last(history).pc.i;
      var epoch := globalEpoch;
      Take(LoadEpoch, Last(history).(pc := EpochLoaded(i, epoch)));
      Take(LoadList, Last(history).(pc := Scanning(i, epoch, tlsList)));
      ok := Scan(epoch);
      if ok {
        globalEpoch := (epoch + 1) % NUM_EPOCHS;
        Take(AdvanceEpoch, Last(history).(global := globalEpoch, pc := Advanced(i)));
      }
      gcEpoch := GcEpoch(globalEpoch);
    }

    /** `Reclaim`: one call of the deleter per entry. */
    method Reclaim(list: seq<Obj>)
      requires Agrees() && Last(history).pc.Reclaiming? && Last(history).pc.rest == list
      modifies this`deleted, this`history
      ensures Agrees() && deleted == old(deleted) + list
      ensures Last(history).pc == old(Last(history)).pc.(rest := [])
    {
      ghost var s := Last(history);
      for n := 0 to |list|
        invariant IsHistory(history) && deleted == old(deleted) + list[..n]
        invariant Last(history) == s.(deleted := deleted, pc := s.pc.(rest := list[n..]))
      {
        assert list[n..][1..] == list[n + 1..] && list[n..][0] == list[n] && list[..n + 1] == list[..n] + [list[n]];
        deleted := deleted + [list[n]];
        Take(DeleteOne, s.(deleted := deleted, pc := s.pc.(rest := list[n + 1..])));
      }
    }

    ghost function Contents(): Shelf
      reads this
    {
      Shelf(globalEpoch, limbo, epochList, deleted)
    }

    /** One round after a successful `Sync`: stage, and reclaim the list that is due, if any. */
    method StageAndReclaim(gcEpoch: nat) returns (more: bool)
      requires Agrees() && Last(history).pc.Advanced? && gcEpoch == GcEpoch(globalEpoch)
      modifies this`limbo, this`epochList, this`deleted, this`history
      ensures Agrees() && globalEpoch == old(globalEpoch) && limbo == []
      ensures var staged := old(epochList[globalEpoch := limbo]);
        && more == (staged[gcEpoch] == [])
        && epochList == (if more then staged else staged[gcEpoch := []])
        && deleted == (if more then old(deleted) else old(deleted) + staged[gcEpoch])
      ensures Last(history).pc == if more then Round(old(Last(history).pc.i) + 1) else Idle
    {
      ghost var s := Last(history);
      ghost var i := s.pc.i;
      assert epochList[globalEpoch] == [] by { SlotsFreeNow(history); }
      epochList := epochList[globalEpoch := limbo];
      limbo := [];
      var gcList := epochList[gcEpoch];
      more := gcList == [];
      Take(StageAndPick, s.(epochList := epochList, limbo := [],
                            pc := if gcList != [] then Reclaiming(gcEpoch, gcList) else Round(i + 1)));
      if !more {
        Reclaim(gcList);
        epochList := epochList[gcEpoch := []];
        Take(ClearSlot, Last(history).(epochList := epochList, pc := Idle));
      }
    }

    /** One round of the loop in `CycleNoLock`. */
    method OneRound(ghost i: nat) returns (more: bool)
      requires Agrees() && i < NUM_EPOCHS && Last(history).pc == Round(i)
      modifies this`globalEpoch, this`limbo, this`epochList, this`deleted, this`history
      ensures Agrees() && Last(history).pc == if more then Round(i + 1) else Idle
      ensures Rounds(old(Contents()), local, i) == if more then Rounds(Contents(), local, i + 1) else Contents()
    {
      hide Rounds, IsHistory;
      ghost var before := Contents();
      var ok, gcEpoch := Sync();
      if ok {
        more := StageAndReclaim(gcEpoch);
        RoundUnfolds(before, local, i, Contents(), more);
      } else {
        more := false;
        RoundsStop(before, local, i);
      }
    }

    ghost method BeginRounds()
      requires Valid()
      modifies this`history
      ensures Agrees() && Last(history).pc == Round(0)
    {
      Take(BeginCycle, Last(history).(pc := Round(0)));
    }

    /** After three rounds the slot that is due is cleared. */
    method EndRounds()
      requires Agrees() && Last(history).pc == Round(NUM_EPOCHS)
      modifies this`epochList, this`history
      ensures Valid() && epochList == old(epochList[GcEpoch(globalEpoch) := []])
    {
      var gcEpoch := GcEpoch(globalEpoch);
      epochList := epochList[gcEpoch := []];
      Take(RoundsOver, Last(history).(epochList := epochList, pc := Idle));
    }

    /** The loop of `CycleNoLock`: up to three rounds, until a list was due for the deleter. */
    method RunRounds()
      requires Valid()
      modifies this`globalEpoch, this`limbo, this`epochList, this`deleted, this`history
      ensures Valid()
      ensures Contents() == Rounds(old(Contents()), local, 0)
    {
      hide Rounds, IsHistory;
      BeginRounds();
      var i := 0;
      while i < NUM_EPOCHS
        invariant 0 <= i <= NUM_EPOCHS && Agrees() && Last(history).pc == Round(i)
        invariant Rounds(old(Contents()), local, 0) == Rounds(Contents(), local, i)
      {
        var more := OneRound(i);
        if !more {
          return;
        }
        i := i + 1;
      }
      RoundsStop(Contents(), local, i);
      EndRounds();
    }

    /** `CycleNoLock`: readers of the current epoch do not hold it up, and one of another epoch
        holds it up altogether. */
    method CycleNoLock()
      requires Valid()
      modifies this`globalEpoch, this`limbo, this`epochList, this`deleted, this`history
      ensures Valid()
      ensures Contents() == Rounds(old(Contents()), local, 0)
      ensures (forall t :: t in local && local[t] >= 0x8000_0000 ==> local[t] - 0x8000_0000 == old(globalEpoch)) ==>
        && limbo == []
        && ((exists t :: t in local && local[t] >= 0x8000_0000) ==> globalEpoch == (old(globalEpoch) + 1) % 3)
      ensures (exists t :: t in local && local[t] >= 0x8000_0000 && local[t] - 0x8000_0000 != old(globalEpoch)) ==>
        Contents() == old(Contents())
    {
      hide Rounds, IsHistory;
      if t :| t in local && local[t] >= 0x8000_0000 && local[t] - 0x8000_0000 != globalEpoch {
        CycleWaits(Contents(), local, t);
      } else {
        CycleProgresses(Contents(), local);
      }
      RunRounds();
    }

    /** A cycle; with nobody inside it empties limbo, and in the end the lists. */
    method OneCycle()
      requires Valid()
      modifies this`globalEpoch, this`limbo, this`epochList, this`deleted, this`history
      ensures Valid()
      ensures Quiescent() ==>
        && limbo == [] && (old(limbo) == [] ==> epochList[globalEpoch] == [])
        && (old(limbo) == [] && old(epochList[globalEpoch]) == [] ==> Empty(Contents()))
    {
      hide Rounds, IsHistory;
      SlotsFreeNow(history);
      if Quiescent() {
        RoundsDrain(Contents(), local, 0);
      }
      CycleNoLock();
    }

    /** `Full`: cycles until nothing is left, at most `retries` of them. When it is done, every object
        ever given to `Limbo` has been deleted exactly once; with nobody inside, three cycles are enough. */
    method Full(retries: nat) returns (cycles: nat, done: bool)
      requires Valid() && retries > 0
      modifies this`globalEpoch, this`limbo, this`epochList, this`deleted, this`history
      ensures Valid() && 1 <= cycles <= retries && (!done ==> cycles == retries)
      ensures done <==> Empty(Contents())
      ensures done ==> multiset(deleted) == multiset(Last(history).given)
      ensures Quiescent() ==> cycles <= 3 && (retries >= 3 ==> done)
    {
      cycles, done := 0, false;
      while !done && cycles < retries
        invariant Valid() && cycles <= retries && (cycles == 0 ==> !done)
        invariant Quiescent() ==>
          && cycles <= 3 && (cycles >= 1 ==> limbo == []) && (cycles >= 2 ==> epochList[globalEpoch] == [])
          && (cycles >= 3 ==> Empty(Contents()))
        invariant cycles > 0 ==> (done <==> Empty(Contents()))
      {
        OneCycle();
        cycles := cycles + 1;
        done := (forall k :: 0 <= k < |epochList| ==> epochList[k] == []) && limbo == [];
      }
      if done {
        NothingWaiting(history);
      }
    }
  }
}
