/** The reader/writer spin lock as a protocol over the atomic steps of its threads. */
module SpinLock {

  import opened Common

  /** The value of a free lock. */
  const BIAS: int := 0x10000000

  datatype Mode = Reader | Writer

  /** Where a thread stands between two accesses to the lock word, with what it has loaded. */
  datatype Thread =
    | Idle
    | ReadLoaded(seen: int)
    | WriteLoaded
    | Holding(mode: Mode)
    | Releasing(mode: Mode, seen: int)
    | Reloading(mode: Mode)
    | Storing(mode: Mode)

  datatype State = State(word: int, threads: seq<Thread>)

  datatype Step =
    | ReadLoad | ReadExchange
    | WriteLoad | WriteExchange
    | UnlockLoad | UnlockExchange | UnlockReload | UnlockStore

  predicate Holds(t: Thread, mode: Mode) {
    (t.Holding? || t.Releasing? || t.Reloading? || t.Storing?) && t.mode == mode
  }

  /** Whether a thread can make a step where it stands. */
  predicate Enabled(t: Thread, step: Step) {
    match step
    case ReadLoad => t.Idle?
    case ReadExchange => t.ReadLoaded?
    case WriteLoad => t.Idle?
    case WriteExchange => t.WriteLoaded?
    case UnlockLoad => t.Holding?
    case UnlockExchange => t.Releasing?
    case UnlockReload => t.Reloading?
    case UnlockStore => t.Storing?
  }

  /** One atomic access: the new lock word and where the thread stands then. */
  function Access(word: int, t: Thread, step: Step): (int, Thread)
    requires Enabled(t, step)
  {
    match step
    case ReadLoad => (word, ReadLoaded(word))
    case ReadExchange =>
      if t.seen > 0 && word == t.seen then (t.seen - 1, Holding(Reader)) else (word, Idle)
    case WriteLoad => (word, if word == BIAS then WriteLoaded else Idle)
    case WriteExchange => if word == BIAS then (0, Holding(Writer)) else (word, Idle)
    case UnlockLoad => (word, if word == 0 then Storing(t.mode) else Releasing(t.mode, word))
    case UnlockExchange => if word == t.seen then (t.seen + 1, Idle) else (word, Reloading(t.mode))
    case UnlockReload => (word, Releasing(t.mode, word))
    case UnlockStore => (BIAS, Idle)
  }

  function After(s: State, i: nat, step: Step): State
    requires i < |s.threads| && Enabled(s.threads[i], step)
  {
    var (word, t) := Access(s.word, s.threads[i], step);
    State(word, s.threads[i := t])
  }

  predicate Next(a: State, b: State, i: nat, step: Step) {
    i < |a.threads| && Enabled(a.threads[i], step) && b == After(a, i, step)
  }

  /** Some thread makes some step. */
  ghost predicate Moves(a: State, b: State) {
    exists i: nat, step :: Next(a, b, i, step)
  }

  ghost predicate IsRun(states: seq<State>) {
    var n := |states|;
    && n > 0
    && if n == 1 then states[0].word == BIAS && |states[0].threads| < BIAS && AllIdle(states[0].threads)
       else IsRun(states[..n - 1]) && Moves(states[n - 2], states[n - 1])
  }

  ghost predicate AllIdle(threads: seq<Thread>) {
    forall i :: 0 <= i < |threads| ==> threads[i] == Idle
  }

  // ----- counting holders

  function Holders(threads: seq<Thread>, mode: Mode): (n: nat)
    ensures n <= |threads|
  {
    if threads == [] then 0
    else Holders(threads[..|threads| - 1], mode) + if Holds(threads[|threads| - 1], mode) then 1 else 0
  }

  lemma {:induction false} HoldersAfter(threads: seq<Thread>, i: nat, t: Thread, mode: Mode)
    requires i < |threads|
    ensures Holders(threads[i := t], mode)
         == Holders(threads, mode) - (if Holds(threads[i], mode) then 1 else 0) + if Holds(t, mode) then 1 else 0
  {
    var n := |threads| - 1;
    if i < n {
      assert threads[i := t][..n] == threads[..n][i := t];
      HoldersAfter(threads[..n], i, t, mode);
    } else {
      assert threads[i := t][..n] == threads[..n];
    }
  }

  lemma {:induction false} HoldersWith(threads: seq<Thread>, i: nat, mode: Mode)
    requires i < |threads| && Holds(threads[i], mode)
    ensures Holders(threads, mode) >= 1
  {
    var n := |threads| - 1;
    if i < n {
      HoldersWith(threads[..n], i, mode);
    }
  }

  lemma {:induction false} TwoHolders(threads: seq<Thread>, i: nat, j: nat, mode: Mode)
    requires i < j < |threads| && Holds(threads[i], mode) && Holds(threads[j], mode)
    ensures Holders(threads, mode) >= 2
  {
    var n := |threads| - 1;
    if j < n {
      TwoHolders(threads[..n], i, j, mode);
    } else {
      HoldersWith(threads[..n], i, mode);
    }
  }

  lemma {:induction false} NoHolders(threads: seq<Thread>, mode: Mode)
    requires forall i :: 0 <= i < |threads| ==> !Holds(threads[i], mode)
    ensures Holders(threads, mode) == 0
  {
    if threads != [] {
      NoHolders(threads[..|threads| - 1], mode);
    }
  }

  // ----- the invariant

  /** Only a writer is about to store the bias, and only readers count themselves out. */
  predicate InItsBranch(t: Thread) {
    && (t.Storing? ==> t.mode == Writer)
    && (t.Releasing? || t.Reloading? ==> t.mode == Reader)
  }

  ghost predicate Inv(s: State) {
    var readers, writers := Holders(s.threads, Reader), Holders(s.threads, Writer);
    && |s.threads| < BIAS
    && (writers == 0 ==> s.word == BIAS - readers)
    && (writers > 0 ==> writers == 1 && readers == 0 && s.word == 0)
    && forall i :: 0 <= i < |s.threads| ==> InItsBranch(s.threads[i])
  }

  lemma StepKeepsInv(a: State, b: State, i: nat, step: Step)
    requires Inv(a) && Next(a, b, i, step)
    ensures Inv(b)
  {
    var (word, t) := Access(a.word, a.threads[i], step);
    HoldersAfter(a.threads, i, t, Reader);
    HoldersAfter(a.threads, i, t, Writer);
    if Holds(a.threads[i], Reader) {
      HoldersWith(a.threads, i, Reader);
    }
    if Holds(a.threads[i], Writer) {
      HoldersWith(a.threads, i, Writer);
    }
  }

  lemma {:induction false} RunKeepsInv(states: seq<State>)
    requires IsRun(states)
    ensures Inv(states[|states| - 1])
  {
    var n := |states|;
    if n == 1 {
      NoHolders(states[0].threads, Reader);
      NoHolders(states[0].threads, Writer);
    } else {
      RunKeepsInv(states[..n - 1]);
      var i: nat, step :| Next(states[n - 2], states[n - 1], i, step);
      StepKeepsInv(states[n - 2], states[n - 1], i, step);
    }
  }

  // ----- what the lock promises, in every run

  /** The word counts the readers down from the bias, and is zero exactly while a writer holds. */
  lemma WordTellsHolders(states: seq<State>)
    requires IsRun(states)
    ensures var s := states[|states| - 1];
      var readers, writers := Holders(s.threads, Reader), Holders(s.threads, Writer);
      && writers <= 1 && (s.word == 0 <==> writers == 1) && 0 <= s.word <= BIAS
      && (writers == 0 ==> s.word == BIAS - readers)
  {
    RunKeepsInv(states);
  }

  /** A writer holds alone. */
  lemma WriterHoldsAlone(states: seq<State>, i: nat, j: nat)
    requires IsRun(states)
    requires var ts := states[|states| - 1].threads; i < |ts| && j < |ts| && i != j && Holds(ts[i], Writer)
    ensures var ts := states[|states| - 1].threads; !Holds(ts[j], Reader) && !Holds(ts[j], Writer)
  {
    var ts := states[|states| - 1].threads;
    RunKeepsInv(states);
    HoldersWith(ts, i, Writer);
    if Holds(ts[j], Reader) {
      HoldersWith(ts, j, Reader);
    }
    if Holds(ts[j], Writer) {
      TwoHolders(ts, if i < j then i else j, if i < j then j else i, Writer);
    }
  }

  /** The first load of an unlock tells readers from the writer: a reader never takes the branch
      that stores the bias, and the writer always does. */
  lemma UnlockTellsModes(states: seq<State>, i: nat)
    requires IsRun(states)
    requires var ts := states[|states| - 1].threads; i < |ts| && ts[i].Holding?
    ensures var s := states[|states| - 1]; s.word == 0 <==> s.threads[i].mode == Writer
  {
    var s := states[|states| - 1];
    RunKeepsInv(states);
    HoldersWith(s.threads, i, s.threads[i].mode);
  }

  /** Once nobody holds the lock, the word is back at the bias and either side can take it. */
  lemma FreeAgain(states: seq<State>)
    requires IsRun(states)
    requires var ts := states[|states| - 1].threads;
      forall i, mode :: 0 <= i < |ts| ==> !Holds(ts[i], mode)
    ensures states[|states| - 1].word == BIAS
  {
    var ts := states[|states| - 1].threads;
    RunKeepsInv(states);
    NoHolders(ts, Reader);
    NoHolders(ts, Writer);
  }

  // ----- what the lock grants, in every run

  /** A thread that makes two steps with nobody in between. */
  function Twice(s: State, i: nat, first: Step, second: Step): (r: Option<State>) {
    if i < |s.threads| && Enabled(s.threads[i], first) && Enabled(After(s, i, first).threads[i], second)
    then Some(After(After(s, i, first), i, second)) else None
  }

  /** Readers share the lock: whenever no writer holds it, one more reader that loads the word and
      exchanges it undisturbed holds it too, and the word is one lower. */
  lemma ReaderIsAdmitted(states: seq<State>, i: nat)
    requires IsRun(states)
    requires var s := states[|states| - 1];
      i < |s.threads| && s.threads[i] == Idle && forall j :: 0 <= j < |s.threads| ==> !Holds(s.threads[j], Writer)
    ensures var s := states[|states| - 1];
      Twice(s, i, ReadLoad, ReadExchange) == Some(State(s.word - 1, s.threads[i := Holding(Reader)]))
  {
    var s := states[|states| - 1];
    RunKeepsInv(states);
    NoHolders(s.threads, Writer);
    assert s.threads[i := ReadLoaded(s.word)][i := Holding(Reader)] == s.threads[i := Holding(Reader)];
  }

  /** An exchange succeeds exactly if the word is still the one loaded and no writer holds. */
  lemma ReadExchangeDecides(states: seq<State>, i: nat)
    requires IsRun(states)
    requires var ts := states[|states| - 1].threads; i < |ts| && ts[i].ReadLoaded?
    ensures var s := states[|states| - 1];
      After(s, i, ReadExchange).threads[i] == Holding(Reader)
      <==> s.word == s.threads[i].seen && forall j :: 0 <= j < |s.threads| ==> !Holds(s.threads[j], Writer)
  {
    var s := states[|states| - 1];
    RunKeepsInv(states);
    if j :| 0 <= j < |s.threads| && Holds(s.threads[j], Writer) {
      HoldersWith(s.threads, j, Writer);
    } else {
      NoHolders(s.threads, Writer);
    }
  }

  /** A writer that finds nobody holding gets the lock: the word is zero. */
  lemma WriterIsAdmitted(states: seq<State>, i: nat)
    requires IsRun(states)
    requires var ts := states[|states| - 1].threads;
      i < |ts| && ts[i] == Idle && forall j, mode :: 0 <= j < |ts| ==> !Holds(ts[j], mode)
    ensures var s := states[|states| - 1];
      Twice(s, i, WriteLoad, WriteExchange) == Some(State(0, s.threads[i := Holding(Writer)]))
  {
    var s := states[|states| - 1];
    FreeAgain(states);
    assert s.threads[i := WriteLoaded][i := Holding(Writer)] == s.threads[i := Holding(Writer)];
  }

  /** An undisturbed unlock: a reader leaves the word one higher, the writer leaves the bias. */
  lemma UnlockReleases(states: seq<State>, i: nat)
    requires IsRun(states)
    requires var ts := states[|states| - 1].threads; i < |ts| && ts[i].Holding?
    ensures var s := states[|states| - 1];
      && (s.threads[i].mode == Reader ==>
            Twice(s, i, UnlockLoad, UnlockExchange) == Some(State(s.word + 1, s.threads[i := Idle])))
      && (s.threads[i].mode == Writer ==>
            Twice(s, i, UnlockLoad, UnlockStore) == Some(State(0x1000_0000, s.threads[i := Idle])))
  {
    var s := states[|states| - 1];
    UnlockTellsModes(states, i);
    assert s.threads[i := Releasing(Reader, s.word)][i := Idle] == s.threads[i := Idle];
    assert s.threads[i := Storing(Writer)][i := Idle] == s.threads[i := Idle];
  }
}
