/** Reference counting of one heap object by any number of threads. A retain or a release is two atomic
    steps, a load and a read-modify-write, and any other thread may act in between. The destroyer runs on the
    thread whose release gave up the last reference, and may itself retain and release the object. The layout
    is parametric: `half` is the doNotFree bit, one more than the largest count; 0x8000 when Int has 16 bits. */
module RefCounting {
  import opened Powers

  /** A refcount word with `half` as its top bit. */
  function Immortal(half: nat): int { half - 1 }

  /** refcountMask keeps everything below the top bit. */
  function Masked(half: nat, word: nat): nat
    requires half > 0
  {
    word % half
  }

  predicate DoNotFree(half: nat, word: nat) { word >= half }

  function Added(half: nat, word: nat, n: nat): nat
    requires half > 0
  {
    (word + n) % (2 * half)
  }

  function Subtracted(half: nat, word: nat, n: nat): nat
    requires half > 0
  {
    (word - n) % (2 * half)
  }

  /** Where the object lives: from swift_allocObject, swift_initStackObject or swift_initStaticObject. */
  datatype Kind = Heap | Stack | Static

  /** The word of an object with `count` references; a static object's never moves. */
  function Encoded(half: nat, kind: Kind, count: nat): nat
    requires half > 0
  {
    match kind
    case Heap => count
    case Stack => half + count
    case Static => half - 1
  }

  /** Below the immortal value the word arithmetic neither wraps nor touches the top bit. */
  lemma WordArithmetic(half: nat, kind: Kind, count: nat, n: nat)
    requires half >= 4
    ensures kind != Static && count + n < Immortal(half) ==>
            Added(half, Encoded(half, kind, count), n) == Encoded(half, kind, count + n)
    ensures kind != Static && n <= count < Immortal(half) ==>
            && Subtracted(half, Encoded(half, kind, count), n) == Encoded(half, kind, count - n)
            && Masked(half, Encoded(half, kind, count - n)) == count - n
  {
    var word := Encoded(half, kind, count);
    if kind != Static && count + n < Immortal(half) {
      ModSmall(word + n, 2 * half);
    }
    if kind != Static && n <= count < Immortal(half) {
      ModSmall(word - n, 2 * half);
      DivModUnique(word - n, half, if kind == Stack then 1 else 0, count - n);
    }
  }

  // ---------------------------------------------------------------- one object, one thread

  /** HeapObject and the runtime calls on it. */
  class HeapObject {
    const half: nat
    var refcount: nat

    ghost predicate Valid()
      reads this
    {
      half >= 4 && refcount < 2 * half
    }

    ghost predicate Counts(kind: Kind, count: nat)
      reads this
    {
      && (kind != Static ==> count < Immortal(half))
      && half >= 4 && refcount == Encoded(half, kind, count)
    }

    /** swift_allocObject */
    constructor Alloc(half: nat)
      requires half >= 4
      ensures this.half == half && Valid() && Counts(Heap, 1)
    {
      this.half := half;
      refcount := 1;
    }

    /** swift_initStackObject, which sets the bit with `|`. */
    method InitStackObject()
      requires Valid()
      modifies this
      ensures Valid() && Counts(Stack, 1)
    {
      refcount := 1 + half;
    }

    /** swift_initStaticObject */
    method InitStaticObject()
      requires Valid()
      modifies this
      ensures Valid() && forall count: nat :: Counts(Static, count)
    {
      refcount := half - 1;
    }

    /** swift_retain_n_ — any word but the immortal one grows by n, modulo the word; that counts n more
        references as long as the count stays below the immortal value. */
    method Retain(n: nat, ghost kind: Kind, ghost count: nat)
      requires Valid()
      modifies this
      ensures Valid() && refcount == if old(refcount) == half - 1 then half - 1 else (old(refcount) + n) % (2 * half)
      ensures old(Counts(kind, count)) && (kind != Static ==> count + n < Immortal(half)) ==> Counts(kind, count + n)
    {
      WordArithmetic(half, kind, count, n);
      if refcount == half - 1 {
        return;
      }
      refcount := Added(half, refcount, n);
    }

    /** swift_release_n_ — true when the destroyer is invoked. The masked result is never negative, so the
        source's check for that does not fire, and an over-release just wraps. */
    method Release(n: nat, ghost kind: Kind, ghost count: nat) returns (destroy: bool)
      requires Valid()
      modifies this
      ensures Valid() && refcount == if old(refcount) == half - 1 then half - 1 else (old(refcount) - n) % (2 * half)
      ensures destroy <==> old(refcount) != half - 1 && Masked(half, refcount) == 0
      ensures old(Counts(kind, count)) && n <= count ==>
              Counts(kind, count - n) && (destroy <==> kind != Static && n == count)
    {
      WordArithmetic(half, kind, count, n);
      if refcount == half - 1 {
        return false;
      }
      refcount := Subtracted(half, refcount, n);
      var resulting := Masked(half, refcount);
      destroy := resulting == 0;
    }

    /** swift_isUniquelyReferenced_nonNull_native */
    method IsUniquelyReferenced(ghost kind: Kind, ghost count: nat) returns (unique: bool)
      requires Counts(kind, count)
      ensures unique <==> kind == Heap && count == 1
    {
      unique := refcount == 1;
    }

    /** swift_deallocClassInstance — true when the memory is given back. */
    method DeallocClassInstance(ghost kind: Kind, ghost count: nat) returns (freed: bool)
      requires Counts(kind, count)
      ensures freed <==> kind != Stack
    {
      if DoNotFree(half, refcount) {
        return false;
      }
      freed := true;
    }
  }

  // ---------------------------------------------------------------- the protocol

  /** Between its two atomic steps a thread remembers what it is about to do. */
  datatype Pc = Idle | Retaining(n: nat) | Releasing(n: nat)

  /** `destroying` is how many invocations of the destroyer the thread is inside of. */
  datatype Thread = Thread(held: nat, pc: Pc, destroying: nat)

  datatype World = World(
    half: nat, kind: Kind, word: nat, threads: seq<Thread>, destroyed: nat, deallocated: nat, freed: nat)

  /** Give hands references from one thread to another; the runtime has no part in it. */
  datatype Step =
    | RetainLoad(n: nat)
    | RetainAdd
    | ReleaseLoad(n: nat)
    | ReleaseSub
    | Deallocate
    | Give(to: nat, n: nat)

  datatype Move = Move(thread: nat, step: Step)

  function WithThread(w: World, i: nat, t: Thread): World
    requires i < |w.threads|
  {
    w.(threads := w.threads[i := t])
  }

  /** What a thread must be doing and holding for a step; nothing is asked of the other threads. A thread
      releases what it holds; it retains while it holds a reference or runs the destroyer, which works on the
      object itself. */
  predicate Ready(t: Thread, step: Step)
  {
    match step
    case RetainLoad(n) => t.pc == Idle && (t.held >= 1 || t.destroying > 0)
    case RetainAdd => t.pc.Retaining?
    case ReleaseLoad(n) => t.pc == Idle && t.held >= 1 && n <= t.held
    case ReleaseSub => t.pc.Releasing? && t.pc.n <= t.held
    case Deallocate => t.pc == Idle && t.destroying > 0
    case Give(to, n) => t.pc == Idle && n <= t.held
  }

  /** The step names threads that are there. */
  predicate Applies(w: World, i: nat, step: Step)
  {
    w.half >= 4 && i < |w.threads| && (step.Give? ==> step.to < |w.threads| && step.to != i)
  }

  /** What thread i's atomic step does. */
  function After(w: World, i: nat, step: Step): World
    requires Applies(w, i, step) && Ready(w.threads[i], step)
  {
    var t := w.threads[i];
    match step
    case RetainLoad(n) =>
      WithThread(w, i, if w.word == w.half - 1 then t.(held := t.held + n) else t.(pc := Retaining(n)))
    case RetainAdd =>
      WithThread(w, i, t.(held := t.held + t.pc.n, pc := Idle)).(word := Added(w.half, w.word, t.pc.n))
    case ReleaseLoad(n) =>
      WithThread(w, i, if w.word == w.half - 1 then t.(held := t.held - n) else t.(pc := Releasing(n)))
    case ReleaseSub =>
      var word := Subtracted(w.half, w.word, t.pc.n);
      var last := if Masked(w.half, word) == 0 then 1 else 0;
      WithThread(w, i, Thread(t.held - t.pc.n, Idle, t.destroying + last))
        .(word := word, destroyed := w.destroyed + last)
    case Deallocate =>
      WithThread(w, i, t.(destroying := t.destroying - 1))
        .(deallocated := w.deallocated + 1, freed := w.freed + if DoNotFree(w.half, w.word) then 0 else 1)
    case Give(to, n) =>
      WithThread(WithThread(w, i, t.(held := t.held - n)), to, w.threads[to].(held := w.threads[to].held + n))
  }

  ghost predicate Steps(w: World, i: nat, step: Step, w': World)
  {
    Applies(w, i, step) && Ready(w.threads[i], step) && w' == After(w, i, step)
  }

  /** The sum of a measure over all threads. */
  function Total(threads: seq<Thread>, measure: Thread -> nat): nat
  {
    if threads == [] then 0 else measure(threads[0]) + Total(threads[1..], measure)
  }

  function Held(): Thread -> nat { (t: Thread) => t.held }

  function Destroyers(): Thread -> nat { (t: Thread) => t.destroying }

  function Outstanding(w: World): nat { Total(w.threads, Held()) }

  /** The one thing asked of the program as a whole: a count never reaches the immortal value. */
  ghost predicate Bounded(w: World)
  {
    w.kind != Static ==> Outstanding(w) < Immortal(w.half)
  }

  /** No thread is inside a call or the destroyer. */
  ghost predicate Quiescent(w: World)
  {
    forall i :: 0 <= i < |w.threads| ==> w.threads[i].pc == Idle && w.threads[i].destroying == 0
  }

  ghost predicate Initially(w: World)
  {
    && w.half >= 4
    && w.word == Encoded(w.half, w.kind, 1)
    && w.destroyed == 0 && w.deallocated == 0 && w.freed == 0
    && Quiescent(w)
    && (w.kind != Static ==> Outstanding(w) == 1)
  }

  /** Worlds each reached from the one before by a move of some thread. */
  ghost predicate Path(worlds: seq<World>, moves: seq<Move>)
  {
    && |worlds| == |moves| + 1
    && forall k :: 0 <= k < |moves| ==> Steps(worlds[k], moves[k].thread, moves[k].step, worlds[k + 1])
  }

  /** A run: a path from a new object on, within the bound. */
  ghost predicate Run(worlds: seq<World>, moves: seq<Move>)
  {
    && Path(worlds, moves)
    && Initially(worlds[0])
    && (forall k :: 0 <= k < |worlds| ==> Bounded(worlds[k]))
  }

  // ---------------------------------------------------------------- sums

  lemma {:induction false} TotalUpdate(threads: seq<Thread>, measure: Thread -> nat, i: nat, t: Thread)
    requires i < |threads|
    ensures Total(threads[i := t], measure) == Total(threads, measure) - measure(threads[i]) + measure(t)
  {
    if i == 0 {
      assert threads[0 := t][1..] == threads[1..];
    } else {
      TotalUpdate(threads[1..], measure, i - 1, t);
      assert threads[i := t][1..] == threads[1..][i - 1 := t];
    }
  }

  lemma {:induction false} TotalAtLeast(threads: seq<Thread>, measure: Thread -> nat, i: nat)
    requires i < |threads|
    ensures measure(threads[i]) <= Total(threads, measure)
  {
    if i > 0 {
      TotalAtLeast(threads[1..], measure, i - 1);
    }
  }

  lemma {:induction false} TotalZero(threads: seq<Thread>, measure: Thread -> nat)
    requires forall i :: 0 <= i < |threads| ==> measure(threads[i]) == 0
    ensures Total(threads, measure) == 0
  {
    if threads != [] {
      TotalZero(threads[1..], measure);
    }
  }

  // ---------------------------------------------------------------- the invariant

  /** What holds at every moment, however the destroyer behaves. */
  ghost predicate Invariant(w: World)
  {
    && w.half >= 4
    && Bounded(w)
    && (forall i :: 0 <= i < |w.threads| ==> ThreadOk(w, w.threads[i]))
    && Total(w.threads, Destroyers()) + w.deallocated == w.destroyed
    && w.freed == (if w.kind == Stack then 0 else w.deallocated)
    && w.word == Encoded(w.half, w.kind, Outstanding(w))
    && (w.kind == Static ==> w.destroyed == 0)
    && (w.kind != Static && Outstanding(w) == 0 ==> w.destroyed > 0)
  }

  /** A thread in the middle of a call has what the call needs; on a static object no call has a middle. */
  ghost predicate ThreadOk(w: World, t: Thread)
  {
    && (t.pc.Retaining? ==> t.held >= 1 || t.destroying > 0)
    && (t.pc.Releasing? ==> t.held >= 1 && t.pc.n <= t.held)
    && (w.kind == Static ==> t.pc == Idle && t.destroying == 0)
  }

  lemma InitiallyInvariant(w: World)
    requires Initially(w) && Bounded(w)
    ensures Invariant(w)
  {
    TotalZero(w.threads, Destroyers());
  }

  /** Every atomic step of every thread keeps the invariant. */
  lemma StepKeepsInvariant(w: World, i: nat, step: Step, w': World)
    requires Invariant(w) && Steps(w, i, step, w') && Bounded(w')
    ensures Invariant(w')
  {
    var t := w.threads[i];
    TotalAtLeast(w.threads, Held(), i);
    TotalAtLeast(w.threads, Destroyers(), i);
    match step
    case RetainLoad(n) => RetainLoadKeeps(w, i, n, w');
    case RetainAdd => RetainAddKeeps(w, i, w');
    case ReleaseLoad(n) => ReleaseLoadKeeps(w, i, n, w');
    case ReleaseSub => ReleaseSubKeeps(w, i, w');
    case Deallocate => DeallocateKeeps(w, i, w');
    case Give(to, n) => GiveKeeps(w, i, to, n, w');
  }

  lemma ThreadsAfter(w: World, i: nat, t: Thread)
    requires i < |w.threads|
    ensures Outstanding(WithThread(w, i, t)) == Outstanding(w) - w.threads[i].held + t.held
    ensures Total(WithThread(w, i, t).threads, Destroyers()) ==
            Total(w.threads, Destroyers()) - Destroyers()(w.threads[i]) + Destroyers()(t)
  {
    TotalUpdate(w.threads, Held(), i, t);
    TotalUpdate(w.threads, Destroyers(), i, t);
  }

  lemma RetainLoadKeeps(w: World, i: nat, n: nat, w': World)
    requires Invariant(w) && Steps(w, i, RetainLoad(n), w') && Bounded(w')
    ensures Invariant(w')
  {
    ThreadsAfter(w, i, w'.threads[i]);
  }

  lemma RetainAddKeeps(w: World, i: nat, w': World)
    requires Invariant(w) && Steps(w, i, RetainAdd, w') && Bounded(w')
    ensures Invariant(w')
  {
    ThreadsAfter(w, i, w'.threads[i]);
    TotalAtLeast(w.threads, Held(), i);
    WordArithmetic(w.half, w.kind, Outstanding(w), w.threads[i].pc.n);
  }

  lemma ReleaseLoadKeeps(w: World, i: nat, n: nat, w': World)
    requires Invariant(w) && Steps(w, i, ReleaseLoad(n), w') && Bounded(w')
    ensures Invariant(w')
  {
    ThreadsAfter(w, i, w'.threads[i]);
  }

  lemma ReleaseSubKeeps(w: World, i: nat, w': World)
    requires Invariant(w) && Steps(w, i, ReleaseSub, w') && Bounded(w')
    ensures Invariant(w')
  {
    ThreadsAfter(w, i, w'.threads[i]);
    TotalAtLeast(w.threads, Held(), i);
    WordArithmetic(w.half, w.kind, Outstanding(w), w.threads[i].pc.n);
  }

  lemma DeallocateKeeps(w: World, i: nat, w': World)
    requires Invariant(w) && Steps(w, i, Deallocate, w') && Bounded(w')
    ensures Invariant(w')
  {
    ThreadsAfter(w, i, w'.threads[i]);
    TotalAtLeast(w.threads, Destroyers(), i);
  }

  lemma GiveKeeps(w: World, i: nat, to: nat, n: nat, w': World)
    requires Invariant(w) && Steps(w, i, Give(to, n), w') && Bounded(w')
    ensures Invariant(w')
  {
    var mid := WithThread(w, i, w'.threads[i]);
    ThreadsAfter(w, i, w'.threads[i]);
    ThreadsAfter(mid, to, w'.threads[to]);
  }

  // ---------------------------------------------------------------- every interleaving

  /** In every world the invariant allows, each thread can take every step its own state allows, whatever the
      others are in the middle of: no interleaving is left out. What a release needs it always has. */
  lemma EveryInterleaving(w: World, i: nat, step: Step)
    requires Invariant(w) && i < |w.threads|
    requires step.Give? ==> step.to < |w.threads| && step.to != i
    ensures var t := w.threads[i];
            (exists w' :: Steps(w, i, step, w')) <==>
            match step
            case RetainLoad(n) => t.pc == Idle && (t.held >= 1 || t.destroying > 0)
            case RetainAdd => t.pc.Retaining?
            case ReleaseLoad(n) => t.pc == Idle && 1 <= t.held && n <= t.held
            case ReleaseSub => t.pc.Releasing?
            case Deallocate => t.pc == Idle && t.destroying > 0
            case Give(to, n) => t.pc == Idle && n <= t.held
  {
    assert ThreadOk(w, w.threads[i]);
    if Ready(w.threads[i], step) {
      assert Steps(w, i, step, After(w, i, step));
    }
  }

  function Pair(half: nat, word: nat, t: Thread, u: Thread, destroyed: nat): World
  {
    World(half, Heap, word, [t, u], destroyed, 0, 0)
  }

  lemma PairFacts(half: nat, word: nat, t: Thread, u: Thread, destroyed: nat)
    ensures Outstanding(Pair(half, word, t, u, destroyed)) == t.held + u.held
  {
    assert [t, u][1..] == [u] && [u][1..] == [];
    assert Total([u], Held()) == u.held + Total([], Held());
  }

  /** Two threads share an object, retain it side by side and release it side by side. */
  function SideBySideRun(half: nat): (seq<World>, seq<Move>)
    requires half >= 8
  {
    var one := Thread(1, Idle, 0);
    ([Pair(half, 1, one, Thread(0, Idle, 0), 0),
      Pair(half, 1, Thread(1, Retaining(1), 0), Thread(0, Idle, 0), 0),
      Pair(half, 2, Thread(2, Idle, 0), Thread(0, Idle, 0), 0),
      Pair(half, 2, one, one, 0),
      Pair(half, 2, Thread(1, Retaining(1), 0), one, 0),
      Pair(half, 2, Thread(1, Retaining(1), 0), Thread(1, Retaining(1), 0), 0),
      Pair(half, 3, Thread(2, Idle, 0), Thread(1, Retaining(1), 0), 0),
      Pair(half, 4, Thread(2, Idle, 0), Thread(2, Idle, 0), 0),
      Pair(half, 4, Thread(2, Releasing(2), 0), Thread(2, Idle, 0), 0),
      Pair(half, 4, Thread(2, Releasing(2), 0), Thread(2, Releasing(2), 0), 0),
      Pair(half, 2, Thread(0, Idle, 0), Thread(2, Releasing(2), 0), 0),
      Pair(half, 0, Thread(0, Idle, 0), Thread(0, Idle, 1), 1)],
     [Move(0, RetainLoad(1)), Move(0, RetainAdd), Move(0, Give(1, 1)),
      Move(0, RetainLoad(1)), Move(1, RetainLoad(1)), Move(0, RetainAdd), Move(1, RetainAdd),
      Move(0, ReleaseLoad(2)), Move(1, ReleaseLoad(2)), Move(0, ReleaseSub), Move(1, ReleaseSub)])
  }

  /** Both loads come before either read-modify-write, and it is a run. */
  lemma CallsOverlap(half: nat)
    requires half >= 8
    ensures var (worlds, moves) := SideBySideRun(half);
            && Run(worlds, moves)
            && worlds[5].threads[0].pc.Retaining? && worlds[5].threads[1].pc.Retaining?
            && worlds[9].threads[0].pc.Releasing? && worlds[9].threads[1].pc.Releasing?
            && worlds[11].destroyed == 1 && Outstanding(worlds[11]) == 0
  {
    hide Added, Subtracted, Total, Held;
    var (worlds, moves) := SideBySideRun(half);
    SmallWords(half);
    forall k | 0 <= k < 12 ensures Outstanding(worlds[k]) == worlds[k].threads[0].held + worlds[k].threads[1].held {
      var w := worlds[k];
      PairFacts(half, w.word, w.threads[0], w.threads[1], w.destroyed);
    }
    forall k | 0 <= k < 11 ensures Steps(worlds[k], moves[k].thread, moves[k].step, worlds[k + 1]) {
    }
  }

  lemma SmallWords(half: nat)
    requires half >= 8
    ensures Added(half, 1, 1) == 2 && Added(half, 2, 1) == 3 && Added(half, 3, 1) == 4
    ensures Subtracted(half, 4, 2) == 2 && Subtracted(half, 2, 2) == 0
    ensures Masked(half, 2) == 2 && Masked(half, 0) == 0
  {
    ModSmall(2, 2 * half);
    ModSmall(3, 2 * half);
    ModSmall(4, 2 * half);
    ModSmall(0, 2 * half);
    ModSmall(2, half);
    ModSmall(0, half);
  }

  // ---------------------------------------------------------------- whole runs

  lemma {:induction false} RunKeepsInvariant(worlds: seq<World>, moves: seq<Move>, k: nat)
    requires Run(worlds, moves) && k < |worlds|
    ensures Invariant(worlds[k])
  {
    if k == 0 {
      InitiallyInvariant(worlds[0]);
    } else {
      RunKeepsInvariant(worlds, moves, k - 1);
      StepKeepsInvariant(worlds[k - 1], moves[k - 1].thread, moves[k - 1].step, worlds[k]);
    }
  }

  /** In every interleaving, at every moment, whatever the destroyer does: the word counts the outstanding
      references, its top bit tells a stack object, a static object never changes, the destroyer has started
      when no reference is left, nothing but a heap object is freed, and unique means one reference. */
  lemma EveryMomentOfEveryRun(worlds: seq<World>, moves: seq<Move>, k: nat)
    requires Run(worlds, moves) && k < |worlds|
    ensures var w := worlds[k];
            && (w.kind != Static ==> Masked(w.half, w.word) == Outstanding(w))
            && (w.kind == Static ==> w.word == Immortal(w.half) && w.destroyed == 0 == w.freed)
            && (DoNotFree(w.half, w.word) <==> w.kind == Stack)
            && (w.kind != Static && Outstanding(w) == 0 ==> w.destroyed > 0)
            && w.freed == (if w.kind == Stack then 0 else w.deallocated) <= w.deallocated <= w.destroyed
            && (w.word == 1 <==> w.kind == Heap && Outstanding(w) == 1)
            && (Quiescent(w) ==> w.deallocated == w.destroyed)
  {
    var w := worlds[k];
    RunKeepsInvariant(worlds, moves, k);
    if w.kind != Static {
      WordArithmetic(w.half, w.kind, Outstanding(w), 0);
    }
    if Quiescent(w) {
      TotalZero(w.threads, Destroyers());
    }
  }

  /** The destroyer starts in a release that gives up every outstanding reference, and in no other step. */
  lemma DestroyedByTheLastRelease(w: World, i: nat, step: Step, w': World)
    requires Invariant(w) && Steps(w, i, step, w') && Bounded(w')
    ensures w'.destroyed != w.destroyed <==> step == ReleaseSub && w.threads[i].pc.n == Outstanding(w)
    ensures w'.destroyed == w.destroyed + if w'.destroyed != w.destroyed then 1 else 0
    ensures w'.destroyed != w.destroyed ==> Outstanding(w') == 0
    ensures w.kind != Static && Outstanding(w) > 0 && Outstanding(w') == 0 ==> w'.destroyed != w.destroyed
  {
    StepKeepsInvariant(w, i, step, w');
    if step == ReleaseSub {
      ThreadsAfter(w, i, w'.threads[i]);
      TotalAtLeast(w.threads, Held(), i);
      WordArithmetic(w.half, w.kind, Outstanding(w), w.threads[i].pc.n);
    } else if step.Give? {
      var mid := WithThread(w, i, w'.threads[i]);
      ThreadsAfter(w, i, w'.threads[i]);
      ThreadsAfter(mid, step.to, w'.threads[step.to]);
    } else {
      ThreadsAfter(w, i, w'.threads[i]);
    }
  }

  // ---------------------------------------------------------------- destroyed once

  /** A release step taken after the destroyer has started. */
  ghost predicate LateRelease(w: World, m: Move)
  {
    w.destroyed > 0 && m.step == ReleaseSub
  }

  ghost predicate NoLateRelease(worlds: seq<World>, moves: seq<Move>)
    requires Path(worlds, moves)
  {
    forall k :: 0 <= k < |moves| ==> !LateRelease(worlds[k], moves[k])
  }

  /** Without a late release the destroyer starts at most once, in complete and in unfinished runs. */
  lemma {:induction false} AtMostOneDestroyer(worlds: seq<World>, moves: seq<Move>, k: nat)
    requires Run(worlds, moves) && NoLateRelease(worlds, moves) && k < |worlds|
    ensures worlds[k].destroyed <= 1
  {
    if k > 0 {
      var m := moves[k - 1];
      AtMostOneDestroyer(worlds, moves, k - 1);
      RunKeepsInvariant(worlds, moves, k - 1);
      assert !LateRelease(worlds[k - 1], m);
      DestroyedByTheLastRelease(worlds[k - 1], m.thread, m.step, worlds[k]);
    }
  }

  lemma KindStays(w: World, i: nat, step: Step, w': World)
    requires Steps(w, i, step, w')
    ensures w'.kind == w.kind
  {
  }

  /** Each time the references run out, the destroyer starts once more. */
  lemma {:induction false} EmptiedAgain(worlds: seq<World>, moves: seq<Move>, j: nat, k: nat)
    requires Run(worlds, moves) && j <= k < |worlds| && worlds[0].kind != Static
    ensures worlds[k].kind == worlds[0].kind
    ensures worlds[j].destroyed <= worlds[k].destroyed
    ensures Outstanding(worlds[j]) > 0 && Outstanding(worlds[k]) == 0 ==> worlds[j].destroyed < worlds[k].destroyed
    decreases k
  {
    hide Steps, Invariant;
    if j < k {
      var m := moves[k - 1];
      EmptiedAgain(worlds, moves, j, k - 1);
      KindStays(worlds[k - 1], m.thread, m.step, worlds[k]);
      RunKeepsInvariant(worlds, moves, k - 1);
      DestroyedByTheLastRelease(worlds[k - 1], m.thread, m.step, worlds[k]);
    } else if k > 0 {
      EmptiedAgain(worlds, moves, k - 1, k - 1);
      KindStays(worlds[k - 1], moves[k - 1].thread, moves[k - 1].step, worlds[k]);
    }
  }

  /** In a run that has come to its end, all references given up and all calls returned, the destroyer has
      started exactly once — and a heap object has been freed exactly once — if and only if no release step
      was taken after it had started. */
  lemma DestroyedOnce(worlds: seq<World>, moves: seq<Move>)
    requires Run(worlds, moves) && worlds[0].kind != Static
    requires var end := worlds[|moves|]; Quiescent(end) && Outstanding(end) == 0
    ensures var end := worlds[|moves|];
            && (end.destroyed == 1 <==> NoLateRelease(worlds, moves))
            && end.freed == if end.kind == Heap then end.destroyed else 0
  {
    var last := |moves|;
    EveryMomentOfEveryRun(worlds, moves, last);
    EmptiedAgain(worlds, moves, 0, last);
    if NoLateRelease(worlds, moves) {
      AtMostOneDestroyer(worlds, moves, last);
    } else {
      var k :| 0 <= k < |moves| && LateRelease(worlds[k], moves[k]);
      var m := moves[k];
      RunKeepsInvariant(worlds, moves, k);
      assert Steps(worlds[k], m.thread, m.step, worlds[k + 1]);
      TotalAtLeast(worlds[k].threads, Held(), m.thread);
      assert ThreadOk(worlds[k], worlds[k].threads[m.thread]);
      EmptiedAgain(worlds, moves, k, last);
    }
  }

  /** The thread that moves is inside the destroyer. */
  ghost predicate ByDestroyer(w: World, m: Move)
  {
    m.thread < |w.threads| && w.threads[m.thread].destroying > 0
  }

  /** A destroyer that keeps what it retains to itself, and gives it up before it deallocates. */
  ghost predicate Contained(w: World, m: Move)
  {
    ByDestroyer(w, m) ==>
      !m.step.Give? && (m.step == Deallocate ==> w.threads[m.thread].held == 0)
  }

  ghost predicate AllContained(worlds: seq<World>, moves: seq<Move>)
    requires Path(worlds, moves)
  {
    forall k :: 0 <= k < |moves| ==> Contained(worlds[k], moves[k])
  }

  /** Nothing held, and no call under way. */
  predicate Done(t: Thread) { t.held == 0 && t.pc == Idle }

  ghost predicate OnlyDestroyers(w: World)
  {
    w.destroyed > 0 ==> forall i :: 0 <= i < |w.threads| && w.threads[i].destroying == 0 ==> Done(w.threads[i])
  }

  lemma StepKeepsOnlyDestroyers(w: World, i: nat, step: Step, w': World)
    requires Invariant(w) && OnlyDestroyers(w) && Steps(w, i, step, w') && Bounded(w')
    requires Contained(w, Move(i, step))
    ensures OnlyDestroyers(w')
  {
    DestroyedByTheLastRelease(w, i, step, w');
    StepKeepsInvariant(w, i, step, w');
    if w'.destroyed > 0 {
      forall j | 0 <= j < |w'.threads| && w'.threads[j].destroying == 0
        ensures Done(w'.threads[j])
      {
        assert ThreadOk(w', w'.threads[j]);
        TotalAtLeast(w'.threads, Held(), j);
      }
    }
  }

  /** Once the destroyer has started, only threads inside it hold a reference or are inside a call: it is
      they who take late releases, and no one else. */
  lemma {:induction false} NothingAfterTheLastRelease(worlds: seq<World>, moves: seq<Move>, k: nat)
    requires Run(worlds, moves) && AllContained(worlds, moves) && k < |worlds|
    ensures OnlyDestroyers(worlds[k])
    ensures k < |moves| && LateRelease(worlds[k], moves[k]) ==> ByDestroyer(worlds[k], moves[k])
  {
    if k > 0 {
      var m := moves[k - 1];
      NothingAfterTheLastRelease(worlds, moves, k - 1);
      RunKeepsInvariant(worlds, moves, k - 1);
      assert Contained(worlds[k - 1], m);
      StepKeepsOnlyDestroyers(worlds[k - 1], m.thread, m.step, worlds[k]);
    }
    if k < |moves| && LateRelease(worlds[k], moves[k]) {
      RunKeepsInvariant(worlds, moves, k);
      assert Steps(worlds[k], moves[k].thread, moves[k].step, worlds[k + 1]);
      assert ThreadOk(worlds[k], worlds[k].threads[moves[k].thread]);
    }
  }

  /** For a destroyer that lets no reference out, `once` therefore means that it never releases its object itself. */
  lemma DestroyedOnceWhenContained(worlds: seq<World>, moves: seq<Move>)
    requires Run(worlds, moves) && AllContained(worlds, moves) && worlds[0].kind != Static
    requires var end := worlds[|moves|]; Quiescent(end) && Outstanding(end) == 0
    ensures worlds[|moves|].destroyed == 1 <==>
            forall k :: 0 <= k < |moves| && ByDestroyer(worlds[k], moves[k]) ==> moves[k].step != ReleaseSub
  {
    DestroyedOnce(worlds, moves);
    forall k | 0 <= k < |moves| && moves[k].step == ReleaseSub
      ensures LateRelease(worlds[k], moves[k]) <==> ByDestroyer(worlds[k], moves[k])
    {
      RunKeepsInvariant(worlds, moves, k);
      NothingAfterTheLastRelease(worlds, moves, k);
      if ByDestroyer(worlds[k], moves[k]) {
        TotalAtLeast(worlds[k].threads, Destroyers(), moves[k].thread);
      }
    }
  }

  /** And if none of them takes one, deallocating is the end: no thread can ever touch the object again. */
  lemma NothingAfterDeallocation(worlds: seq<World>, moves: seq<Move>, k: nat, i: nat)
    requires Run(worlds, moves) && AllContained(worlds, moves) && NoLateRelease(worlds, moves)
    requires k < |worlds| && i < |worlds[k].threads| && worlds[k].deallocated > 0
    ensures worlds[k].threads[i] == Thread(0, Idle, 0)
  {
    var w := worlds[k];
    RunKeepsInvariant(worlds, moves, k);
    AtMostOneDestroyer(worlds, moves, k);
    NothingAfterTheLastRelease(worlds, moves, k);
    TotalAtLeast(w.threads, Destroyers(), i);
    assert w.threads[i].destroying == 0;
    assert Done(w.threads[i]);
  }

  /** A world of one thread. */
  function Lone(half: nat, kind: Kind, word: nat, t: Thread, destroyed: nat, deallocated: nat): World
  {
    World(half, kind, word, [t], destroyed, deallocated, if kind == Stack then 0 else deallocated)
  }

  lemma LoneFacts(w: World, t: Thread)
    requires w.threads == [t]
    ensures Outstanding(w) == t.held
    ensures forall u :: WithThread(w, 0, u).threads == [u]
  {
    assert [t][1..] == [];
    assert Total([t][1..], Held()) == 0;
    forall u ensures [t][0 := u] == [u] {
    }
  }

  /** The run of a destroyer that retains and releases its own object, as a local that captures it does. */
  function SelfRetainingRun(half: nat, kind: Kind): (seq<World>, seq<Move>)
    requires half >= 4 && kind != Static
  {
    var live, dead := Encoded(half, kind, 1), Encoded(half, kind, 0);
    ([Lone(half, kind, live, Thread(1, Idle, 0), 0, 0),
      Lone(half, kind, live, Thread(1, Releasing(1), 0), 0, 0),
      Lone(half, kind, dead, Thread(0, Idle, 1), 1, 0),
      Lone(half, kind, dead, Thread(0, Retaining(1), 1), 1, 0),
      Lone(half, kind, live, Thread(1, Idle, 1), 1, 0),
      Lone(half, kind, live, Thread(1, Releasing(1), 1), 1, 0),
      Lone(half, kind, dead, Thread(0, Idle, 2), 2, 0),
      Lone(half, kind, dead, Thread(0, Idle, 1), 2, 1),
      Lone(half, kind, dead, Thread(0, Idle, 0), 2, 2)],
     [Move(0, ReleaseLoad(1)), Move(0, ReleaseSub), Move(0, RetainLoad(1)), Move(0, RetainAdd),
      Move(0, ReleaseLoad(1)), Move(0, ReleaseSub), Move(0, Deallocate), Move(0, Deallocate)])
  }

  /** It starts the destroyer twice and frees a heap object twice, on every layout, 0x8000 included, although
      every thread releases only what it holds and the destroyer lets no reference out. */
  lemma SelfRetainDestroysTwice(half: nat, kind: Kind)
    requires half >= 4 && kind != Static
    ensures var (worlds, moves) := SelfRetainingRun(half, kind);
            && Run(worlds, moves) && AllContained(worlds, moves)
            && Quiescent(worlds[8]) && Outstanding(worlds[8]) == 0
            && worlds[8].destroyed == 2 && worlds[8].freed == if kind == Heap then 2 else 0
  {
    var (worlds, moves) := SelfRetainingRun(half, kind);
    WordArithmetic(half, kind, 0, 1);
    WordArithmetic(half, kind, 1, 1);
    forall k | 0 <= k < 9 ensures Outstanding(worlds[k]) == worlds[k].threads[0].held {
      LoneFacts(worlds[k], worlds[k].threads[0]);
    }
    hide Total;
  }

  // ---------------------------------------------------------------- uniqueness

  /** The answer `unique` stays true for the thread that holds the reference, whatever the others do. */
  lemma UniqueIsStable(w: World, i: nat, j: nat, step: Step, w': World)
    requires Invariant(w) && w.word == 1 && w.destroyed == 0 && i < |w.threads| && w.threads[i].held == 1
    requires j != i && Steps(w, j, step, w')
    ensures w'.word == 1 && w'.destroyed == 0 && w'.threads[i] == w.threads[i]
    ensures Bounded(w')
  {
    TotalAtLeast(w.threads, Destroyers(), j);
    TwoAtMost(w.threads, i, j);
    assert ThreadOk(w, w.threads[j]);
    if step.Give? {
      var mid := WithThread(w, j, w'.threads[j]);
      ThreadsAfter(w, j, w'.threads[j]);
      ThreadsAfter(mid, step.to, w'.threads[step.to]);
    } else {
      assert false;
    }
  }

  lemma TwoAtMost(threads: seq<Thread>, i: nat, j: nat)
    requires i < |threads| && j < |threads| && i != j
    ensures threads[i].held + threads[j].held <= Total(threads, Held())
  {
    var without := threads[i := threads[i].(held := 0)];
    TotalUpdate(threads, Held(), i, threads[i].(held := 0));
    TotalAtLeast(without, Held(), j);
  }

  /** So between a check and the thread's own next step the object stays its alone: copy-on-write is safe. */
  lemma {:induction false} UniqueUntilOwnStep(worlds: seq<World>, moves: seq<Move>, i: nat, j: nat, k: nat)
    requires Run(worlds, moves) && j <= k < |worlds|
    requires worlds[j].word == 1 && worlds[j].destroyed == 0
    requires i < |worlds[j].threads| && worlds[j].threads[i].held == 1
    requires forall n :: j <= n < k ==> moves[n].thread != i
    ensures worlds[k].word == 1 && worlds[k].destroyed == 0 && |worlds[k].threads| == |worlds[j].threads|
    ensures worlds[k].threads[i] == worlds[j].threads[i]
    decreases k
  {
    if j < k {
      var m := moves[k - 1];
      UniqueUntilOwnStep(worlds, moves, i, j, k - 1);
      RunKeepsInvariant(worlds, moves, k - 1);
      UniqueIsStable(worlds[k - 1], i, m.thread, m.step, worlds[k]);
    }
  }

  // ---------------------------------------------------------------- why the bound is there

  /** An object whose word shows the immortal value while no call is under way keeps it for ever, bound or not. */
  lemma {:induction false} ImmortalValueSticks(worlds: seq<World>, moves: seq<Move>, j: nat, k: nat)
    requires Path(worlds, moves) && j <= k < |worlds|
    requires worlds[j].word == worlds[j].half - 1 && Quiescent(worlds[j])
    ensures worlds[k].word == worlds[j].word && worlds[k].half == worlds[j].half && Quiescent(worlds[k])
    ensures worlds[k].destroyed == worlds[j].destroyed && worlds[k].freed == worlds[j].freed
    decreases k
  {
    if j < k {
      ImmortalValueSticks(worlds, moves, j, k - 1);
      assert Steps(worlds[k - 1], moves[k - 1].thread, moves[k - 1].step, worlds[k]);
    }
  }

  /** A path that retains a new heap object up to that value and then gives everything up. */
  function LeakingPath(half: nat): (seq<World>, seq<Move>)
    requires half >= 4
  {
    ([Lone(half, Heap, 1, Thread(1, Idle, 0), 0, 0),
      Lone(half, Heap, 1, Thread(1, Retaining(half - 3), 0), 0, 0),
      Lone(half, Heap, half - 2, Thread(half - 2, Idle, 0), 0, 0),
      Lone(half, Heap, half - 2, Thread(half - 2, Retaining(1), 0), 0, 0),
      Lone(half, Heap, half - 1, Thread(half - 1, Idle, 0), 0, 0),
      Lone(half, Heap, half - 1, Thread(0, Idle, 0), 0, 0)],
     [Move(0, RetainLoad(half - 3)), Move(0, RetainAdd), Move(0, RetainLoad(1)), Move(0, RetainAdd),
      Move(0, ReleaseLoad(half - 1))])
  }

  /** On every layout it starts as a run, leaves the bound with the last retain, and ends without a reference
      and without the destroyer; by ImmortalValueSticks the destroyer never starts afterwards. */
  lemma UnboundedCountLeaks(half: nat)
    requires half >= 4
    ensures var (worlds, moves) := LeakingPath(half);
            && Path(worlds, moves) && Run(worlds[..4], moves[..3]) && !Bounded(worlds[4])
            && Outstanding(worlds[5]) == 0 == worlds[5].destroyed
            && worlds[5].word == half - 1 && Quiescent(worlds[5])
  {
    var (worlds, moves) := LeakingPath(half);
    ModSmall(half - 2, 2 * half);
    ModSmall(half - 1, 2 * half);
    forall k | 0 <= k < 6 ensures Outstanding(worlds[k]) == worlds[k].threads[0].held {
      LoneFacts(worlds[k], worlds[k].threads[0]);
    }
    hide Total;
  }
}
