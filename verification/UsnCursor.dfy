/** The update sequence number (USN) up to which the account has been synchronized. */
module UsnCursor {

  datatype Author = ThisClient | OtherClient

  /** The server's numbered changes (the change numbered u is at index u - 1) and this client's cursor.
      `processed` holds the numbers of the changes delivered in chunks whose processing was completed. */
  datatype World = World(changes: seq<Author>, running: bool, usn: nat, maxUsn: nat, savedUsn: nat, processed: set<nat>)

  /** What can happen, in any order: runs of this client begin, and may stop for any reason at any point; the chunk
      that a pull asks for has `size` changes or as many as there are, none of them when `size` is 0; a push makes one
      or more changes, of which the server reports one, unless its answer is lost; other clients make changes. */
  datatype Step =
    | Begin
    | Chunk(size: nat, completed: bool)
    | Push(changeCount: nat, reported: nat, answered: bool)
    | Stop
    | OthersChange(count: nat)

  function Repeated(a: Author, n: nat): (s: seq<Author>)
    ensures |s| == n && forall i :: 0 <= i < n ==> s[i] == a
  {
    seq(n, i => a)
  }

  function Min(a: nat, b: nat): nat {
    if a <= b then a else b
  }

  /** The highest number in the chunk after `usn`; the field is unset, and reads as 0, when the chunk is empty. */
  function ChunkHighUsn(changes: seq<Author>, usn: nat, size: nat): nat {
    if size == 0 then 0 else Min(usn + size, |changes|)
  }

  function Numbers(lo: nat, hi: nat): (s: set<nat>)
    ensures forall u :: u in s <==> lo < u <= hi
  {
    if hi <= lo then {} else Numbers(lo, hi - 1) + {hi}
  }

  /** The number reported for a push: one of those of its changes. */
  function ReportedUsn(changes: seq<Author>, changeCount: nat, reported: nat): nat {
    |changes| + 1 + Min(reported, changeCount)
  }

  function After(w: World, step: Step): World {
    match step
    case Begin => w.(running := true, usn := w.savedUsn, maxUsn := |w.changes|)
    case Stop => w.(running := false)
    case OthersChange(count) => w.(changes := w.changes + Repeated(OtherClient, count))
    case Chunk(size, completed) =>
      if !w.running || w.usn >= w.maxUsn then w
      else if !completed then w.(running := false)
      else
        var high := ChunkHighUsn(w.changes, w.usn, size);
        w.(usn := high, maxUsn := |w.changes|, savedUsn := high, processed := w.processed + Numbers(w.usn, high))
    case Push(changeCount, reported, answered) =>
      if !w.running || w.usn < w.maxUsn then w else
        var w' := w.(changes := w.changes + Repeated(ThisClient, changeCount + 1));
        if !answered then w'.(running := false)
        else if ReportedUsn(w.changes, changeCount, reported) == w.usn + 1
            then w'.(usn := w.usn + 1, savedUsn := w.usn + 1)
        else w'
  }

  function Run(w: World, steps: seq<Step>): World {
    if steps == [] then w else After(Run(w, steps[..|steps| - 1]), steps[|steps| - 1])
  }

  const NEW_ACCOUNT := World([], false, 0, 0, 0, {})

  predicate IsCovered(w: World, u: nat)
    requires 1 <= u <= |w.changes|
  {
    u in w.processed || w.changes[u - 1] == ThisClient
  }

  /** Every change numbered at or below the saved cursor was processed or is this client's own. */
  ghost predicate CursorIsSafe(w: World) {
    w.savedUsn <= |w.changes| && forall u :: 1 <= u <= w.savedUsn ==> IsCovered(w, u)
  }

  ghost predicate Inv(w: World) {
    && CursorIsSafe(w)
    && w.usn <= |w.changes| && w.maxUsn <= |w.changes|
    && (w.running ==> w.usn == w.savedUsn)
  }

  lemma StepKeepsInv(w: World, step: Step)
    requires Inv(w)
    ensures Inv(After(w, step))
  {
    var w' := After(w, step);
    forall u | 1 <= u <= w'.savedUsn ensures u <= |w'.changes| && IsCovered(w', u) {
      if u <= w.savedUsn {
        assert IsCovered(w, u);
      }
    }
  }

  lemma {:induction false} RunKeepsInv(w: World, steps: seq<Step>)
    requires Inv(w)
    ensures Inv(Run(w, steps))
  {
    if steps != [] {
      RunKeepsInv(w, steps[..|steps| - 1]);
      StepKeepsInv(Run(w, steps[..|steps| - 1]), steps[|steps| - 1]);
    }
  }

  /** Whatever other clients do and wherever runs stop, no change of another client is ever skipped by the cursor. */
  lemma NoChangeIsSkipped(steps: seq<Step>, u: nat)
    ensures var w := Run(NEW_ACCOUNT, steps);
            && w.savedUsn <= |w.changes|
            && (1 <= u <= w.savedUsn && w.changes[u - 1] == OtherClient ==> u in w.processed)
  {
    RunKeepsInv(NEW_ACCOUNT, steps);
    var w := Run(NEW_ACCOUNT, steps);
    if 1 <= u <= w.savedUsn {
      assert IsCovered(w, u);
    }
  }

  /** The saved cursor goes back in exactly one case: a chunk that leaves its highest number unset is processed. */
  lemma CursorGoesBackIff(w: World, step: Step)
    requires Inv(w)
    ensures After(w, step).savedUsn < w.savedUsn
            <==> w.running && w.usn < w.maxUsn && w.savedUsn > 0 && step.Chunk? && step.completed && step.size == 0
  {
  }

  /** It can happen: the second run here is told of one more change, and gets an empty chunk. */
  lemma EmptyChunkMovesCursorBack()
    ensures var before := [OthersChange(1), Begin, Chunk(1, true), OthersChange(1), Begin];
            && Run(NEW_ACCOUNT, before).savedUsn == 1
            && Run(NEW_ACCOUNT, before + [Chunk(0, true)]).savedUsn == 0
  {
    hide After, Run;
    var s1, s2, s3 := [OthersChange(1)], [OthersChange(1), Begin], [OthersChange(1), Begin, Chunk(1, true)];
    var s4 := [OthersChange(1), Begin, Chunk(1, true), OthersChange(1)];
    var s5 := [OthersChange(1), Begin, Chunk(1, true), OthersChange(1), Begin];
    assert s2 == s1 + [Begin] && s3 == s2 + [Chunk(1, true)] && s4 == s3 + [OthersChange(1)] && s5 == s4 + [Begin];
    RunOne(NEW_ACCOUNT, OthersChange(1));
    RunAppend(NEW_ACCOUNT, s1, Begin);
    RunAppend(NEW_ACCOUNT, s2, Chunk(1, true));
    RunAppend(NEW_ACCOUNT, s3, OthersChange(1));
    RunAppend(NEW_ACCOUNT, s4, Begin);
    RunAppend(NEW_ACCOUNT, s5, Chunk(0, true));
    TwoChunks();
  }

  lemma TwoChunks()
    ensures var w3 := After(After(After(NEW_ACCOUNT, OthersChange(1)), Begin), Chunk(1, true));
            var w := After(After(w3, OthersChange(1)), Begin);
            w.savedUsn == 1 && After(w, Chunk(0, true)).savedUsn == 0
  {
  }

  /** A push moves the cursor by one, and over a change of its own, exactly when it is answered, nothing has come
      between what was seen and its changes, and the change that is reported is the first of them. */
  lemma PushAdvancesIff(w: World, step: Step)
    requires Inv(w) && step.Push?
    ensures var w' := After(w, step);
            var advances := w.running && w.usn >= w.maxUsn && step.answered && w.usn == |w.changes|
                && (step.reported == 0 || step.changeCount == 0);
            && w'.savedUsn == (if advances then w.savedUsn + 1 else w.savedUsn)
            && (advances ==> w'.usn == w'.savedUsn && w'.changes[w.savedUsn] == ThisClient)
            && (w'.changes != w.changes <==> w.running && w.usn >= w.maxUsn)
  {
    if w.running && w.usn >= w.maxUsn {
      assert |After(w, step).changes| == |w.changes| + step.changeCount + 1;
    }
  }

  lemma RunAppend(w: World, steps: seq<Step>, step: Step)
    ensures Run(w, steps + [step]) == After(Run(w, steps), step)
  {
    assert (steps + [step])[..|steps|] == steps;
  }

  lemma RunOne(w: World, step: Step)
    ensures Run(w, [step]) == After(w, step)
  {
    assert [step][..0] == [];
    assert Run(w, []) == w;
  }

  predicate IsGoodChunk(step: Step) {
    step.Chunk? && step.completed && step.size > 0
  }

  lemma {:induction false} ChunksDeliver(w: World, steps: seq<Step>)
    requires Inv(w) && w.running && w.maxUsn == |w.changes|
    requires forall i :: 0 <= i < |steps| ==> IsGoodChunk(steps[i])
    ensures var w' := Run(w, steps);
            && Inv(w') && w'.running && w'.changes == w.changes && w'.maxUsn == w.maxUsn
            && w.usn <= w'.usn && Min(w.usn + |steps|, |w.changes|) <= w'.usn
            && forall u :: w.usn < u <= w'.usn ==> u in w'.processed
  {
    hide After, Inv;
    if steps != [] {
      var front, step := steps[..|steps| - 1], steps[|steps| - 1];
      ChunksDeliver(w, front);
      var w1 := Run(w, front);
      assert IsGoodChunk(step);
      StepKeepsInv(w1, step);
      InvBounds(w1);
      if w1.usn < w1.maxUsn {
        ChunkDelivers(w1, step.size);
      } else {
        NothingToPull(w1, step);
      }
    }
  }

  lemma InvBounds(w: World)
    requires Inv(w)
    ensures w.usn <= |w.changes| && w.maxUsn <= |w.changes| && (w.running ==> w.usn == w.savedUsn)
  {
  }

  lemma NothingToPull(w: World, step: Step)
    requires step.Chunk? && w.usn >= w.maxUsn
    ensures After(w, step) == w
  {
  }

  /** A new run catches up with the server, as long as nothing else happens: however large the chunks are, after as many
      of them as there are new changes each of these has been processed, and the saved cursor is at the last. */
  lemma NewRunCatchesUp(w: World, steps: seq<Step>)
    requires Inv(w) && |steps| >= |w.changes| - w.savedUsn
    requires forall i :: 0 <= i < |steps| ==> IsGoodChunk(steps[i])
    ensures var w' := Run(After(w, Begin), steps);
            w'.savedUsn == |w.changes| && forall u :: w.savedUsn < u <= |w.changes| ==> u in w'.processed
  {
    hide Run;
    StepKeepsInv(w, Begin);
    ChunksDeliver(After(w, Begin), steps);
  }

  /** How the server answers a request for a chunk, and what other clients did just before it. */
  datatype ChunkAnswer = NoChunk | ChunkOf(othersBefore: nat, size: nat, completed: bool)

  /** How the server answers a push, and what other clients did just before it. */
  datatype PushAnswer = PushAnswer(othersBefore: nat, changeCount: nat, reported: nat, answered: bool)

  class Synchronizer {
    var usn: nat
    var maxUsn: nat
    var savedUsn: nat
    ghost var running: bool
    ghost var changes: seq<Author>
    ghost var processed: set<nat>

    ghost function State(): World
      reads this
    {
      World(changes, running, usn, maxUsn, savedUsn, processed)
    }

    constructor ()
      ensures State() == NEW_ACCOUNT
    {
      usn, maxUsn, savedUsn := 0, 0, 0;
      running, changes, processed := false, [], {};
    }

    ghost method OthersMakeChanges(count: nat)
      modifies `changes
      ensures State() == After(old(State()), OthersChange(count)) && |changes| == old(|changes|) + count
    {
      changes := changes + Repeated(OtherClient, count);
    }

    /** The reply to a request for the chunk after `usn`. */
    method GetSyncChunk(size: nat, updateCount: nat) returns (high: nat)
      requires updateCount == |changes|
      ensures high == ChunkHighUsn(changes, usn, size)
    {
      high := if size == 0 then 0 else Min(usn + size, updateCount);
    }

    /** Begins a run. `updateCount` is what the server reports as its change count. */
    method BeginRun(updateCount: nat)
      requires updateCount == |changes|
      modifies this
      ensures State() == After(old(State()), Begin)
      ensures changes == old(changes) && running
    {
      usn := savedUsn;
      maxUsn := updateCount;
      running := true;
    }

    /** One turn of the pull loop, ended early when processing fails. */
    method PullChunk(size: nat, completed: bool, updateCount: nat)
      requires running && usn < maxUsn && updateCount == |changes|
      modifies this
      ensures State() == After(old(State()), Chunk(size, completed))
      ensures changes == old(changes) && running == completed
    {
      if !completed {
        running := false;
        return;
      }
      var high := GetSyncChunk(size, updateCount);
      processed := processed + Numbers(usn, high);
      usn := high;
      maxUsn := updateCount;
      savedUsn := usn;
    }

    /** One push and what its answer does to the cursor. */
    method PushChange(answer: PushAnswer, updateCount: nat)
      requires running && usn >= maxUsn && updateCount == |changes|
      modifies this
      ensures State() == After(old(State()), Push(answer.changeCount, answer.reported, answer.answered))
      ensures |changes| == old(|changes|) + answer.changeCount + 1 && running == answer.answered && usn >= maxUsn
    {
      var resultUsn := updateCount + 1 + Min(answer.reported, answer.changeCount);
      changes := changes + Repeated(ThisClient, answer.changeCount + 1);
      if !answer.answered {
        running := false;
        return;
      }
      if resultUsn == usn + 1 {
        usn := usn + 1;
        savedUsn := usn;
      }
    }

    /** One run against given answers of the server; `trace` is the run as steps. */
    method Synchronize(
      chunks: seq<ChunkAnswer>, pushes: seq<PushAnswer>, updateCount: nat) returns (finished: bool,
          ghost trace: seq<Step>)
      requires updateCount == |changes|
      modifies this
      ensures State() == Run(old(State()), trace)
      ensures finished ==> usn >= maxUsn
    {
      hide After, Run;
      ghost var w0 := State();
      var count := updateCount;
      BeginRun(count);
      trace := [Begin];
      RunOne(w0, Begin);
      var c := 0;
      while usn < maxUsn
        invariant c <= |chunks| && count == |changes| && running
        invariant State() == Run(w0, trace)
        decreases |chunks| - c
      {
        if c == |chunks| || chunks[c].NoChunk? {
          RunAppend(w0, trace, Stop);
          Halt();
          return false, trace + [Stop];
        }
        var answer := chunks[c];
        OthersMakeChanges(answer.othersBefore);
        count := count + answer.othersBefore;
        RunAppend(w0, trace, OthersChange(answer.othersBefore));
        trace := trace + [OthersChange(answer.othersBefore)];
        PullChunk(answer.size, answer.completed, count);
        RunAppend(w0, trace, Chunk(answer.size, answer.completed));
        trace := trace + [Chunk(answer.size, answer.completed)];
        if !answer.completed {
          return false, trace;
        }
        c := c + 1;
      }
      for p := 0 to |pushes|
        invariant count == |changes| && running && usn >= maxUsn
        invariant State() == Run(w0, trace)
      {
        var answer := pushes[p];
        OthersMakeChanges(answer.othersBefore);
        count := count + answer.othersBefore;
        RunAppend(w0, trace, OthersChange(answer.othersBefore));
        trace := trace + [OthersChange(answer.othersBefore)];
        PushChange(answer, count);
        count := count + answer.changeCount + 1;
        RunAppend(w0, trace, Push(answer.changeCount, answer.reported, answer.answered));
        trace := trace + [Push(answer.changeCount, answer.reported, answer.answered)];
        if !answer.answered {
          return false, trace;
        }
      }
      finished := true;
    }

    method Halt()
      modifies this
      ensures State() == After(old(State()), Stop)
    {
      running := false;
    }

    /** The pull loop against a server that does not change and whose chunks are never empty: it ends, with the cursor
        at the server's count and everything delivered. */
    method PullFromQuiescentServer(sizeAfter: nat -> nat, updateCount: nat)
      requires Inv(State()) && running && updateCount == maxUsn == |changes|
      requires forall u :: sizeAfter(u) > 0
      modifies this
      ensures Inv(State()) && usn == savedUsn == maxUsn == |changes| && changes == old(changes)
      ensures forall u :: old(usn) < u <= |changes| ==> u in processed
    {
      hide After;
      while usn < maxUsn
        invariant Inv(State()) && running && changes == old(changes) && maxUsn == updateCount && old(usn) <= usn
        invariant forall u :: old(usn) < u <= usn ==> u in processed
        decreases maxUsn - usn
      {
        StepKeepsInv(State(), Chunk(sizeAfter(usn), true));
        ChunkDelivers(State(), sizeAfter(usn));
        PullChunk(sizeAfter(usn), true, updateCount);
      }
    }
  }

  /** A chunk that is not empty moves the cursor on and delivers everything up to it. */
  lemma ChunkDelivers(w: World, size: nat)
    requires Inv(w) && w.running && w.usn < w.maxUsn && size > 0
    ensures var w' := After(w, Chunk(size, true));
            && w'.running && w'.changes == w.changes && w'.maxUsn == |w.changes|
            && w.usn < w'.usn == w'.savedUsn && w'.processed >= w.processed
            && forall u :: w.usn < u <= w'.usn ==> u in w'.processed
  {
  }
}
