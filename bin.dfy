/**
 * A slab bin (src/allocators/bin.rs): the runs of one object size, searched first-fit in
 * vector order, with a fresh one-page run requested from the chunk manager when every run
 * refuses.
 *
 * `Run::alloc` is a parameter `runAlloc`: a function from a run to `None` (no free slot,
 * run unchanged) or the updated run and the slot's address. The chunk manager is seen
 * through the answers its `allocate_chunk` gives, one per call, in order; once they run
 * out it answers `None`.
 */
module SlabBin {
  import opened Common
  import R = SlabRun

  /** `page_size` and `run_size` of `add_run`: one run is one page. */
  const RUN_SIZE: nat := 4096
  const DIVIDE_BY_ZERO: string := "attempt to divide by zero"

  type RunAllocator = R.Run -> Option<(R.Run, nat)>

  /** The answers still to come after one `allocate_chunk` call. */
  function Rest(answers: seq<Option<nat>>): seq<Option<nat>>
  {
    if answers == [] then [] else answers[1..]
  }

  /** The chunk manager, as the sequence of answers its `allocate_chunk` will give. */
  class ChunkManager {
    var answers: seq<Option<nat>>

    constructor (answers: seq<Option<nat>>)
      ensures this.answers == answers
    {
      this.answers := answers;
    }

    /** `allocate_chunk(size)`: the next answer, `None` once they run out. */
    method AllocateChunk(size: nat) returns (r: Option<nat>)
      modifies this
      ensures r == (if old(answers) == [] then None else old(answers)[0])
      ensures answers == Rest(old(answers))
    {
      if answers == [] {
        return None;
      }
      r := answers[0];
      answers := answers[1..];
    }
  }

  /**
   * The `for` loop of `alloc` from run `i` on: the index of the first run that yields a
   * slot, with its updated run and the slot's address.
   */
  function TryRuns(runs: seq<R.Run>, runAlloc: RunAllocator, i: nat): (r: Option<(nat, R.Run, nat)>)
    requires i <= |runs|
    ensures r.Some? ==> i <= r.value.0 < |runs| && runAlloc(runs[r.value.0]) == Some((r.value.1, r.value.2))
    ensures r.Some? ==> forall j :: i <= j < r.value.0 ==> runAlloc(runs[j]).None?
    ensures r.None? ==> forall j :: i <= j < |runs| ==> runAlloc(runs[j]).None?
    decreases |runs| - i
  {
    if i == |runs| then None
    else match runAlloc(runs[i])
      case Some((run', ptr)) => Some((i, run', ptr))
      case None => TryRuns(runs, runAlloc, i + 1)
  }

  /**
   * `add_run`: take a chunk (`None` is passed on by `?`), divide the run size by the object
   * size (a zero object size is the division panic) and push a run over the chunk.
   */
  function AddRunSpec(objectSize: nat, runs: seq<R.Run>, answers: seq<Option<nat>>)
    : (seq<R.Run>, seq<Option<nat>>, Outcome<Option<()>>)
  {
    var chunk := if answers == [] then None else answers[0];
    match chunk
    case None => (runs, Rest(answers), Return(None))
    case Some(ptr) =>
      if objectSize == 0 then (runs, Rest(answers), Panic(DIVIDE_BY_ZERO))
      else (runs + [R.New(ptr, objectSize, RUN_SIZE / objectSize)], Rest(answers), Return(Some(())))
  }

  /** `alloc`: first fit over the runs; otherwise add a run and try again. */
  function AllocSpec(objectSize: nat, runs: seq<R.Run>, answers: seq<Option<nat>>, runAlloc: RunAllocator)
    : (seq<R.Run>, seq<Option<nat>>, Outcome<Option<nat>>)
    decreases |answers|
  {
    match TryRuns(runs, runAlloc, 0)
    case Some((i, run', ptr)) => (runs[i := run'], answers, Return(Some(ptr)))
    case None =>
      var (runs', answers', added) := AddRunSpec(objectSize, runs, answers);
      match added
      case Panic(m) => (runs', answers', Panic(m))
      case Return(None) => (runs', answers', Return(None))
      case Return(Some(_)) => AllocSpec(objectSize, runs', answers', runAlloc)
  }

  class Bin {
    const objectSize: nat
    var runs: seq<R.Run>

    /** `Bin::new`: the given object size and no runs. */
    constructor (objectSize: nat)
      ensures this.objectSize == objectSize && runs == []
      ensures ObjectSize() == objectSize
    {
      this.objectSize := objectSize;
      runs := [];
    }

    /** `object_size()`. */
    function ObjectSize(): nat
    {
      objectSize
    }

    /** `add_run`. */
    method AddRun(cm: ChunkManager) returns (r: Outcome<Option<()>>)
      modifies this, cm
      ensures (runs, cm.answers, r) == AddRunSpec(objectSize, old(runs), old(cm.answers))
    {
      var chunk := cm.AllocateChunk(RUN_SIZE);
      if chunk.None? {
        return Return(None);
      }
      if objectSize == 0 {
        return Panic(DIVIDE_BY_ZERO);
      }
      var numObjects := RUN_SIZE / objectSize;
      runs := runs + [R.New(chunk.value, objectSize, numObjects)];
      r := Return(Some(()));
    }

    /** `alloc(chunk_manager, size, align)`; `size` and `align` are unused, as in the source. */
    method Alloc(cm: ChunkManager, size: nat, align: nat, runAlloc: RunAllocator) returns (r: Outcome<Option<nat>>)
      modifies this, cm
      ensures (runs, cm.answers, r) == AllocSpec(objectSize, old(runs), old(cm.answers), runAlloc)
      decreases |cm.answers|
    {
      var i := 0;
      while i < |runs|
        invariant 0 <= i <= |runs| && runs == old(runs) && cm.answers == old(cm.answers)
        invariant TryRuns(runs, runAlloc, i) == TryRuns(runs, runAlloc, 0)
      {
        match runAlloc(runs[i]) {
          case Some((run', ptr)) =>
            runs := runs[i := run'];
            return Return(Some(ptr));
          case None =>
        }
        i := i + 1;
      }
      var added := AddRun(cm);
      match added {
        case Panic(m) =>
          return Panic(m);
        case Return(None) =>
          return Return(None);
        case Return(Some(_)) =>
      }
      r := Alloc(cm, size, align, runAlloc);
    }
  }

  /**
   * When some run yields a slot, `alloc` returns the slot of the first such run in vector
   * order, updates that run alone and asks the chunk manager for nothing.
   */
  lemma FirstFitWins(objectSize: nat, runs: seq<R.Run>, answers: seq<Option<nat>>, runAlloc: RunAllocator, i: nat)
    requires i < |runs| && runAlloc(runs[i]).Some?
    requires forall j :: 0 <= j < i ==> runAlloc(runs[j]).None?
    ensures AllocSpec(objectSize, runs, answers, runAlloc) ==
      (runs[i := runAlloc(runs[i]).value.0], answers, Return(Some(runAlloc(runs[i]).value.1)))
  {
  }

  /** The number of chunk answers before the first `None` (or the end). */
  function LeadingChunks(answers: seq<Option<nat>>): (n: nat)
    ensures n <= |answers|
  {
    if answers == [] || answers[0].None? then 0 else 1 + LeadingChunks(answers[1..])
  }

  /**
   * `alloc` only ever appends runs: every run it started with that refuses is still there
   * unchanged; a run is added only after every one of them refused and the chunk manager
   * gave a chunk; and with no chunk to be had after a full refusal it returns `None` having
   * added nothing.
   */
  lemma {:induction false} AllocAppendsOnly(objectSize: nat, runs: seq<R.Run>, answers: seq<Option<nat>>, runAlloc: RunAllocator)
    ensures var (runs', _, r) := AllocSpec(objectSize, runs, answers, runAlloc);
      |runs'| >= |runs| &&
      (forall j :: 0 <= j < |runs| && runAlloc(runs[j]).None? ==> runs'[j] == runs[j]) &&
      (|runs'| > |runs| ==>
        runs'[..|runs|] == runs && answers != [] && answers[0].Some? && objectSize > 0 &&
        forall j :: 0 <= j < |runs| ==> runAlloc(runs[j]).None?)
    ensures (forall j :: 0 <= j < |runs| ==> runAlloc(runs[j]).None?) && (answers == [] || answers[0].None?) ==>
      AllocSpec(objectSize, runs, answers, runAlloc) == (runs, Rest(answers), Return(None))
    decreases |answers|
  {
    match TryRuns(runs, runAlloc, 0)
    case Some(_) =>
    case None =>
      var (runs', answers', added) := AddRunSpec(objectSize, runs, answers);
      if added == Return(Some(())) {
        AllocAppendsOnly(objectSize, runs', answers', runAlloc);
        var (runs'', _, _) := AllocSpec(objectSize, runs', answers', runAlloc);
        assert AllocSpec(objectSize, runs, answers, runAlloc).0 == runs'';
        forall j | 0 <= j < |runs|
          ensures runs''[j] == runs[j]
        {
          assert runs'[j] == runs[j];
        }
        assert runs''[..|runs|] == runs;
      }
  }

  /**
   * With objects larger than a page every new run has no slots; when `runAlloc` refuses
   * empty runs and every existing run, `alloc` takes chunk after chunk, wraps each in a
   * useless run, and returns `None` once the chunk manager refuses.
   */
  lemma {:induction false} OversizedObjectsExhaustChunks(objectSize: nat, runs: seq<R.Run>, answers: seq<Option<nat>>, runAlloc: RunAllocator)
    requires objectSize > RUN_SIZE
    requires forall j :: 0 <= j < |runs| ==> runAlloc(runs[j]).None?
    requires forall run: R.Run :: run.numObjects == 0 ==> runAlloc(run).None?
    ensures var (runs', answers', r) := AllocSpec(objectSize, runs, answers, runAlloc);
      r == Return(None) && |runs'| == |runs| + LeadingChunks(answers) &&
      runs'[..|runs|] == runs &&
      (forall j :: |runs| <= j < |runs'| ==> runs'[j].numObjects == 0) &&
      answers' == Rest(answers[LeadingChunks(answers)..])
    decreases |answers|
  {
    if answers != [] && answers[0].Some? {
      var runs' := runs + [R.New(answers[0].value, objectSize, RUN_SIZE / objectSize)];
      assert RUN_SIZE / objectSize == 0;
      assert runAlloc(runs'[|runs|]).None?;
      OversizedObjectsExhaustChunks(objectSize, runs', answers[1..], runAlloc);
      var (runs'', _, _) := AllocSpec(objectSize, runs', answers[1..], runAlloc);
      assert runs''[..|runs|] == runs''[..|runs'|][..|runs|];
      assert answers[LeadingChunks(answers)..] == answers[1..][LeadingChunks(answers[1..])..];
    }
  }

  /**
   * The run `add_run` pushes starts at the chunk, spans `4096 / object_size` slots that fit
   * in the page, and its header (written at the chunk start) lies in slot 0.
   */
  lemma AddRunGeometry(objectSize: nat, runs: seq<R.Run>, answers: seq<Option<nat>>)
    requires AddRunSpec(objectSize, runs, answers).2 == Return(Some(()))
    ensures var run := AddRunSpec(objectSize, runs, answers).0[|runs|];
      run == R.New(answers[0].value, objectSize, RUN_SIZE / objectSize) &&
      run.numObjects * run.objectSize <= RUN_SIZE &&
      RUN_SIZE - run.numObjects * run.objectSize < run.objectSize &&
      (forall ptr: nat :: R.Contains(run, ptr) ==> run.start <= ptr < run.start + RUN_SIZE) &&
      (run.numObjects > 0 ==> R.SlotAddress(run, 0) == run.start && R.Contains(run, run.start))
  {
    var n := RUN_SIZE / objectSize;
    R.DivBounds(RUN_SIZE, objectSize);
  }

  /**
   * A page-sized run has more slots than its 256-bit bitmap can track exactly when the
   * object size is below 16 bytes.
   */
  lemma PageRunFitsBitmap(objectSize: nat)
    requires objectSize > 0
    ensures RUN_SIZE / objectSize <= R.BITMAP_BITS <==> objectSize >= 16
  {
    R.DivBounds(RUN_SIZE, objectSize);
    if objectSize >= 16 {
      R.MulMono(16, objectSize, RUN_SIZE / objectSize);
    } else {
      R.MulMono(objectSize, 15, RUN_SIZE / objectSize);
    }
  }
}
