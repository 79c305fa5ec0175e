/** The chunk-embedding pipeline as a step system: a segmentation thread, a bridge that groups
    windows into chunks, preparation workers, a GPU worker that takes prepared chunks or steals raw
    ones, and a collector, joined by bounded channels. Any process may take the next step. */
module ChunkPipeline {
  import opened Chunking
  import opened Counting
  import opened Options

  datatype Config = Config(
    files: seq<seq<Window>>, capacity: nat,
    segBound: nat, rawBound: nat, prepBound: nat, embBound: nat,
    workers: nat)
  {
    ghost predicate Valid() {
      capacity > 0 && segBound > 0 && rawBound > 0 && prepBound > 0 && embBound > 0
    }
  }

  datatype Worker = Idle | Holding(chunk: Chunk) | Exited

  /** Where the GPU worker stands: polling the prepared channel, polling the raw channel, blocked on
      both, blocked on the prepared channel alone, holding an embedded chunk to send, or stopped. */
  datatype Gpu = PollingPrepared | PollingRaw | Selecting | AwaitingPrepared | Sending(chunk: Chunk) | Stopped

  datatype State = State(
    file: nat, produced: nat,                                        // segmentation thread
    seg: seq<Window>, group: seq<Window>, start: nat, outgoing: Option<Chunk>,  // bridge
    raw: seq<Chunk>, workers: seq<Worker>, prep: seq<Chunk>,         // preparation
    gpu: Gpu, rawDone: bool, emb: seq<Chunk>,                        // embedding
    delivered: seq<Chunk>, collectorDone: bool)                      // collector

  ghost function Init(cfg: Config): State {
    State(0, 0, [], [], 0, None, [], seq(cfg.workers, _ => Idle), [], PollingPrepared, false, [], [], false)
  }

  datatype Step =
    | Produce | NextFile
    | BridgeReceive | BridgeFlush | BridgeSend
    | WorkerReceive(i: nat) | WorkerSend(i: nat) | WorkerSendFails(i: nat) | WorkerExit(i: nat)
    | GpuTakePrepared | GpuTakeRaw | GpuPreparedEmpty | GpuPreparedClosed | GpuRawEmpty | GpuRawClosed
    | GpuSend | GpuSendFails
    | Collect | Finish
  {
    /** A step of the segmentation thread or the bridge. */
    predicate Feeds() {
      Produce? || NextFile? || BridgeReceive? || BridgeFlush? || BridgeSend?
    }
  }

  // --- Channel ends ---------------------------------------------------------------------------

  /** All raw-chunk senders are gone. */
  ghost predicate RawClosed(cfg: Config, s: State) {
    s.file == |cfg.files|
  }

  ghost predicate AllExited(s: State) {
    forall i :: 0 <= i < |s.workers| ==> s.workers[i] == Exited
  }

  ghost predicate FileProduced(cfg: Config, s: State) {
    s.file < |cfg.files| && s.produced == |cfg.files[s.file]|
  }

  ghost predicate ListensToPrepared(g: Gpu) {
    g == PollingPrepared || g == Selecting || g == AwaitingPrepared
  }

  ghost predicate ListensToRaw(g: Gpu) {
    g == PollingRaw || g == Selecting
  }

  // --- Steps ----------------------------------------------------------------------------------

  ghost predicate Enabled(cfg: Config, s: State, step: Step) {
    match step
    case Produce => s.file < |cfg.files| && s.produced < |cfg.files[s.file]| && |s.seg| < cfg.segBound
    case NextFile => FileProduced(cfg, s) && s.seg == [] && s.group == [] && s.outgoing == None
    case BridgeReceive => s.seg != [] && s.outgoing == None
    case BridgeFlush => FileProduced(cfg, s) && s.seg == [] && s.group != [] && s.outgoing == None
    case BridgeSend => s.outgoing.Some? && |s.raw| < cfg.rawBound
    case WorkerReceive(i) => i < |s.workers| && s.workers[i] == Idle && s.raw != []
    case WorkerSend(i) => i < |s.workers| && s.workers[i].Holding? && s.gpu != Stopped && |s.prep| < cfg.prepBound
    case WorkerSendFails(i) => i < |s.workers| && s.workers[i].Holding? && s.gpu == Stopped
    case WorkerExit(i) => i < |s.workers| && s.workers[i] == Idle && s.raw == [] && RawClosed(cfg, s)
    case GpuTakePrepared => ListensToPrepared(s.gpu) && s.prep != []
    case GpuTakeRaw => ListensToRaw(s.gpu) && s.raw != []
    case GpuPreparedEmpty => s.gpu == PollingPrepared && s.prep == [] && !AllExited(s)
    case GpuPreparedClosed => ListensToPrepared(s.gpu) && s.prep == [] && AllExited(s)
    case GpuRawEmpty => s.gpu == PollingRaw && s.raw == [] && !RawClosed(cfg, s)
    case GpuRawClosed => ListensToRaw(s.gpu) && s.raw == [] && RawClosed(cfg, s)
    case GpuSend => s.gpu.Sending? && !s.collectorDone && |s.emb| < cfg.embBound
    case GpuSendFails => s.gpu.Sending? && s.collectorDone
    case Collect => !s.collectorDone && s.emb != []
    case Finish => !s.collectorDone && s.emb == [] && s.gpu == Stopped
  }

  ghost function Apply(cfg: Config, s: State, step: Step): State
    requires cfg.Valid() && Enabled(cfg, s, step)
  {
    match step
    case Produce => s.(seg := s.seg + [cfg.files[s.file][s.produced]], produced := s.produced + 1)
    case NextFile => s.(file := s.file + 1, produced := 0, start := 0)
    case BridgeReceive =>
      var group := s.group + [s.seg[0]];
      if |group| == cfg.capacity
      then s.(seg := s.seg[1..], group := [], start := s.start + cfg.capacity,
              outgoing := Some(Chunk(s.file, s.start, group)))
      else s.(seg := s.seg[1..], group := group)
    case BridgeFlush => s.(group := [], outgoing := Some(Chunk(s.file, s.start, s.group)))
    case BridgeSend => s.(raw := s.raw + [s.outgoing.value], outgoing := None)
    case WorkerReceive(i) => s.(raw := s.raw[1..], workers := s.workers[i := Holding(s.raw[0])])
    case WorkerSend(i) => s.(prep := s.prep + [s.workers[i].chunk], workers := s.workers[i := Idle])
    case WorkerSendFails(i) => s.(workers := s.workers[i := Exited])
    case WorkerExit(i) => s.(workers := s.workers[i := Exited])
    case GpuTakePrepared => s.(prep := s.prep[1..], gpu := Sending(s.prep[0]))
    case GpuTakeRaw => s.(raw := s.raw[1..], gpu := Sending(s.raw[0]))
    case GpuPreparedEmpty => s.(gpu := if s.rawDone then AwaitingPrepared else PollingRaw)
    case GpuPreparedClosed => s.(gpu := Stopped)
    case GpuRawEmpty => s.(gpu := Selecting)
    case GpuRawClosed => s.(gpu := AwaitingPrepared, rawDone := true)
    case GpuSend => s.(emb := s.emb + [s.gpu.chunk], gpu := PollingPrepared)
    case GpuSendFails => s.(gpu := Stopped)
    case Collect => s.(delivered := s.delivered + [s.emb[0]], emb := s.emb[1..])
    case Finish => s.(collectorDone := true)
  }

  /** `steps` is a run from s that ends in t. */
  ghost predicate Run(cfg: Config, s: State, steps: seq<Step>, t: State)
    requires cfg.Valid()
    decreases |steps|
  {
    if |steps| == 0 then s == t
    else Enabled(cfg, s, steps[0]) && Run(cfg, Apply(cfg, s, steps[0]), steps[1..], t)
  }

  // --- Where the chunks are -------------------------------------------------------------------

  /** Chunks the bridge has still to hand over, in the order it will do so. */
  ghost function Future(cfg: Config, s: State): seq<Chunk>
    requires cfg.Valid() && s.file <= |cfg.files|
    requires s.file < |cfg.files| ==> s.produced <= |cfg.files[s.file]|
  {
    (if s.outgoing.Some? then [s.outgoing.value] else [])
    + if s.file == |cfg.files| then []
      else ChunksFrom(cfg.capacity, s.file, s.start, s.group + s.seg + cfg.files[s.file][s.produced..])
           + AllFrom(cfg.capacity, cfg.files, s.file + 1)
  }

  ghost function Is(c: Chunk, d: Chunk): nat {
    if c == d then 1 else 0
  }

  /** How often `c` occurs in the queue. */
  ghost function Count(q: seq<Chunk>, c: Chunk): nat {
    if |q| == 0 then 0 else Is(q[0], c) + Count(q[1..], c)
  }

  ghost function HeldBy(w: Worker, c: Chunk): nat {
    if w.Holding? then Is(w.chunk, c) else 0
  }

  ghost function Held(workers: seq<Worker>, c: Chunk): nat {
    if |workers| == 0 then 0 else HeldBy(workers[0], c) + Held(workers[1..], c)
  }

  ghost function OnGpu(g: Gpu, c: Chunk): nat {
    if g.Sending? then Is(g.chunk, c) else 0
  }

  /** How often `c` occurs among all places a chunk can be, from the bridge to the collector. */
  ghost function Places(cfg: Config, s: State, c: Chunk): nat
    requires cfg.Valid() && s.file <= |cfg.files|
    requires s.file < |cfg.files| ==> s.produced <= |cfg.files[s.file]|
  {
    Count(Future(cfg, s), c) + Count(s.raw, c) + Held(s.workers, c) + Count(s.prep, c)
    + OnGpu(s.gpu, c) + Count(s.emb, c) + Count(s.delivered, c)
  }

  lemma {:induction false} CountAppend(q: seq<Chunk>, d: Chunk, c: Chunk)
    ensures Count(q + [d], c) == Count(q, c) + Is(d, c)
  {
    if |q| == 0 {
      assert q + [d] == [d];
    } else {
      CountAppend(q[1..], d, c);
      assert (q + [d])[1..] == q[1..] + [d];
    }
  }

  lemma {:induction false} HeldUpdate(workers: seq<Worker>, i: nat, w: Worker, c: Chunk)
    requires i < |workers|
    ensures Held(workers[i := w], c) == Held(workers, c) - HeldBy(workers[i], c) + HeldBy(w, c)
  {
    if i == 0 {
      assert workers[i := w][1..] == workers[1..];
    } else {
      HeldUpdate(workers[1..], i - 1, w, c);
      assert workers[i := w][1..] == workers[1..][i - 1 := w];
    }
  }

  lemma {:induction false} NothingHeld(workers: seq<Worker>, c: Chunk)
    requires forall i :: 0 <= i < |workers| ==> !workers[i].Holding?
    ensures Held(workers, c) == 0
  {
    if |workers| == 0 {
    } else {
      NothingHeld(workers[1..], c);
    }
  }

  // --- The invariant --------------------------------------------------------------------------

  ghost predicate Shape(cfg: Config, s: State) {
    && s.file <= |cfg.files|
    && (s.file < |cfg.files| ==> s.produced <= |cfg.files[s.file]|)
    && (s.file == |cfg.files| ==> s.seg == [] && s.group == [] && s.outgoing == None)
    && |s.group| < cfg.capacity
    && |s.seg| <= cfg.segBound && |s.raw| <= cfg.rawBound && |s.prep| <= cfg.prepBound && |s.emb| <= cfg.embBound
    && |s.workers| == cfg.workers
  }

  /** Ends are reported only when they are final. */
  ghost predicate Ends(cfg: Config, s: State) {
    && (forall i :: 0 <= i < |s.workers| && s.workers[i] == Exited ==> RawClosed(cfg, s) && s.raw == [])
    && (s.rawDone ==> RawClosed(cfg, s) && s.raw == [])
    && (s.gpu == AwaitingPrepared ==> s.rawDone)
    && (s.gpu == Stopped ==> AllExited(s) && s.prep == [])
    && (s.collectorDone ==> s.gpu == Stopped && s.emb == [])
  }

  ghost predicate Inv(cfg: Config, s: State) {
    && cfg.Valid() && Shape(cfg, s) && Ends(cfg, s)
    && forall c :: Places(cfg, s, c) == Count(AllFrom(cfg.capacity, cfg.files, 0), c)
  }

  lemma InitFuture(cfg: Config)
    requires cfg.Valid()
    ensures Future(cfg, Init(cfg)) == AllFrom(cfg.capacity, cfg.files, 0)
  {
    if |cfg.files| > 0 {
      assert [] + [] + cfg.files[0][0..] == cfg.files[0];
    }
  }

  lemma InitInv(cfg: Config)
    requires cfg.Valid()
    ensures Inv(cfg, Init(cfg))
  {
    var s := Init(cfg);
    InitFuture(cfg);
    forall c
      ensures Places(cfg, s, c) == Count(AllFrom(cfg.capacity, cfg.files, 0), c)
    {
      NothingHeld(s.workers, c);
    }
  }

  // --- Every step keeps the invariant ---------------------------------------------------------

  /** The bridge's steps change where windows wait, not what it will hand over; sending moves the
      first chunk of its future to the raw channel. */
  lemma ProduceKeepsFuture(cfg: Config, s: State)
    requires cfg.Valid() && Shape(cfg, s) && Enabled(cfg, s, Produce)
    ensures Future(cfg, Apply(cfg, s, Produce)) == Future(cfg, s)
  {
    var t, ws := Apply(cfg, s, Produce), cfg.files[s.file];
    assert s.group + s.seg + ws[s.produced..] == t.group + t.seg + ws[t.produced..];
  }

  lemma NextFileKeepsFuture(cfg: Config, s: State)
    requires cfg.Valid() && Shape(cfg, s) && Enabled(cfg, s, NextFile)
    ensures Future(cfg, Apply(cfg, s, NextFile)) == Future(cfg, s)
  {
    var t, ws := Apply(cfg, s, NextFile), cfg.files[s.file];
    assert s.group + s.seg + ws[s.produced..] == [];
    if t.file < |cfg.files| {
      assert t.group + t.seg + cfg.files[t.file][t.produced..] == cfg.files[t.file];
    }
  }

  lemma FirstWaiting(group: seq<Window>, seg: seq<Window>, rest: seq<Window>)
    requires seg != []
    ensures group + seg + rest == group + [seg[0]] + ([] + seg[1..] + rest)
    ensures group + seg + rest == group + [seg[0]] + seg[1..] + rest
  {
  }

  lemma FullGroup(capacity: nat, f: nat, start: nat, group: seq<Window>, rest: seq<Window>, later: seq<Chunk>)
    requires 0 < capacity == |group|
    ensures [] + (ChunksFrom(capacity, f, start, group + rest) + later)
         == [Chunk(f, start, group)] + (ChunksFrom(capacity, f, start + capacity, rest) + later)
  {
    assert (group + rest)[..capacity] == group && (group + rest)[capacity..] == rest;
  }

  lemma ReceiveKeepsFuture(cfg: Config, s: State)
    requires cfg.Valid() && Shape(cfg, s) && Enabled(cfg, s, BridgeReceive)
    ensures Future(cfg, Apply(cfg, s, BridgeReceive)) == Future(cfg, s)
  {
    var group, rest := s.group + [s.seg[0]], cfg.files[s.file][s.produced..];
    FirstWaiting(s.group, s.seg, rest);
    if |group| == cfg.capacity {
      var later := AllFrom(cfg.capacity, cfg.files, s.file + 1);
      FullGroup(cfg.capacity, s.file, s.start, group, [] + s.seg[1..] + rest, later);
    }
  }

  lemma FlushKeepsFuture(cfg: Config, s: State)
    requires cfg.Valid() && Shape(cfg, s) && Enabled(cfg, s, BridgeFlush)
    ensures Future(cfg, Apply(cfg, s, BridgeFlush)) == Future(cfg, s)
  {
    var t, ws := Apply(cfg, s, BridgeFlush), cfg.files[s.file];
    var waiting := s.group + s.seg + ws[s.produced..];
    assert waiting == s.group && waiting[..|waiting|] == waiting && waiting[|waiting|..] == [];
    var last, rest := t.outgoing.value, AllFrom(cfg.capacity, cfg.files, s.file + 1);
    assert ChunksFrom(cfg.capacity, s.file, s.start, waiting) == [last];
    assert t.group + t.seg + ws[s.produced..] == [];
    assert Future(cfg, t) == [last] + ([] + rest);
  }

  lemma StepKeepsShape(cfg: Config, s: State, step: Step)
    requires cfg.Valid() && Shape(cfg, s) && Enabled(cfg, s, step)
    ensures Shape(cfg, Apply(cfg, s, step))
  {
  }

  /** The ends stay final, and with a worker to keep the prepared channel open nothing is ever sent
      to a process that has stopped. */
  lemma StepKeepsEnds(cfg: Config, s: State, step: Step)
    requires cfg.Valid() && cfg.workers > 0 && Shape(cfg, s) && Ends(cfg, s) && Enabled(cfg, s, step)
    ensures Ends(cfg, Apply(cfg, s, step))
    ensures !step.WorkerSendFails? && !step.GpuSendFails?
  {
    if AllExited(s) {
      assert s.workers[0] == Exited;
    }
  }

  lemma SendKeepsPlaces(cfg: Config, s: State, c: Chunk)
    requires cfg.Valid() && Shape(cfg, s) && Enabled(cfg, s, BridgeSend)
    ensures Future(cfg, s) == [s.outgoing.value] + Future(cfg, Apply(cfg, s, BridgeSend))
    ensures Places(cfg, Apply(cfg, s, BridgeSend), c) == Places(cfg, s, c)
  {
    CountAppend(s.raw, s.outgoing.value, c);
  }

  lemma FeedKeepsPlaces(cfg: Config, s: State, step: Step, c: Chunk)
    requires cfg.Valid() && Shape(cfg, s) && step.Feeds() && Enabled(cfg, s, step)
    requires Shape(cfg, Apply(cfg, s, step))
    ensures Places(cfg, Apply(cfg, s, step), c) == Places(cfg, s, c)
  {
    match step
    case Produce => ProduceKeepsFuture(cfg, s);
    case NextFile => NextFileKeepsFuture(cfg, s);
    case BridgeReceive => ReceiveKeepsFuture(cfg, s);
    case BridgeFlush => FlushKeepsFuture(cfg, s);
    case BridgeSend => SendKeepsPlaces(cfg, s, c);
  }

  lemma WorkerReceiveKeepsPlaces(cfg: Config, s: State, i: nat, c: Chunk)
    requires cfg.Valid() && Shape(cfg, s) && Enabled(cfg, s, WorkerReceive(i))
    ensures Places(cfg, Apply(cfg, s, WorkerReceive(i)), c) == Places(cfg, s, c)
  {
    HeldUpdate(s.workers, i, Holding(s.raw[0]), c);
  }

  lemma WorkerSendKeepsPlaces(cfg: Config, s: State, i: nat, c: Chunk)
    requires cfg.Valid() && Shape(cfg, s) && Enabled(cfg, s, WorkerSend(i))
    ensures Places(cfg, Apply(cfg, s, WorkerSend(i)), c) == Places(cfg, s, c)
  {
    HeldUpdate(s.workers, i, Idle, c);
    CountAppend(s.prep, s.workers[i].chunk, c);
  }

  lemma WorkerExitKeepsPlaces(cfg: Config, s: State, i: nat, c: Chunk)
    requires cfg.Valid() && Shape(cfg, s) && Enabled(cfg, s, WorkerExit(i))
    ensures Places(cfg, Apply(cfg, s, WorkerExit(i)), c) == Places(cfg, s, c)
  {
    HeldUpdate(s.workers, i, Exited, c);
  }

  /** Taking a chunk, prepared or raw, puts it on the GPU. */
  lemma GpuTakeKeepsPlaces(cfg: Config, s: State, step: Step, c: Chunk)
    requires cfg.Valid() && Shape(cfg, s) && Enabled(cfg, s, step) && (step.GpuTakePrepared? || step.GpuTakeRaw?)
    ensures Places(cfg, Apply(cfg, s, step), c) == Places(cfg, s, c)
  {
  }

  lemma GpuPollKeepsPlaces(cfg: Config, s: State, step: Step, c: Chunk)
    requires cfg.Valid() && Shape(cfg, s) && Enabled(cfg, s, step)
    requires step.GpuPreparedEmpty? || step.GpuPreparedClosed? || step.GpuRawEmpty? || step.GpuRawClosed?
    ensures Places(cfg, Apply(cfg, s, step), c) == Places(cfg, s, c)
  {
  }

  lemma GpuSendKeepsPlaces(cfg: Config, s: State, c: Chunk)
    requires cfg.Valid() && Shape(cfg, s) && Enabled(cfg, s, GpuSend)
    ensures Places(cfg, Apply(cfg, s, GpuSend), c) == Places(cfg, s, c)
  {
    CountAppend(s.emb, s.gpu.chunk, c);
  }

  lemma CollectKeepsPlaces(cfg: Config, s: State, c: Chunk)
    requires cfg.Valid() && Shape(cfg, s) && Enabled(cfg, s, Collect)
    ensures Places(cfg, Apply(cfg, s, Collect), c) == Places(cfg, s, c)
  {
    CountAppend(s.delivered, s.emb[0], c);
  }

  /** While some worker keeps the prepared channel open no step loses, repeats or invents a chunk:
      the two sends that could drop one are never enabled. */
  lemma StepKeepsPlaces(cfg: Config, s: State, step: Step, c: Chunk)
    requires cfg.Valid() && cfg.workers > 0 && Shape(cfg, s) && Ends(cfg, s) && Enabled(cfg, s, step)
    requires Shape(cfg, Apply(cfg, s, step))
    ensures Places(cfg, Apply(cfg, s, step), c) == Places(cfg, s, c)
  {
    StepKeepsEnds(cfg, s, step);
    match step
    case WorkerReceive(i) => WorkerReceiveKeepsPlaces(cfg, s, i, c);
    case WorkerSend(i) => WorkerSendKeepsPlaces(cfg, s, i, c);
    case WorkerExit(i) => WorkerExitKeepsPlaces(cfg, s, i, c);
    case GpuTakePrepared => GpuTakeKeepsPlaces(cfg, s, step, c);
    case GpuTakeRaw => GpuTakeKeepsPlaces(cfg, s, step, c);
    case GpuPreparedEmpty => GpuPollKeepsPlaces(cfg, s, step, c);
    case GpuPreparedClosed => GpuPollKeepsPlaces(cfg, s, step, c);
    case GpuRawEmpty => GpuPollKeepsPlaces(cfg, s, step, c);
    case GpuRawClosed => GpuPollKeepsPlaces(cfg, s, step, c);
    case GpuSend => GpuSendKeepsPlaces(cfg, s, c);
    case Collect => CollectKeepsPlaces(cfg, s, c);
    case Finish =>
    case _ => FeedKeepsPlaces(cfg, s, step, c);
  }

  lemma StepKeepsInv(cfg: Config, s: State, step: Step)
    requires Inv(cfg, s) && cfg.workers > 0 && Enabled(cfg, s, step)
    ensures Inv(cfg, Apply(cfg, s, step))
  {
    StepKeepsShape(cfg, s, step);
    StepKeepsEnds(cfg, s, step);
    forall c
      ensures Places(cfg, Apply(cfg, s, step), c) == Places(cfg, s, c)
    {
      StepKeepsPlaces(cfg, s, step, c);
    }
  }

  lemma {:induction false} RunKeepsInv(cfg: Config, s: State, steps: seq<Step>, t: State)
    requires Inv(cfg, s) && cfg.workers > 0 && Run(cfg, s, steps, t)
    ensures Inv(cfg, t)
    decreases |steps|
  {
    if |steps| == 0 {
    } else {
      StepKeepsInv(cfg, s, steps[0]);
      RunKeepsInv(cfg, Apply(cfg, s, steps[0]), steps[1..], t);
    }
  }

  ghost predicate Reachable(cfg: Config, s: State)
    requires cfg.Valid()
  {
    exists steps :: Run(cfg, Init(cfg), steps, s)
  }

  lemma ReachableInv(cfg: Config, s: State)
    requires cfg.Valid() && cfg.workers > 0 && Reachable(cfg, s)
    ensures Inv(cfg, s)
  {
    InitInv(cfg);
    var steps :| Run(cfg, Init(cfg), steps, s);
    RunKeepsInv(cfg, Init(cfg), steps, s);
  }

  // --- Theorems about every interleaving ------------------------------------------------------

  lemma {:induction false} CountDistinct(q: seq<Chunk>, c: Chunk)
    requires Distinct(q)
    ensures Count(q, c) == if c in q then 1 else 0
  {
    if |q| == 0 {
    } else {
      CountDistinct(q[1..], c);
      assert q == [q[0]] + q[1..];
    }
  }

  /** In every reachable state every chunk is in exactly one place, exactly once. */
  lemma ExactlyOnePlace(cfg: Config, s: State, c: Chunk)
    requires cfg.Valid() && cfg.workers > 0 && Reachable(cfg, s)
    requires c in AllFrom(cfg.capacity, cfg.files, 0)
    ensures Inv(cfg, s) && Places(cfg, s, c) == 1
  {
    ReachableInv(cfg, s);
    AllDistinct(cfg.capacity, cfg.files, 0);
    CountDistinct(AllFrom(cfg.capacity, cfg.files, 0), c);
  }

  /** The GPU worker has stopped only when the raw channel is closed and empty, every worker is
      gone and the prepared channel is empty: no chunk is left before it. */
  lemma GpuStopsLast(cfg: Config, s: State)
    requires cfg.Valid() && cfg.workers > 0 && Reachable(cfg, s) && s.gpu == Stopped
    ensures RawClosed(cfg, s) && s.raw == [] && AllExited(s) && s.prep == [] && s.outgoing == None
  {
    ReachableInv(cfg, s);
    assert s.workers[0] == Exited;
  }

  /** Until the collector has finished, some process can always take a step. */
  lemma NeverStuck(cfg: Config, s: State) returns (step: Step)
    requires cfg.Valid() && cfg.workers > 0 && Reachable(cfg, s) && !s.collectorDone
    ensures Enabled(cfg, s, step)
  {
    ReachableInv(cfg, s);
    if s.emb != [] {
      step := Collect;
    } else if s.gpu == Stopped {
      step := Finish;
    } else if s.gpu.Sending? {
      step := GpuSend;
    } else if s.gpu == PollingRaw {
      step := if s.raw != [] then GpuTakeRaw else if RawClosed(cfg, s) then GpuRawClosed else GpuRawEmpty;
    } else if s.prep != [] {
      step := GpuTakePrepared;
    } else if AllExited(s) {
      step := GpuPreparedClosed;
    } else {
      var i :| 0 <= i < |s.workers| && s.workers[i] != Exited;
      step :=
        if s.workers[i].Holding? then WorkerSend(i)
        else if s.raw != [] then WorkerReceive(i)
        else if RawClosed(cfg, s) then WorkerExit(i)
        else if s.outgoing.Some? then BridgeSend
        else if s.seg != [] then BridgeReceive
        else if s.produced < |cfg.files[s.file]| then Produce
        else if s.group != [] then BridgeFlush
        else NextFile;
    }
  }

  /** When the collector finishes it has received every chunk exactly once and nothing else. */
  lemma FinishedDeliversAll(cfg: Config, s: State)
    requires cfg.Valid() && cfg.workers > 0 && Reachable(cfg, s) && s.collectorDone
    ensures multiset(s.delivered) == multiset(AllFrom(cfg.capacity, cfg.files, 0))
  {
    ReachableInv(cfg, s);
    assert s.workers[0] == Exited;
    forall c
      ensures multiset(s.delivered)[c] == multiset(AllFrom(cfg.capacity, cfg.files, 0))[c]
    {
      NothingHeld(s.workers, c);
      assert Future(cfg, s) == [];
      assert Places(cfg, s, c) == Count(s.delivered, c);
      CountIsMultiplicity(s.delivered, c);
      CountIsMultiplicity(AllFrom(cfg.capacity, cfg.files, 0), c);
    }
  }

  lemma {:induction false} CountIsMultiplicity(q: seq<Chunk>, c: Chunk)
    ensures Count(q, c) == multiset(q)[c]
  {
    if |q| == 0 {
    } else {
      CountIsMultiplicity(q[1..], c);
      assert q == [q[0]] + q[1..];
    }
  }

  // --- Every run ends -------------------------------------------------------------------------

  /** Windows of file f and later. */
  ghost function WindowsFrom(files: seq<seq<Window>>, f: nat): nat
    requires f <= |files|
    decreases |files| - f
  {
    if f == |files| then 0 else |files[f]| + WindowsFrom(files, f + 1)
  }

  ghost function WorkerWeight(w: Worker): nat {
    match w
    case Idle => 1
    case Holding(_) => 16
    case Exited => 0
  }

  ghost function WorkersWeight(workers: seq<Worker>): nat {
    if |workers| == 0 then 0 else WorkerWeight(workers[0]) + WorkersWeight(workers[1..])
  }

  ghost function GpuWeight(g: Gpu): nat {
    match g
    case PollingPrepared => 4
    case PollingRaw => 3
    case Selecting => 2
    case AwaitingPrepared => 1
    case Sending(_) => 13
    case Stopped => 0
  }

  /** Work still to be done: a window or chunk weighs less at each station it passes. */
  ghost function Work(cfg: Config, s: State): nat
    requires Shape(cfg, s)
  {
    (if s.file < |cfg.files|
     then 20 * (WindowsFrom(cfg.files, s.file) - s.produced) + |cfg.files| - s.file
     else 0)
    + 19 * |s.seg| + 18 * |s.group| + (if s.outgoing.Some? then 17 else 0)
    + 16 * |s.raw| + WorkersWeight(s.workers) + 14 * |s.prep| + GpuWeight(s.gpu) + 8 * |s.emb|
    + if s.collectorDone then 0 else 1
  }

  lemma {:induction false} WorkersWeightUpdate(workers: seq<Worker>, i: nat, w: Worker)
    requires i < |workers|
    ensures WorkersWeight(workers[i := w]) == WorkersWeight(workers) - WorkerWeight(workers[i]) + WorkerWeight(w)
  {
    if i == 0 {
      assert workers[i := w][1..] == workers[1..];
    } else {
      WorkersWeightUpdate(workers[1..], i - 1, w);
      assert workers[i := w][1..] == workers[1..][i - 1 := w];
    }
  }

  lemma WorkerReducesWork(cfg: Config, s: State, step: Step, i: nat)
    requires cfg.Valid() && Shape(cfg, s) && Enabled(cfg, s, step) && Shape(cfg, Apply(cfg, s, step))
    requires step == WorkerReceive(i) || step == WorkerSend(i) || step == WorkerSendFails(i) || step == WorkerExit(i)
    ensures Work(cfg, Apply(cfg, s, step)) < Work(cfg, s)
  {
    WorkersWeightUpdate(s.workers, i, Apply(cfg, s, step).workers[i]);
  }

  lemma FeedReducesWork(cfg: Config, s: State, step: Step)
    requires cfg.Valid() && Shape(cfg, s) && Enabled(cfg, s, step) && Shape(cfg, Apply(cfg, s, step)) && step.Feeds()
    ensures Work(cfg, Apply(cfg, s, step)) < Work(cfg, s)
  {
  }

  /** Every step, whichever process takes it, reduces the work. */
  lemma StepReducesWork(cfg: Config, s: State, step: Step)
    requires cfg.Valid() && Shape(cfg, s) && Enabled(cfg, s, step)
    ensures Shape(cfg, Apply(cfg, s, step))
    ensures Work(cfg, Apply(cfg, s, step)) < Work(cfg, s)
  {
    StepKeepsShape(cfg, s, step);
    match step
    case WorkerReceive(i) => WorkerReducesWork(cfg, s, step, i);
    case WorkerSend(i) => WorkerReducesWork(cfg, s, step, i);
    case WorkerSendFails(i) => WorkerReducesWork(cfg, s, step, i);
    case WorkerExit(i) => WorkerReducesWork(cfg, s, step, i);
    case _ =>
      if step.Feeds() {
        FeedReducesWork(cfg, s, step);
      }
  }

  /** So no run is longer than the work there is at its start. */
  lemma {:induction false} RunsAreBounded(cfg: Config, s: State, steps: seq<Step>, t: State)
    requires cfg.Valid() && Shape(cfg, s) && Run(cfg, s, steps, t)
    ensures |steps| <= Work(cfg, s)
    decreases |steps|
  {
    if |steps| == 0 {
    } else {
      StepReducesWork(cfg, s, steps[0]);
      RunsAreBounded(cfg, Apply(cfg, s, steps[0]), steps[1..], t);
    }
  }

  /** Whatever the interleaving, a run that can go no further has finished and delivered every chunk
      exactly once, within a number of steps fixed by the input. */
  lemma MaximalRunsDeliverAll(cfg: Config, steps: seq<Step>, t: State)
    requires cfg.Valid() && cfg.workers > 0 && Run(cfg, Init(cfg), steps, t)
    requires forall step :: !Enabled(cfg, t, step)
    ensures t.collectorDone && multiset(t.delivered) == multiset(AllFrom(cfg.capacity, cfg.files, 0))
    ensures |steps| <= Work(cfg, Init(cfg))
  {
    InitInv(cfg);
    RunsAreBounded(cfg, Init(cfg), steps, t);
    if !t.collectorDone {
      var step := NeverStuck(cfg, t);
    }
    FinishedDeliversAll(cfg, t);
  }
}
