/** The sequential path's threads: the same segmentation thread and bridge as in the pipeline, and one
    loop that takes raw chunks itself. Its chunks arrive in file order, in every interleaving. */
module SequentialFeed {
  import opened Chunking
  import opened ChunkPipeline

  /** A step of the segmentation thread or the bridge, or the loop taking the oldest raw chunk. */
  datatype Move = Feed(step: Step) | Take

  ghost predicate Possible(cfg: Config, s: State, move: Move) {
    match move
    case Feed(step) => step.Feeds() && Enabled(cfg, s, step)
    case Take => s.raw != []
  }

  ghost function Moved(cfg: Config, s: State, move: Move): State
    requires cfg.Valid() && Possible(cfg, s, move)
  {
    match move
    case Feed(step) => Apply(cfg, s, step)
    case Take => s.(raw := s.raw[1..], delivered := s.delivered + [s.raw[0]])
  }

  ghost predicate Runs(cfg: Config, s: State, moves: seq<Move>, t: State)
    requires cfg.Valid()
    decreases |moves|
  {
    if |moves| == 0 then s == t
    else Possible(cfg, s, moves[0]) && Runs(cfg, Moved(cfg, s, moves[0]), moves[1..], t)
  }

  /** The raw channel is closed and empty: the loop has nothing more to take. */
  ghost predicate Drained(cfg: Config, s: State) {
    RawClosed(cfg, s) && s.raw == []
  }

  /** What the loop took, then what is queued, then what the bridge has still to send. */
  ghost function InOrder(cfg: Config, s: State): seq<Chunk>
    requires cfg.Valid() && Shape(cfg, s)
  {
    s.delivered + s.raw + Future(cfg, s)
  }

  /** The bridge appends to a first-in-first-out channel, so no move of any thread changes the order. */
  lemma FeedKeepsOrder(cfg: Config, s: State, step: Step)
    requires cfg.Valid() && Shape(cfg, s) && step.Feeds() && Enabled(cfg, s, step)
    ensures Shape(cfg, Apply(cfg, s, step)) && InOrder(cfg, Apply(cfg, s, step)) == InOrder(cfg, s)
  {
    StepKeepsShape(cfg, s, step);
    match step
    case Produce => ProduceKeepsFuture(cfg, s);
    case NextFile => NextFileKeepsFuture(cfg, s);
    case BridgeReceive => ReceiveKeepsFuture(cfg, s);
    case BridgeFlush => FlushKeepsFuture(cfg, s);
    case BridgeSend =>
      SendKeepsPlaces(cfg, s, s.outgoing.value);
      SentFollows(s.delivered, s.raw, s.outgoing.value, Future(cfg, Apply(cfg, s, step)));
  }

  lemma SentFollows(taken: seq<Chunk>, raw: seq<Chunk>, c: Chunk, rest: seq<Chunk>)
    ensures taken + (raw + [c]) + rest == taken + raw + ([c] + rest)
  {
  }

  lemma TakeKeepsOrder(cfg: Config, s: State)
    requires cfg.Valid() && Shape(cfg, s) && s.raw != []
    ensures Shape(cfg, Moved(cfg, s, Take)) && InOrder(cfg, Moved(cfg, s, Take)) == InOrder(cfg, s)
  {
    assert s.delivered + s.raw == s.delivered + [s.raw[0]] + s.raw[1..];
  }

  lemma {:induction false} RunKeepsOrder(cfg: Config, s: State, moves: seq<Move>, t: State)
    requires cfg.Valid() && Shape(cfg, s) && Runs(cfg, s, moves, t)
    ensures Shape(cfg, t) && InOrder(cfg, t) == InOrder(cfg, s)
    decreases |moves|
  {
    if |moves| == 0 {
    } else {
      if moves[0].Feed? {
        FeedKeepsOrder(cfg, s, moves[0].step);
      } else {
        TakeKeepsOrder(cfg, s);
      }
      RunKeepsOrder(cfg, Moved(cfg, s, moves[0]), moves[1..], t);
    }
  }

  /** Whatever the interleaving, when the channel is closed and empty the loop has taken exactly the
      chunks of all files, in file order. */
  lemma TakenInFileOrder(cfg: Config, moves: seq<Move>, t: State)
    requires cfg.Valid() && Runs(cfg, Init(cfg), moves, t) && Drained(cfg, t)
    ensures t.delivered == AllFrom(cfg.capacity, cfg.files, 0)
  {
    InitInv(cfg);
    InitFuture(cfg);
    RunKeepsOrder(cfg, Init(cfg), moves, t);
    assert t.delivered + [] + [] == t.delivered;
  }

  /** Every maximal run drains the channel: until then some thread can move, and no run is longer than
      the work there is at its start. */
  lemma MaximalRunsDrain(cfg: Config, moves: seq<Move>, t: State)
    requires cfg.Valid() && Runs(cfg, Init(cfg), moves, t)
    requires forall move :: !Possible(cfg, t, move)
    ensures Drained(cfg, t) && |moves| <= Work(cfg, Init(cfg))
  {
    InitInv(cfg);
    RunKeepsOrder(cfg, Init(cfg), moves, t);
    RunsAreShort(cfg, Init(cfg), moves, t);
    if !Drained(cfg, t) {
      var move := CanMove(cfg, t);
    }
  }

  lemma CanMove(cfg: Config, s: State) returns (move: Move)
    requires cfg.Valid() && Shape(cfg, s) && !Drained(cfg, s)
    ensures Possible(cfg, s, move)
  {
    move :=
      if s.raw != [] then Take
      else if s.outgoing.Some? then Feed(BridgeSend)
      else if s.seg != [] then Feed(BridgeReceive)
      else if s.produced < |cfg.files[s.file]| then Feed(Produce)
      else if s.group != [] then Feed(BridgeFlush)
      else Feed(NextFile);
  }

  lemma {:induction false} RunsAreShort(cfg: Config, s: State, moves: seq<Move>, t: State)
    requires cfg.Valid() && Shape(cfg, s) && Runs(cfg, s, moves, t)
    ensures |moves| <= Work(cfg, s)
    decreases |moves|
  {
    if |moves| == 0 {
    } else {
      var next := Moved(cfg, s, moves[0]);
      if moves[0].Feed? {
        StepReducesWork(cfg, s, moves[0].step);
      } else {
        TakeKeepsOrder(cfg, s);
        assert Work(cfg, next) == Work(cfg, s) - 16;
      }
      RunsAreShort(cfg, next, moves[1..], t);
    }
  }
}
