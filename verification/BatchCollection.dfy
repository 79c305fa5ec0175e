/** The batch collector loop: chunks of many files arrive mixed; each file gets a collector at its
    first chunk and gives it up at its last. */
module BatchCollection {
  import opened Chunking
  import opened ChunkPipeline
  import opened Collection
  import opened Collector
  import opened CollectorLoops
  import opened Options
  import opened Strides

  /** An embedded chunk, with its file and its number among the chunks of that file. */
  datatype Tagged = Tagged(file: nat, localStart: nat, embedded: EmbeddedChunk)

  /** The message belongs to chunk c: it has the number c has among the chunks of its file. */
  ghost predicate Numbered(files: seq<seq<Window>>, capacity: nat, message: Tagged, c: Chunk)
    requires capacity > 0
  {
    && message.file < |files|
    && message.localStart < |ChunksFrom(capacity, message.file, 0, files[message.file])|
    && c == ChunksFrom(capacity, message.file, 0, files[message.file])[message.localStart]
  }

  ghost predicate IsTagged(job: Job, capacity: nat, message: Tagged, c: Chunk)
    requires capacity > 0
  {
    Numbered(job.files, capacity, message, c) && Embeds(job, c, message.embedded)
  }

  /** The messages carry these chunks of the job, in this order. */
  ghost predicate CarriesTagged(job: Job, capacity: nat, messages: seq<Tagged>, chunks: seq<Chunk>)
    requires capacity > 0
  {
    && |messages| == |chunks|
    && forall k :: 0 <= k < |chunks| ==> IsTagged(job, capacity, messages[k], chunks[k])
  }

  /** Counting chunks and multiplying by the capacity gives the window a chunk starts at. */
  lemma TaggedPlace(job: Job, capacity: nat, message: Tagged, c: Chunk)
    requires capacity > 0 && IsTagged(job, capacity, message, c)
    ensures c.file == message.file && c.start == Multiple(message.localStart, capacity) && IsStretch(job.files, c)
  {
    var f := message.file;
    ChunkAt(capacity, f, 0, job.files[f], message.localStart);
    ChunksAreStretches(capacity, job.files, f, 0);
    assert job.files[f][0..] == job.files[f];
  }

  ghost function ExpectedChunks(job: Job, capacity: nat, f: nat): nat
    requires capacity > 0 && f < |job.files|
  {
    DivCeil(|job.files[f]|, capacity)
  }

  /** File f after `seen`: not begun, being collected, or complete with its collector given up. */
  ghost predicate FileState(job: Job, capacity: nat, seen: seq<Chunk>, f: nat,
                            collector: Option<Slots>, result: Option<Slots>)
    requires capacity > 0 && f < |job.files|
  {
    var count, expected := CountOf(seen, f), ExpectedChunks(job, capacity, f);
    && count <= expected
    && (count == 0 ==> collector == None && result == None)
    && (0 < count < expected ==>
          collector.Some? && result == None && Collected(job, collector.value, seen, f, |job.files[f]| + capacity))
    && (0 < count == expected ==> collector == None && result.Some? && IsComplete(job, result.value, f))
  }

  ghost function Completed(results: seq<Option<Slots>>): nat {
    if |results| == 0 then 0 else (if results[0].Some? then 1 else 0) + Completed(results[1..])
  }

  lemma {:induction false} CompletedUpdate(results: seq<Option<Slots>>, f: nat, v: Slots)
    requires f < |results| && results[f] == None
    ensures Completed(results[f := Some(v)]) == Completed(results) + 1
  {
    if f == 0 {
      assert results[f := Some(v)][1..] == results[1..];
    } else {
      CompletedUpdate(results[1..], f - 1, v);
      assert results[f := Some(v)][1..] == results[1..][f - 1 := Some(v)];
    }
  }

  lemma {:induction false} CompletedAll(results: seq<Option<Slots>>)
    requires forall f :: 0 <= f < |results| ==> results[f].Some?
    ensures Completed(results) == |results|
  {
    if |results| == 0 {
    } else {
      CompletedAll(results[1..]);
    }
  }

  lemma {:induction false} NoneCompleted(results: seq<Option<Slots>>)
    requires forall f :: 0 <= f < |results| ==> results[f] == None
    ensures Completed(results) == 0
  {
    if |results| == 0 {
    } else {
      NoneCompleted(results[1..]);
    }
  }

  /** Every chunk of every file arrives exactly once, in some order. */
  ghost predicate Complete(job: Job, capacity: nat, chunks: seq<Chunk>)
    requires capacity > 0
  {
    multiset(chunks) == multiset(AllFrom(capacity, job.files, 0))
  }

  lemma ChunksLeft(job: Job, capacity: nat, seen: seq<Chunk>, left: seq<Chunk>, f: nat)
    requires capacity > 0 && f < |job.files| && Complete(job, capacity, seen + left)
    ensures CountOf(seen, f) + CountOf(left, f) == ExpectedChunks(job, capacity, f)
  {
    CountReorders(seen + left, AllFrom(capacity, job.files, 0), f);
    CountInAll(capacity, job.files, 0, f);
    CountAppended(seen, left, f);
  }

  /** When as many chunks of a file have been seen as are expected, all of them have been seen. */
  lemma CountedIsComplete(job: Job, capacity: nat, seen: seq<Chunk>, left: seq<Chunk>, f: nat, v: Slots, n: nat)
    requires capacity > 0 && f < |job.files| && Complete(job, capacity, seen + left)
    requires Collected(job, v, seen, f, n) && CountOf(seen, f) == ExpectedChunks(job, capacity, f)
    ensures IsComplete(job, v, f)
  {
    ChunksLeft(job, capacity, seen, left, f);
    ChunksDistinct(capacity, f, 0, job.files[f]);
    forall c | c in ChunksFrom(capacity, f, 0, job.files[f])
      ensures c in seen
    {
      ChunkInAll(capacity, job.files, 0, f, c);
      assert c in multiset(AllFrom(capacity, job.files, 0));
      assert c in multiset(seen + left);
      if c in left {
        CountedIfPresent(left, c);
      }
    }
    AllAddedIsComplete(job, capacity, v, seen, f, n);
  }

  lemma OtherFileState(job: Job, capacity: nat, seen: seq<Chunk>, c: Chunk, f: nat,
                       collector: Option<Slots>, result: Option<Slots>)
    requires capacity > 0 && f < |job.files| && c.file != f
    requires FileState(job, capacity, seen, f, collector, result)
    ensures FileState(job, capacity, seen + [c], f, collector, result)
  {
    CountStep(seen, c, f);
    if 0 < CountOf(seen, f) < ExpectedChunks(job, capacity, f) {
      OtherFileKeepsCollected(job, collector.value, seen, c, f, |job.files[f]| + capacity);
    }
  }

  lemma {:induction false} NotCountedNotCovered(job: Job, seen: seq<Chunk>, f: nat, n: nat)
    requires f < |job.files| && n >= |job.files[f]| && CountOf(seen, f) == 0
    ensures Collected(job, Empty(n, job.speakers, job.blank), seen, f, n)
  {
    if |seen| == 0 {
      NothingCollected(job, f, n);
    } else {
      var front, last := seen[..|seen| - 1], seen[|seen| - 1];
      NotCountedNotCovered(job, front, f, n);
      OtherFileKeepsCollected(job, Empty(n, job.speakers, job.blank), front, last, f, n);
      assert seen == front + [last];
    }
  }

  /** While a chunk of the file is still to come its collector has not been given up. */
  lemma MoreExpected(job: Job, capacity: nat, seen: seq<Chunk>, c: Chunk, left: seq<Chunk>)
    requires capacity > 0 && c.file < |job.files| && Complete(job, capacity, seen + [c] + left)
    ensures CountOf(seen, c.file) < ExpectedChunks(job, capacity, c.file)
  {
    assert seen + [c] + left == seen + ([c] + left);
    ChunksLeft(job, capacity, seen, [c] + left, c.file);
    CountedIfPresent([c] + left, c);
  }

  /** The collector a message finds, or the empty one it makes, is right for what was seen. */
  lemma CurrentIsRight(job: Job, capacity: nat, seen: seq<Chunk>, f: nat, collector: Option<Slots>,
                       result: Option<Slots>)
    requires capacity > 0 && f < |job.files| && FileState(job, capacity, seen, f, collector, result)
    requires CountOf(seen, f) < ExpectedChunks(job, capacity, f)
    ensures result == None
    ensures var n := |job.files[f]| + capacity;
            Collected(job, if collector.Some? then collector.value else Empty(n, job.speakers, job.blank), seen, f, n)
  {
    if CountOf(seen, f) == 0 {
      NotCountedNotCovered(job, seen, f, |job.files[f]| + capacity);
    }
  }

  lemma CutIsComplete(job: Job, v: Slots, f: nat)
    requires f < |job.files| && IsComplete(job, v, f)
    ensures IsComplete(job, Cut(v), f)
  {
    var cut := Cut(v);
    assert cut.seg[..cut.used] == cut.seg;
  }

  lemma NewFileState(job: Job, capacity: nat, seen: seq<Chunk>, left: seq<Chunk>, f: nat, v: Slots)
    requires capacity > 0 && f < |job.files| && Complete(job, capacity, seen + left) && CountOf(seen, f) > 0
    requires Collected(job, v, seen, f, |job.files[f]| + capacity)
    ensures if v.received >= ExpectedChunks(job, capacity, f)
            then v.used == |job.files[f]| && FileState(job, capacity, seen, f, None, Some(Cut(v)))
            else FileState(job, capacity, seen, f, Some(v), None)
  {
    ChunksLeft(job, capacity, seen, left, f);
    if v.received >= ExpectedChunks(job, capacity, f) {
      CountedIsComplete(job, capacity, seen, left, f, v, |job.files[f]| + capacity);
      CutIsComplete(job, v, f);
    }
  }

  // --- What the loop does, on values ------------------------------------------------------------

  /** What the loop is given besides the messages: per file its windows and chunks, and the sizes of the arrays. */
  datatype Plan = Plan(sizes: seq<nat>, expected: seq<nat>, capacity: nat, speakers: nat, blank: Window) {
    ghost predicate Accepts(message: Tagged) {
      message.file < |sizes| == |expected| && WellFormed(message.embedded, speakers)
    }

    function Room(f: nat): nat
      requires f < |sizes|
    {
      sizes[f] + capacity
    }

    ghost predicate For(job: Job) {
      && capacity > 0 && speakers == job.speakers && blank == job.blank
      && |sizes| == |expected| == |job.files|
      && forall f :: 0 <= f < |sizes| ==>
           0 < sizes[f] == |job.files[f]| && expected[f] == ExpectedChunks(job, capacity, f)
    }
  }

  /** A file's collector, if it has one, and the artifacts it gave up if it has completed. */
  datatype Outcome = Outcome(view: Option<Slots>, done: bool, artifacts: Option<Slots>)

  ghost predicate Fits(plan: Plan, f: nat, view: Option<Slots>)
    requires f < |plan.sizes|
  {
    view.Some? ==> view.value.Shape(plan.Room(f), plan.speakers)
  }

  ghost function Current(plan: Plan, f: nat, view: Option<Slots>): (v: Slots)
    requires f < |plan.sizes| && Fits(plan, f, view)
    ensures v.Shape(plan.Room(f), plan.speakers)
  {
    if view.Some? then view.value else Empty(plan.Room(f), plan.speakers, plan.blank)
  }

  ghost function WithMessage(plan: Plan, message: Tagged, view: Option<Slots>): (v: Slots)
    requires plan.Accepts(message) && Fits(plan, message.file, view)
    ensures v.Shape(plan.Room(message.file), plan.speakers)
  {
    Added(Current(plan, message.file, view), Multiple(message.localStart, plan.capacity), message.embedded,
          plan.Room(message.file), plan.speakers)
  }

  /** One message: the file's collector is made if missing, given the chunk, and gives up its artifacts
      once it has received as many chunks as expected. */
  ghost function Taken(plan: Plan, message: Tagged, view: Option<Slots>): (r: Outcome)
    requires plan.Accepts(message) && Fits(plan, message.file, view)
    ensures Fits(plan, message.file, r.view)
  {
    var v := WithMessage(plan, message, view);
    if v.received >= plan.expected[message.file]
    then Outcome(None, true, if v.used == 0 then None else Some(Cut(v)))
    else Outcome(Some(v), false, None)
  }

  /** All files: their collectors, their artifacts and how many have completed. */
  datatype Progress = Progress(views: seq<Option<Slots>>, results: seq<Option<Slots>>, complete: nat)

  ghost predicate AllFit(plan: Plan, p: Progress) {
    |p.views| == |p.results| == |plan.sizes| && forall f :: 0 <= f < |plan.sizes| ==> Fits(plan, f, p.views[f])
  }

  ghost function Advance(plan: Plan, message: Tagged, p: Progress): (r: Progress)
    requires plan.Accepts(message) && AllFit(plan, p)
    ensures AllFit(plan, r)
  {
    var f, taken := message.file, Taken(plan, message, p.views[message.file]);
    Progress(p.views[f := taken.view],
             if taken.artifacts.Some? then p.results[f := taken.artifacts] else p.results,
             p.complete + if taken.done then 1 else 0)
  }

  ghost predicate AcceptsAll(plan: Plan, messages: seq<Tagged>) {
    forall k :: 0 <= k < |messages| ==> plan.Accepts(messages[k])
  }

  ghost function AfterAll(plan: Plan, messages: seq<Tagged>): (r: Progress)
    requires AcceptsAll(plan, messages)
    ensures AllFit(plan, r)
  {
    if |messages| == 0 then Progress(seq(|plan.sizes|, _ => None), seq(|plan.sizes|, _ => None), 0)
    else Advance(plan, messages[|messages| - 1], AfterAll(plan, messages[..|messages| - 1]))
  }

  lemma OneMore(plan: Plan, messages: seq<Tagged>, k: nat)
    requires AcceptsAll(plan, messages) && k < |messages|
    ensures AfterAll(plan, messages[..k + 1]) == Advance(plan, messages[k], AfterAll(plan, messages[..k]))
  {
    assert messages[..k + 1][..k] == messages[..k];
  }

  // --- Why every file completes -------------------------------------------------------------------

  /** Given the chunk, the collector of its file is right for one chunk more. */
  lemma WithMessageCollected(plan: Plan, job: Job, message: Tagged, seen: seq<Chunk>, c: Chunk, view: Option<Slots>)
    requires plan.For(job) && plan.Accepts(message) && IsTagged(job, plan.capacity, message, c)
    requires Fits(plan, message.file, view)
    requires Collected(job, Current(plan, message.file, view), seen, message.file, plan.Room(message.file))
    ensures Collected(job, WithMessage(plan, message, view), seen + [c], message.file, plan.Room(message.file))
    ensures CountOf(seen + [c], message.file) > 0
  {
    var f := message.file;
    TaggedPlace(job, plan.capacity, message, c);
    AddKeepsCollected(job, Current(plan, f, view), seen, c, message.embedded, plan.Room(f));
    CountStep(seen, c, f);
  }

  /** After one message its file is complete exactly if that was its last chunk. */
  lemma MessageTaken(plan: Plan, job: Job, message: Tagged, seen: seq<Chunk>, c: Chunk, left: seq<Chunk>,
                     view: Option<Slots>, result: Option<Slots>)
    requires plan.For(job) && plan.Accepts(message) && IsTagged(job, plan.capacity, message, c)
    requires Complete(job, plan.capacity, seen + [c] + left)
    requires FileState(job, plan.capacity, seen, message.file, view, result) && Fits(plan, message.file, view)
    ensures var taken := Taken(plan, message, view);
            && result == None && (taken.done <==> taken.artifacts.Some?)
            && FileState(job, plan.capacity, seen + [c], message.file, taken.view, taken.artifacts)
  {
    var f, v := message.file, WithMessage(plan, message, view);
    TaggedPlace(job, plan.capacity, message, c);
    MoreExpected(job, plan.capacity, seen, c, left);
    CurrentIsRight(job, plan.capacity, seen, f, view, result);
    WithMessageCollected(plan, job, message, seen, c, view);
    NewFileState(job, plan.capacity, seen + [c], left, f, v);
  }

  ghost predicate Right(job: Job, capacity: nat, seen: seq<Chunk>, p: Progress)
    requires capacity > 0
  {
    && |p.views| == |p.results| == |job.files| && p.complete == Completed(p.results)
    && forall f :: 0 <= f < |job.files| ==> FileState(job, capacity, seen, f, p.views[f], p.results[f])
  }

  lemma AdvanceIsRight(plan: Plan, job: Job, message: Tagged, seen: seq<Chunk>, c: Chunk, left: seq<Chunk>, p: Progress)
    requires plan.For(job) && plan.Accepts(message) && IsTagged(job, plan.capacity, message, c)
    requires Complete(job, plan.capacity, seen + [c] + left)
    requires AllFit(plan, p) && Right(job, plan.capacity, seen, p)
    ensures Right(job, plan.capacity, seen + [c], Advance(plan, message, p))
  {
    var f := message.file;
    TaggedPlace(job, plan.capacity, message, c);
    MessageTaken(plan, job, message, seen, c, left, p.views[f], p.results[f]);
    var taken := Taken(plan, message, p.views[f]);
    forall g | 0 <= g < |job.files| && g != f
      ensures FileState(job, plan.capacity, seen + [c], g, p.views[g], p.results[g])
    {
      OtherFileState(job, plan.capacity, seen, c, g, p.views[g], p.results[g]);
    }
    if taken.artifacts.Some? {
      CompletedUpdate(p.results, f, taken.artifacts.value);
    }
  }

  lemma RightAfter(plan: Plan, job: Job, messages: seq<Tagged>, chunks: seq<Chunk>, k: nat, p: Progress)
    requires plan.For(job) && k < |messages| && AcceptsAll(plan, messages) && AllFit(plan, p)
    requires CarriesTagged(job, plan.capacity, messages, chunks) && Complete(job, plan.capacity, chunks)
    requires Right(job, plan.capacity, chunks[..k], p)
    ensures Right(job, plan.capacity, chunks[..k + 1], Advance(plan, messages[k], p))
  {
    var seen, c, left := chunks[..k], chunks[k], chunks[k + 1..];
    assert chunks == seen + [c] + left && chunks[..k + 1] == seen + [c];
    assert IsTagged(job, plan.capacity, messages[k], c);
    AdvanceIsRight(plan, job, messages[k], seen, c, left, p);
  }

  lemma {:induction false} AfterAllIsRight(plan: Plan, job: Job, messages: seq<Tagged>, chunks: seq<Chunk>, k: nat)
    requires plan.For(job) && k <= |messages| && AcceptsAll(plan, messages)
    requires CarriesTagged(job, plan.capacity, messages, chunks) && Complete(job, plan.capacity, chunks)
    ensures Right(job, plan.capacity, chunks[..k], AfterAll(plan, messages[..k]))
  {
    if k == 0 {
      NoneCompleted(AfterAll(plan, []).results);
    } else {
      AfterAllIsRight(plan, job, messages, chunks, k - 1);
      RightAfter(plan, job, messages, chunks, k - 1, AfterAll(plan, messages[..k - 1]));
      OneMore(plan, messages, k - 1);
    }
  }

  lemma ExpectedPositive(a: nat, b: nat)
    requires a > 0 && b > 0
    ensures DivCeil(a, b) > 0
  {
    DivideShift(a - 1, b);
  }

  /** Whatever the order of the messages, every file completes once and holds its own data. */
  lemma AllComplete(plan: Plan, job: Job, messages: seq<Tagged>, chunks: seq<Chunk>)
    requires plan.For(job) && AcceptsAll(plan, messages)
    requires CarriesTagged(job, plan.capacity, messages, chunks) && Complete(job, plan.capacity, chunks)
    ensures var p := AfterAll(plan, messages);
            && p.complete == |p.results| == |job.files|
            && forall f :: 0 <= f < |job.files| ==> p.results[f].Some? && IsComplete(job, p.results[f].value, f)
  {
    AfterAllIsRight(plan, job, messages, chunks, |messages|);
    assert messages[..|messages|] == messages && chunks[..|messages|] == chunks && chunks + [] == chunks;
    var p := AfterAll(plan, messages);
    forall f | 0 <= f < |job.files|
      ensures p.results[f].Some? && IsComplete(job, p.results[f].value, f)
    {
      ChunksLeft(job, plan.capacity, chunks, [], f);
      ExpectedPositive(|job.files[f]|, plan.capacity);
    }
    CompletedAll(p.results);
  }

  // --- The loop -----------------------------------------------------------------------------------

  ghost function Parts(collector: FileCollector?): set<object> {
    if collector == null then {} else {collector, collector.segArray, collector.embArray}
  }

  ghost function ViewOf(collector: FileCollector?): Option<Slots>
    reads Parts(collector)
  {
    if collector == null then None else Some(collector.View())
  }

  /** A collector of file f has room for its windows and knows how many chunks to expect. */
  ghost predicate MadeFor(plan: Plan, f: nat, collector: FileCollector?)
    requires f < |plan.sizes| == |plan.expected|
    reads Parts(collector)
  {
    collector != null ==>
      && collector.Valid() && collector.slots == plan.Room(f) && collector.speakers == plan.speakers
      && collector.expectedChunks == plan.expected[f]
  }

  method TakeMessage(plan: Plan, message: Tagged, collector: FileCollector?, ghost others: set<object>)
    returns (after: FileCollector?, done: bool, artifacts: Option<Slots>)
    requires plan.Accepts(message) && MadeFor(plan, message.file, collector)
    modifies Parts(collector)
    ensures MadeFor(plan, message.file, after) && fresh(Parts(after) - Parts(collector))
    ensures Parts(after) <= Parts(collector) || Parts(after) !! others
    ensures Fits(plan, message.file, old(ViewOf(collector)))
    ensures Outcome(ViewOf(after), done, artifacts) == Taken(plan, message, old(ViewOf(collector)))
  {
    var current := collector;
    if current == null {
      current := new FileCollector(plan.Room(message.file), plan.blank, plan.speakers, plan.expected[message.file]);
    }
    current.Add(message.localStart, plan.capacity, message.embedded);
    done := current.IsComplete();
    if done {
      artifacts := current.IntoArtifacts();
      after := null;
    } else {
      after, artifacts := current, None;
    }
  }

  ghost function AllParts(collectors: seq<FileCollector?>): set<object> {
    set f, o | 0 <= f < |collectors| && o in Parts(collectors[f]) :: o
  }

  ghost predicate Separate(c: FileCollector?, d: FileCollector?) {
    Parts(c) !! Parts(d)
  }

  ghost predicate Apart(collectors: seq<FileCollector?>) {
    forall f, g :: 0 <= f < |collectors| && 0 <= g < |collectors| && f != g ==> Separate(collectors[f], collectors[g])
  }

  ghost predicate Holds(plan: Plan, f: nat, collector: FileCollector?, view: Option<Slots>)
    requires f < |plan.sizes| == |plan.expected|
    reads Parts(collector)
  {
    MadeFor(plan, f, collector) && ViewOf(collector) == view
  }

  /** Different files have different collectors, and these are their views. */
  ghost predicate Bank(plan: Plan, collectors: seq<FileCollector?>, views: seq<Option<Slots>>)
    reads AllParts(collectors)
  {
    && |collectors| == |views| == |plan.sizes| == |plan.expected| && Apart(collectors)
    && forall f :: 0 <= f < |collectors| ==> Holds(plan, f, collectors[f], views[f])
  }

  lemma StillApart(collectors: seq<FileCollector?>, file: nat, after: FileCollector?)
    requires file < |collectors| && Apart(collectors)
    requires Parts(after) <= Parts(collectors[file]) || Parts(after) !! AllParts(collectors)
    ensures Apart(collectors[file := after])
  {
    forall f | 0 <= f < |collectors| && f != file
      ensures Separate(collectors[f], after) && Separate(after, collectors[f])
    {
      assert Separate(collectors[f], collectors[file]);
      assert Parts(collectors[f]) <= AllParts(collectors);
    }
  }

  /** One message among the collectors of all files: only that of its own file changes. */
  method HandleMessage(plan: Plan, message: Tagged, collectors: seq<FileCollector?>, ghost views: seq<Option<Slots>>)
    returns (after: seq<FileCollector?>, done: bool, artifacts: Option<Slots>)
    requires plan.Accepts(message) && Bank(plan, collectors, views) && Fits(plan, message.file, views[message.file])
    modifies AllParts(collectors)
    ensures fresh(AllParts(after) - AllParts(collectors))
    ensures var taken := Taken(plan, message, views[message.file]);
            && Bank(plan, after, views[message.file := taken.view])
            && done == taken.done && artifacts == taken.artifacts
  {
    var file := message.file;
    assert Holds(plan, file, collectors[file], views[file]);
    assert forall f :: 0 <= f < |collectors| ==> Parts(collectors[f]) <= AllParts(collectors);
    forall f | 0 <= f < |collectors| && f != file
      ensures Holds(plan, f, collectors[f], views[f]) && Parts(collectors[f]) !! Parts(collectors[file])
    {
      assert Separate(collectors[f], collectors[file]);
    }
    var collector;
    collector, done, artifacts := TakeMessage(plan, message, collectors[file], AllParts(collectors));
    StillApart(collectors, file, collector);
    after := collectors[file := collector];
    assert forall f :: 0 <= f < |collectors| && f != file ==> Holds(plan, f, collectors[f], views[f]);
  }

  method CollectMessages(plan: Plan, messages: seq<Tagged>)
    returns (results: seq<Option<Slots>>, filesComplete: nat)
    requires |plan.sizes| == |plan.expected| && AcceptsAll(plan, messages)
    ensures var p := AfterAll(plan, messages); results == p.results && filesComplete == p.complete
  {
    var collectors: seq<FileCollector?> := seq(|plan.sizes|, _ => null);
    results := seq(|plan.sizes|, _ => None);
    filesComplete := 0;
    ghost var views := results;
    for k := 0 to |messages|
      invariant Bank(plan, collectors, views) && fresh(AllParts(collectors))
      invariant Progress(views, results, filesComplete) == AfterAll(plan, messages[..k])
    {
      var message := messages[k];
      OneMore(plan, messages, k);
      var done, artifacts;
      ghost var taken := Taken(plan, message, views[message.file]);
      collectors, done, artifacts := HandleMessage(plan, message, collectors, views);
      views := views[message.file := taken.view];
      if artifacts.Some? {
        results := results[message.file := artifacts];
      }
      if done {
        filesComplete := filesComplete + 1;
      }
    }
    assert messages[..|messages|] == messages;
  }

  method RunBatch(plan: Plan, messages: seq<Tagged>, ghost job: Job, ghost chunks: seq<Chunk>)
    returns (results: seq<Option<Slots>>, filesComplete: nat)
    requires plan.For(job)
    requires CarriesTagged(job, plan.capacity, messages, chunks) && Complete(job, plan.capacity, chunks)
    ensures filesComplete == |results| == |job.files|
    ensures forall f :: 0 <= f < |job.files| ==> results[f].Some? && IsComplete(job, results[f].value, f)
  {
    forall k | 0 <= k < |messages|
      ensures plan.Accepts(messages[k])
    {
      assert IsTagged(job, plan.capacity, messages[k], chunks[k]);
    }
    results, filesComplete := CollectMessages(plan, messages);
    AllComplete(plan, job, messages, chunks);
  }

  // --- The batch loop behind the pipeline ------------------------------------------------------

  /** Whatever the interleaving, the batch loop sees every chunk of every file exactly once. */
  lemma FinishedIsComplete(cfg: Config, t: State, job: Job)
    requires cfg.Valid() && cfg.workers > 0 && Reachable(cfg, t) && t.collectorDone && job.files == cfg.files
    ensures Complete(job, cfg.capacity, t.delivered)
  {
    FinishedDeliversAll(cfg, t);
  }

  /** So at the end of every run of the pipeline every file of the batch has completed, once, with its
      own windows and embeddings. */
  method CollectRun(plan: Plan, messages: seq<Tagged>, ghost job: Job, ghost cfg: Config, ghost t: State)
    returns (results: seq<Option<Slots>>, filesComplete: nat)
    requires cfg.Valid() && cfg.workers > 0 && Reachable(cfg, t) && t.collectorDone
    requires job.files == cfg.files && plan.capacity == cfg.capacity && plan.For(job)
    requires CarriesTagged(job, cfg.capacity, messages, t.delivered)
    ensures filesComplete == |results| == |job.files|
    ensures forall f :: 0 <= f < |job.files| ==> results[f].Some? && IsComplete(job, results[f].value, f)
  {
    FinishedIsComplete(cfg, t, job);
    results, filesComplete := RunBatch(plan, messages, job, t.delivered);
  }
}
