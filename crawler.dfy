/**
 * The crawl bookkeeping of `WebCrawler` (main.py): the dispatcher loop that,
 * while crawling is on, marks the previous cycle's URLs crawled, claims
 * uncrawled records, runs the workers over the claimed batch and saves the
 * links they found. The database is the in-memory table of `LinkTable`;
 * fetching and HTML parsing are the `fetch` input; the worker threads run one
 * chunk after the other; the user's Stop button is an input saying where in
 * a cycle it is pressed.
 */
module Crawler {
  import opened Wrappers
  import opened Text
  import opened LinkTable
  import opened LinkFilter
  import opened Chunking

  /** What the outside world supplies to one dispatcher cycle: the text of
      the thread-count entry when `run_crawlers` reads it, the outcome of
      fetching each link, and the Stop button. `stop == Some(k)` means the
      user presses Stop just before the `k`-th URL checkpoint of the cycle
      (counting the checkpoints of the chunks one after the other), or after
      the workers are done when the cycle has no `k`-th checkpoint;
      `stop == None` means Stop is not pressed during the cycle. */
  datatype CycleEnv = CycleEnv(threadsEntry: string, fetch: string -> FetchOutcome, stop: Option<nat>)

  /** The entry either fails `int()` or gives a positive thread count. (A
      zero count raises `ZeroDivisionError` at main.py:317, and a negative
      one raises `ValueError` in `ThreadPoolExecutor` when the batch is not
      empty; either kills the dispatcher thread. A negative count with an
      empty batch passes through the cycle without effect. Neither is part
      of the model.) */
  predicate ValidThreadsEntry(entry: string) {
    ValidThreads(ParseInt(entry))
  }

  /** A cycle after which the dispatcher loop ends: the user presses Stop
      during it, or the thread-count entry is not an integer. */
  predicate EndsCrawling(env: CycleEnv) {
    env.stop.Some? || ParseInt(env.threadsEntry).None?
  }

  /** Some cycle of `envs` ends crawling. */
  predicate SomeEnds(envs: seq<CycleEnv>) {
    envs != [] && (EndsCrawling(envs[0]) || SomeEnds(envs[1..]))
  }

  lemma {:induction false} SomeEndsIff(envs: seq<CycleEnv>)
    ensures SomeEnds(envs) <==> exists j :: 0 <= j < |envs| && EndsCrawling(envs[j])
  {
    if envs != [] {
      SomeEndsIff(envs[1..]);
      assert forall j :: 1 <= j < |envs| ==> envs[j] == envs[1..][j - 1];
      if !EndsCrawling(envs[0]) && exists j :: 0 <= j < |envs| && EndsCrawling(envs[j]) {
        var j :| 0 <= j < |envs| && EndsCrawling(envs[j]);
        assert EndsCrawling(envs[1..][j - 1]);
      }
    }
  }

  /** The number of cycles up to and including the first one of `envs`
      that ends crawling. */
  function CyclesUntilEnd(envs: seq<CycleEnv>): nat {
    if envs == [] then 0
    else if EndsCrawling(envs[0]) then 1
    else 1 + CyclesUntilEnd(envs[1..])
  }

  /** When some cycle ends crawling, `CyclesUntilEnd` counts the cycles up to
      the first such one: it ends crawling and none before it does. */
  lemma {:induction false} CyclesUntilEndIsFirst(envs: seq<CycleEnv>)
    requires SomeEnds(envs)
    ensures var n := CyclesUntilEnd(envs);
      && 1 <= n <= |envs| && EndsCrawling(envs[n - 1])
      && forall j :: 0 <= j < n - 1 ==> !EndsCrawling(envs[j])
  {
    if !EndsCrawling(envs[0]) {
      CyclesUntilEndIsFirst(envs[1..]);
      assert forall j :: 1 <= j < |envs| ==> envs[j] == envs[1..][j - 1];
    }
  }

  /** One cycle of the dispatcher loop at position `k` of `envs`: it counts
      one, and unless it ends crawling some later cycle still does. */
  lemma CyclesUntilEndStep(envs: seq<CycleEnv>, k: nat)
    requires k <= |envs| && SomeEnds(envs[k..])
    ensures k < |envs|
    ensures CyclesUntilEnd(envs[k..]) ==
      1 + if EndsCrawling(envs[k]) then 0 else CyclesUntilEnd(envs[k + 1..])
    ensures !EndsCrawling(envs[k]) ==> SomeEnds(envs[k + 1..])
  {
    assert envs[k..][0] == envs[k] && envs[k..][1..] == envs[k + 1..];
  }

  /** The checkpoint a stop lands before; `-1` is no checkpoint at all. */
  function StopIndex(stop: Option<nat>): int {
    if stop.Some? then stop.value else -1
  }

  /** The URLs of `s` that a worker gets to: none when the flag is already
      off, the ones before the checkpoint `stopAt` (an index into `s`) when
      the stop lands there, and all of them otherwise. They are always a
      prefix of `s`. */
  function Reached(s: seq<Record>, mode: bool, stopAt: int): (r: seq<Record>)
    ensures |r| <= |s|
  {
    if !mode then [] else if 0 <= stopAt < |s| then s[..stopAt] else s
  }

  /** What a worker reaches is a prefix of its URLs: all of them when
      crawling is on and no stop lands among them, exactly those before the
      stop when one does, none when crawling is already off. */
  lemma ReachedShape(s: seq<Record>, mode: bool, stopAt: int)
    ensures var r := Reached(s, mode, stopAt);
      && r == s[..|r|]
      && (mode && !(0 <= stopAt < |s|) ==> r == s)
      && (mode && 0 <= stopAt < |s| ==> |r| == stopAt)
      && (!mode ==> r == [])
  {
    assert s[..|s|] == s;
  }

  /** `crawling_mode` once the worker has been through `s`. */
  function ModeAfter(s: seq<Record>, mode: bool, stopAt: int): bool {
    mode && !(0 <= stopAt < |s|)
  }

  /** Going through `a` and then `b` reaches what going through `a + b`
      reaches, with the stop index shifted by `|a|` for `b`. */
  lemma ReachedAppend(a: seq<Record>, b: seq<Record>, mode: bool, stopAt: int)
    ensures Reached(a + b, mode, stopAt) ==
      Reached(a, mode, stopAt) + Reached(b, ModeAfter(a, mode, stopAt), stopAt - |a|)
    ensures ModeAfter(a + b, mode, stopAt) == ModeAfter(b, ModeAfter(a, mode, stopAt), stopAt - |a|)
  {
    if mode {
      if 0 <= stopAt < |a| {
        assert (a + b)[..stopAt] == a[..stopAt];
      } else if stopAt < |a| + |b| && 0 <= stopAt {
        assert (a + b)[..stopAt] == a + b[..stopAt - |a|];
      }
    }
  }

  /** A thread count as `run_crawlers` may get it: no count (the entry is
      not an integer) or a positive one. */
  predicate ValidThreads(threads: Option<int>) {
    threads.None? || threads.value >= 1
  }

  /** The URLs the chunks of a cycle cover, in chunk order: none when there
      is no thread count, otherwise the URLs of the chunks `run_crawlers`
      emits for the batch. */
  function Covered(batch: seq<Record>, threads: Option<int>): seq<Record>
    requires ValidThreads(threads)
  {
    if threads.None? then [] else Flatten(Chunks(batch, threads.value))
  }

  /** The URLs the workers of one cycle get to: the covered URLs up to the
      stop. */
  function CycleReached(batch: seq<Record>, threads: Option<int>, mode: bool, stopAt: int): seq<Record>
    requires ValidThreads(threads)
  {
    Reached(Covered(batch, threads), mode, stopAt)
  }

  /** `crawling_mode` after `run_crawlers`: off when there is no thread
      count, otherwise as the workers leave it. */
  predicate CycleModeAfter(batch: seq<Record>, threads: Option<int>, mode: bool, stopAt: int)
    requires ValidThreads(threads)
  {
    threads.Some? && ModeAfter(Covered(batch, threads), mode, stopAt)
  }

  /** The URLs the workers of a cycle run with `env` get to, starting from
      `batch` with crawling on. */
  function EnvReached(batch: seq<Record>, env: CycleEnv): seq<Record>
    requires ValidThreadsEntry(env.threadsEntry)
  {
    CycleReached(batch, ParseInt(env.threadsEntry), true, StopIndex(env.stop))
  }

  /** The workers of a cycle reach a prefix of the batch, so they record
      only ids of the batch; without a stop they reach every chunk, and an
      empty batch gives them nothing to do. */
  lemma CycleReachedShape(batch: seq<Record>, threads: Option<int>, mode: bool, stopAt: int)
    requires ValidThreads(threads)
    ensures var r := CycleReached(batch, threads, mode, stopAt);
      && |r| <= |batch| && r == batch[..|r|]
      && IdsOf(r) <= IdsOf(batch)
      && (threads.Some? && mode && stopAt < 0 ==> r == Covered(batch, threads))
      && (batch == [] ==> Covered(batch, threads) == [])
  {
    var r := CycleReached(batch, threads, mode, stopAt);
    if threads.Some? {
      var cover := Covered(batch, threads);
      ChunksShape(batch, threads.value);
      ReachedShape(cover, mode, stopAt);
      assert r == cover[..|r|];
      assert cover[..|r|] == batch[..|r|];
    }
    IdsOfPrefix(batch, |r|);
  }

  /** Without a stop, and with a batch length that is a multiple of the
      chunk length, the workers of a cycle reach every URL of the batch. */
  lemma CycleReachesAll(batch: seq<Record>, t: nat, m: nat)
    requires t >= 1 && |batch| == m * ChunkSize(|batch|, t)
    ensures CycleReached(batch, Some(t), true, -1) == batch
  {
    ChunksMatchCeilOnMultiple(batch, t, m);
  }

  /** The state a cycle leaves behind before the next flush: `batch` ends
      with the records claimed from `marked`, the table as that cycle's
      update left it, and `t` still begins with `marked`: the ids the
      workers reached are only recorded, not yet written back. */
  predicate Unflushed(marked: seq<Record>, batch: seq<Record>, t: seq<Record>) {
    var claim := SelectUncrawled(marked, CLAIM_LIMIT);
    && |claim| <= |batch| && batch[|batch| - |claim|..] == claim
    && |marked| <= |t| && t[..|marked|] == marked
  }

  /** Before the next flush every row claimed in the last cycle is still
      uncrawled in the table. */
  lemma UnflushedClaimUncrawled(marked: seq<Record>, batch: seq<Record>, t: seq<Record>)
    requires Unflushed(marked, batch, t)
    ensures forall i :: 0 <= i < |marked| && marked[i] in SelectUncrawled(marked, CLAIM_LIMIT) ==>
      !t[i].crawled
  {
    forall i | 0 <= i < |marked| && marked[i] in SelectUncrawled(marked, CLAIM_LIMIT)
      ensures !t[i].crawled
    {
      SelectUncrawledRows(marked, CLAIM_LIMIT);
      assert t[..|marked|][i] == t[i];
    }
  }

  /** A claim appended to the batch, then a bulk insert after the updated
      table, leave the cycle unflushed. */
  lemma UnflushedAfterInsert(marked: seq<Record>, pending: seq<Record>, t: seq<Record>,
                             firstId: int, links: set<string>)
    requires InsertedAsNew(marked, t, firstId, links)
    ensures Unflushed(marked, pending + SelectUncrawled(marked, CLAIM_LIMIT), t)
  {
    var claim := SelectUncrawled(marked, CLAIM_LIMIT);
    var batch := pending + claim;
    assert batch[|batch| - |claim|..] == claim;
  }

  /** The crawler's fields as one value, so that a cycle can be stated as a
      step from one whole state to the next. */
  datatype CrawlState = CrawlState(table: seq<Record>, nextId: int, urlsToCrawl: seq<Record>,
                                   newLinks: set<string>, crawledIds: set<int>,
                                   inProgressIds: set<int>, totalNewLinksFound: nat,
                                   crawlingMode: bool)

  /** The table once a cycle has written back the ids recorded before it. */
  function Marked(s: CrawlState): seq<Record> {
    MarkCrawled(s.table, s.crawledIds)
  }

  /** The batch a cycle's workers start from: what was left in it, then the
      records claimed from the updated table. */
  function Batch(s: CrawlState): seq<Record> {
    s.urlsToCrawl + SelectUncrawled(Marked(s), CLAIM_LIMIT)
  }

  /** One dispatcher cycle run with `env` takes the crawler from `pre` to
      `post`: the recorded ids are written back and records are claimed
      (`Marked`, `Batch`); the ids the workers reach are recorded for the
      next cycle; the links found, with those already pending, become
      uncrawled rows with consecutive ids after the updated table; the batch
      is emptied unless the thread-count entry is not an integer; the
      counter moves on by the links saved, and the flag is off exactly when
      the cycle ends crawling. Only the order of the new rows is left open,
      as the bulk insert takes the links from a set. */
  predicate CycleStep(pre: CrawlState, env: CycleEnv, post: CrawlState) {
    && pre.crawlingMode && ValidThreadsEntry(env.threadsEntry)
    && var reached := EnvReached(Batch(pre), env);
       var found := pre.newLinks + LinksFound(reached, env.fetch);
       && InsertedAsNew(Marked(pre), post.table, pre.nextId, found)
       && post.nextId == NextRowId(post.table)
       && post.urlsToCrawl == (if ParseInt(env.threadsEntry).None? then Batch(pre) else [])
       && post.newLinks == {}
       && post.crawledIds == IdsOf(reached)
       && post.inProgressIds == pre.inProgressIds + IdsOf(SelectUncrawled(Marked(pre), CLAIM_LIMIT))
       && post.totalNewLinksFound == pre.totalNewLinksFound + |found|
       && post.crawlingMode == !EndsCrawling(env)
  }

  /** After a cycle the ids its workers reached are only recorded: the
      table still begins with the cycle's updated table, and the batch ends
      with its claim, whose ids are among the claimed ids. Rows are only
      added or marked, claimed ids only added, and the counter moves on by
      the rows added. */
  lemma CycleStepFacts(pre: CrawlState, env: CycleEnv, post: CrawlState)
    requires CycleStep(pre, env, post)
    ensures Unflushed(Marked(pre), Batch(pre), post.table)
    ensures IdsOf(SelectUncrawled(Marked(pre), CLAIM_LIMIT)) <= post.inProgressIds
    ensures Grows(pre.table, post.table)
    ensures pre.inProgressIds <= post.inProgressIds
    ensures post.totalNewLinksFound + |pre.table| == pre.totalNewLinksFound + |post.table|
  {
    var found := pre.newLinks + LinksFound(EnvReached(Batch(pre), env), env.fetch);
    UnflushedAfterInsert(Marked(pre), pre.urlsToCrawl, post.table, pre.nextId, found);
    CycleRows(pre.table, pre.crawledIds, post.table, pre.nextId, found);
  }

  /** `runs` is the crawler's state before each of the first `n` cycles of
      `envs` and after the last of them, each cycle a `CycleStep`. */
  predicate IsRun(runs: seq<CrawlState>, envs: seq<CycleEnv>, n: nat) {
    && n <= |envs| && |runs| == n + 1
    && (n > 0 ==> IsRun(runs[..n], envs, n - 1) && CycleStep(runs[n - 1], envs[n - 1], runs[n]))
  }

  /** After the last cycle of a run the new links are saved, the ids its
      workers reached are recorded but not yet written back, and the batch
      is kept only when the thread-count entry was not an integer. */
  lemma LastCycle(runs: seq<CrawlState>, envs: seq<CycleEnv>, n: nat)
    requires IsRun(runs, envs, n) && n > 0
    ensures ValidThreadsEntry(envs[n - 1].threadsEntry)
    ensures var last, post := runs[n - 1], runs[n];
      && post.newLinks == {}
      && post.crawledIds == IdsOf(EnvReached(Batch(last), envs[n - 1]))
      && post.urlsToCrawl ==
           (if ParseInt(envs[n - 1].threadsEntry).None? then Batch(last) else [])
      && Unflushed(Marked(last), Batch(last), post.table)
      && IdsOf(SelectUncrawled(Marked(last), CLAIM_LIMIT)) <= post.inProgressIds
  {
  }

  /** A run extended by one more cycle. */
  lemma RunExtend(runs: seq<CrawlState>, envs: seq<CycleEnv>, n: nat, post: CrawlState)
    requires IsRun(runs, envs, n) && n < |envs| && CycleStep(runs[n], envs[n], post)
    ensures IsRun(runs + [post], envs, n + 1)
  {
  }

  /** Over a whole run rows are only added or marked, claimed ids only
      added, and the counter moves on by the rows added. */
  lemma {:induction false} RunFacts(runs: seq<CrawlState>, envs: seq<CycleEnv>, n: nat)
    requires IsRun(runs, envs, n)
    ensures Grows(runs[0].table, runs[n].table)
    ensures runs[0].inProgressIds <= runs[n].inProgressIds
    ensures runs[n].totalNewLinksFound + |runs[0].table| == runs[0].totalNewLinksFound + |runs[n].table|
  {
    if n > 0 {
      RunFacts(runs[..n], envs, n - 1);
      assert runs[..n][0] == runs[0] && runs[..n][n - 1] == runs[n - 1];
      CycleStepFacts(runs[n - 1], envs[n - 1], runs[n]);
      GrowsTransitive(runs[0].table, runs[n - 1].table, runs[n].table);
    }
  }

  /** The crawler's state: the in-memory table with the row id the next
      insert gets, the batch claimed for the workers, the links found and the
      ids reached since the last flush, every id ever claimed, the running
      count of saved links and the crawling flag. */
  class WebCrawler {
    var table: seq<Record>
    var nextId: int
    var urlsToCrawl: seq<Record>
    var newLinks: set<string>
    var crawledIds: set<int>
    var inProgressIds: set<int>
    var totalNewLinksFound: nat
    var crawlingMode: bool

    /** Rows stay in row-id order with `nextId` past the last one, so the
        bulk insert hands out fresh row ids. */
    ghost predicate Valid()
      reads this`table, this`nextId
    {
      IdsIncreasing(table) && nextId == NextRowId(table)
    }

    /** The fields of the crawler as one value. */
    ghost function Snap(): CrawlState
      reads this
    {
      CrawlState(table, nextId, urlsToCrawl, newLinks, crawledIds, inProgressIds,
                 totalNewLinksFound, crawlingMode)
    }

    /** A crawler connected to a database holding `stored`, with the
        class-level defaults of main.py:21-30. */
    constructor (stored: seq<Record>)
      requires IdsIncreasing(stored)
      ensures Valid()
      ensures table == stored && urlsToCrawl == [] && newLinks == {}
      ensures crawledIds == {} && inProgressIds == {} && totalNewLinksFound == 0
      ensures crawlingMode
    {
      table := stored;
      nextId := NextRowId(stored);
      urlsToCrawl := [];
      newLinks := {};
      crawledIds := {};
      inProgressIds := {};
      totalNewLinksFound := 0;
      crawlingMode := true;
    }

    /** `start_crawling`: turns crawling on and runs the dispatcher thread it
        starts, cycle by cycle from `envs`, until the loop ends. Some cycle of
        `envs` must end crawling, otherwise the dispatcher would never stop;
        the dispatcher runs exactly up to the first such cycle. `runs` is the
        crawler's state before each cycle and after the last one: it starts
        from the state with crawling turned on, ends with the current state,
        and each cycle is a `CycleStep`. So the ids the last cycle's workers
        reached stay recorded for the next start, not yet written back: the
        table still begins with that cycle's updated table, and its claim is
        at the end of the batch. The new links are saved, and the batch is
        kept only when the thread-count entry was not an integer. The table
        only grows, ids are only ever added to `inProgressIds`, and the
        counter grows by the number of rows added. */
    method StartCrawling(envs: seq<CycleEnv>) returns (cycles: nat, ghost runs: seq<CrawlState>)
      requires Valid()
      requires forall j :: 0 <= j < |envs| ==> ValidThreadsEntry(envs[j].threadsEntry)
      requires exists j :: 0 <= j < |envs| && EndsCrawling(envs[j])
      modifies this`table, this`nextId, this`urlsToCrawl, this`newLinks
      modifies this`crawledIds, this`inProgressIds, this`totalNewLinksFound, this`crawlingMode
      ensures Valid() && !crawlingMode
      ensures cycles == CyclesUntilEnd(envs)
      ensures 1 <= cycles <= |envs| && EndsCrawling(envs[cycles - 1])
      ensures forall j :: 0 <= j < cycles - 1 ==> !EndsCrawling(envs[j])
      ensures IsRun(runs, envs, cycles)
      ensures runs[0] == old(Snap()).(crawlingMode := true) && runs[cycles] == Snap()
      ensures newLinks == {}
      ensures crawledIds == IdsOf(EnvReached(Batch(runs[cycles - 1]), envs[cycles - 1]))
      ensures urlsToCrawl ==
        if ParseInt(envs[cycles - 1].threadsEntry).None? then Batch(runs[cycles - 1]) else []
      ensures Unflushed(Marked(runs[cycles - 1]), Batch(runs[cycles - 1]), table)
      ensures IdsOf(SelectUncrawled(Marked(runs[cycles - 1]), CLAIM_LIMIT)) <= inProgressIds
      ensures Grows(old(table), table)
      ensures old(inProgressIds) <= inProgressIds
      ensures totalNewLinksFound + |old(table)| == old(totalNewLinksFound) + |table|
    {
      SomeEndsIff(envs);
      CyclesUntilEndIsFirst(envs);
      crawlingMode := true;
      cycles, runs := CrawlerDispatcher(envs);
      RunFacts(runs, envs, cycles);
      LastCycle(runs, envs, cycles);
    }

    /** `stop_crawling`: turns crawling off. */
    method StopCrawling()
      modifies this`crawlingMode
      ensures !crawlingMode
    {
      crawlingMode := false;
    }

    /** `crawler_dispatcher`: while crawling is on, one cycle per element of
        `envs`: mark the URLs the previous cycle reached as crawled, claim
        uncrawled records, run the workers, save the links they found. The
        loop runs exactly up to and including the first cycle that ends
        crawling, or not at all when crawling is already off. `runs` is the
        crawler's state before each cycle and after the last one, from the
        state on entry to the current one, each cycle a `CycleStep`. */
    method CrawlerDispatcher(envs: seq<CycleEnv>) returns (cycles: nat, ghost runs: seq<CrawlState>)
      requires Valid()
      requires forall j :: 0 <= j < |envs| ==> ValidThreadsEntry(envs[j].threadsEntry)
      requires crawlingMode ==> exists j :: 0 <= j < |envs| && EndsCrawling(envs[j])
      modifies this`table, this`nextId, this`urlsToCrawl, this`newLinks
      modifies this`crawledIds, this`inProgressIds, this`totalNewLinksFound, this`crawlingMode
      ensures Valid() && !crawlingMode
      ensures cycles == if old(crawlingMode) then CyclesUntilEnd(envs) else 0
      ensures IsRun(runs, envs, cycles) && runs[0] == old(Snap()) && runs[cycles] == Snap()
    {
      cycles := 0;
      runs := [Snap()];
      SomeEndsIff(envs);
      assert envs[0..] == envs;
      while crawlingMode
        invariant Valid()
        invariant cycles <= |envs|
        invariant crawlingMode ==> SomeEnds(envs[cycles..])
        invariant (if old(crawlingMode) then CyclesUntilEnd(envs) else 0) ==
          cycles + if crawlingMode then CyclesUntilEnd(envs[cycles..]) else 0
        invariant IsRun(runs, envs, cycles) && runs[0] == old(Snap()) && runs[cycles] == Snap()
        decreases |envs| - cycles
      {
        CyclesUntilEndStep(envs, cycles);
        var env := envs[cycles];
        NextCycle(env);
        RunExtend(runs, envs, cycles, Snap());
        runs := runs + [Snap()];
        cycles := cycles + 1;
        assert envs[cycles - 1] == env;
      }
    }

    /** One pass of the dispatcher loop body, as a step of the whole state. */
    method NextCycle(env: CycleEnv)
      requires Valid() && crawlingMode && ValidThreadsEntry(env.threadsEntry)
      modifies this`table, this`nextId, this`urlsToCrawl, this`newLinks
      modifies this`crawledIds, this`inProgressIds, this`totalNewLinksFound, this`crawlingMode
      ensures Valid() && CycleStep(old(Snap()), env, Snap())
    {
      ghost var marked, batch, reached, found;
      marked, batch, reached, found := DispatchCycle(env);
    }

    /** One pass of the dispatcher loop body: mark, claim, run, save. The
        table receives the ids recorded in the PREVIOUS cycle: a row that was
        there is crawled afterwards exactly when it was before or its id was
        recorded then. The ids this cycle's workers reach are recorded for the
        next one; they all belong to the claimed batch. The found links become
        new rows, the batch is emptied unless the thread-count entry is not an
        integer, and the flag ends up off exactly when the cycle ends
        crawling. `marked` is the table after the update, `batch` the batch
        the workers start from, `reached` the URLs they get to and `found`
        the links saved at the end. */
    method DispatchCycle(env: CycleEnv)
      returns (ghost marked: seq<Record>, ghost batch: seq<Record>, ghost reached: seq<Record>,
               ghost found: set<string>)
      requires Valid() && crawlingMode && ValidThreadsEntry(env.threadsEntry)
      modifies this`table, this`nextId, this`urlsToCrawl, this`newLinks
      modifies this`crawledIds, this`inProgressIds, this`totalNewLinksFound, this`crawlingMode
      ensures Valid()
      ensures crawlingMode == !EndsCrawling(env)
      ensures marked == MarkCrawled(old(table), old(crawledIds))
      ensures batch == old(urlsToCrawl) + SelectUncrawled(marked, CLAIM_LIMIT)
      ensures inProgressIds == old(inProgressIds) + IdsOf(SelectUncrawled(marked, CLAIM_LIMIT))
      ensures reached == EnvReached(batch, env)
      ensures found == old(newLinks) + LinksFound(reached, env.fetch)
      ensures crawledIds == IdsOf(reached)
      ensures urlsToCrawl == if ParseInt(env.threadsEntry).None? then batch else []
      ensures InsertedAsNew(marked, table, old(nextId), found)
      ensures totalNewLinksFound == old(totalNewLinksFound) + |found|
      ensures newLinks == {}
      ensures Grows(old(table), table)
      ensures forall i :: 0 <= i < |old(table)| ==>
        (table[i].crawled <==> old(table)[i].crawled || old(table)[i].id in old(crawledIds))
      ensures crawledIds <= IdsOf(old(urlsToCrawl)) + inProgressIds
      ensures Unflushed(marked, batch, table)
      ensures |table| == |old(table)| + |found|
    {
      MarkAndClaim();
      marked := table;
      ghost var claim := SelectUncrawled(table, CLAIM_LIMIT);
      batch := urlsToCrawl;
      assert batch[|old(urlsToCrawl)|..] == claim;
      reached := EnvReached(batch, env);
      found := newLinks + LinksFound(reached, env.fetch);
      RunAndSave(env);
      assert crawledIds == IdsOf(reached) by {
        assert crawledIds == {} + IdsOf(reached);
      }
      assert Grows(old(table), table) && forall i :: 0 <= i < |old(table)| ==>
        (table[i].crawled <==> old(table)[i].crawled || old(table)[i].id in old(crawledIds)) by {
        CycleRows(old(table), old(crawledIds), table, old(nextId), found);
      }
      assert IdsOf(reached) <= IdsOf(old(urlsToCrawl)) + IdsOf(claim) by {
        CycleReachedShape(batch, ParseInt(env.threadsEntry), true, StopIndex(env.stop));
        IdsOfAppend(old(urlsToCrawl), claim);
      }
      assert Unflushed(marked, batch, table) by {
        UnflushedAfterInsert(marked, old(urlsToCrawl), table, old(nextId), found);
      }
    }

    /** The first half of a cycle: flush the ids recorded in the previous
        cycle, then claim uncrawled records into the batch. */
    method MarkAndClaim()
      requires Valid()
      modifies this`table, this`crawledIds, this`urlsToCrawl, this`inProgressIds
      ensures Valid()
      ensures table == MarkCrawled(old(table), old(crawledIds)) && crawledIds == {}
      ensures urlsToCrawl == old(urlsToCrawl) + SelectUncrawled(table, CLAIM_LIMIT)
      ensures inProgressIds == old(inProgressIds) + IdsOf(SelectUncrawled(table, CLAIM_LIMIT))
    {
      MarkUrlsAsCrawled();
      GetUrlsToCrawlFromDb();
    }

    /** The second half of a cycle: run the workers over the claimed batch,
        save the links they found as new rows after the existing ones, and
        take the user's Stop into account. */
    method RunAndSave(env: CycleEnv)
      requires Valid() && crawlingMode && ValidThreadsEntry(env.threadsEntry)
      modifies this`table, this`nextId, this`urlsToCrawl, this`newLinks
      modifies this`crawledIds, this`totalNewLinksFound, this`crawlingMode
      ensures Valid()
      ensures crawlingMode == !EndsCrawling(env)
      ensures var reached := EnvReached(old(urlsToCrawl), env);
        var found := old(newLinks) + LinksFound(reached, env.fetch);
        && crawledIds == old(crawledIds) + IdsOf(reached)
        && urlsToCrawl == (if ParseInt(env.threadsEntry).None? then old(urlsToCrawl) else [])
        && InsertedAsNew(old(table), table, old(nextId), found)
        && totalNewLinksFound == old(totalNewLinksFound) + |found|
      ensures newLinks == {}
    {
      ghost var reached := EnvReached(urlsToCrawl, env);
      ghost var found := newLinks + LinksFound(reached, env.fetch);
      RunCrawlers(env.threadsEntry, env.fetch, StopIndex(env.stop));
      assert newLinks == found && crawledIds == old(crawledIds) + IdsOf(reached);
      SaveNewLinksToDb();
      if env.stop.Some? && crawlingMode {
        // The user's Stop lands after the cycle's last checkpoint.
        StopCrawling();
      }
    }

    /** `mark_urls_as_crawled`: the update over the recorded ids, when there
        are any, then the ids are cleared. */
    method MarkUrlsAsCrawled()
      requires Valid()
      modifies this`table, this`crawledIds
      ensures Valid()
      ensures table == MarkCrawled(old(table), old(crawledIds))
      ensures crawledIds == {}
      ensures old(crawledIds) == {} ==> table == old(table)
    {
      MarkCrawledKeepsIds(table, crawledIds);
      if crawledIds != {} {
        table := MarkCrawled(table, crawledIds);
        crawledIds := {};
      } else {
        MarkCrawledNothing(table);
      }
    }

    /** `get_urls_to_crawl_from_db`: runs the claim query and appends the
        claimed records to the batch, adding their ids to the claimed ids. */
    method GetUrlsToCrawlFromDb()
      requires Valid()
      modifies this`urlsToCrawl, this`inProgressIds
      ensures Valid()
      ensures urlsToCrawl == old(urlsToCrawl) + SelectUncrawled(table, CLAIM_LIMIT)
      ensures inProgressIds == old(inProgressIds) + IdsOf(SelectUncrawled(table, CLAIM_LIMIT))
    {
      var result := SelectUncrawled(table, CLAIM_LIMIT);
      ClaimResult(result);
    }

    /** The loop over the query result: each record joins the batch and its
        id the claimed ids. */
    method ClaimResult(result: seq<Record>)
      modifies this`urlsToCrawl, this`inProgressIds
      ensures urlsToCrawl == old(urlsToCrawl) + result
      ensures inProgressIds == old(inProgressIds) + IdsOf(result)
    {
      var i := 0;
      while i < |result|
        invariant 0 <= i <= |result|
        invariant urlsToCrawl == old(urlsToCrawl) + result[..i]
        invariant inProgressIds == old(inProgressIds) + IdsOf(result[..i])
      {
        assert result[..i + 1][..i] == result[..i];
        inProgressIds := inProgressIds + {result[i].id};
        urlsToCrawl := urlsToCrawl + [result[i]];
        i := i + 1;
      }
      assert result[..i] == result;
    }

    /** `run_crawlers`: parses the thread count, cuts the batch into chunks
        and lets one worker go through each chunk (here one after the other),
        then empties the batch. An entry that is not an integer stops
        crawling and leaves everything else as it was. */
    method RunCrawlers(entry: string, fetch: string -> FetchOutcome, stopAt: int)
      requires Valid() && ValidThreadsEntry(entry)
      modifies this`urlsToCrawl, this`newLinks, this`crawledIds, this`crawlingMode
      ensures Valid()
      ensures var reached := CycleReached(old(urlsToCrawl), ParseInt(entry), old(crawlingMode), stopAt);
        && urlsToCrawl == (if ParseInt(entry).None? then old(urlsToCrawl) else [])
        && crawledIds == old(crawledIds) + IdsOf(reached)
        && newLinks == old(newLinks) + LinksFound(reached, fetch)
        && crawlingMode == CycleModeAfter(old(urlsToCrawl), ParseInt(entry), old(crawlingMode), stopAt)
    {
      var parsed := ParseInt(entry);
      CycleReachedShape(urlsToCrawl, parsed, crawlingMode, stopAt);
      if parsed.None? {
        // Followed by the "Not valid threads count" dialog.
        StopCrawling();
        return;
      }
      var maxThreads := parsed.value;
      var chunks := SplitIntoChunks(urlsToCrawl, maxThreads);
      assert Flatten(chunks) == Covered(urlsToCrawl, parsed);
      if chunks != [] {
        RunChunks(chunks, fetch, stopAt);
        urlsToCrawl := [];
        // When crawling was stopped the pool is shut down and the method
        // returns; no state changes.
      } else {
        ChunksShape(urlsToCrawl, maxThreads);
      }
    }

    /** The thread pool of `run_crawlers`: one worker per chunk, taken one
        after the other. The stop index is shifted by the URLs of the chunks
        before. */
    method RunChunks(chunks: seq<seq<Record>>, fetch: string -> FetchOutcome, stopAt: int)
      modifies this`newLinks, this`crawledIds, this`crawlingMode
      ensures var reached := Reached(Flatten(chunks), old(crawlingMode), stopAt);
        && crawledIds == old(crawledIds) + IdsOf(reached)
        && newLinks == old(newLinks) + LinksFound(reached, fetch)
        && crawlingMode == ModeAfter(Flatten(chunks), old(crawlingMode), stopAt)
    {
      var c := 0;
      var offset := 0;
      while c < |chunks|
        invariant 0 <= c <= |chunks|
        invariant offset == |Flatten(chunks[..c])|
        invariant crawledIds ==
          old(crawledIds) + IdsOf(Reached(Flatten(chunks[..c]), old(crawlingMode), stopAt))
        invariant newLinks ==
          old(newLinks) + LinksFound(Reached(Flatten(chunks[..c]), old(crawlingMode), stopAt), fetch)
        invariant crawlingMode == ModeAfter(Flatten(chunks[..c]), old(crawlingMode), stopAt)
      {
        ExtractLinksFromUrls(chunks[c], fetch, stopAt - offset);
        ReachedNextChunk(chunks, c, old(crawlingMode), stopAt, fetch);
        offset := offset + |chunks[c]|;
        c := c + 1;
      }
      assert chunks[..c] == chunks;
    }

    /** `extract_links_from_urls`, the work of one worker: before each URL it
        checks the flag and returns when crawling is off; otherwise it fetches
        the URL, keeps the links of a 200 response and records the id,
        whatever the outcome. `stopAt` is the index of the URL before which
        the user presses Stop, if it lies in this chunk. */
    method ExtractLinksFromUrls(urls: seq<Record>, fetch: string -> FetchOutcome, stopAt: int)
      modifies this`newLinks, this`crawledIds, this`crawlingMode
      ensures var reached := Reached(urls, old(crawlingMode), stopAt);
        && crawledIds == old(crawledIds) + IdsOf(reached)
        && newLinks == old(newLinks) + LinksFound(reached, fetch)
        && crawlingMode == ModeAfter(urls, old(crawlingMode), stopAt)
    {
      var i := 0;
      while i < |urls|
        invariant 0 <= i <= |urls|
        invariant i > 0 ==> old(crawlingMode)
        invariant crawlingMode == old(crawlingMode)
        invariant !(0 <= stopAt < i)
        invariant crawledIds == old(crawledIds) + IdsOf(urls[..i])
        invariant newLinks == old(newLinks) + LinksFound(urls[..i], fetch)
      {
        if i == stopAt {
          // The user presses Stop while this worker is between two URLs.
          StopCrawling();
        }
        if !crawlingMode {
          assert urls[..i] == Reached(urls, old(crawlingMode), stopAt);
          return;
        }
        var url := urls[i];
        var outcome := fetch(url.link);
        ghost var linksBefore := newLinks;
        if outcome.Response? && outcome.status == 200 {
          CollectLinks(outcome.hrefs);
        }
        assert newLinks == linksBefore + PageLinks(outcome);
        // The `finally` clause: the id is recorded whatever the outcome.
        crawledIds := crawledIds + {url.id};
        assert urls[..i + 1][..i] == urls[..i];
        assert LinksFound(urls[..i + 1], fetch) == LinksFound(urls[..i], fetch) + PageLinks(outcome);
        assert IdsOf(urls[..i + 1]) == IdsOf(urls[..i]) + {url.id};
        i := i + 1;
      }
      assert urls[..i] == urls;
    }

    /** The anchor loop of a 200 response: every `href` that looks absolute
        is added to the new links, trimmed. */
    method CollectLinks(hrefs: seq<string>)
      modifies this`newLinks
      ensures newLinks == old(newLinks) + KeptLinks(hrefs)
    {
      var j := 0;
      while j < |hrefs|
        invariant 0 <= j <= |hrefs|
        invariant newLinks == old(newLinks) + KeptLinks(hrefs[..j])
      {
        var link := hrefs[j];
        if IsAbsoluteLooking(link) {
          newLinks := newLinks + {Strip(link)};
        }
        assert hrefs[..j + 1] == hrefs[..j] + [link];
        KeptLinksAppend(hrefs[..j], link);
        j := j + 1;
      }
      assert hrefs[..j] == hrefs;
    }

    /** `save_new_links_to_db`: one new uncrawled row per new link, the count
        of saved links moves on and the new links are cleared. */
    method SaveNewLinksToDb()
      requires Valid()
      modifies this`table, this`nextId, this`totalNewLinksFound, this`newLinks
      ensures Valid()
      ensures InsertedAsNew(old(table), table, old(nextId), old(newLinks))
      ensures totalNewLinksFound == old(totalNewLinksFound) + |old(newLinks)|
      ensures newLinks == {}
    {
      InsertLinks(newLinks);
      InsertKeepsIds(old(table), table, old(nextId), old(newLinks));
      totalNewLinksFound := totalNewLinksFound + |newLinks|;
      newLinks := {};
    }

    /** `import_to_db`: one new uncrawled row per link when there are any. */
    method ImportToDb(links: set<string>)
      requires Valid()
      modifies this`table, this`nextId
      ensures Valid()
      ensures InsertedAsNew(old(table), table, old(nextId), links)
    {
      if links != {} {
        InsertLinks(links);
        InsertKeepsIds(old(table), table, old(nextId), links);
      } else {
        assert table[..|table|] == table && table[|table|..] == [];
      }
    }

    /** The import of one file: the set of its lines, each without its line
        feed, goes to `ImportToDb`. `lines` is what `readlines()` returns. */
    method ImportFileLines(lines: seq<string>)
      requires Valid()
      modifies this`table, this`nextId
      ensures Valid()
      ensures InsertedAsNew(old(table), table, old(nextId), set l | l in lines :: LineContent(l))
    {
      var links := set l | l in lines :: LineContent(l);
      ImportToDb(links);
    }

    /** The bulk insert: one row per link, with consecutive row ids from
        `nextId`, in whatever order the set yields its elements. */
    method InsertLinks(links: set<string>)
      requires IdsIncreasing(table) && nextId == NextRowId(table)
      modifies this`table, this`nextId
      ensures IdsIncreasing(table) && nextId == NextRowId(table)
      ensures InsertedAsNew(old(table), table, old(nextId), links)
    {
      var remaining := links;
      assert table[..|table|] == table && table[|table|..] == [];
      while remaining != {}
        invariant InsertProgress(old(table), table, old(nextId), links, remaining, nextId)
        decreases |remaining|
      {
        var link :| link in remaining;
        InsertStep(old(table), table, old(nextId), links, remaining, nextId, link);
        table := table + [Record(nextId, link, false)];
        nextId := nextId + 1;
        remaining := remaining - {link};
      }
      assert links - remaining == links;
    }
  }

  /** Going through the chunks before `c` and then chunk `c` is going
      through the chunks up to and including `c`: the recorded ids and the
      links found add up, and the flag ends the same. */
  lemma ReachedNextChunk(chunks: seq<seq<Record>>, c: nat, mode: bool, stopAt: int,
                         fetch: string -> FetchOutcome)
    requires c < |chunks|
    ensures var done := Flatten(chunks[..c]);
      var next := Flatten(chunks[..c + 1]);
      var mid := ModeAfter(done, mode, stopAt);
      var r := Reached(chunks[c], mid, stopAt - |done|);
      && |next| == |done| + |chunks[c]|
      && IdsOf(Reached(next, mode, stopAt)) == IdsOf(Reached(done, mode, stopAt)) + IdsOf(r)
      && LinksFound(Reached(next, mode, stopAt), fetch) ==
         LinksFound(Reached(done, mode, stopAt), fetch) + LinksFound(r, fetch)
      && ModeAfter(next, mode, stopAt) == ModeAfter(chunks[c], mid, stopAt - |done|)
  {
    var done := Flatten(chunks[..c]);
    assert chunks[..c + 1] == chunks[..c] + [chunks[c]];
    FlattenAppend(chunks[..c], chunks[c]);
    ReachedAppend(done, chunks[c], mode, stopAt);
    var r1 := Reached(done, mode, stopAt);
    var r2 := Reached(chunks[c], ModeAfter(done, mode, stopAt), stopAt - |done|);
    IdsOfAppend(r1, r2);
    LinksFoundAppend(r1, r2, fetch);
  }

  /** A bulk insert keeps every id already in the table. */
  lemma InsertKeepsIds(before: seq<Record>, after: seq<Record>, firstId: int, links: set<string>)
    requires InsertedAsNew(before, after, firstId, links)
    ensures IdsOf(before) <= IdsOf(after)
  {
    IdsOfPrefix(after, |before|);
  }

  /** The one-cycle-deferred flush: after a cycle, the rows that were in the
      table keep their ids and links, and a row is crawled exactly when it
      already was or its id was recorded during the PREVIOUS cycle; the rows
      after them are the new links. */
  lemma CycleRows(before: seq<Record>, ids: set<int>, after: seq<Record>, firstId: int, found: set<string>)
    requires InsertedAsNew(MarkCrawled(before, ids), after, firstId, found)
    ensures Grows(before, after)
    ensures forall i :: 0 <= i < |before| ==>
      after[i].id == before[i].id && after[i].link == before[i].link &&
      (after[i].crawled <==> before[i].crawled || before[i].id in ids)
  {
    var marked := MarkCrawled(before, ids);
    MarkCrawledRows(before, ids);
    assert forall i :: 0 <= i < |marked| ==> after[i] == after[..|marked|][i];
  }
}
