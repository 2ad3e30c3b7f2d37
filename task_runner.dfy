/** NextDnsTaskRunner: the run orchestrator and the batch dispatcher. Source lists, loaders,
    the deny service and the remote client are not modelled; what the run gets from them is
    given as `Fetched`, and the successive answers of the remote write calls the run makes
    through its dispatch loops, in call order, as one `script`. The deny service's remove-all
    makes its calls on its own; only how it ended is given. */
module TaskRunner {
  import opened Outcomes
  import opened Dispatcher
  import opened Batches
  import opened RewriteModel
  import opened RewriteService

  /** Sleep after each successful batch call, in milliseconds (THROTTLE_MS). */
  const BatchThrottleMs: nat := 4000

  /** The configured source descriptors of each kind (BLOCK and REDIRECT), possibly empty. */
  datatype Sources = Sources(block: seq<string>, redirect: seq<string>)

  /** What the run gets from the parts of the program outside this model: the deny list left
      after dropping the entries the remote already holds, the routes loaded from the redirect
      sources, the rewrites the remote holds, and how the deny service's remove-all ended
      (`Ok`, or a failure that it throws). */
  datatype Fetched = Fetched(blocklist: seq<string>, routes: seq<Route>, rewrites: seq<Rewrite>,
                             denyRemoval: Outcome)

  /** What the run did, phase by phase: None for a phase that never started. */
  datatype RunReport = RunReport(
    block: Option<Report<seq<string>>>,          // saving the deny list in batches
    cleanup: Option<Report<string>>,              // deleting the outdated rewrites one by one
    save: Option<Report<seq<CreateRewrite>>>,     // saving the create-set in batches
    denyClear: Option<Outcome>,                   // how the deny service's remove-all ended
    clear: Option<Report<string>>,                // the rewrite service's remove-all
    status: Status)

  /** How many remote answers a phase consumed. */
  function Used<U>(phase: Option<Report<U>>): nat
  {
    if phase.Some? then |phase.value.steps| else 0
  }

  /** The phase did not run, or ran to completion. */
  predicate Done<U>(phase: Option<Report<U>>)
  {
    phase.None? || phase.value.status == Completed
  }

  /** The batch loop: for i = 0, 50, 100, ... the slice items[i..min(i + 50, n)] is submitted
      until it succeeds, sleeping the cooldown after every rate-limited answer and the throttle
      after the success; any other failure throws and no later batch is submitted. */
  method ProcessInBatches<T>(items: seq<T>, script: seq<Outcome>) returns (r: Report<seq<T>>)
    ensures r == Dispatch(Slices(items), 0, script, BatchThrottleMs)
  {
    ghost var batches := Slices(items);
    var steps: seq<Step<seq<T>>> := [];
    var pos := 0;
    var i := 0;
    var k := 0;  // the batch number, i / 50
    SlicesCountIff(items, 0);
    while i < |items|
      invariant i == BatchSize * k
      invariant k <= |batches|
      invariant k < |batches| <==> i < |items|
      invariant pos <= |script|
      invariant Dispatch(batches, 0, script, BatchThrottleMs)
        == Append(steps, Dispatch(batches, k, script[pos..], BatchThrottleMs))
    {
      var batch := items[i..Min(i + BatchSize, |items|)];
      SliceAt(items, k);
      var success := false;
      while !success
        invariant pos <= |script|
        invariant Dispatch(batches, 0, script, BatchThrottleMs)
          == Append(steps, Dispatch(batches, if success then k + 1 else k, script[pos..], BatchThrottleMs))
        decreases |script| - pos
      {
        if pos == |script| {
          r := Report(steps, ScriptExhausted);
          return;
        }
        var outcome := script[pos];
        DispatchCall(steps, batches, k, script[pos..], BatchThrottleMs);
        assert script[pos..][1..] == script[pos + 1..];
        pos := pos + 1;
        if outcome.Ok? {
          steps := steps + [Step(k, batch, outcome, Throttle(BatchThrottleMs))];
          success := true;
        } else if IsRateLimited(outcome) {
          steps := steps + [Step(k, batch, outcome, Cooldown(CooldownMs))];
        } else {
          r := Report(steps + [Step(k, batch, outcome, NoPause)], Aborted(outcome.msg));
          return;
        }
      }
      i := i + BatchSize;
      k := k + 1;
      SlicesCountIff(items, k);
    }
    r := Report(steps, Completed);
  }

  /** The batch dispatcher on a list: an empty list makes no call at all; every submitted
      batch holds 1 to 50 items; and when the loop completes, the batches that went through,
      concatenated in order, are exactly the list. */
  lemma BatchRunDeliversItems<T>(items: seq<T>, script: seq<Outcome>)
    ensures var r := Dispatch(Slices(items), 0, script, BatchThrottleMs);
      (items == [] ==> r == Report([], Completed)) &&
      (forall j :: 0 <= j < |r.steps| ==> 1 <= |r.steps[j].unit| <= BatchSize) &&
      (r.status == Completed ==> Flatten(Delivered(r.steps)) == items)
  {
    SlicesCount(items);
    SlicesSizes(items);
    SlicesFlatten(items);
    DispatchRetriesInOrder(Slices(items), 0, script, BatchThrottleMs);
    DispatchDelivers(Slices(items), 0, script, BatchThrottleMs);
  }

  /** The answers left for the phases after `phase`. */
  function After<U>(script: seq<Outcome>, phase: Option<Report<U>>): seq<Outcome>
    requires Used(phase) <= |script|
  {
    script[Used(phase)..]
  }

  /** What the run does, as a function of the configured sources, what it fetches, the
      script of remote answers and the listing order of the create-set: the block phase if
      block sources are configured; then, unless it failed, the rewrite phase (clean up the
      outdated rewrites, then save the create-set) if redirect sources are configured; and
      remove-all of both kinds when neither kind is configured, the rewrites' only after the
      deny service's returned normally. A fatal failure ends the run at once, so nothing after
      it starts. */
  function RunSpec(sources: Sources, fetched: Fetched, script: seq<Outcome>, creates: seq<CreateRewrite>): RunReport
  {
    var block := BlockPhase(sources, fetched, script);
    if !Done(block) then RunReport(block, None, None, None, None, block.value.status)
    else if sources.redirect != [] then RewritePhase(block, fetched, After(script, block), creates)
    else if sources.block != [] then RunReport(block, None, None, None, None, Completed)
    else if fetched.denyRemoval.Fail? then
      RunReport(None, None, None, Some(fetched.denyRemoval), None, Aborted(fetched.denyRemoval.msg))
    else
      var clear := Dispatch(Ids(fetched.rewrites), 0, script, ElementThrottleMs);
      RunReport(None, None, None, Some(Ok), Some(clear), clear.status)
  }

  /** The deny list saved in batches, when block sources are configured. */
  function BlockPhase(sources: Sources, fetched: Fetched, script: seq<Outcome>): (block: Option<Report<seq<string>>>)
    ensures Used(block) <= |script|
  {
    DispatchFollowsScript(Slices(fetched.blocklist), 0, script, BatchThrottleMs);
    if sources.block != [] then Some(Dispatch(Slices(fetched.blocklist), 0, script, BatchThrottleMs)) else None
  }

  /** The rewrite phase on the answers `rest` the block phase left: the outdated rewrites
      deleted one by one, then, if that completed, the create-set saved in batches. */
  function RewritePhase(block: Option<Report<seq<string>>>, fetched: Fetched, rest: seq<Outcome>,
                        creates: seq<CreateRewrite>): (r: RunReport)
    ensures Used(r.cleanup) + Used(r.save) <= |rest|
  {
    var outdated := Reconcile(FirstWins(fetched.routes), fetched.rewrites).outdated;
    var cleanup := Dispatch(outdated, 0, rest, ElementThrottleMs);
    DispatchFollowsScript(outdated, 0, rest, ElementThrottleMs);
    if cleanup.status != Completed then RunReport(block, Some(cleanup), None, None, None, cleanup.status)
    else
      var save := Dispatch(Slices(creates), 0, After(rest, Some(cleanup)), BatchThrottleMs);
      DispatchFollowsScript(Slices(creates), 0, After(rest, Some(cleanup)), BatchThrottleMs);
      RunReport(block, Some(cleanup), Some(save), None, None, save.status)
  }

  /** The REDIRECT block of the run, on the answers `rest` the block phase left: the
      requests are built, the outdated rewrites deleted, and, when that completed, the
      create-set (the listing of the reconciled table that `cleanupOutdated` returned) saved. */
  method RedirectPhase(block: Option<Report<seq<string>>>, fetched: Fetched, rest: seq<Outcome>)
    returns (r: RunReport, creates: seq<CreateRewrite>)
    ensures r == RewritePhase(block, fetched, rest, creates)
    ensures r.save.Some? ==> ListsValues(creates, Reconcile(FirstWins(fetched.routes), fetched.rewrites).pending)
    ensures r.save.None? ==> creates == []
  {
    var requests := BuildNewRewrites(fetched.routes);
    var outdated, deletes, toCreate := CleanupOutdated(requests, fetched.rewrites, rest);
    DispatchFollowsScript(outdated, 0, rest, ElementThrottleMs);
    if deletes.status != Completed {
      r := RunReport(block, Some(deletes), None, None, None, deletes.status);
      creates := [];
      return;
    }
    creates := toCreate;
    var saved := ProcessInBatches(creates, rest[|deletes.steps|..]);
    r := RunReport(block, Some(deletes), Some(saved), None, None, saved.status);
  }

  /** The run: each phase hands the answers it did not use to the next. */
  method Run(sources: Sources, fetched: Fetched, script: seq<Outcome>)
    returns (r: RunReport, creates: seq<CreateRewrite>)
    ensures r == RunSpec(sources, fetched, script, creates)
    ensures r.save.Some? ==> ListsValues(creates, Reconcile(FirstWins(fetched.routes), fetched.rewrites).pending)
    ensures r.save.None? ==> creates == []
  {
    creates := [];

    // BLOCK
    var block: Option<Report<seq<string>>> := None;
    if sources.block != [] {
      var saved := ProcessInBatches(fetched.blocklist, script);
      block := Some(saved);
    }
    assert block == BlockPhase(sources, fetched, script);
    if !Done(block) {
      r := RunReport(block, None, None, None, None, block.value.status);
      return;
    }

    // REDIRECT
    if sources.redirect != [] {
      r, creates := RedirectPhase(block, fetched, After(script, block));
      return;
    }

    // REMOVE
    if sources.block == [] {
      var deny := fetched.denyRemoval;
      if deny.Fail? {
        r := RunReport(None, None, None, Some(deny), None, Aborted(deny.msg));
        return;
      }
      var removed := RemoveAll(fetched.rewrites, script);
      r := RunReport(None, None, None, Some(deny), Some(removed), removed.status);
    } else {
      r := RunReport(block, None, None, None, None, Completed);
    }
  }

  /** The phases that run: the block phase iff block sources are configured; the rewrite
      phase iff redirect sources are configured and the block phase completed; saving iff the
      cleanup completed; the deny remove-all iff no source of either kind is configured, and
      the rewrite remove-all iff, in addition, the deny remove-all returned normally. */
  lemma RunPhases(sources: Sources, fetched: Fetched, script: seq<Outcome>, creates: seq<CreateRewrite>)
    ensures var r := RunSpec(sources, fetched, script, creates);
      (r.block.Some? <==> sources.block != []) &&
      (r.cleanup.Some? <==> sources.redirect != [] && Done(r.block)) &&
      (r.save.Some? <==> r.cleanup.Some? && r.cleanup.value.status == Completed) &&
      (r.denyClear.Some? <==> sources.block == [] && sources.redirect == []) &&
      (r.clear.Some? <==> r.denyClear == Some(Ok))
  {
  }

  /** Each phase that runs makes exactly the calls of the dispatcher on its own work list,
      with the answers the phases before it left unused: the block batches and remove-all
      from the first answer, the deletes after the block phase's, the create batches after
      the deletes'. Together they never use more answers than the script holds. */
  lemma RunScriptOffsets(sources: Sources, fetched: Fetched, script: seq<Outcome>, creates: seq<CreateRewrite>)
    ensures var r := RunSpec(sources, fetched, script, creates);
      Used(r.block) + Used(r.cleanup) + Used(r.save) <= |script| &&
      (r.block.Some? ==> r.block.value == Dispatch(Slices(fetched.blocklist), 0, script, BatchThrottleMs)) &&
      (r.cleanup.Some? ==>
        r.cleanup.value == Dispatch(Reconcile(FirstWins(fetched.routes), fetched.rewrites).outdated, 0,
                                    script[Used(r.block)..], ElementThrottleMs)) &&
      (r.save.Some? ==>
        r.save.value == Dispatch(Slices(creates), 0, script[Used(r.block) + Used(r.cleanup)..], BatchThrottleMs)) &&
      (r.clear.Some? ==> r.clear.value == Dispatch(Ids(fetched.rewrites), 0, script, ElementThrottleMs))
  {
    var block := BlockPhase(sources, fetched, script);
    if Done(block) && sources.redirect != [] {
      var rest := After(script, block);
      var r := RewritePhase(block, fetched, rest, creates);
      assert RunSpec(sources, fetched, script, creates) == r;
      if r.save.Some? {
        assert rest[Used(r.cleanup)..] == script[Used(block) + Used(r.cleanup)..];
      }
    }
  }

  /** The run succeeds iff every phase that ran completed; otherwise its status is that of
      the phase that failed (for the deny remove-all, an abort with its failure's message). */
  lemma RunStatus(sources: Sources, fetched: Fetched, script: seq<Outcome>, creates: seq<CreateRewrite>)
    ensures var r := RunSpec(sources, fetched, script, creates);
      (r.status == Completed <==>
        Done(r.block) && Done(r.cleanup) && Done(r.save) && Done(r.clear) &&
        (r.denyClear.None? || r.denyClear.value.Ok?)) &&
      (r.denyClear.Some? && r.denyClear.value.Fail? ==> r.status == Aborted(r.denyClear.value.msg)) &&
      (!Done(r.block) ==> r.status == r.block.value.status) &&
      (!Done(r.cleanup) ==> r.status == r.cleanup.value.status) &&
      (!Done(r.save) ==> r.status == r.save.value.status) &&
      (!Done(r.clear) ==> r.status == r.clear.value.status)
  {
  }
}
