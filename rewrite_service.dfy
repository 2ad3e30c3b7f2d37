/** NextDnsRewriteService: builds the desired rewrite table, reconciles it against the
    rewrites the remote holds, and writes to the remote one element at a time. The remote
    client is replaced by an oracle: `existing` is what `fetchRewrites` returned and `script`
    the successive answers of the save/delete calls. */
module RewriteService {
  import opened Outcomes
  import opened Dispatcher
  import opened RewriteModel

  /** Sleep after each successful single-element call, in milliseconds. */
  const ElementThrottleMs: nat := 3000

  /** The mutable `HashMap<String, CreateRewriteDto>` that `buildNewRewrites` returns and
      `cleanupOutdated` edits in place. */
  class RequestTable {
    var entries: Requests

    constructor ()
      ensures entries == map[]
    {
      entries := map[];
    }

    method PutIfAbsent(key: string, value: CreateRewrite)
      modifies this
      ensures entries == if key in old(entries) then old(entries) else old(entries)[key := value]
    {
      if key !in entries {
        entries := entries[key := value];
      }
    }

    method Remove(key: string)
      modifies this
      ensures entries == old(entries) - {key}
    {
      entries := entries - {key};
    }

    /** A copy of the values, in whatever order the table yields its keys. */
    method Values() returns (vs: seq<CreateRewrite>)
      ensures ListsValues(vs, entries)
    {
      vs := [];
      ghost var ks: seq<string> := [];
      var left := entries.Keys;
      while left != {}
        invariant left <= entries.Keys
        invariant |ks| == |vs|
        invariant forall i :: 0 <= i < |ks| ==> ks[i] in entries && ks[i] !in left && vs[i] == entries[ks[i]]
        invariant forall i, j :: 0 <= i < j < |ks| ==> ks[i] != ks[j]
        invariant forall k :: k in entries ==> k in left || k in ks
        decreases |left|
      {
        var k :| k in left;
        vs := vs + [entries[k]];
        ks := ks + [k];
        left := left - {k};
      }
      assert ListsValuesIn(vs, entries, ks);
    }
  }

  /** One `putIfAbsent` per route, in input order: the first route for a website wins. */
  method BuildNewRewrites(overrides: seq<Route>) returns (table: RequestTable)
    ensures fresh(table)
    ensures table.entries == FirstWins(overrides)
  {
    table := new RequestTable();
    for i := 0 to |overrides|
      invariant table.entries == FirstWins(overrides[..i])
    {
      var route := overrides[i];
      table.PutIfAbsent(route.website, CreateRewrite(route.website, route.ip));
      assert overrides[..i + 1][..i] == overrides[..i];
    }
    assert overrides[..|overrides|] == overrides;
  }

  /** One pass over the remote rewrites: ids of outdated records are collected, satisfied or
      unrequested names are removed from `requests` in place. The outdated records are then
      deleted one by one (no call at all when there are none), and when that succeeds the
      requests left in the table are returned as the create-set. A fatal delete failure
      propagates: nothing is returned, but the table has already been edited. */
  method CleanupOutdated(requests: RequestTable, existing: seq<Rewrite>, script: seq<Outcome>)
    returns (outdated: seq<string>, deletes: Report<string>, creates: seq<CreateRewrite>)
    modifies requests
    ensures outdated == Reconcile(old(requests.entries), existing).outdated
    ensures requests.entries == Reconcile(old(requests.entries), existing).pending
    ensures deletes == Dispatch(outdated, 0, script, ElementThrottleMs)
    ensures outdated == [] ==> deletes.steps == []
    ensures deletes.status == Completed ==> ListsValues(creates, requests.entries)
    ensures deletes.status != Completed ==> creates == []
  {
    ghost var initial := requests.entries;
    outdated := [];
    for i := 0 to |existing|
      invariant ScanPrefix(initial, existing, i) == Scan(outdated, requests.entries)
    {
      var domain := existing[i].name;
      var oldIp := existing[i].content;
      if domain in requests.entries && requests.entries[domain].content != oldIp {
        outdated := outdated + [existing[i].id];
      } else {
        requests.Remove(domain);
      }
    }
    if outdated != [] {
      deletes := ProcessElementWise(outdated, script);
    } else {
      deletes := Report([], Completed);
    }
    if deletes.status == Completed {
      creates := requests.Values();
    } else {
      creates := [];
    }
  }

  /** Saves one rewrite through the element-wise dispatcher. */
  method SaveRewrite(rewrite: CreateRewrite, script: seq<Outcome>) returns (r: Report<CreateRewrite>)
    ensures r == Dispatch([rewrite], 0, script, ElementThrottleMs)
  {
    r := ProcessElementWise([rewrite], script);
  }

  /** Deletes every fetched rewrite by id, one call per id, in fetched order. */
  method RemoveAll(existing: seq<Rewrite>, script: seq<Outcome>) returns (r: Report<string>)
    ensures r == Dispatch(Ids(existing), 0, script, ElementThrottleMs)
  {
    var ids := Ids(existing);
    r := ProcessElementWise(ids, script);
  }

  /** When remove-all completes, each fetched id has been deleted successfully exactly once,
      in fetched order, and every call was a delete of a fetched id. */
  lemma RemoveAllDeletesEveryId(existing: seq<Rewrite>, script: seq<Outcome>)
    ensures var r := Dispatch(Ids(existing), 0, script, ElementThrottleMs);
      (r.status == Completed ==> Delivered(r.steps) == Ids(existing)) &&
      forall j :: 0 <= j < |r.steps| ==>
        r.steps[j].index < |existing| && r.steps[j].unit == existing[r.steps[j].index].id
  {
    DispatchDelivers(Ids(existing), 0, script, ElementThrottleMs);
    DispatchRetriesInOrder(Ids(existing), 0, script, ElementThrottleMs);
  }

  /** The per-item loop: each item is submitted until it succeeds, sleeping the cooldown after
      every rate-limited answer and the throttle after the success; any other failure throws,
      leaving the remaining items unprocessed. */
  method ProcessElementWise<T>(items: seq<T>, script: seq<Outcome>) returns (r: Report<T>)
    ensures r == Dispatch(items, 0, script, ElementThrottleMs)
  {
    var steps: seq<Step<T>> := [];
    var pos := 0;
    for k := 0 to |items|
      invariant pos <= |script|
      invariant Dispatch(items, 0, script, ElementThrottleMs)
        == Append(steps, Dispatch(items, k, script[pos..], ElementThrottleMs))
    {
      var success := false;
      while !success
        invariant pos <= |script|
        invariant Dispatch(items, 0, script, ElementThrottleMs)
          == Append(steps, Dispatch(items, if success then k + 1 else k, script[pos..], ElementThrottleMs))
        decreases |script| - pos
      {
        if pos == |script| {
          r := Report(steps, ScriptExhausted);
          return;
        }
        var outcome := script[pos];
        DispatchCall(steps, items, k, script[pos..], ElementThrottleMs);
        assert script[pos..][1..] == script[pos + 1..];
        pos := pos + 1;
        if outcome.Ok? {
          steps := steps + [Step(k, items[k], outcome, Throttle(ElementThrottleMs))];
          success := true;
        } else if IsRateLimited(outcome) {
          steps := steps + [Step(k, items[k], outcome, Cooldown(CooldownMs))];
        } else {
          r := Report(steps + [Step(k, items[k], outcome, NoPause)], Aborted(outcome.msg));
          return;
        }
      }
    }
    r := Report(steps, Completed);
  }
}
