/** What one full rewrite cycle (cleanupOutdated followed by saving the create-set) leaves on
    the remote, and why running the same cycle again finds nothing to do. The remote is
    modelled as its record list: deleting an id removes that record (the others keep their
    order) and each created rewrite is appended with the id the remote gives it. */
module Convergence {
  import opened Outcomes
  import opened RewriteModel

  function Survivors(existing: seq<Rewrite>, deleted: seq<string>): seq<Rewrite>
  {
    if existing == [] then []
    else (if existing[0].id in deleted then [] else [existing[0]]) + Survivors(existing[1..], deleted)
  }

  function Created(creates: seq<CreateRewrite>, newIds: seq<string>): seq<Rewrite>
    requires |newIds| == |creates|
  {
    if creates == [] then []
    else [Rewrite(newIds[0], creates[0].name, creates[0].content)] + Created(creates[1..], newIds[1..])
  }

  /** The remote after the outdated ids were deleted and the create-set saved. */
  function AfterCycle(requests: Requests, existing: seq<Rewrite>, creates: seq<CreateRewrite>, newIds: seq<string>): seq<Rewrite>
    requires |newIds| == |creates|
  {
    Survivors(existing, Reconcile(requests, existing).outdated) + Created(creates, newIds)
  }

  /** The content of the first record with this name, the one a later scan looks at first. */
  function FirstContent(records: seq<Rewrite>, name: string): Option<string>
  {
    if records == [] then None
    else if records[0].name == name then Some(records[0].content)
    else FirstContent(records[1..], name)
  }

  lemma {:induction false} FirstContentAppend(a: seq<Rewrite>, b: seq<Rewrite>, name: string)
    ensures FirstContent(a + b, name) == if FirstContent(a, name).Some? then FirstContent(a, name) else FirstContent(b, name)
  {
    if a != [] {
      assert (a + b)[1..] == a[1..] + b;
      FirstContentAppend(a[1..], b, name);
    } else {
      assert a + b == b;
    }
  }

  /** FirstContent finds the first record with the name. */
  lemma {:induction false} FirstContentIndex(records: seq<Rewrite>, name: string)
    requires FirstContent(records, name).Some?
    ensures exists j :: 0 <= j < |records| && records[j].name == name &&
                        records[j].content == FirstContent(records, name).value &&
                        forall i :: 0 <= i < j ==> records[i].name != name
  {
    if records[0].name != name {
      FirstContentIndex(records[1..], name);
      var j :| 0 <= j < |records| - 1 && records[1..][j].name == name &&
        records[1..][j].content == FirstContent(records[1..], name).value &&
        forall i :: 0 <= i < j ==> records[1..][i].name != name;
      assert records[j + 1] == records[1..][j];
      forall i | 0 <= i < j + 1
        ensures records[i].name != name
      {
        if i > 0 {
          assert records[i] == records[1..][i - 1];
        }
      }
    }
  }

  /** A kept record for the name, preceded only by deleted records for the name, is the first
      record for the name that survives. */
  lemma {:induction false} SurvivorsFirstContent(existing: seq<Rewrite>, deleted: seq<string>, name: string, j: nat)
    requires j < |existing| && existing[j].name == name && existing[j].id !in deleted
    requires forall i :: 0 <= i < j && existing[i].name == name ==> existing[i].id in deleted
    ensures FirstContent(Survivors(existing, deleted), name) == Some(existing[j].content)
  {
    var rest := Survivors(existing[1..], deleted);
    var head: seq<Rewrite> := if existing[0].id in deleted then [] else [existing[0]];
    assert Survivors(existing, deleted) == head + rest;
    FirstContentAppend(head, rest, name);
    if j > 0 {
      forall i | 0 <= i < j - 1 && existing[1..][i].name == name
        ensures existing[1..][i].id in deleted
      {
        assert existing[1..][i] == existing[i + 1];
      }
      SurvivorsFirstContent(existing[1..], deleted, name, j - 1);
    }
  }

  /** When every record for the name is deleted, none survives. */
  lemma {:induction false} SurvivorsWithoutName(existing: seq<Rewrite>, deleted: seq<string>, name: string)
    requires forall i :: 0 <= i < |existing| && existing[i].name == name ==> existing[i].id in deleted
    ensures FirstContent(Survivors(existing, deleted), name) == None
  {
    if existing != [] {
      var rest := Survivors(existing[1..], deleted);
      var head: seq<Rewrite> := if existing[0].id in deleted then [] else [existing[0]];
      assert Survivors(existing, deleted) == head + rest;
      FirstContentAppend(head, rest, name);
      forall i | 0 <= i < |existing| - 1 && existing[1..][i].name == name
        ensures existing[1..][i].id in deleted
      {
        assert existing[1..][i] == existing[i + 1];
      }
      SurvivorsWithoutName(existing[1..], deleted, name);
    }
  }

  /** When the create-set has a rewrite for the name and all its rewrites for the name carry
      `content`, the first created record for the name carries `content`. */
  lemma {:induction false} CreatedFirstContent(creates: seq<CreateRewrite>, newIds: seq<string>, name: string, content: string)
    requires |newIds| == |creates|
    requires exists c :: c in creates && c.name == name
    requires forall c :: c in creates && c.name == name ==> c.content == content
    ensures FirstContent(Created(creates, newIds), name) == Some(content)
  {
    if creates[0].name != name {
      var c :| c in creates && c.name == name;
      assert c in creates[1..];
      forall c' | c' in creates[1..] && c'.name == name
        ensures c'.content == content
      {
        assert c' in creates;
      }
      CreatedFirstContent(creates[1..], newIds[1..], name, content);
    } else {
      assert creates[0] in creates;
    }
  }

  /** A match among the first `i` records is a match among the first `n >= i`. */
  lemma MatchedInMono(existing: seq<Rewrite>, i: nat, n: nat, name: string, content: string)
    requires i <= n <= |existing|
    ensures MatchedIn(existing, i, name, content) ==> MatchedIn(existing, n, name, content)
  {
  }

  /** Record `i` itself is a match among the first `n > i`. */
  lemma MatchedAt(existing: seq<Rewrite>, i: nat, n: nat, name: string, content: string)
    requires i < n <= |existing|
    ensures existing[i].name == name && existing[i].content == content ==> MatchedIn(existing, n, name, content)
  {
  }

  /** No stale record among the first `n`: nothing to delete. */
  lemma {:induction false} NoStaleNoIds(requests: Requests, existing: seq<Rewrite>, n: nat)
    requires n <= |existing|
    requires forall i :: 0 <= i < n ==> !Stale(requests, existing, i)
    ensures StaleIds(requests, existing, n) == []
  {
    if n > 0 {
      NoStaleNoIds(requests, existing, n - 1);
    }
  }

  /** Some record before `n` matches: then one matches with none matching before it. */
  lemma {:induction false} FirstMatch(existing: seq<Rewrite>, n: nat, name: string, content: string)
    requires n <= |existing|
    requires MatchedIn(existing, n, name, content)
    ensures exists j :: 0 <= j < n && existing[j].name == name && existing[j].content == content &&
                        !MatchedIn(existing, j, name, content)
  {
    MatchedInStep(existing, n, name, content);
    if MatchedIn(existing, n - 1, name, content) {
      FirstMatch(existing, n - 1, name, content);
    }
  }

  /** Convergence: after a cycle whose deletes and creates all went through, the first remote
      record for every requested domain carries the requested address. */
  lemma CycleConverges(requests: Requests, existing: seq<Rewrite>, creates: seq<CreateRewrite>, newIds: seq<string>)
    requires KeyedByName(requests)
    requires UniqueIds(existing)
    requires ListsValues(creates, Reconcile(requests, existing).pending)
    requires |newIds| == |creates|
    ensures forall k :: k in requests ==>
      FirstContent(AfterCycle(requests, existing, creates, newIds), k) == Some(requests[k].content)
  {
    var scan := Reconcile(requests, existing);
    ReconcileCreateSet(requests, existing);
    ReconcileDeleteSet(requests, existing);
    StaleIdsMembers(requests, existing, |existing|);
    ListsValuesFacts(creates, scan.pending);
    var kept := Survivors(existing, scan.outdated);
    var made := Created(creates, newIds);
    forall k | k in requests
      ensures FirstContent(kept + made, k) == Some(requests[k].content)
    {
      var c := requests[k].content;
      FirstContentAppend(kept, made, k);
      if MatchedIn(existing, |existing|, k, c) {
        FirstMatch(existing, |existing|, k, c);
        var j :| 0 <= j < |existing| && existing[j].name == k && existing[j].content == c &&
          !MatchedIn(existing, j, k, c);
        forall i | 0 <= i < j && existing[i].name == k
          ensures existing[i].id in scan.outdated
        {
          MatchedInMono(existing, i, j, k, c);
          MatchedAt(existing, i, j, k, c);
          assert Stale(requests, existing, i);
        }
        NeverDeleted(requests, existing, j);
        SurvivorsFirstContent(existing, scan.outdated, k, j);
      } else {
        forall i | 0 <= i < |existing| && existing[i].name == k
          ensures existing[i].id in scan.outdated
        {
          MatchedInMono(existing, i, |existing|, k, c);
          MatchedAt(existing, i, |existing|, k, c);
          assert Stale(requests, existing, i);
        }
        SurvivorsWithoutName(existing, scan.outdated, k);
        assert k in scan.pending && scan.pending[k] == requests[k];
        assert requests[k] in creates;
        forall v | v in creates && v.name == k
          ensures v.content == c
        {
          var i :| 0 <= i < |creates| && creates[i] == v;
          var k' :| k' in scan.pending && scan.pending[k'] == v;
        }
        CreatedFirstContent(creates, newIds, k, c);
      }
    }
  }

  /** A remote whose first record for every requested domain already carries the requested
      address gives an empty delete-set and an empty create-set. */
  lemma ConvergedIsFixpoint(requests: Requests, records: seq<Rewrite>)
    requires forall k :: k in requests ==> FirstContent(records, k) == Some(requests[k].content)
    ensures Reconcile(requests, records) == Scan([], map[])
  {
    ReconcileCreateSet(requests, records);
    ReconcileDeleteSet(requests, records);
    StaleIdsMembers(requests, records, |records|);
    forall k | k in requests
      ensures MatchedIn(records, |records|, k, requests[k].content)
    {
      FirstContentIndex(records, k);
    }
    assert Unsatisfied(requests, records).Keys == {};
    forall i | 0 <= i < |records|
      ensures !Stale(requests, records, i)
    {
      var k := records[i].name;
      if k in requests && records[i].content != requests[k].content {
        FirstContentIndex(records, k);
        var j :| 0 <= j < |records| && records[j].name == k &&
          records[j].content == requests[k].content &&
          forall i' :: 0 <= i' < j ==> records[i'].name != k;
        assert j < i;
      }
    }
    NoStaleNoIds(requests, records, |records|);
  }

  /** Idempotence: running the reconciliation again on the remote a successful cycle left
      behind yields nothing to delete and nothing to create. */
  lemma SecondRunFindsNothing(requests: Requests, existing: seq<Rewrite>, creates: seq<CreateRewrite>, newIds: seq<string>)
    requires KeyedByName(requests)
    requires UniqueIds(existing)
    requires ListsValues(creates, Reconcile(requests, existing).pending)
    requires |newIds| == |creates|
    ensures Reconcile(requests, AfterCycle(requests, existing, creates, newIds)) == Scan([], map[])
  {
    CycleConverges(requests, existing, creates, newIds);
    ConvergedIsFixpoint(requests, AfterCycle(requests, existing, creates, newIds));
  }

  /** Convergence is about the first record per domain only: a mismatching duplicate that the
      remote lists after the matching record is neither deleted nor replaced, so the remote
      still holds two records for the domain after the cycle. */
  lemma StaleDuplicateSurvives()
    ensures var requests := map["a.com" := CreateRewrite("a.com", "1.1.1.1")];
      var existing := [Rewrite("1", "a.com", "1.1.1.1"), Rewrite("2", "a.com", "2.2.2.2")];
      AfterCycle(requests, existing, [], []) == existing
  {
    var requests := map["a.com" := CreateRewrite("a.com", "1.1.1.1")];
    var existing := [Rewrite("1", "a.com", "1.1.1.1"), Rewrite("2", "a.com", "2.2.2.2")];
    DeleteSetDependsOnOrder();
    assert existing[1..][1..] == [];
  }

  /** Two identical matching records for a domain both survive a cycle, whatever their
      order: a second source of duplicates that does not depend on scan order. */
  lemma IdenticalDuplicatesSurvive()
    ensures var requests := map["a.com" := CreateRewrite("a.com", "1.1.1.1")];
      var existing := [Rewrite("1", "a.com", "1.1.1.1"), Rewrite("2", "a.com", "1.1.1.1")];
      AfterCycle(requests, existing, [], []) == existing
  {
    var requests := map["a.com" := CreateRewrite("a.com", "1.1.1.1")];
    var existing := [Rewrite("1", "a.com", "1.1.1.1"), Rewrite("2", "a.com", "1.1.1.1")];
    assert ScanPrefix(requests, existing, 1).pending == map[];
    assert existing[1..][1..] == [];
  }

  // ---------------------------------------------------------------------------
  // The reconciliation the design intends: every remote record is checked against the
  // requests as they were before the pass, so no later record escapes the check.

  /** The record's name is requested with another content. */
  predicate Mismatch(requests: Requests, e: Rewrite)
  {
    e.name in requests && e.content != requests[e.name].content
  }

  /** The ids of every mismatching remote record, in remote-list order. */
  function IntendedOutdated(requests: Requests, existing: seq<Rewrite>): seq<string>
  {
    if existing == [] then []
    else (if Mismatch(requests, existing[0]) then [existing[0].id] else []) + IntendedOutdated(requests, existing[1..])
  }

  /** The remote after the intended cycle: every mismatching record deleted, and the requests
      no remote record satisfies (the same create-set as the code's) saved. */
  function IntendedAfterCycle(requests: Requests, existing: seq<Rewrite>, creates: seq<CreateRewrite>, newIds: seq<string>): seq<Rewrite>
    requires |newIds| == |creates|
  {
    Survivors(existing, IntendedOutdated(requests, existing)) + Created(creates, newIds)
  }

  lemma {:induction false} IntendedOutdatedMembers(requests: Requests, existing: seq<Rewrite>)
    ensures forall e :: e in existing && Mismatch(requests, e) ==> e.id in IntendedOutdated(requests, existing)
  {
    if existing != [] {
      IntendedOutdatedMembers(requests, existing[1..]);
      forall e | e in existing && Mismatch(requests, e)
        ensures e.id in IntendedOutdated(requests, existing)
      {
        if e != existing[0] {
          assert e in existing[1..];
        }
      }
    }
  }

  lemma {:induction false} SurvivorsMembers(existing: seq<Rewrite>, deleted: seq<string>)
    ensures forall e :: e in Survivors(existing, deleted) <==> e in existing && e.id !in deleted
  {
    if existing != [] {
      SurvivorsMembers(existing[1..], deleted);
      assert existing == [existing[0]] + existing[1..];
    }
  }

  lemma {:induction false} CreatedMembers(creates: seq<CreateRewrite>, newIds: seq<string>)
    requires |newIds| == |creates|
    ensures forall e :: e in Created(creates, newIds) ==> CreateRewrite(e.name, e.content) in creates
    ensures forall c :: c in creates ==> exists e :: e in Created(creates, newIds) && e.name == c.name && e.content == c.content
  {
    if creates != [] {
      CreatedMembers(creates[1..], newIds[1..]);
      var head := Rewrite(newIds[0], creates[0].name, creates[0].content);
      assert Created(creates, newIds) == [head] + Created(creates[1..], newIds[1..]);
      assert creates == [creates[0]] + creates[1..];
      forall c | c in creates
        ensures exists e :: e in Created(creates, newIds) && e.name == c.name && e.content == c.content
      {
        if c == creates[0] {
          assert head in Created(creates, newIds);
        } else {
          assert c in creates[1..];
        }
      }
    }
  }

  /** Convergence of the intended cycle: afterwards every remote record for a requested domain
      carries the requested address, and every requested domain has such a record. */
  lemma IntendedCycleConverges(requests: Requests, existing: seq<Rewrite>, creates: seq<CreateRewrite>, newIds: seq<string>)
    requires KeyedByName(requests)
    requires UniqueIds(existing)
    requires ListsValues(creates, Unsatisfied(requests, existing))
    requires |newIds| == |creates|
    ensures var after := IntendedAfterCycle(requests, existing, creates, newIds);
      (forall e :: e in after && e.name in requests ==> e.content == requests[e.name].content) &&
      (forall k :: k in requests ==> exists e :: e in after && e.name == k)
  {
    IntendedCycleAddresses(requests, existing, creates, newIds);
    IntendedCycleCovers(requests, existing, creates, newIds);
  }

  /** No record for a requested domain with another address is left after the intended cycle. */
  lemma IntendedCycleAddresses(requests: Requests, existing: seq<Rewrite>, creates: seq<CreateRewrite>, newIds: seq<string>)
    requires KeyedByName(requests)
    requires ListsValues(creates, Unsatisfied(requests, existing))
    requires |newIds| == |creates|
    ensures forall e :: e in IntendedAfterCycle(requests, existing, creates, newIds) && e.name in requests ==>
      e.content == requests[e.name].content
  {
    var deleted := IntendedOutdated(requests, existing);
    var kept := Survivors(existing, deleted);
    var made := Created(creates, newIds);
    var pending := Unsatisfied(requests, existing);
    IntendedOutdatedMembers(requests, existing);
    SurvivorsMembers(existing, deleted);
    CreatedMembers(creates, newIds);
    ListsValuesFacts(creates, pending);
    forall e: Rewrite | e in kept + made && e.name in requests
      ensures e.content == requests[e.name].content
    {
      if e in made {
        var c := CreateRewrite(e.name, e.content);
        assert c in creates;
        var k :| k in pending && pending[k] == c;
      }
    }
  }

  /** Every requested domain has a record after the intended cycle. */
  lemma IntendedCycleCovers(requests: Requests, existing: seq<Rewrite>, creates: seq<CreateRewrite>, newIds: seq<string>)
    requires KeyedByName(requests)
    requires UniqueIds(existing)
    requires ListsValues(creates, Unsatisfied(requests, existing))
    requires |newIds| == |creates|
    ensures forall k :: k in requests ==> exists e :: e in IntendedAfterCycle(requests, existing, creates, newIds) && e.name == k
  {
    var after := IntendedAfterCycle(requests, existing, creates, newIds);
    forall k | k in requests
      ensures exists e: Rewrite :: e in after && e.name == k
    {
      if MatchedIn(existing, |existing|, k, requests[k].content) {
        var j :| 0 <= j < |existing| && existing[j].name == k && existing[j].content == requests[k].content;
        MatchingRecordKept(requests, existing, creates, newIds, j);
      } else {
        MissingDomainCreated(requests, existing, creates, newIds, k);
      }
    }
  }

  /** A remote record that already matches its request is still there after the intended cycle. */
  lemma MatchingRecordKept(requests: Requests, existing: seq<Rewrite>, creates: seq<CreateRewrite>, newIds: seq<string>, j: nat)
    requires UniqueIds(existing)
    requires |newIds| == |creates|
    requires j < |existing| && !Mismatch(requests, existing[j])
    ensures existing[j] in IntendedAfterCycle(requests, existing, creates, newIds)
  {
    var deleted := IntendedOutdated(requests, existing);
    SurvivorsMembers(existing, deleted);
    NeverDeletedIntended(requests, existing, j);
    assert existing[j] in Survivors(existing, deleted);
  }

  /** A requested domain no remote record satisfies gets a created record. */
  lemma MissingDomainCreated(requests: Requests, existing: seq<Rewrite>, creates: seq<CreateRewrite>, newIds: seq<string>, k: string)
    requires KeyedByName(requests)
    requires ListsValues(creates, Unsatisfied(requests, existing))
    requires |newIds| == |creates|
    requires k in requests && !MatchedIn(existing, |existing|, k, requests[k].content)
    ensures exists e :: e in IntendedAfterCycle(requests, existing, creates, newIds) && e.name == k
  {
    var pending := Unsatisfied(requests, existing);
    var made := Created(creates, newIds);
    CreatedMembers(creates, newIds);
    ListsValuesFacts(creates, pending);
    assert k in pending;
    assert pending[k] in creates;
    var e :| e in made && e.name == pending[k].name && e.content == pending[k].content;
    assert e in IntendedAfterCycle(requests, existing, creates, newIds);
  }

  /** Every collected id is the id of some remote record. */
  lemma {:induction false} IntendedOutdatedIds(requests: Requests, existing: seq<Rewrite>)
    ensures forall x :: x in IntendedOutdated(requests, existing) ==> exists e :: e in existing && e.id == x
  {
    if existing != [] {
      IntendedOutdatedIds(requests, existing[1..]);
      forall x | x in IntendedOutdated(requests, existing)
        ensures exists e :: e in existing && e.id == x
      {
        if x !in IntendedOutdated(requests, existing[1..]) {
          assert existing[0] in existing;
        } else {
          var e :| e in existing[1..] && e.id == x;
          assert e in existing;
        }
      }
    }
  }

  /** With unique ids, the intended pass never deletes a record that already matches. */
  lemma {:induction false} NeverDeletedIntended(requests: Requests, existing: seq<Rewrite>, j: nat)
    requires UniqueIds(existing)
    requires j < |existing| && !Mismatch(requests, existing[j])
    ensures existing[j].id !in IntendedOutdated(requests, existing)
  {
    var tail := existing[1..];
    assert IntendedOutdated(requests, existing) ==
      (if Mismatch(requests, existing[0]) then [existing[0].id] else []) + IntendedOutdated(requests, tail);
    if j > 0 {
      forall a, b | 0 <= a < b < |tail|
        ensures tail[a].id != tail[b].id
      {
        assert tail[a] == existing[a + 1] && tail[b] == existing[b + 1];
      }
      assert tail[j - 1] == existing[j];
      NeverDeletedIntended(requests, tail, j - 1);
    } else {
      IntendedOutdatedIds(requests, tail);
      forall e | e in tail
        ensures e.id != existing[0].id
      {
        var i :| 0 <= i < |tail| && tail[i] == e;
        assert existing[i + 1] == e;
      }
    }
  }
}
