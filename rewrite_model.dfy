/** The values the rewrite service works on, and reference definitions of what its two
    collection-building loops compute: the first-wins request table of `buildNewRewrites`
    and the single pass of `cleanupOutdated` over the remote rewrites. */
module RewriteModel {

  /** A (website, ip) pair read from the redirect sources. */
  datatype Route = Route(website: string, ip: string)

  /** A rewrite to create on the remote: the domain and the address it is redirected to. */
  datatype CreateRewrite = CreateRewrite(name: string, content: string)

  /** A rewrite held by the remote, identified by the remote's opaque id. */
  datatype Rewrite = Rewrite(id: string, name: string, content: string)

  /** The desired rewrites keyed by domain (the `Map<String, CreateRewriteDto>` of the source). */
  type Requests = map<string, CreateRewrite>

  /** Every request is filed under its own domain name. */
  predicate KeyedByName(requests: Requests)
  {
    forall k :: k in requests ==> requests[k].name == k
  }

  /** The remote's ids identify its records: no two records share one. */
  predicate UniqueIds(existing: seq<Rewrite>)
  {
    forall i, j :: 0 <= i < j < |existing| ==> existing[i].id != existing[j].id
  }

  /** `vs` lists the values of `m` in the key order `ks`: each key once, and the value at
      position i is the value of key i. */
  predicate ListsValuesIn(vs: seq<CreateRewrite>, m: Requests, ks: seq<string>)
  {
    |ks| == |vs| &&
    (forall i :: 0 <= i < |ks| ==> ks[i] in m && vs[i] == m[ks[i]]) &&
    (forall i, j :: 0 <= i < j < |ks| ==> ks[i] != ks[j]) &&
    (forall k :: k in m ==> k in ks)
  }

  /** `vs` lists the values of `m`, one per key, in some key order (the copy
      `List.copyOf(map.values())`, whose order is the map's unspecified iteration order). */
  ghost predicate ListsValues(vs: seq<CreateRewrite>, m: Requests)
  {
    exists ks :: ListsValuesIn(vs, m, ks)
  }

  /** A listing of the values has one element per key, every key's value is in it, and it
      holds nothing else. */
  lemma ListsValuesFacts(vs: seq<CreateRewrite>, m: Requests)
    requires ListsValues(vs, m)
    ensures |vs| == |m|
    ensures forall k :: k in m ==> m[k] in vs
    ensures forall i :: 0 <= i < |vs| ==> vs[i] in m.Values
  {
    var ks :| ListsValuesIn(vs, m, ks);
    ListingSize(vs, m, ks);
    ListingMembers(vs, m, ks);
  }

  lemma ListingSize(vs: seq<CreateRewrite>, m: Requests, ks: seq<string>)
    requires ListsValuesIn(vs, m, ks)
    ensures |vs| == |m|
  {
    DistinctCard(ks);
    var keys := set k | k in ks;
    assert m.Keys == keys by {
      forall k | k in keys
        ensures k in m.Keys
      {
        var i :| 0 <= i < |ks| && ks[i] == k;
      }
    }
  }

  lemma ListingMembers(vs: seq<CreateRewrite>, m: Requests, ks: seq<string>)
    requires ListsValuesIn(vs, m, ks)
    ensures forall k :: k in m ==> m[k] in vs
    ensures forall i :: 0 <= i < |vs| ==> vs[i] in m.Values
  {
    forall k | k in m
      ensures m[k] in vs
    {
      var i :| 0 <= i < |ks| && ks[i] == k;
      assert vs[i] == m[k];
    }
    forall i | 0 <= i < |vs|
      ensures vs[i] in m.Values
    {
      assert vs[i] == m[ks[i]];
    }
  }

  /** A sequence without repetitions has as many distinct elements as positions. */
  lemma {:induction false} DistinctCard(ks: seq<string>)
    requires forall i, j :: 0 <= i < j < |ks| ==> ks[i] != ks[j]
    ensures |set k | k in ks| == |ks|
  {
    if ks != [] {
      DistinctCard(ks[1..]);
      assert (set k | k in ks) == {ks[0]} + (set k | k in ks[1..]);
      assert ks[0] !in ks[1..];
    }
  }

  /** The ids of the remote records, in the order they were fetched. */
  function Ids(records: seq<Rewrite>): (ids: seq<string>)
    ensures |ids| == |records|
    ensures forall i :: 0 <= i < |records| ==> ids[i] == records[i].id
  {
    if records == [] then [] else [records[0].id] + Ids(records[1..])
  }

  // ---------------------------------------------------------------------------
  // buildNewRewrites

  /** The table after `putIfAbsent(route.website, (route.website, route.ip))` for each route
      in turn. */
  function FirstWins(routes: seq<Route>): Requests
    decreases |routes|
  {
    if routes == [] then map[]
    else
      var m := FirstWins(routes[..|routes| - 1]);
      var r := routes[|routes| - 1];
      if r.website in m then m else m[r.website := CreateRewrite(r.website, r.ip)]
  }

  /** Route `i` is the first one for website `w`. */
  predicate IsFirstFor(routes: seq<Route>, w: string, i: int)
  {
    0 <= i < |routes| && routes[i].website == w &&
    forall j :: 0 <= j < i ==> routes[j].website != w
  }

  /** The table has one entry per website that occurs in the routes, and the entry for a
      website is (website, ip) of the first route naming it. */
  lemma {:induction false} FirstWinsSpec(routes: seq<Route>)
    ensures FirstWins(routes).Keys == set r | r in routes :: r.website
    ensures forall w :: w in FirstWins(routes) ==>
      exists i :: IsFirstFor(routes, w, i) && FirstWins(routes)[w] == CreateRewrite(w, routes[i].ip)
    decreases |routes|
  {
    if routes != [] {
      var init := routes[..|routes| - 1];
      var r := routes[|routes| - 1];
      FirstWinsSpec(init);
      assert routes == init + [r];
      var m := FirstWins(routes);
      forall w | w in m
        ensures exists i :: IsFirstFor(routes, w, i) && m[w] == CreateRewrite(w, routes[i].ip)
      {
        if w in FirstWins(init) {
          var i :| IsFirstFor(init, w, i) && FirstWins(init)[w] == CreateRewrite(w, init[i].ip);
          assert IsFirstFor(routes, w, i);
        } else {
          assert w == r.website;
          forall j | 0 <= j < |routes| - 1
            ensures routes[j].website != w
          {
            assert init[j] in init;
          }
          assert IsFirstFor(routes, w, |routes| - 1);
        }
      }
    }
  }

  /** The table built by first-wins files every request under its own domain. */
  lemma FirstWinsKeyedByName(routes: seq<Route>)
    ensures KeyedByName(FirstWins(routes))
  {
    FirstWinsSpec(routes);
    var m := FirstWins(routes);
    forall w | w in m
      ensures m[w].name == w
    {
      var i :| IsFirstFor(routes, w, i) && m[w] == CreateRewrite(w, routes[i].ip);
    }
  }

  // ---------------------------------------------------------------------------
  // cleanupOutdated

  /** The outcome of the pass: ids to delete, in the order they were found, and the requests
      still in the table, which become the create-set. */
  datatype Scan = Scan(outdated: seq<string>, pending: Requests)

  /** The pass after the first `n` remote records: a record whose name is still in the table
      with a different content is marked outdated; otherwise its name is removed from the table
      (a no-op when the name is absent). */
  function ScanPrefix(requests: Requests, existing: seq<Rewrite>, n: nat): Scan
    requires n <= |existing|
  {
    if n == 0 then Scan([], requests)
    else
      var s := ScanPrefix(requests, existing, n - 1);
      var e := existing[n - 1];
      if e.name in s.pending && s.pending[e.name].content != e.content
      then Scan(s.outdated + [e.id], s.pending)
      else Scan(s.outdated, s.pending - {e.name})
  }

  function Reconcile(requests: Requests, existing: seq<Rewrite>): Scan
  {
    ScanPrefix(requests, existing, |existing|)
  }

  /** Some record among the first `n` remote records has this name and this content. */
  predicate MatchedIn(existing: seq<Rewrite>, n: nat, name: string, content: string)
    requires n <= |existing|
  {
    exists j :: 0 <= j < n && existing[j].name == name && existing[j].content == content
  }

  /** Remote record `i` is stale: its name is requested with another content, and no earlier
      record already carries the requested content for that name. */
  predicate Stale(requests: Requests, existing: seq<Rewrite>, i: nat)
    requires i < |existing|
  {
    var e := existing[i];
    e.name in requests && e.content != requests[e.name].content &&
    !MatchedIn(existing, i, e.name, requests[e.name].content)
  }

  /** The ids of the stale records among the first `n`, in remote-list order. */
  function StaleIds(requests: Requests, existing: seq<Rewrite>, n: nat): seq<string>
    requires n <= |existing|
  {
    if n == 0 then []
    else StaleIds(requests, existing, n - 1) + (if Stale(requests, existing, n - 1) then [existing[n - 1].id] else [])
  }

  /** The requests no remote record satisfies yet (same name, same content). */
  function Unsatisfied(requests: Requests, existing: seq<Rewrite>): Requests
  {
    map k | k in requests && !MatchedIn(existing, |existing|, k, requests[k].content) :: requests[k]
  }

  lemma MatchedInStep(existing: seq<Rewrite>, n: nat, name: string, content: string)
    requires 0 < n <= |existing|
    ensures MatchedIn(existing, n, name, content) <==>
      MatchedIn(existing, n - 1, name, content) ||
      (existing[n - 1].name == name && existing[n - 1].content == content)
  {
  }

  /** After `n` records the table holds exactly the original requests not yet matched by any
      of them, with their original values. */
  lemma {:induction false} ScanPending(requests: Requests, existing: seq<Rewrite>, n: nat)
    requires n <= |existing|
    ensures var p := ScanPrefix(requests, existing, n).pending;
      (forall k :: k in p <==> k in requests && !MatchedIn(existing, n, k, requests[k].content)) &&
      (forall k :: k in p ==> p[k] == requests[k])
  {
    if n > 0 {
      ScanPending(requests, existing, n - 1);
      var s := ScanPrefix(requests, existing, n - 1);
      var p := ScanPrefix(requests, existing, n).pending;
      forall k
        ensures k in p <==> k in requests && !MatchedIn(existing, n, k, requests[k].content)
      {
        if k in requests {
          MatchedInStep(existing, n, k, requests[k].content);
        }
      }
    }
  }

  /** The create-set is the set of requests that no remote record satisfies: a desired entry
      survives iff no remote rewrite has its name with equal content. */
  lemma ReconcileCreateSet(requests: Requests, existing: seq<Rewrite>)
    ensures Reconcile(requests, existing).pending == Unsatisfied(requests, existing)
  {
    ScanPending(requests, existing, |existing|);
  }

  /** After `n` records the ids marked outdated are those of the stale records, in order. */
  lemma {:induction false} ScanOutdated(requests: Requests, existing: seq<Rewrite>, n: nat)
    requires n <= |existing|
    ensures ScanPrefix(requests, existing, n).outdated == StaleIds(requests, existing, n)
  {
    if n > 0 {
      ScanOutdated(requests, existing, n - 1);
      ScanPending(requests, existing, n - 1);
    }
  }

  /** An id is in StaleIds exactly when it belongs to a stale record. */
  lemma {:induction false} StaleIdsMembers(requests: Requests, existing: seq<Rewrite>, n: nat)
    requires n <= |existing|
    ensures forall x :: x in StaleIds(requests, existing, n) <==>
      exists i :: 0 <= i < n && Stale(requests, existing, i) && existing[i].id == x
  {
    if n > 0 {
      StaleIdsMembers(requests, existing, n - 1);
    }
  }

  /** The delete-set lists, in remote-list order, the ids of the stale records; so every
      deleted id belongs to a remote record whose name is requested with a different content. */
  lemma ReconcileDeleteSet(requests: Requests, existing: seq<Rewrite>)
    ensures Reconcile(requests, existing).outdated == StaleIds(requests, existing, |existing|)
    ensures forall x :: x in Reconcile(requests, existing).outdated ==>
      exists i :: 0 <= i < |existing| && existing[i].id == x &&
        existing[i].name in requests && existing[i].content != requests[existing[i].name].content
  {
    ScanOutdated(requests, existing, |existing|);
    StaleIdsMembers(requests, existing, |existing|);
  }

  /** A remote record whose name is not requested, or whose content is the requested one, is
      never deleted. */
  lemma NeverDeleted(requests: Requests, existing: seq<Rewrite>, i: nat)
    requires UniqueIds(existing)
    requires i < |existing|
    requires existing[i].name !in requests || existing[i].content == requests[existing[i].name].content
    ensures existing[i].id !in Reconcile(requests, existing).outdated
  {
    ScanOutdated(requests, existing, |existing|);
    StaleIdsMembers(requests, existing, |existing|);
    if existing[i].id in StaleIds(requests, existing, |existing|) {
      var j :| 0 <= j < |existing| && Stale(requests, existing, j) && existing[j].id == existing[i].id;
      assert false;
    }
  }

  lemma MatchedInAll(existing: seq<Rewrite>, name: string, content: string)
    ensures MatchedIn(existing, |existing|, name, content) <==>
      exists e :: e in existing && e.name == name && e.content == content
  {
    if exists e :: e in existing && e.name == name && e.content == content {
      var e :| e in existing && e.name == name && e.content == content;
      var j :| 0 <= j < |existing| && existing[j] == e;
    }
  }

  /** The create-set does not depend on the order (or repetition) of the remote records. */
  lemma CreateSetIgnoresOrder(requests: Requests, a: seq<Rewrite>, b: seq<Rewrite>)
    requires forall e :: e in a <==> e in b
    ensures Reconcile(requests, a).pending == Reconcile(requests, b).pending
  {
    ReconcileCreateSet(requests, a);
    ReconcileCreateSet(requests, b);
    forall k | k in requests
      ensures MatchedIn(a, |a|, k, requests[k].content) == MatchedIn(b, |b|, k, requests[k].content)
    {
      MatchedInAll(a, k, requests[k].content);
      MatchedInAll(b, k, requests[k].content);
    }
    assert Unsatisfied(requests, a) == Unsatisfied(requests, b);
  }

  /** The delete-set does depend on the order: a mismatching record scanned after the matching
      one for the same name is no longer in the table and is kept. */
  lemma DeleteSetDependsOnOrder()
    ensures var requests := map["a.com" := CreateRewrite("a.com", "1.1.1.1")];
      var matching := Rewrite("1", "a.com", "1.1.1.1");
      var outdated := Rewrite("2", "a.com", "2.2.2.2");
      Reconcile(requests, [matching, outdated]).outdated == [] &&
      Reconcile(requests, [outdated, matching]).outdated == ["2"]
  {
    var requests := map["a.com" := CreateRewrite("a.com", "1.1.1.1")];
    var matching := Rewrite("1", "a.com", "1.1.1.1");
    var outdated := Rewrite("2", "a.com", "2.2.2.2");
    assert ScanPrefix(requests, [matching, outdated], 1).pending == map[];
    assert ScanPrefix(requests, [outdated, matching], 1) == Scan(["2"], requests);
  }

  /** Replace semantics: a remote record for a requested domain with another address is
      deleted and the request is kept for creation. */
  lemma ReplaceExample()
    ensures var requests := map["a.com" := CreateRewrite("a.com", "5.6.7.8")];
      Reconcile(requests, [Rewrite("1", "a.com", "1.2.3.4")]) == Scan(["1"], requests)
  {
    var requests := map["a.com" := CreateRewrite("a.com", "5.6.7.8")];
    var existing := [Rewrite("1", "a.com", "1.2.3.4")];
    assert "5.6.7.8"[0] != "1.2.3.4"[0];
    assert ScanPrefix(requests, existing, 0) == Scan([], requests);
  }

  /** A remote record that already carries the requested address is neither deleted nor
      recreated. */
  lemma UntouchedOnMatchExample()
    ensures var requests := map["b.com" := CreateRewrite("b.com", "x")];
      Reconcile(requests, [Rewrite("2", "b.com", "x")]) == Scan([], map[])
  {
    var requests := map["b.com" := CreateRewrite("b.com", "x")];
    var existing := [Rewrite("2", "b.com", "x")];
    assert ScanPrefix(requests, existing, 0) == Scan([], requests);
    assert requests - {"b.com"} == map[];
  }
}
