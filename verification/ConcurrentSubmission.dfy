/** Any number of `submit` calls at once: the check, the creation and the registration each take
    their lock separately, and other calls may come between. */
module ConcurrentSubmission {
  import opened Graphs
  import opened GraphStores

  /** Where a call stands: what it does next, or the id it returned, found or its own. */
  datatype Progress = Checking | Creating | Registering | Found(id: GraphId) | Own(id: GraphId)

  datatype Call = Call(graph: Graph, key: Option<string>, progress: Progress)

  datatype System = System(store: Store, calls: seq<Call>)

  /** One call takes its next step, or somebody updates a graph's status. */
  datatype Action = Advance(call: nat) | SetStatus(id: GraphId, status: GraphStatus)

  function Advanced(s: System, t: nat): System
    requires t < |s.calls|
  {
    var c := s.calls[t];
    var store := s.store;
    match c.progress
    case Checking =>
      if c.key.None? then s.(calls := s.calls[t := c.(progress := Creating)])
      else if c.key.value in store.keys then s.(calls := s.calls[t := c.(progress := Found(store.keys[c.key.value]))])
      else s.(calls := s.calls[t := c.(progress := Creating)])
    case Creating =>
      System(store.(graphs := store.graphs[c.graph.id := c.graph]),
             s.calls[t := c.(progress := if c.key.Some? then Registering else Own(c.graph.id))])
    case Registering =>
      if c.key.None? then s
      else System(store.(keys := store.keys[c.key.value := c.graph.id]), s.calls[t := c.(progress := Own(c.graph.id))])
    case Found(_) => s
    case Own(_) => s
  }

  function Step(s: System, a: Action): (s': System)
    ensures |s'.calls| == |s.calls|
  {
    match a
    case Advance(t) => if t < |s.calls| then Advanced(s, t) else s
    case SetStatus(id, status) =>
      if id in s.store.graphs then s.(store := s.store.(graphs := s.store.graphs[id := s.store.graphs[id].(status := status)]))
      else s
  }

  function Run(s: System, actions: seq<Action>): (s': System)
    ensures |s'.calls| == |s.calls|
  {
    if actions == [] then s else Step(Run(s, actions[..|actions| - 1]), actions[|actions| - 1])
  }

  // ----- every visible id resolves

  ghost predicate Resolves(s: System) {
    && (forall key :: key in s.store.keys ==> s.store.keys[key] in s.store.graphs)
    && (forall t :: 0 <= t < |s.calls| ==>
          match s.calls[t].progress
          case Registering => s.calls[t].graph.id in s.store.graphs
          case Found(id) => id in s.store.graphs
          case Own(id) => id in s.store.graphs
          case _ => true)
  }

  /** Under every interleaving, with status updates in between, each visible key and each returned
      id names a stored graph: a key is published only after its graph. */
  lemma {:induction false} AlwaysResolves(s: System, actions: seq<Action>)
    requires Resolves(s)
    ensures Resolves(Run(s, actions))
  {
    if actions != [] {
      AlwaysResolves(s, actions[..|actions| - 1]);
    }
  }

  // ----- when a key gets one graph

  /** The call went past the check without finding its key. */
  predicate Missed(c: Call) {
    c.progress.Creating? || c.progress.Registering? || c.progress.Own?
  }

  ghost predicate IsCreator(s: System, t: nat, key: string) {
    t < |s.calls| && s.calls[t].key == Some(key) && Missed(s.calls[t])
  }

  /** The call is between its missed check of the key and its registration. */
  ghost predicate InFlight(s: System, t: nat, key: string) {
    t < |s.calls| && s.calls[t].key == Some(key) && (s.calls[t].progress.Creating? || s.calls[t].progress.Registering?)
  }

  /** The action is a check of the key that misses while another call with the same key is between
      its own missed check and its registration. */
  ghost predicate Overlaps(s: System, a: Action, key: string) {
    && a.Advance? && a.call < |s.calls| && s.calls[a.call].key == Some(key) && s.calls[a.call].progress.Checking?
    && key !in s.store.keys
    && exists u :: InFlight(s, u, key)
  }

  /** Some action of the run overlaps. */
  ghost predicate OverlapOccurs(s: System, actions: seq<Action>, key: string) {
    actions != [] && var n := |actions| - 1;
    OverlapOccurs(s, actions[..n], key) || Overlaps(Run(s, actions[..n]), actions[n], key)
  }

  ghost predicate AtMostOneCreator(s: System, key: string) {
    forall t, u :: IsCreator(s, t, key) && IsCreator(s, u, key) ==> t == u
  }

  /** A call that has registered its key left it visible. */
  ghost predicate OwnersVisible(s: System, key: string) {
    forall t :: 0 <= t < |s.calls| && s.calls[t].key == Some(key) && s.calls[t].progress.Own? ==> key in s.store.keys
  }

  ghost predicate AllAtStart(s: System) {
    forall t :: 0 <= t < |s.calls| ==> s.calls[t].progress.Checking?
  }

  lemma CreatorsStay(s: System, a: Action, key: string, t: nat)
    requires IsCreator(s, t, key)
    ensures IsCreator(Step(s, a), t, key)
  {
  }

  lemma NewCreator(s: System, a: Action, key: string, t: nat)
    requires !IsCreator(s, t, key) && IsCreator(Step(s, a), t, key)
    ensures a == Advance(t) && t < |s.calls| && s.calls[t].key == Some(key) && s.calls[t].progress.Checking?
    ensures key !in s.store.keys
  {
  }

  lemma OwnersStayVisible(s: System, a: Action, key: string)
    requires OwnersVisible(s, key)
    ensures OwnersVisible(Step(s, a), key)
  {
  }

  /** One step gives a key a second creator exactly when it overlaps. */
  lemma SecondCreatorIff(s: System, a: Action, key: string)
    requires AtMostOneCreator(s, key) && OwnersVisible(s, key)
    ensures AtMostOneCreator(Step(s, a), key) <==> !Overlaps(s, a, key)
  {
    var s' := Step(s, a);
    if Overlaps(s, a, key) {
      var u :| InFlight(s, u, key);
      CreatorsStay(s, a, key, u);
      assert IsCreator(s', a.call, key) && IsCreator(s', u, key) && u != a.call;
    } else {
      forall t, u | IsCreator(s', t, key) && IsCreator(s', u, key) ensures t == u {
        assert InFlight(s, t, key) || !IsCreator(s, t, key) || key in s.store.keys;
        assert InFlight(s, u, key) || !IsCreator(s, u, key) || key in s.store.keys;
        if !IsCreator(s, t, key) { NewCreator(s, a, key, t); }
        if !IsCreator(s, u, key) { NewCreator(s, a, key, u); }
      }
    }
  }

  lemma MoreCreatorsStay(s: System, a: Action, key: string)
    requires !AtMostOneCreator(s, key)
    ensures !AtMostOneCreator(Step(s, a), key)
  {
    var t, u :| IsCreator(s, t, key) && IsCreator(s, u, key) && t != u;
    CreatorsStay(s, a, key, t);
    CreatorsStay(s, a, key, u);
  }

  /** A key gets at most one creator exactly when no check of it overlaps another's creation. */
  lemma {:induction false} OneCreatorIff(s: System, actions: seq<Action>, key: string)
    requires AllAtStart(s)
    ensures OwnersVisible(Run(s, actions), key)
    ensures AtMostOneCreator(Run(s, actions), key) <==> !OverlapOccurs(s, actions, key)
  {
    if actions != [] {
      var n := |actions| - 1;
      var before := actions[..n];
      OneCreatorIff(s, before, key);
      OwnersStayVisible(Run(s, before), actions[n], key);
      if AtMostOneCreator(Run(s, before), key) {
        SecondCreatorIff(Run(s, before), actions[n], key);
      } else {
        MoreCreatorsStay(Run(s, before), actions[n], key);
      }
    }
  }

  /** The key is settled: while its one creator is in flight nobody sees it, and whoever has
      returned with it returned the id it names. */
  ghost predicate Settled(s: System, key: string) {
    && AtMostOneCreator(s, key) && OwnersVisible(s, key)
    && (forall t :: InFlight(s, t, key) ==> key !in s.store.keys)
    && (forall t :: 0 <= t < |s.calls| && s.calls[t].key == Some(key) && Returned(s.calls[t]) ==>
          key in s.store.keys && s.store.keys[key] == s.calls[t].progress.id)
  }

  predicate Returned(c: Call) {
    c.progress.Found? || c.progress.Own?
  }

  lemma StaysSettled(s: System, a: Action, key: string)
    requires Settled(s, key) && !Overlaps(s, a, key)
    ensures Settled(Step(s, a), key)
  {
    SecondCreatorIff(s, a, key);
    OwnersStayVisible(s, a, key);
    var s' := Step(s, a);
    forall t | InFlight(s', t, key) ensures key !in s'.store.keys {
      if key !in s.store.keys && key in s'.store.keys {
        assert IsCreator(s, a.call, key) && IsCreator(s, t, key);
      } else if !InFlight(s, t, key) {
        NewCreator(s, a, key, t);
      }
    }
    if key in s.store.keys {
      assert a.Advance? ==> !InFlight(s, a.call, key);
      assert s'.store.keys[key] == s.store.keys[key];
    }
  }

  /** Without an overlap every call that returns with the key returns one and the same id. */
  lemma {:induction false} OneIdPerKey(s: System, actions: seq<Action>, key: string)
    requires AllAtStart(s) && !OverlapOccurs(s, actions, key)
    ensures Settled(Run(s, actions), key)
  {
    if actions != [] {
      var n := |actions| - 1;
      OneIdPerKey(s, actions[..n], key);
      StaysSettled(Run(s, actions[..n]), actions[n], key);
    }
  }

  // ----- from creators to stored graphs

  ghost predicate FreshIds(s: System) {
    && (forall t, u :: 0 <= t < u < |s.calls| ==> s.calls[t].graph.id != s.calls[u].graph.id)
    && (forall t :: 0 <= t < |s.calls| ==> s.calls[t].graph.id !in s.store.graphs)
  }

  ghost predicate Stored(s: System, t: nat) {
    t < |s.calls| && s.calls[t].graph.id in s.store.graphs
  }

  /** A call's graph is in the store exactly from its creation step on. */
  ghost predicate StoredWhenCreated(s: System) {
    forall t :: 0 <= t < |s.calls| ==>
      (Stored(s, t) <==> s.calls[t].progress.Registering? || s.calls[t].progress.Own?)
  }

  ghost predicate SameGraphs(s: System, s': System) {
    |s'.calls| == |s.calls|
    && forall t :: 0 <= t < |s.calls| ==> s'.calls[t].graph == s.calls[t].graph && s'.calls[t].key == s.calls[t].key
  }

  lemma {:induction false} CreationStores(s: System, actions: seq<Action>)
    requires AllAtStart(s) && FreshIds(s)
    ensures SameGraphs(s, Run(s, actions)) && StoredWhenCreated(Run(s, actions))
  {
    if actions != [] {
      var n := |actions| - 1;
      CreationStores(s, actions[..n]);
    }
  }

  ghost predicate AllDone(s: System) {
    forall t :: 0 <= t < |s.calls| ==> s.calls[t].progress.Found? || s.calls[t].progress.Own?
  }

  ghost predicate OneStoredGraph(s: System, key: string) {
    forall t: nat, u: nat :: StoredFor(s, t, key) && StoredFor(s, u, key) ==> t == u
  }

  ghost predicate StoredFor(s: System, t: nat, key: string) {
    Stored(s, t) && s.calls[t].key == Some(key)
  }

  lemma CreatorsAreStored(s: System, key: string)
    requires StoredWhenCreated(s) && AllDone(s)
    ensures OneStoredGraph(s, key) <==> AtMostOneCreator(s, key)
  {
    forall t: nat ensures IsCreator(s, t, key) <==> StoredFor(s, t, key) {
    }
  }

  /** Any number of calls, any interleaving, fresh ids, all calls returned: a key has at most one
      graph in the store exactly when no call checked it between another's missed check and
      registration. */
  lemma OneGraphPerKeyIff(s: System, actions: seq<Action>, key: string)
    requires AllAtStart(s) && FreshIds(s) && AllDone(Run(s, actions))
    ensures OneStoredGraph(Run(s, actions), key) <==> !OverlapOccurs(s, actions, key)
  {
    CreationStores(s, actions);
    OneCreatorIff(s, actions, key);
    CreatorsAreStored(Run(s, actions), key);
  }

  // ----- a run in which the key does not keep its promise

  lemma {:induction false} RunConcat(s: System, a: seq<Action>, b: seq<Action>)
    ensures Run(s, a + b) == Run(Run(s, a), b)
  {
    if b == [] {
      assert a + b == a;
    } else {
      assert (a + b)[..|a + b| - 1] == a + b[..|b| - 1];
      RunConcat(s, a, b[..|b| - 1]);
    }
  }

  lemma RunOne(s: System, a: Action)
    ensures Run(s, [a]) == Step(s, a)
  {
    assert [a][..|[a]| - 1] == [];
  }

  /** Two calls with the same key, each taking its next step. */
  lemma BothAdvance(s: System)
    requires |s.calls| == 2
    ensures Run(s, [Advance(0)] + [Advance(1)]) == Advanced(Advanced(s, 0), 1)
  {
    RunOne(s, Advance(0));
    RunOne(Advanced(s, 0), Advance(1));
    RunConcat(s, [Advance(0)], [Advance(1)]);
  }

  /** Two calls with one key, checked before either registers: two graphs, two different ids
      returned, and the key names the later one. */
  lemma TwoGraphsForOneKey(g: Graph, h: Graph, key: string) returns (s: System, actions: seq<Action>)
    requires g.id != h.id
    ensures AllAtStart(s) && FreshIds(s) && s.store == Store(map[], map[])
    ensures Run(s, actions) == System(Store(map[g.id := g, h.id := h], map[key := h.id]),
                                      [Call(g, Some(key), Own(g.id)), Call(h, Some(key), Own(h.id))])
  {
    var both := [Advance(0)] + [Advance(1)];
    s := System(Store(map[], map[]), [Call(g, Some(key), Checking), Call(h, Some(key), Checking)]);
    var checked := System(Store(map[], map[]), [Call(g, Some(key), Creating), Call(h, Some(key), Creating)]);
    var created := System(Store(map[g.id := g, h.id := h], map[]),
                          [Call(g, Some(key), Registering), Call(h, Some(key), Registering)]);
    BothAdvance(s);
    assert Run(s, both) == checked;
    BothAdvance(checked);
    assert Run(checked, both) == created;
    BothAdvance(created);
    RunConcat(s, both, both);
    RunConcat(s, both + both, both);
    actions := both + both + both;
  }
}
