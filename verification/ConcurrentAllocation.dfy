/** Several allocations at once, among other calls on the cluster: reading the ready nodes and
    marking each node picked take the table's lock separately, so a node can be given away twice;
    exactly when. */
module ConcurrentAllocation {
  import opened Sequences
  import opened Graphs
  import opened Clusters

  /** A call that has picked marks its nodes one by one. */
  datatype Progress = Waiting | Marking(picked: seq<NodeId>, done: nat)

  datatype Call = Call(required: nat, graph: GraphId, progress: Progress)

  datatype System = System(nodes: Nodes, calls: seq<Call>)

  /** `Other` is a whole call of another method: a registration, a new state, a rejoin. */
  datatype Action = Pick(call: nat, picked: seq<NodeId>) | Mark(call: nat) | Other(op: Op)

  /** The call may pick these nodes now: which ready nodes come first is up to the table's order. */
  ghost predicate CanPick(s: System, t: nat, picked: seq<NodeId>) {
    && t < |s.calls| && s.calls[t].progress.Waiting?
    && Distinct(picked) && Elements(picked) <= ReadyNodes(s.nodes)
    && |picked| == Min(s.calls[t].required, |ReadyNodes(s.nodes)|)
  }

  ghost function Step(s: System, a: Action): System {
    match a
    case Pick(t, picked) =>
      if CanPick(s, t, picked) then s.(calls := s.calls[t := s.calls[t].(progress := Marking(picked, 0))]) else s
    case Mark(t) =>
      if t < |s.calls| && s.calls[t].progress.Marking? && s.calls[t].progress.done < |s.calls[t].progress.picked| then
        var c := s.calls[t];
        System(WithState(s.nodes, c.progress.picked[c.progress.done], Executing(c.graph)),
               s.calls[t := c.(progress := Marking(c.progress.picked, c.progress.done + 1))])
      else s
    case Other(op) => if op.Allocate? then s else s.(nodes := Apply(s.nodes, op))
  }

  ghost function Run(s: System, actions: seq<Action>): System {
    if actions == [] then s else Step(Run(s, actions[..|actions| - 1]), actions[|actions| - 1])
  }

  /** The call has picked the node. */
  ghost predicate Has(s: System, t: nat, id: NodeId) {
    t < |s.calls| && s.calls[t].progress.Marking? && id in s.calls[t].progress.picked
  }

  /** The call has picked the node and not marked it yet. */
  ghost predicate Unmarked(s: System, t: nat, id: NodeId) {
    && t < |s.calls| && s.calls[t].progress.Marking?
    && exists i :: s.calls[t].progress.done <= i < |s.calls[t].progress.picked| && s.calls[t].progress.picked[i] == id
  }

  predicate Returns(a: Action, id: NodeId) {
    a.Other? && MakesReady(a.op, id)
  }

  /** The call holds the node: from when it picks it until the first time that the node is returned
      to ready after the call has marked it. */
  ghost predicate Holds(s: System, actions: seq<Action>, t: nat, id: NodeId) {
    actions != [] && var n := |actions| - 1;
    Unmarked(Run(s, actions), t, id) || (Holds(s, actions[..n], t, id) && !Returns(actions[n], id))
  }

  ghost predicate HeldTwice(s: System, actions: seq<Action>) {
    exists t: nat, u: nat, id :: t != u && Holds(s, actions, t, id) && Holds(s, actions, u, id)
  }

  ghost predicate HeldTwiceSometime(s: System, actions: seq<Action>) {
    actions != [] && (HeldTwiceSometime(s, actions[..|actions| - 1]) || HeldTwice(s, actions))
  }

  /** Two calls have picked the node, at any time. */
  ghost predicate GivenTwice(s: System) {
    exists t: nat, u: nat, id :: t != u && Has(s, t, id) && Has(s, u, id)
  }

  /** The action picks a node that another call has picked and not marked yet. */
  ghost predicate Grabs(s: System, a: Action) {
    a.Pick? && CanPick(s, a.call, a.picked) && exists u: nat, id :: id in a.picked && Unmarked(s, u, id)
  }

  ghost predicate GrabOccurs(s: System, actions: seq<Action>) {
    actions != [] && var n := |actions| - 1;
    GrabOccurs(s, actions[..n]) || Grabs(Run(s, actions[..n]), actions[n])
  }

  ghost predicate AllWaiting(s: System) {
    forall t :: 0 <= t < |s.calls| ==> s.calls[t].progress.Waiting?
  }

  lemma StepKeeps(s: System, a: Action, t: nat, id: NodeId)
    ensures Has(s, t, id) ==> Has(Step(s, a), t, id)
    ensures Has(Step(s, a), t, id) && !Has(s, t, id) ==> a.Pick? && a.call == t && CanPick(s, t, a.picked) && id in a.picked
  {
  }

  lemma UnmarkedStep(s: System, a: Action, t: nat, id: NodeId)
    ensures Unmarked(Step(s, a), t, id) && !Unmarked(s, t, id) ==>
              a.Pick? && a.call == t && CanPick(s, t, a.picked) && id in a.picked
    ensures Unmarked(s, t, id) && !Unmarked(Step(s, a), t, id) ==> !IsReady(Step(s, a).nodes, id)
  {
    if Unmarked(s, t, id) && !Unmarked(Step(s, a), t, id) {
      var i :| s.calls[t].progress.done <= i < |s.calls[t].progress.picked| && s.calls[t].progress.picked[i] == id;
      assert a == Mark(t) && i == s.calls[t].progress.done;
    }
  }

  lemma OnlyReturnsMakeReady(s: System, a: Action, id: NodeId)
    requires !IsReady(s.nodes, id) && !Returns(a, id)
    ensures !IsReady(Step(s, a).nodes, id)
  {
    if a.Other? && !a.op.Allocate? && IsReady(Apply(s.nodes, a.op), id) {
      OnlyTheseMakeReady(s.nodes, a.op, id);
    }
  }

  /** What a call holds it has picked, and what it has also marked is not ready. */
  lemma {:induction false} HeldMeaning(s: System, actions: seq<Action>, t: nat, id: NodeId)
    requires AllWaiting(s) && Holds(s, actions, t, id)
    ensures Has(Run(s, actions), t, id)
    ensures Unmarked(Run(s, actions), t, id) || !IsReady(Run(s, actions).nodes, id)
  {
    var n := |actions| - 1;
    if !Unmarked(Run(s, actions), t, id) {
      HeldMeaning(s, actions[..n], t, id);
      var now := Run(s, actions[..n]);
      StepKeeps(now, actions[n], t, id);
      UnmarkedStep(now, actions[n], t, id);
      if !Unmarked(now, t, id) {
        OnlyReturnsMakeReady(now, actions[n], id);
      }
    }
  }

  lemma UnmarkedIsHeld(s: System, actions: seq<Action>, t: nat, id: NodeId)
    requires AllWaiting(s) && Unmarked(Run(s, actions), t, id)
    ensures Holds(s, actions, t, id)
  {
  }

  /** A hold begins with a pick. */
  lemma HoldBegins(s: System, actions: seq<Action>, t: nat, id: NodeId)
    requires AllWaiting(s) && actions != [] && Holds(s, actions, t, id)
    ensures var n := |actions| - 1;
            || Holds(s, actions[..n], t, id)
            || (actions[n].Pick? && actions[n].call == t && CanPick(Run(s, actions[..n]), t, actions[n].picked)
                && id in actions[n].picked)
  {
    var n := |actions| - 1;
    var now := Run(s, actions[..n]);
    if Unmarked(now, t, id) {
      UnmarkedIsHeld(s, actions[..n], t, id);
    }
    UnmarkedStep(now, actions[n], t, id);
  }

  lemma GrabHoldsTwice(s: System, actions: seq<Action>)
    requires AllWaiting(s) && actions != [] && Grabs(Run(s, actions[..|actions| - 1]), actions[|actions| - 1])
    ensures HeldTwice(s, actions)
  {
    var a := actions[|actions| - 1];
    var now := Run(s, actions[..|actions| - 1]);
    var u: nat, id :| id in a.picked && Unmarked(now, u, id);
    var i :| 0 <= i < |a.picked| && a.picked[i] == id;
    assert Unmarked(Step(now, a), a.call, id) && Unmarked(Step(now, a), u, id);
    assert Holds(s, actions, a.call, id) && Holds(s, actions, u, id);
  }

  /** One step makes two calls hold a node exactly when it grabs an unmarked one. */
  lemma HeldTwiceStep(s: System, actions: seq<Action>)
    requires AllWaiting(s) && actions != [] && !HeldTwice(s, actions[..|actions| - 1])
    ensures HeldTwice(s, actions) <==> Grabs(Run(s, actions[..|actions| - 1]), actions[|actions| - 1])
  {
    var before, a := actions[..|actions| - 1], actions[|actions| - 1];
    if Grabs(Run(s, before), a) {
      GrabHoldsTwice(s, actions);
    }
    if t: nat, u: nat, id :| t != u && Holds(s, actions, t, id) && Holds(s, actions, u, id) {
      HoldBegins(s, actions, t, id);
      HoldBegins(s, actions, u, id);
      var other := if a.Pick? && a.call == t then u else t;
      assert Holds(s, before, other, id);
      HeldMeaning(s, before, other, id);
      assert id in Elements(a.picked);
      assert Unmarked(Run(s, before), other, id);
    }
  }

  /** Over any interleaving of any number of allocations with other calls on the cluster, two calls
      at some time hold one node exactly when some call picks a node between another's picking and
      marking of it. */
  lemma {:induction false} HeldTwiceIff(s: System, actions: seq<Action>)
    requires AllWaiting(s)
    ensures HeldTwiceSometime(s, actions) <==> GrabOccurs(s, actions)
  {
    if actions != [] {
      var n := |actions| - 1;
      HeldTwiceIff(s, actions[..n]);
      if HeldTwice(s, actions[..n]) {
        assert HeldTwiceSometime(s, actions[..n]);
      } else {
        HeldTwiceStep(s, actions);
      }
    }
  }

  /** As long as nothing is returned to ready, a call holds all that it has picked. */
  lemma {:induction false} HoldsWhatItHas(s: System, actions: seq<Action>, t: nat, id: NodeId)
    requires AllWaiting(s) && forall a :: a in actions ==> !Returns(a, id)
    ensures Holds(s, actions, t, id) <==> Has(Run(s, actions), t, id)
  {
    if actions != [] {
      var n := |actions| - 1;
      HoldsWhatItHas(s, actions[..n], t, id);
      StepKeeps(Run(s, actions[..n]), actions[n], t, id);
      assert actions[n] in actions;
      if Holds(s, actions, t, id) {
        HeldMeaning(s, actions, t, id);
      }
    }
  }

  lemma GivenTwiceIsHeldTwice(s: System, actions: seq<Action>)
    requires AllWaiting(s) && forall a, id :: a in actions ==> !Returns(a, id)
    ensures GivenTwice(Run(s, actions)) <==> HeldTwice(s, actions)
  {
    forall t: nat, id ensures Holds(s, actions, t, id) <==> Has(Run(s, actions), t, id) {
      HoldsWhatItHas(s, actions, t, id);
    }
  }

  lemma {:induction false} GivenTwiceSometime(s: System, actions: seq<Action>)
    requires AllWaiting(s) && forall a, id :: a in actions ==> !Returns(a, id)
    ensures GivenTwice(Run(s, actions)) <==> HeldTwiceSometime(s, actions)
  {
    GivenTwiceIsHeldTwice(s, actions);
    if actions != [] {
      var n := |actions| - 1;
      assert forall a :: a in actions[..n] ==> a in actions;
      GivenTwiceSometime(s, actions[..n]);
      if GivenTwice(Run(s, actions[..n])) {
        GivenTwiceStays(Run(s, actions[..n]), actions[n]);
      }
    }
  }

  lemma GivenTwiceStays(s: System, a: Action)
    requires GivenTwice(s)
    ensures GivenTwice(Step(s, a))
  {
    var t: nat, u: nat, id :| t != u && Has(s, t, id) && Has(s, u, id);
    StepKeeps(s, a, t, id);
    StepKeeps(s, a, u, id);
  }

  /** In particular, as long as nothing is returned to ready, some node ends up with two graphs
      exactly when some call picked a node between another's picking and marking of it. */
  lemma GivenTwiceIff(s: System, actions: seq<Action>)
    requires AllWaiting(s) && forall a, id :: a in actions ==> !Returns(a, id)
    ensures GivenTwice(Run(s, actions)) <==> GrabOccurs(s, actions)
  {
    GivenTwiceSometime(s, actions);
    HeldTwiceIff(s, actions);
  }

  /** One ready node, two calls that both read the table before either marks: both get it. */
  lemma OneNodeForTwo(node: ClusterNode, g: GraphId, h: GraphId) returns (s: System, actions: seq<Action>)
    requires node.state.Ready?
    ensures AllWaiting(s) && s.nodes == map[node.id := node] && GivenTwice(Run(s, actions))
  {
    s := System(map[node.id := node], [Call(1, g, Waiting), Call(1, h, Waiting)]);
    var picked := [node.id];
    assert ReadyNodes(s.nodes) == {node.id} && Elements(picked) == {node.id};
    var s1 := System(s.nodes, [Call(1, g, Marking(picked, 0)), Call(1, h, Waiting)]);
    var s2 := System(s.nodes, [Call(1, g, Marking(picked, 0)), Call(1, h, Marking(picked, 0))]);
    assert Step(s, Pick(0, picked)) == s1;
    assert Step(s1, Pick(1, picked)) == s2;
    actions := [Pick(0, picked)] + [Pick(1, picked)];
    assert actions[..|actions| - 1] == [Pick(0, picked)] && [Pick(0, picked)][..0] == [];
    assert Run(s, [Pick(0, picked)]) == s1;
    assert Run(s, actions) == s2;
    assert Has(s2, 0, node.id) && Has(s2, 1, node.id);
  }
}
