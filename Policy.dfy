/**
 * The three-tier decision a `web-experiment` controller takes when it first initialises: a child
 * marked `selected` wins outright; otherwise the variant id held in storage is reused if a child
 * still carries it; otherwise a fresh weighted draw is taken and written back.
 */
module Policy {
  import opened Wrappers
  import opened Events
  import opened WeightedSelection
  import opened Storage

  /** What the controller reads off one child at decision time. */
  datatype Descriptor = Descriptor(id: string, weight: real, selected: bool)

  /** What storage offers the policy: construction failed, or a handler whose read gave `stored`. */
  datatype StoreView = StoreFailed | StoreHolds(stored: Option<string>)

  datatype Outcome = Assigned(index: nat, trigger: Trigger) | Unassigned

  /** The conditions the controller reports on the console. */
  datatype Message =
    | MissingExperimentId
    | NoChildren
    | MultipleSelected
    | StorageInitFailed
    | StaleVariant(storedId: string)
    | NoWeightedVariants
    | GtagMissing
    | DataLayerMissing
    | ReconnectSkipped

  datatype LogEntry = Error(message: Message) | Warn(message: Message) | Debug(message: Message)

  /** The decision together with the storage calls it makes and the messages it logs. */
  datatype Plan = Plan(outcome: Outcome, calls: seq<StoreCall>, log: seq<LogEntry>)

  /** Indices, in document order from `start`, of the children marked `selected`. */
  function SelectedFrom(ds: seq<Descriptor>, start: nat): seq<nat>
    decreases |ds| - start
  {
    if start >= |ds| then []
    else (if ds[start].selected then [start] else []) + SelectedFrom(ds, start + 1)
  }

  /** The children marked `selected`, in document order. */
  function Selected(ds: seq<Descriptor>): seq<nat> {
    SelectedFrom(ds, 0)
  }

  /**
   * The filter keeps exactly the `selected` children from `start` on, in increasing order; it
   * holds more than one exactly when a `selected` child follows the first.
   */
  lemma {:induction false} SelectedFromSpec(ds: seq<Descriptor>, start: nat)
    ensures var idx := SelectedFrom(ds, start);
            (forall k :: 0 <= k < |idx| ==> start <= idx[k] < |ds| && ds[idx[k]].selected)
            && (forall j :: start <= j < |ds| && ds[j].selected ==> j in idx)
            && (forall k, m :: 0 <= k < m < |idx| ==> idx[k] < idx[m])
            && (idx == [] <==> forall j :: start <= j < |ds| ==> !ds[j].selected)
    decreases |ds| - start
  {
    if start < |ds| {
      SelectedFromSpec(ds, start + 1);
      var head: seq<nat> := if ds[start].selected then [start] else [];
      var rest := SelectedFrom(ds, start + 1);
      var idx := SelectedFrom(ds, start);
      assert idx == head + rest;
      forall k | 0 <= k < |idx|
        ensures start <= idx[k] < |ds| && ds[idx[k]].selected
      {
        if k >= |head| {
          assert idx[k] == rest[k - |head|];
        } else {
          assert idx[k] == head[k];
        }
      }
      forall k, m | 0 <= k < m < |idx|
        ensures idx[k] < idx[m]
      {
        if k >= |head| {
          assert idx[k] == rest[k - |head|] && idx[m] == rest[m - |head|];
        } else {
          assert idx[m] == rest[m - |head|];
        }
      }
    }
  }

  lemma {:induction false} SelectedSpec(ds: seq<Descriptor>)
    ensures var idx := Selected(ds);
            (forall k :: 0 <= k < |idx| ==> idx[k] < |ds| && ds[idx[k]].selected)
            && (forall j :: 0 <= j < |ds| && ds[j].selected ==> j in idx)
            && (forall k, m :: 0 <= k < m < |idx| ==> idx[k] < idx[m])
            && (idx == [] <==> forall j :: 0 <= j < |ds| ==> !ds[j].selected)
  {
    assert Selected(ds) == SelectedFrom(ds, 0);
    SelectedFromSpec(ds, 0);
  }

  /** The first child, in document order, whose id is `id`. */
  function IndexOfId(ds: seq<Descriptor>, id: string): (k: Option<nat>)
    ensures k.None? <==> forall j :: 0 <= j < |ds| ==> ds[j].id != id
    ensures k.Some? ==> k.value < |ds| && ds[k.value].id == id && forall j :: 0 <= j < k.value ==> ds[j].id != id
  {
    if ds == [] then None
    else if ds[0].id == id then Some(0)
    else match IndexOfId(ds[1..], id)
      case None => None
      case Some(k) => Some(k + 1)
  }

  function Weights(ds: seq<Descriptor>): (ws: seq<real>)
    ensures |ws| == |ds| && forall i :: 0 <= i < |ds| ==> ws[i] == ds[i].weight
  {
    seq(|ds|, i requires 0 <= i < |ds| => ds[i].weight)
  }

  /** The calls tier two makes before any write. */
  lemma {:induction false} PrefixCounts()
    ensures Writes([Open, Read]) == 0 && Clears([Open, Read]) == 0
    ensures Writes([Open, Read, Clear]) == 0 && Clears([Open, Read, Clear]) == 1
  {
    assert [Open, Read][1..] == [Read];
    assert [Open, Read, Clear][1..] == [Read, Clear];
    assert [Read, Clear][1..] == [Clear];
    assert [Read][1..] == [] && [Clear][1..] == [];
  }

  /** Tier three: the weighted draw over the children's weights, written back when it picks. */
  function Fresh(ds: seq<Descriptor>, r: real, calls: seq<StoreCall>, log: seq<LogEntry>): (p: Plan)
    ensures p.outcome.Assigned? ==> p.outcome.index < |ds| && ds[p.outcome.index].weight > 0.0
    ensures p.calls == calls + (if p.outcome.Assigned? then [Write(Some(ds[p.outcome.index].id))] else [])
    ensures Writes(p.calls) == Writes(calls) + (if p.outcome.Assigned? then 1 else 0)
    ensures Clears(p.calls) == Clears(calls)
    ensures p.outcome.Assigned? ==> p.outcome.trigger == Select
  {
    var ws := Weights(ds);
    var target := Draw(r, Sum(ws));
    PickFromRange(ws, 0, 0.0, target);
    match Pick(ws, target)
    case None =>
      assert calls + [] == calls;
      Plan(Unassigned, calls, log + [Warn(NoWeightedVariants)])
    case Some(k) =>
      CountsAppend(calls, [Write(Some(ds[k].id))]);
      SingleCounts(Write(Some(ds[k].id)));
      Plan(Assigned(k, Select), calls + [Write(Some(ds[k].id))], log)
  }

  /** The decision for children `ds`, storage `view` and draw `r`. */
  function Resolve(ds: seq<Descriptor>, view: StoreView, r: real): (p: Plan)
    ensures p.outcome.Assigned? ==> p.outcome.index < |ds|
    ensures Writes(p.calls) <= 1 && Clears(p.calls) <= 1
    ensures Writes(p.calls) == 1 <==> p.outcome.Assigned? && p.outcome.trigger == Select
  {
    var selected := Selected(ds);
    if selected != [] then
      SelectedSpec(ds);
      Plan(Assigned(selected[0], PreSelected), [], if |selected| > 1 then [Warn(MultipleSelected)] else [])
    else match view
      case StoreFailed => Plan(Unassigned, [Open], [Error(StorageInitFailed)])
      case StoreHolds(stored) =>
        if stored.Some? && IndexOfId(ds, stored.value).Some? then
          Plan(Assigned(IndexOfId(ds, stored.value).value, Load), [Open, Read], [])
        else
          var calls := if stored.Some? then [Open, Read, Clear] else [Open, Read];
          var warned := if stored.Some? then [Warn(StaleVariant(stored.value))] else [];
          PrefixCounts();
          Fresh(ds, r, calls, warned)
  }

  /** The calls made on the handler itself: those after its construction. */
  function HandlerCalls(calls: seq<StoreCall>): seq<StoreCall> {
    if calls == [] then [] else calls[1..]
  }

  /**
   * The handler is constructed first and once, and only when no child is `selected`; after a
   * failed construction nothing else is called, and a working handler is read before anything else.
   */
  lemma {:induction false} ResolveCalls(ds: seq<Descriptor>, view: StoreView, r: real)
    ensures var c := Resolve(ds, view, r).calls;
            (c == [] <==> exists j :: 0 <= j < |ds| && ds[j].selected)
            && (c != [] ==> c == [Open] + HandlerCalls(c) && Open !in HandlerCalls(c))
            && (view.StoreFailed? ==> HandlerCalls(c) == [])
            && (view.StoreHolds? && c != [] ==> HandlerCalls(c)[0] == Read)
  {
    SelectedSpec(ds);
    var c := Resolve(ds, view, r).calls;
    if exists j :: 0 <= j < |ds| && ds[j].selected {
      var j :| 0 <= j < |ds| && ds[j].selected;
      assert j in Selected(ds);
    } else if view.StoreHolds? {
      assert c[0] == Open && c[1] == Read;
      assert forall k :: 1 <= k < |c| ==> c[k] != Open;
    }
  }

  /**
   * Tier two's calls on the handler once no child is `selected` and no child carries the stored
   * id `v`: a read, a clear exactly when an id was stored, then a write of the picked child's id
   * exactly when the draw picks one.
   */
  lemma {:induction false} TierTwoCalls(ds: seq<Descriptor>, v: Option<string>, r: real)
    requires Selected(ds) == [] && !(v.Some? && IndexOfId(ds, v.value).Some?)
    ensures var plan := Resolve(ds, StoreHolds(v), r);
            var pre := if v.Some? then [Read, Clear] else [Read];
            (plan.outcome.Assigned? ==> plan.outcome.index < |ds| && plan.outcome.trigger == Select)
            && HandlerCalls(plan.calls)
               == pre + (if plan.outcome.Assigned? then [Write(Some(ds[plan.outcome.index].id))] else [])
            && Clears(plan.calls) == (if v.Some? then 1 else 0)
  {
    var calls := if v.Some? then [Open, Read, Clear] else [Open, Read];
    var warned := if v.Some? then [Warn(StaleVariant(v.value))] else [];
    PrefixCounts();
    var plan := Fresh(ds, r, calls, warned);
    assert Resolve(ds, StoreHolds(v), r) == plan;
    var w := if plan.outcome.Assigned? then [Write(Some(ds[plan.outcome.index].id))] else [];
    assert plan.calls == calls + w;
    assert HandlerCalls(plan.calls) == calls[1..] + w;
  }

  /** Outside tier two's draw the decision neither clears alone nor picks with trigger `select`. */
  lemma {:induction false} NoDrawOutsideTierTwo(ds: seq<Descriptor>, v: Option<string>, r: real)
    requires Selected(ds) != [] || (v.Some? && IndexOfId(ds, v.value).Some?)
    ensures var plan := Resolve(ds, StoreHolds(v), r);
            Clears(plan.calls) == 0 && plan.outcome.Assigned? && plan.outcome.trigger != Select
  {
    PrefixCounts();
  }

  /**
   * Tier one: the first `selected` child in document order wins, storage is neither constructed,
   * read nor written, and a warning is logged exactly when another child is `selected` too.
   */
  lemma {:induction false} PreSelectionWins(ds: seq<Descriptor>, view: StoreView, r: real, i: nat)
    requires i < |ds| && ds[i].selected
    requires forall j :: 0 <= j < i ==> !ds[j].selected
    ensures Resolve(ds, view, r).outcome == Assigned(i, PreSelected)
    ensures Resolve(ds, view, r).calls == []
    ensures Warn(MultipleSelected) in Resolve(ds, view, r).log <==> exists j :: i < j < |ds| && ds[j].selected
  {
    SelectedSpec(ds);
    var sel := Selected(ds);
    assert i in sel;
    assert sel[0] == i;
    if exists j :: i < j < |ds| && ds[j].selected {
      var j :| i < j < |ds| && ds[j].selected;
      assert j in sel;
      assert j != sel[0];
    }
    if |sel| > 1 {
      assert ds[sel[1]].selected && i < sel[1];
    }
  }

  /** The decision between `selected` children never depends on what storage holds. */
  lemma {:induction false} PreSelectionIgnoresStorage(ds: seq<Descriptor>, v1: StoreView, v2: StoreView, r1: real, r2: real)
    requires exists j :: 0 <= j < |ds| && ds[j].selected
    ensures Resolve(ds, v1, r1) == Resolve(ds, v2, r2)
  {
    var j :| 0 <= j < |ds| && ds[j].selected;
    SelectedSpec(ds);
    assert j in Selected(ds);
  }

  /** No child is marked `selected`. */
  predicate NoneSelected(ds: seq<Descriptor>) {
    forall j :: 0 <= j < |ds| ==> !ds[j].selected
  }

  lemma {:induction false} NoneSelectedEmpty(ds: seq<Descriptor>)
    requires NoneSelected(ds)
    ensures Selected(ds) == []
  {
    SelectedSpec(ds);
  }

  /** Tier two, failure: without a handler the policy stops, unassigned, after the failed construction. */
  lemma {:induction false} StorageFailureStops(ds: seq<Descriptor>, r: real)
    requires NoneSelected(ds)
    ensures Resolve(ds, StoreFailed, r) == Plan(Unassigned, [Open], [Error(StorageInitFailed)])
  {
    NoneSelectedEmpty(ds);
  }

  /**
   * Tier two, hit: a stored id carried by a child assigns that child with trigger `load`;
   * storage is read once and never written, and the draw is not used.
   */
  lemma {:induction false} StoredIdLoads(ds: seq<Descriptor>, v: string, r: real)
    requires NoneSelected(ds)
    requires exists j :: 0 <= j < |ds| && ds[j].id == v
    ensures var p := Resolve(ds, StoreHolds(Some(v)), r);
            p.outcome.Assigned? && p.outcome.trigger == Load && ds[p.outcome.index].id == v
            && p.calls == [Open, Read] && p.log == []
  {
    NoneSelectedEmpty(ds);
  }

  /**
   * Tier two, stale: a stored id no child carries is cleared exactly once and reported, and the
   * decision is then the one taken with nothing stored.
   */
  lemma {:induction false} StaleIdCleared(ds: seq<Descriptor>, v: string, r: real)
    requires NoneSelected(ds)
    requires forall j :: 0 <= j < |ds| ==> ds[j].id != v
    ensures var p := Resolve(ds, StoreHolds(Some(v)), r);
            var q := Resolve(ds, StoreHolds(None), r);
            |q.calls| >= 2 && p.outcome == q.outcome
            && p.calls == [Open, Read, Clear] + q.calls[2..]
            && Clears(p.calls) == 1
            && p.log == [Warn(StaleVariant(v))] + q.log
  {
    NoneSelectedEmpty(ds);
    var p := Resolve(ds, StoreHolds(Some(v)), r);
    var q := Resolve(ds, StoreHolds(None), r);
    assert q.calls[2..] == p.calls[3..];
    assert p.calls == [Open, Read, Clear] + p.calls[3..];
    CountsAppend([Open, Read, Clear], p.calls[3..]);
    assert Clears(q.calls[2..]) == 0 by {
      CountsAppend([Open, Read], q.calls[2..]);
      assert q.calls == [Open, Read] + q.calls[2..];
    }
  }

  /**
   * Tier three: with nothing usable stored and some child of positive weight, the draw picks the
   * eligible child whose bucket holds it, and that child's id is written exactly once.
   */
  lemma {:induction false} FreshDrawWrites(ds: seq<Descriptor>, stored: Option<string>, r: real)
    requires NoneSelected(ds)
    requires stored.None? || forall j :: 0 <= j < |ds| ==> ds[j].id != stored.value
    requires 0.0 <= r < 1.0
    requires exists j :: 0 <= j < |ds| && ds[j].weight > 0.0
    ensures var p := Resolve(ds, StoreHolds(stored), r);
            var ws := Weights(ds);
            p.outcome.Assigned? && p.outcome.trigger == Select
            && var k := p.outcome.index;
            ds[k].weight > 0.0
            && Sum(ws[..k]) <= Draw(r, Sum(ws)) < Sum(ws[..k + 1])
            && p.calls[|p.calls| - 1] == Write(Some(ds[k].id))
            && Writes(p.calls) == 1
  {
    NoneSelectedEmpty(ds);
    DrawPicks(Weights(ds), r);
  }

  /**
   * Tier three, nothing eligible: when no child has positive weight the policy ends unassigned
   * with a warning and writes nothing.
   */
  lemma {:induction false} NothingEligible(ds: seq<Descriptor>, stored: Option<string>, r: real)
    requires NoneSelected(ds)
    requires stored.None? || forall j :: 0 <= j < |ds| ==> ds[j].id != stored.value
    requires 0.0 <= r < 1.0
    requires forall j :: 0 <= j < |ds| ==> ds[j].weight <= 0.0
    ensures var p := Resolve(ds, StoreHolds(stored), r);
            p.outcome == Unassigned && Writes(p.calls) == 0
            && p.log[|p.log| - 1] == Warn(NoWeightedVariants)
  {
    NoneSelectedEmpty(ds);
    DrawPicks(Weights(ds), r);
  }

  /** The example pages: children A and B weighted 50/50. */
  lemma {:induction false} Scenarios()
    ensures var ds := [Descriptor("A", 50.0, false), Descriptor("B", 50.0, false)];
            Resolve(ds, StoreHolds(None), 0.1) == Plan(Assigned(0, Select), [Open, Read, Write(Some("A"))], [])
            && Resolve(ds, StoreHolds(None), 0.6) == Plan(Assigned(1, Select), [Open, Read, Write(Some("B"))], [])
            && Resolve(ds, StoreHolds(Some("B")), 0.1) == Plan(Assigned(1, Load), [Open, Read], [])
            && Resolve(ds, StoreHolds(Some("X")), 0.1)
               == Plan(Assigned(0, Select), [Open, Read, Clear, Write(Some("A"))], [Warn(StaleVariant("X"))])
  {
    var ds := [Descriptor("A", 50.0, false), Descriptor("B", 50.0, false)];
    NoneSelectedEmpty(ds);
    assert Weights(ds) == [50.0, 50.0];
    FiftyFifty();
  }
}
