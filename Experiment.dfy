/**
 * The `web-experiment` controller: on first connection it decides which child variant to show,
 * shows it, announces it with a `web-experiment:variant-assigned` event and reports the impression
 * to the analytics hooks it is configured for; later connections change nothing.
 */
module Experiment {
  import opened Wrappers
  import opened Events
  import opened WeightedSelection
  import opened Policy
  import opened Variant
  import opened BrowserStorage
  import opened Storage

  const ImpressionEvent: string := "experience_impression"
  const ImpressionPrefix: string := "web-experiment-"

  /** `web-experiment-<experimentId>-<variantId>`: the impression payload sent to analytics. */
  function ExpVariantString(experimentId: string, variantId: string): (s: string)
    ensures |s| == |ImpressionPrefix| + |experimentId| + 1 + |variantId|
    ensures s[..|ImpressionPrefix|] == ImpressionPrefix
    ensures s[|ImpressionPrefix|..|ImpressionPrefix| + |experimentId|] == experimentId
    ensures s[|ImpressionPrefix| + |experimentId|] == '-'
    ensures s[|s| - |variantId|..] == variantId
  {
    ImpressionPrefix + experimentId + "-" + variantId
  }

  /** Within one experiment the payload names the variant: different variants, different payloads. */
  lemma {:induction false} ExpVariantStringInjective(experimentId: string, v1: string, v2: string)
    requires ExpVariantString(experimentId, v1) == ExpVariantString(experimentId, v2)
    ensures v1 == v2
  {
    var s := ExpVariantString(experimentId, v1);
    assert v1 == s[|s| - |v1|..];
  }

  lemma {:induction false} ExpVariantStringExample()
    ensures ExpVariantString("ga-exp", "A") == "web-experiment-ga-exp-A"
  {
  }

  /** `gtag('event', 'experience_impression', {exp_variant_string})`. */
  datatype GtagCall = GtagCall(command: string, eventName: string, expVariantString: string)

  /** `dataLayer.push({event: 'experience_impression', exp_variant_string})`. */
  datatype DataLayerEntry = DataLayerEntry(event: string, expVariantString: string)

  /** The page globals the controller consults. */
  class Window {
    /** `window.webExperimentDebugMode`. */
    var webExperimentDebugMode: bool
    /** `window.gtag`: absent, or present with the calls it has received. */
    var gtag: Option<seq<GtagCall>>
    /** `window.dataLayer`: absent, or present with the entries pushed to it. */
    var dataLayer: Option<seq<DataLayerEntry>>

    constructor(debugMode: bool, gtag: Option<seq<GtagCall>>, dataLayer: Option<seq<DataLayerEntry>>)
      ensures webExperimentDebugMode == debugMode && this.gtag == gtag && this.dataLayer == dataLayer
    {
      webExperimentDebugMode := debugMode;
      this.gtag := gtag;
      this.dataLayer := dataLayer;
    }
  }

  /** The warnings for analytics hooks that are enabled but missing from the page, gtag first. */
  function AnalyticsWarnings(gtagEnabled: bool, gtmEnabled: bool, hasGtag: bool, hasDataLayer: bool): (w: seq<LogEntry>)
    ensures Warn(GtagMissing) in w <==> gtagEnabled && !hasGtag
    ensures Warn(DataLayerMissing) in w <==> gtmEnabled && !hasDataLayer
    ensures forall e :: e in w ==> e == Warn(GtagMissing) || e == Warn(DataLayerMissing)
    ensures |w| <= 2
  {
    (if gtagEnabled && !hasGtag then [Warn(GtagMissing)] else [])
    + (if gtmEnabled && !hasDataLayer then [Warn(DataLayerMissing)] else [])
  }

  /** The handler and the objects it writes to; nothing when it could not be constructed. */
  function StoreFrame(store: StorageHandler?): set<object> {
    if store == null then {} else {store, store.jar, store.local}
  }

  /** What the policy sees of storage: a failed construction, or what the handler reads. */
  ghost function ViewOf(store: StorageHandler?): StoreView
    reads store, if store != null then {store.jar, store.local} else {}
  {
    if store == null then StoreFailed else StoreHolds(store.Stored())
  }

  /**
   * The handler after the decision `plan`, from the call record `calls0` and the state `state0`
   * before it: exactly the plan's calls were made on it, in order, and its backends hold what
   * those calls leave.
   */
  ghost predicate Ran(plan: Plan, store: StorageHandler, calls0: seq<StoreCall>, state0: StoreState, now: nat)
    reads store, store.jar, store.local
  {
    store.calls == calls0 + HandlerCalls(plan.calls)
    && store.State() == store.Replay(state0, HandlerCalls(plan.calls), now)
  }

  /**
   * The handler state after tier two's calls: cleared when an id was stored (none of the
   * children carries it), then set to the picked child's id when the draw picks one.
   */
  lemma {:induction false} TierTwoReplay(ds: seq<Descriptor>, store: StorageHandler, s: StoreState,
                                         v: Option<string>, r: real, now: nat)
    requires Selected(ds) == [] && !(v.Some? && IndexOfId(ds, v.value).Some?)
    ensures var plan := Resolve(ds, StoreHolds(v), r);
            var x := if v.Some? then store.AfterClear(s) else s;
            (plan.outcome.Assigned? ==> plan.outcome.index < |ds|)
            && store.Replay(s, HandlerCalls(plan.calls), now)
               == if plan.outcome.Assigned? then store.AfterSet(x, Some(ds[plan.outcome.index].id), now) else x
  {
    var plan := Resolve(ds, StoreHolds(v), r);
    TierTwoCalls(ds, v, r);
    var pre := if v.Some? then [Read, Clear] else [Read];
    store.ReplayPrefix(s, v.Some?, now);
    if plan.outcome.Assigned? {
      var id := ds[plan.outcome.index].id;
      assert HandlerCalls(plan.calls) == pre + [Write(Some(id))];
      store.ReplayAppend(s, pre, Write(Some(id)), now);
    } else {
      assert HandlerCalls(plan.calls) == pre + [];
      assert pre + [] == pre;
    }
  }

  /** A decision that neither clears nor writes leaves the handler's backends as they were. */
  lemma {:induction false} RanReadsOnly(plan: Plan, store: StorageHandler, calls0: seq<StoreCall>,
                                        state0: StoreState, now: nat)
    requires Ran(plan, store, calls0, state0, now) && Clears(plan.calls) == 0 && Writes(plan.calls) == 0
    ensures store.State() == state0
  {
    if plan.calls != [] {
      CountsAppend([plan.calls[0]], plan.calls[1..]);
      assert [plan.calls[0]] + plan.calls[1..] == plan.calls;
    }
    store.ReplayReadsOnly(state0, HandlerCalls(plan.calls), now);
  }

  /**
   * Tier two's calls made on the handler, in the order the decision lists them, are what `Ran`
   * records: the handler's log grows by them and its state is their replay.
   */
  lemma {:induction false} TierTwoRan(ds: seq<Descriptor>, store: StorageHandler, calls0: seq<StoreCall>,
                                      state0: StoreState, v: Option<string>, r: real, now: nat)
    requires Selected(ds) == [] && !(v.Some? && IndexOfId(ds, v.value).Some?)
    requires var plan := Resolve(ds, StoreHolds(v), r);
             var pre := calls0 + [Read] + (if v.Some? then [Clear] else []);
             var x := if v.Some? then store.AfterClear(state0) else state0;
             plan.outcome.Assigned? ==>
               store.calls == pre + [Write(Some(ds[plan.outcome.index].id))]
               && store.State() == store.AfterSet(x, Some(ds[plan.outcome.index].id), now)
    requires var plan := Resolve(ds, StoreHolds(v), r);
             var pre := calls0 + [Read] + (if v.Some? then [Clear] else []);
             var x := if v.Some? then store.AfterClear(state0) else state0;
             plan.outcome.Unassigned? ==> store.calls == pre && store.State() == x
    ensures Ran(Resolve(ds, StoreHolds(v), r), store, calls0, state0, now)
  {
    TierTwoCalls(ds, v, r);
    TierTwoReplay(ds, store, state0, v, r, now);
  }

  /**
   * What storage reads once the decision's calls for a stored id `v` are made on a handler in
   * state `s`: nothing after a clear that no write followed, and the freshly picked id after a
   * write, unless the backend is blocked, whenever the key is usable and the id non-empty.
   */
  lemma {:induction false} ReplayReadsBack(ds: seq<Descriptor>, store: StorageHandler, s: StoreState,
                                           v: Option<string>, r: real, now: nat)
    requires WellFormed(s.entries) && store.storageKey != ""
    ensures var plan := Resolve(ds, StoreHolds(v), r);
            var after := store.ReadIn(store.Replay(s, HandlerCalls(plan.calls), now));
            (Clears(plan.calls) == 1 && Writes(plan.calls) == 0 ==> after == None)
            && (plan.outcome.Assigned? && plan.outcome.trigger == Select && ds[plan.outcome.index].id != ""
                && store.ReadsBack() ==>
                  after == if store.Blocked() then None else Some(ds[plan.outcome.index].id))
  {
    var plan := Resolve(ds, StoreHolds(v), r);
    if Selected(ds) == [] && !(v.Some? && IndexOfId(ds, v.value).Some?) {
      TierTwoCalls(ds, v, r);
      TierTwoReplay(ds, store, s, v, r, now);
      var x := if v.Some? then store.AfterClear(s) else s;
      if plan.outcome.Assigned? {
        var id := ds[plan.outcome.index].id;
        if id != "" && store.ReadsBack() {
          store.StepsWellFormed(s, None, now);
          store.SetThenGet(x, id, now);
        }
      } else if v.Some? {
        store.ClearThenGet(s);
      }
    } else {
      NoDrawOutsideTierTwo(ds, v, r);
    }
  }

  /**
   * Tier three on the handler: the weighted draw, and a write of the picked id. `calls` and `log`
   * are what the decision has made and logged before the draw.
   */
  method DrawAndWrite(ds: seq<Descriptor>, store: StorageHandler, r: real, now: nat,
                      calls: seq<StoreCall>, log: seq<LogEntry>) returns (plan: Plan)
    requires store.Valid()
    modifies store, store.jar, store.local
    ensures store.Valid()
    ensures plan == Fresh(ds, r, calls, log)
    ensures plan.outcome.Assigned? ==>
              var id := ds[plan.outcome.index].id;
              store.calls == old(store.calls) + [Write(Some(id))]
              && store.State() == store.AfterSet(old(store.State()), Some(id), now)
    ensures plan.outcome.Unassigned? ==> store.calls == old(store.calls) && unchanged(store.jar, store.local)
  {
    var ws := Weights(ds);
    var k := WeightedSelect(ws, r);
    PickFromRange(ws, 0, 0.0, Draw(r, Sum(ws)));
    if k.None? {
      assert calls + [] == calls;
      return Plan(Unassigned, calls, log + [Warn(NoWeightedVariants)]);
    }
    var id := ds[k.value].id;
    store.SetAssignedVariant(Some(id), now);
    plan := Plan(Assigned(k.value, Select), calls + [Write(Some(id))], log);
  }

  /**
   * Tiers two and three on the handler, once no child is `selected`: read the stored id, keep it
   * when a child carries it, otherwise clear it when present and draw afresh.
   */
  method LoadOrDraw(ds: seq<Descriptor>, store: StorageHandler, r: real, now: nat) returns (plan: Plan)
    requires store.Valid() && Selected(ds) == []
    modifies store, store.jar, store.local
    ensures store.Valid()
    ensures plan == Resolve(ds, StoreHolds(old(store.Stored())), r)
    ensures Ran(plan, store, old(store.calls), old(store.State()), now)
    ensures Clears(plan.calls) == 0 && Writes(plan.calls) == 0 ==> unchanged(store.jar, store.local)
  {
    PrefixCounts();
    ghost var state0 := store.State();
    ghost var calls0 := store.calls;
    var stored := store.GetAssignedVariant();
    if stored.Some? {
      var hit := IndexOfId(ds, stored.value);
      if hit.Some? {
        plan := Plan(Assigned(hit.value, Load), [Open, Read], []);
        assert HandlerCalls(plan.calls) == [Read] && [Read][1..] == [];
        return;
      }
      store.ClearAssignedVariant();
      plan := DrawAndWrite(ds, store, r, now, [Open, Read, Clear], [Warn(StaleVariant(stored.value))]);
    } else {
      plan := DrawAndWrite(ds, store, r, now, [Open, Read], []);
    }
    TierTwoRan(ds, store, calls0, state0, stored, r, now);
  }

  /**
   * The decision with its storage calls made on the handler: none for a `selected` child, a read
   * once tier two is reached, a clear for a stale id, a write for a fresh pick.
   */
  method RunPolicy(ds: seq<Descriptor>, store: StorageHandler?, r: real, now: nat) returns (plan: Plan)
    requires store != null ==> store.Valid()
    modifies StoreFrame(store)
    ensures store != null ==> store.Valid()
    ensures plan == Resolve(ds, old(ViewOf(store)), r)
    ensures store != null ==> Ran(plan, store, old(store.calls), old(store.State()), now)
    ensures store != null && Clears(plan.calls) == 0 && Writes(plan.calls) == 0 ==>
              unchanged(store.jar, store.local)
  {
    var selected := Selected(ds);
    if selected != [] {
      SelectedSpec(ds);
      var warned := if |selected| > 1 then [Warn(MultipleSelected)] else [];
      plan := Plan(Assigned(selected[0], PreSelected), [], warned);
      assert store != null ==> store.Replay(store.State(), [], now) == store.State();
      return;
    }
    if store == null {
      return Plan(Unassigned, [Open], [Error(StorageInitFailed)]);
    }
    plan := LoadOrDraw(ds, store, r, now);
  }

  /**
   * The element's record of storage calls: the handler's construction, when the decision needs
   * one, followed by the calls the handler itself received, is exactly the decision's calls.
   */
  lemma {:induction false} RecordedCalls(ds: seq<Descriptor>, view: StoreView, r: real, made: seq<StoreCall>)
    requires made == HandlerCalls(Resolve(ds, view, r).calls)
    ensures var calls := Resolve(ds, view, r).calls;
            (if calls == [] then [] else [Open]) + made == calls
  {
    ResolveCalls(ds, view, r);
  }

  class WebExperiment {
    /** The `experiment-id` attribute, if present. */
    const experimentIdAttr: Option<string>
    /** Whether the `debug-mode`, `gtag` and `gtm` attributes are present. */
    const debugModeAttr: bool
    const gtagAttr: bool
    const gtmAttr: bool
    /** The `web-experiment-variant` children, in document order. */
    const children: seq<WebExperimentVariant>

    var initialized: bool
    /** The id of the variant shown, once one has been assigned. */
    var assignedVariant: Option<string>
    /** The events dispatched from this element. */
    var dispatched: seq<VariantAssignedEvent>
    /** The console messages logged by this element. */
    var log: seq<LogEntry>
    /** The storage interactions made by this element, its handler's construction included. */
    ghost var storeCalls: seq<StoreCall>

    predicate DistinctChildren() {
      forall i, j :: 0 <= i < j < |children| ==> children[i] != children[j]
    }

    /**
     * Children are distinct; before initialisation nothing has happened; afterwards at most one
     * event has been dispatched, for the assigned variant, and storage written at most once.
     */
    ghost predicate Valid()
      reads this
    {
      DistinctChildren()
      && (!initialized ==> assignedVariant.None? && dispatched == [] && storeCalls == [])
      && |dispatched| <= 1
      && (assignedVariant.Some? <==> dispatched != [])
      && (dispatched != [] ==>
            Dispatchable(dispatched[0]) && dispatched[0].variantId == assignedVariant.value
            && experimentIdAttr == Some(dispatched[0].experimentId))
      && Writes(storeCalls) <= 1
    }

    constructor(experimentIdAttr: Option<string>, debugModeAttr: bool, gtagAttr: bool, gtmAttr: bool,
                children: seq<WebExperimentVariant>)
      requires forall i, j :: 0 <= i < j < |children| ==> children[i] != children[j]
      ensures Valid()
      ensures this.experimentIdAttr == experimentIdAttr && this.debugModeAttr == debugModeAttr
      ensures this.gtagAttr == gtagAttr && this.gtmAttr == gtmAttr && this.children == children
      ensures !initialized && assignedVariant.None? && dispatched == [] && log == [] && storeCalls == []
    {
      this.experimentIdAttr := experimentIdAttr;
      this.debugModeAttr := debugModeAttr;
      this.gtagAttr := gtagAttr;
      this.gtmAttr := gtmAttr;
      this.children := children;
      initialized := false;
      assignedVariant := None;
      dispatched := [];
      log := [];
      storeCalls := [];
    }

    /** Debug output is on when the attribute is present or the page-wide flag is set. */
    function DebugMode(window: Window): (on: bool)
      reads window
      ensures on <==> debugModeAttr || window.webExperimentDebugMode
    {
      debugModeAttr || window.webExperimentDebugMode
    }

    /** The experiment id, when the attribute is present and non-empty. */
    predicate HasExperimentId() {
      experimentIdAttr.Some? && experimentIdAttr.value != ""
    }

    /** What the policy reads off the children. */
    function Descriptors(): (ds: seq<Descriptor>)
      ensures |ds| == |children|
      ensures forall i :: 0 <= i < |children| ==>
                ds[i] == Descriptor(children[i].VariantId(), children[i].Weight(), children[i].selected)
    {
      seq(|children|, i requires 0 <= i < |children| =>
        Descriptor(children[i].VariantId(), children[i].Weight(), children[i].selected))
    }

    /** Shows the child at `shown`, if any, and hides every other. */
    method ApplyVisibility(shown: Option<nat>)
      requires DistinctChildren()
      modifies children
      ensures forall j :: 0 <= j < |children| ==> children[j].hidden == (shown != Some(j))
    {
      var j := 0;
      while j < |children|
        invariant 0 <= j <= |children|
        invariant forall m :: 0 <= m < j ==> children[m].hidden == (shown != Some(m))
      {
        if shown == Some(j) {
          children[j].Show();
        } else {
          children[j].Hide();
        }
        j := j + 1;
      }
    }

    /** Reports the impression to each enabled hook present on the page and warns for each one missing. */
    method ReportAnalytics(experimentId: string, variantId: string, window: Window)
      modifies this`log, window`gtag, window`dataLayer
      ensures log == old(log) + AnalyticsWarnings(gtagAttr, gtmAttr, old(window.gtag).Some?, old(window.dataLayer).Some?)
      ensures Reported(experimentId, variantId, old(window.gtag), old(window.dataLayer), window)
    {
      var payload := ExpVariantString(experimentId, variantId);
      var warnings := AnalyticsWarnings(gtagAttr, gtmAttr, window.gtag.Some?, window.dataLayer.Some?);
      if gtagAttr {
        if window.gtag.Some? {
          window.gtag := Some(window.gtag.value + [GtagCall("event", ImpressionEvent, payload)]);
        }
      }
      if gtmAttr {
        if window.dataLayer.Some? {
          window.dataLayer := Some(window.dataLayer.value + [DataLayerEntry(ImpressionEvent, payload)]);
        }
      }
      log := log + warnings;
    }

    /**
     * The analytics hooks after reporting: each enabled hook that was present has received exactly
     * one impression naming the experiment and the variant; the others are as they were.
     */
    ghost predicate Reported(experimentId: string, variantId: string, gtag0: Option<seq<GtagCall>>,
                             dataLayer0: Option<seq<DataLayerEntry>>, window: Window)
      reads window
    {
      window.gtag == (if gtagAttr && gtag0.Some?
                      then Some(gtag0.value + [GtagCall("event", ImpressionEvent, ExpVariantString(experimentId, variantId))])
                      else gtag0)
      && window.dataLayer == (if gtmAttr && dataLayer0.Some?
                              then Some(dataLayer0.value + [DataLayerEntry(ImpressionEvent, ExpVariantString(experimentId, variantId))])
                              else dataLayer0)
    }

    /**
     * The element once the decision `plan` is applied: initialised, exactly the assigned child
     * shown, and, when a child is assigned, its id recorded, one event dispatched for it and the
     * impression reported; `log0`, `gtag0` and `dataLayer0` are the log and hooks before.
     */
    ghost predicate Applied(plan: Plan, log0: seq<LogEntry>, gtag0: Option<seq<GtagCall>>,
                            dataLayer0: Option<seq<DataLayerEntry>>, window: Window)
      requires HasExperimentId()
      reads this, children, window
    {
      initialized
      && (forall j :: 0 <= j < |children| ==> children[j].hidden == !(plan.outcome.Assigned? && plan.outcome.index == j))
      && match plan.outcome
         case Unassigned =>
           assignedVariant.None? && dispatched == [] && log == log0 + plan.log
           && window.gtag == gtag0 && window.dataLayer == dataLayer0
         case Assigned(index, trigger) =>
           index < |children|
           && var variantId := children[index].VariantId();
           assignedVariant == Some(variantId)
           && dispatched == [NewVariantAssignedEvent(experimentIdAttr.value, variantId, trigger)]
           && log == log0 + plan.log + AnalyticsWarnings(gtagAttr, gtmAttr, gtag0.Some?, dataLayer0.Some?)
           && Reported(experimentIdAttr.value, variantId, gtag0, dataLayer0, window)
    }

    /**
     * Applies a decision: visibility, then the assignment, its event and the analytics reports.
     * `log0`, `gtag0` and `dataLayer0` name the log and the hooks as they are on entry.
     */
    method Apply(plan: Plan, window: Window, ghost log0: seq<LogEntry>, ghost gtag0: Option<seq<GtagCall>>,
                 ghost dataLayer0: Option<seq<DataLayerEntry>>)
      requires DistinctChildren() && HasExperimentId()
      requires plan.outcome.Assigned? ==> plan.outcome.index < |children|
      requires log == log0 && window.gtag == gtag0 && window.dataLayer == dataLayer0
      modifies this, children, window`gtag, window`dataLayer
      ensures Applied(plan, log0, gtag0, dataLayer0, window)
      ensures storeCalls == old(storeCalls)
    {
      log := log + plan.log;
      match plan.outcome {
        case Unassigned =>
          ApplyVisibility(None);
          assignedVariant := None;
          dispatched := [];
        case Assigned(index, trigger) =>
          ApplyVisibility(Some(index));
          var variantId := children[index].VariantId();
          assignedVariant := Some(variantId);
          dispatched := [NewVariantAssignedEvent(experimentIdAttr.value, variantId, trigger)];
          ReportAnalytics(experimentIdAttr.value, variantId, window);
      }
      initialized := true;
    }

    /**
     * The decision for this element's children, with its storage calls made on `store` and
     * recorded in `storeCalls`.
     */
    method Decide(store: StorageHandler?, r: real, now: nat) returns (plan: Plan)
      requires store != null ==> store.Valid()
      modifies this`storeCalls, StoreFrame(store)
      ensures store != null ==> store.Valid()
      ensures plan == Resolve(Descriptors(), old(ViewOf(store)), r)
      ensures storeCalls == plan.calls
      ensures store != null ==> Ran(plan, store, old(store.calls), old(store.State()), now)
    {
      ghost var view := ViewOf(store);
      ghost var calls0 := if store != null then store.calls else [];
      plan := RunPolicy(Descriptors(), store, r, now);
      ghost var made := if store != null then store.calls[|calls0|..] else [];
      RecordedCalls(Descriptors(), view, r, made);
      storeCalls := (if plan.calls == [] then [] else [Open]) + made;
    }

    /**
     * The first initialisation of an element with an experiment id and children; `store`, when
     * constructed, is the handler of this element's experiment.
     */
    method Initialize(window: Window, store: StorageHandler?, r: real, now: nat) returns (plan: Plan)
      requires Valid() && !initialized && HasExperimentId() && children != []
      requires store != null ==> store.Valid() && Some(store.experimentId) == experimentIdAttr
      modifies this, window`gtag, window`dataLayer, children, StoreFrame(store)
      ensures Valid()
      ensures store != null ==> store.Valid()
      ensures plan == Resolve(Descriptors(), old(ViewOf(store)), r)
      ensures Applied(plan, old(log), old(window.gtag), old(window.dataLayer), window)
      ensures storeCalls == plan.calls
      ensures store != null ==> Ran(plan, store, old(store.calls), old(store.State()), now)
    {
      ghost var log0, gtag0, dataLayer0 := log, window.gtag, window.dataLayer;
      plan := Decide(store, r, now);
      Apply(plan, window, log0, gtag0, dataLayer0);
    }

    /**
     * `connectedCallback()`. `store` is the handler the controller would construct for its
     * experiment id (null when that construction throws), `r` the value of `Math.random()` and
     * `now` the clock.
     */
    method ConnectedCallback(window: Window, store: StorageHandler?, r: real, now: nat)
      requires Valid()
      requires store != null ==> store.Valid() && Some(store.experimentId) == experimentIdAttr
      modifies this, window, children, StoreFrame(store)
      ensures Valid()
      ensures store != null ==> store.Valid()
      // Reconnection: nothing but a debug message.
      ensures old(initialized) ==>
                initialized && assignedVariant == old(assignedVariant) && dispatched == old(dispatched)
                && storeCalls == old(storeCalls)
                && log == old(log) + (if DebugMode(window) then [Debug(ReconnectSkipped)] else [])
                && unchanged(window) && unchanged(children) && unchanged(StoreFrame(store))
      // No experiment id: an error, and the element stays uninitialised.
      ensures !old(initialized) && !HasExperimentId() ==>
                !initialized && assignedVariant.None? && dispatched == [] && storeCalls == []
                && log == old(log) + [Error(MissingExperimentId)]
                && unchanged(window) && unchanged(children) && unchanged(StoreFrame(store))
      // No children: a warning, and the element is initialised with nothing assigned.
      ensures !old(initialized) && HasExperimentId() && children == [] ==>
                initialized && assignedVariant.None? && dispatched == [] && storeCalls == []
                && log == old(log) + [Warn(NoChildren)]
                && unchanged(window) && unchanged(StoreFrame(store))
      // Otherwise the decision of the policy is applied, with exactly its storage calls.
      ensures !old(initialized) && HasExperimentId() && children != [] ==>
                var plan := Resolve(Descriptors(), old(ViewOf(store)), r);
                Applied(plan, old(log), old(window.gtag), old(window.dataLayer), window)
                && storeCalls == plan.calls
                && (store != null ==> Ran(plan, store, old(store.calls), old(store.State()), now))
                && window.webExperimentDebugMode == old(window.webExperimentDebugMode)
    {
      if initialized {
        if DebugMode(window) {
          log := log + [Debug(ReconnectSkipped)];
        }
        return;
      }
      if !HasExperimentId() {
        log := log + [Error(MissingExperimentId)];
        return;
      }
      if |children| == 0 {
        log := log + [Warn(NoChildren)];
        initialized := true;
        return;
      }
      var plan := Initialize(window, store, r, now);
    }
  }
}
