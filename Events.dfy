/** The `web-experiment:variant-assigned` event a controller dispatches once it has shown a variant. */
module Events {
  import opened Wrappers

  const EventType: string := "web-experiment:variant-assigned"

  /** How the variant came to be assigned. */
  datatype Trigger =
    | PreSelected  // a child carried the `selected` attribute
    | Load         // the variant id was found in storage
    | Select       // weighted random choice

  /** The string form of a trigger carried by the event. */
  function TriggerName(t: Trigger): (s: string)
    ensures s == "pre-selected" || s == "load" || s == "select"
  {
    match t
    case PreSelected => "pre-selected"
    case Load => "load"
    case Select => "select"
  }

  function ParseTrigger(s: string): (t: Option<Trigger>)
    ensures t.Some? <==> s == "pre-selected" || s == "load" || s == "select"
    ensures t.Some? ==> TriggerName(t.value) == s
  {
    if s == "pre-selected" then Some(PreSelected)
    else if s == "load" then Some(Load)
    else if s == "select" then Some(Select)
    else None
  }

  /** Every trigger's string form reads back as that trigger, so distinct triggers have distinct names. */
  lemma {:induction false} TriggerRoundTrip(t: Trigger)
    ensures ParseTrigger(TriggerName(t)) == Some(t)
  {
  }

  datatype VariantAssignedEvent = VariantAssignedEvent(
    eventType: string,
    bubbles: bool,
    composed: bool,
    experimentId: string,
    variantId: string,
    trigger: Trigger)

  /** The event as listeners see it: of the fixed type, bubbling and crossing shadow roots. */
  predicate Dispatchable(e: VariantAssignedEvent) {
    e.eventType == EventType && e.bubbles && e.composed
  }

  function NewVariantAssignedEvent(experimentId: string, variantId: string, trigger: Trigger): (e: VariantAssignedEvent)
    ensures Dispatchable(e)
    ensures e.experimentId == experimentId && e.variantId == variantId && e.trigger == trigger
  {
    VariantAssignedEvent(EventType, true, true, experimentId, variantId, trigger)
  }
}
