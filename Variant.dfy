/**
 * The `web-experiment-variant` element: one variant of an experiment, carrying its id, its weight
 * and whether it is shown.
 */
module Variant {
  import opened Wrappers

  /** The weight of a variant whose `weight` attribute is missing, unparsable or negative. */
  const DefaultWeight: real := 0.0

  /**
   * The weight a variant reports, given what `parseFloat` made of its `weight` attribute
   * (`None` standing for NaN, which is also what a missing attribute parses to).
   */
  function EffectiveWeight(parsed: Option<real>): (w: real)
    ensures w >= 0.0
    ensures parsed.Some? && parsed.value >= 0.0 ==> w == parsed.value
    ensures parsed.None? || parsed.value < 0.0 ==> w == DefaultWeight
  {
    match parsed
    case Some(v) => if v >= 0.0 then v else DefaultWeight
    case None => DefaultWeight
  }

  /** The id a variant reports, given its `variant-id` attribute. */
  function EffectiveId(attr: Option<string>): (id: string)
    ensures attr.Some? ==> id == attr.value
    ensures id == "" <==> attr.None? || attr == Some("")
  {
    attr.GetOr("")
  }

  class WebExperimentVariant {
    /** The `variant-id` attribute, if present. */
    const variantIdAttr: Option<string>
    /** `parseFloat` of the `weight` attribute; `None` is NaN. */
    const weightParse: Option<real>
    /** Whether the element carries the boolean `selected` attribute. */
    const selected: bool
    /** The element's `hidden` property. */
    var hidden: bool

    /** A variant starts hidden. */
    constructor(variantIdAttr: Option<string>, weightParse: Option<real>, selected: bool)
      ensures this.variantIdAttr == variantIdAttr && this.weightParse == weightParse
      ensures this.selected == selected
      ensures hidden
    {
      this.variantIdAttr := variantIdAttr;
      this.weightParse := weightParse;
      this.selected := selected;
      hidden := true;
    }

    /** Connecting the element to a document hides it again. */
    method ConnectedCallback()
      modifies this
      ensures hidden
    {
      Hide();
    }

    /** `variantId`: the `variant-id` attribute, or the empty string when it is missing. */
    function VariantId(): (id: string)
      ensures id == EffectiveId(variantIdAttr)
      ensures variantIdAttr.Some? ==> id == variantIdAttr.value
      ensures id == "" <==> variantIdAttr.None? || variantIdAttr == Some("")
    {
      EffectiveId(variantIdAttr)
    }

    /** `weight`: the parsed `weight` attribute when it is a non-negative number, else 0. */
    function Weight(): (w: real)
      ensures w == EffectiveWeight(weightParse)
      ensures w >= 0.0
      ensures weightParse.Some? && weightParse.value >= 0.0 ==> w == weightParse.value
      ensures weightParse.None? || weightParse.value < 0.0 ==> w == DefaultWeight
    {
      EffectiveWeight(weightParse)
    }

    method Show()
      modifies this
      ensures !hidden
    {
      hidden := false;
    }

    method Hide()
      modifies this
      ensures hidden
    {
      hidden := true;
    }
  }

  /** The attribute values exercised for the weight getter: 50, 0, 3.14, invalid, -10 and missing. */
  lemma {:induction false} WeightExamples()
    ensures EffectiveWeight(Some(50.0)) == 50.0
    ensures EffectiveWeight(Some(0.0)) == 0.0
    ensures EffectiveWeight(Some(3.14)) == 3.14
    ensures EffectiveWeight(None) == 0.0
    ensures EffectiveWeight(Some(-10.0)) == 0.0
  {
  }
}
