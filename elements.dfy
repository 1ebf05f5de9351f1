/**
 * The `Elements` enumeration of src/common/util.py and its `has_value`
 * class method: the seven element names, compared case-sensitively.
 */
module Elements {

  datatype Element = Anemo | Geo | Cryo | Pyro | Hydro | Electro | Dendro

  /** The string value each enumeration member carries. */
  function Value(e: Element): string {
    match e
    case Anemo => "Anemo"
    case Geo => "Geo"
    case Cryo => "Cryo"
    case Pyro => "Pyro"
    case Hydro => "Hydro"
    case Electro => "Electro"
    case Dendro => "Dendro"
  }

  /** The enumeration's value-to-member table. */
  const ValueToMember: map<string, Element> := map[
    "Anemo" := Anemo, "Geo" := Geo, "Cryo" := Cryo, "Pyro" := Pyro,
    "Hydro" := Hydro, "Electro" := Electro, "Dendro" := Dendro
  ]

  /** `Elements.has_value(value)`: `value` is a key of the value-to-member table. */
  function HasValue(value: string): (b: bool)
    ensures b <==> exists e: Element :: Value(e) == value
  {
    if value in ValueToMember then
      assert Value(ValueToMember[value]) == value;
      true
    else
      assert forall e: Element :: Value(e) in ValueToMember;
      false
  }

  /** Looking up a member's value gives the member back. */
  lemma ValueToMemberRoundTrip(e: Element)
    ensures Value(e) in ValueToMember && ValueToMember[Value(e)] == e
  {
  }

  /** Distinct members carry distinct values. */
  lemma ValueInjective(e1: Element, e2: Element)
    requires Value(e1) == Value(e2)
    ensures e1 == e2
  {
    ValueToMemberRoundTrip(e1);
    ValueToMemberRoundTrip(e2);
  }

  /** The comparison is case-sensitive and knows no "Traveler" element. */
  lemma HasValueExamples()
    ensures HasValue("Pyro")
    ensures !HasValue("PYRO") && !HasValue("pyro")
    ensures !HasValue("Traveler")
  {
    assert Value(Pyro) == "Pyro";
  }
}
