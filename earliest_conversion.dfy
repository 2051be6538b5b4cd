/** The earliest converter: every key of the top-level object becomes one
    property description wrapping its value as it is. Strings are not
    scanned for placeholders and nested values are not converted. */
module EarliestConversion {
  import opened Wrappers
  import opened OrderedMaps
  import opened JsonValues
  import LegacyStructure
  import LegacyConversion

  datatype NoneStringValueDescription = NoneStringValueDescription(value: Json)

  datatype PropertyDescription = PropertyDescription(key: string, valueDescription: NoneStringValueDescription)

  datatype ObjectDescription = ObjectDescription(propertyDescriptions: seq<PropertyDescription>)

  /** `convertNoneStringJsonPropertyValue`: `{ value }`. */
  function ConvertNoneStringJsonPropertyValue(value: Json): NoneStringValueDescription {
    NoneStringValueDescription(value)
  }

  /** The members a description set was made from, in order. */
  function Members(o: ObjectDescription): seq<Entry<Json>> {
    seq(|o.propertyDescriptions|, i requires 0 <= i < |o.propertyDescriptions| =>
      Entry(o.propertyDescriptions[i].key, o.propertyDescriptions[i].valueDescription.value))
  }

  /** `convertObject`: `keys.map(...)`, one description per key in key
      order, holding the key and its value unchanged; the members can be
      read back from the result. */
  function ConvertObject(members: seq<Entry<Json>>): (o: ObjectDescription)
    ensures |o.propertyDescriptions| == |members|
    ensures forall i :: 0 <= i < |members| ==>
      && o.propertyDescriptions[i].key == members[i].key
      && o.propertyDescriptions[i].valueDescription.value == members[i].value
    ensures Members(o) == members
  {
    ObjectDescription(seq(|members|, i requires 0 <= i < |members| =>
      PropertyDescription(members[i].key, ConvertNoneStringJsonPropertyValue(members[i].value))))
  }

  /** Every description set is the conversion of its own members, so the
      conversion loses nothing and invents nothing. */
  lemma ConvertMembers(o: ObjectDescription)
    ensures ConvertObject(Members(o)) == o
  {
    var r := ConvertObject(Members(o));
    assert r.propertyDescriptions == o.propertyDescriptions;
  }

  /** Against the later flat converter, which starts from the same keys:
      where it succeeds, it has the same keys in the same order; a member
      it tags as non-string is exactly a non-string member, wrapped as
      here; and a string, which is wrapped here as it is, is there a
      plain string or a placeholder function. */
  lemma LegacyAgreement(members: seq<Entry<Json>>)
    ensures (forall i :: 0 <= i < |members| ==> !members[i].value.JString?) ==>
      LegacyConversion.ConvertObject(members).Ok?
    ensures LegacyConversion.ConvertObject(members).Ok? ==>
      var early := ConvertObject(members).propertyDescriptions;
      var later := LegacyConversion.ConvertObject(members).value.propertyDescriptions;
      && |later| == |early|
      && forall i :: 0 <= i < |early| ==>
           && later[i].key == early[i].key
           && (later[i].propertyType == LegacyStructure.NoneString <==> !early[i].valueDescription.value.JString?)
           && (later[i].propertyType == LegacyStructure.NoneString ==>
                 later[i].valueDescription == LegacyStructure.NoneStringValue(early[i].valueDescription.value))
  {
    MapAllSpec(LegacyConversion.ConvertMember, members);
    if LegacyConversion.ConvertObject(members).Ok? {
      var later := LegacyConversion.ConvertObject(members).value.propertyDescriptions;
      forall i | 0 <= i < |members|
        ensures && later[i].key == members[i].key
                && (later[i].propertyType == LegacyStructure.NoneString <==> !members[i].value.JString?)
                && (later[i].propertyType == LegacyStructure.NoneString ==>
                      later[i].valueDescription == LegacyStructure.NoneStringValue(members[i].value))
      {
        assert LegacyConversion.ConvertMember(members[i]) == Ok(later[i]);
      }
    }
  }
}
