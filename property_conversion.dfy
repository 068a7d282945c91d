/**
 * Conversion of a property definition into the identifier records of its
 * accessor methods: one record per accessor that exists, getter first.
 */
module PropertyConversion {
  import opened Common

  /** A type definition: its metadata token and the path of the module that holds it. */
  datatype TypeDefinition = TypeDefinition(token: int, modulePath: string)

  /** A method definition: its metadata token and the type that declares it. */
  datatype MethodDefinition = MethodDefinition(token: int, declaringType: TypeDefinition)

  /** A property definition: optional getter and setter, and its declaring type. */
  datatype PropertyDefinition = PropertyDefinition(
    getMethod: Option<MethodDefinition>,
    setMethod: Option<MethodDefinition>,
    declaringType: TypeDefinition)

  /** How many accessors the property has: 0, 1 or 2. */
  function AccessorCount(p: PropertyDefinition): nat
  {
    (if p.getMethod.Some? then 1 else 0) + (if p.setMethod.Some? then 1 else 0)
  }

  /**
   * The record for one accessor of `p`: the location comes from the accessor's
   * own declaring type, the type token from the property's declaring type.
   */
  function AccessorRecord(p: PropertyDefinition, accessor: MethodDefinition): ReflectionMethodId
  {
    ReflectionMethodId(accessor.declaringType.modulePath, p.declaringType.token, accessor.token)
  }

  /**
   * The records `ids` are those of `p`'s accessors: exactly one per existing
   * accessor, the getter's first and the setter's last.
   */
  predicate IsAccessorRecordList(p: PropertyDefinition, ids: seq<ReflectionMethodId>)
  {
    |ids| == AccessorCount(p) &&
    (p.getMethod.Some? ==> ids[0] == AccessorRecord(p, p.getMethod.value)) &&
    (p.setMethod.Some? ==> ids[|ids| - 1] == AccessorRecord(p, p.setMethod.value))
  }

  /** The records the conversion of `p` yields. */
  function PropertyMethodIds(p: PropertyDefinition): (ids: seq<ReflectionMethodId>)
    ensures IsAccessorRecordList(p, ids)
    ensures |ids| <= 2
    ensures forall k :: 0 <= k < |ids| ==> ids[k].typeToken == p.declaringType.token
    ensures forall k :: 0 <= k < |ids| ==>
      (p.getMethod.Some? && ids[k] == AccessorRecord(p, p.getMethod.value)) ||
      (p.setMethod.Some? && ids[k] == AccessorRecord(p, p.setMethod.value))
  {
    (if p.getMethod.Some? then [AccessorRecord(p, p.getMethod.value)] else []) +
    (if p.setMethod.Some? then [AccessorRecord(p, p.setMethod.value)] else [])
  }

  /** The accessor-record description admits exactly one list: the conversion's. */
  lemma AccessorRecordListUnique(p: PropertyDefinition, ids: seq<ReflectionMethodId>)
    requires IsAccessorRecordList(p, ids)
    ensures ids == PropertyMethodIds(p)
  {
  }

  /** One conversion object per property, as the factory creates them. */
  class PropertyDefinitionConversion {
    var propDef: PropertyDefinition

    constructor(propDef: PropertyDefinition)
      ensures this.propDef == propDef
    {
      this.propDef := propDef;
    }

    /**
     * Builds a new list with a record for the getter, if any, then one for the
     * setter, if any. The stored property is left as it was.
     */
    method Perform() returns (methodIds: seq<ReflectionMethodId>)
      ensures methodIds == PropertyMethodIds(propDef)
      ensures |methodIds| == AccessorCount(propDef)
    {
      methodIds := [];

      if propDef.getMethod.Some? {
        var assemblyLocation := propDef.getMethod.value.declaringType.modulePath;
        var typeDefToken := propDef.declaringType.token;
        var methodDefToken := propDef.getMethod.value.token;
        methodIds := methodIds + [ReflectionMethodId(assemblyLocation, typeDefToken, methodDefToken)];
      }

      if propDef.setMethod.Some? {
        var assemblyLocation := propDef.setMethod.value.declaringType.modulePath;
        var typeDefToken := propDef.declaringType.token;
        var methodDefToken := propDef.setMethod.value.token;
        methodIds := methodIds + [ReflectionMethodId(assemblyLocation, typeDefToken, methodDefToken)];
      }
    }
  }
}
