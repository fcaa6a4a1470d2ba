/** Field descriptors of a record type: attributes with their index flags and
    typecasts, and list/set container fields. */
module Attributes {
  import opened Text
  import opened Values

  /** Which descriptor class declared the attribute. */
  datatype AttrKind =
    | Plain                      // Attribute
    | Integer                    // IntegerField
    | Reference(target: string)  // ReferenceField(target_type)

  /** An attribute descriptor, already bound to its name. `zindexed` is only read:
      it decides whether the attribute takes part in the index snapshot. */
  datatype Attribute = Attribute(name: string, kind: AttrKind, indexed: bool, unique: bool, zindexed: bool)

  /** `Attribute(indexed, unique)` and its subclasses: asking for a unique
      attribute also makes it indexed. */
  function NewAttribute(name: string, kind: AttrKind, indexed: bool, unique: bool, zindexed: bool): (a: Attribute)
    ensures indexed ==> a.indexed
    ensures a.unique ==> a.indexed
    ensures !indexed && !unique ==> !a.indexed
    ensures a.unique == unique && a.name == name && a.kind == kind && a.zindexed == zindexed
  {
    Attribute(name, kind, indexed || unique, unique, zindexed)
  }

  /** The in-memory values an attribute can hold: a handle of the target type for
      a reference, a scalar otherwise. */
  predicate Fits(a: Attribute, v: Value)
  {
    match a.kind
    case Reference(t) => v.Ref? && v.handle.model == t
    case _ => v.Scalar?
  }

  /** `typecast_for_write`: the scalar sent to the store. */
  function WriteCast(a: Attribute, v: Value): Py
    requires Fits(a, v)
  {
    match a.kind
    case Reference(_) => v.handle.oid
    case _ => v.py
  }

  /** `typecast_for_read`: the value built from the stored text. `int()` of text
      that is no integer raises ValueError. */
  function ReadCast(a: Attribute, raw: string): (r: Result<Value>)
    ensures r.Ok? ==> Fits(a, r.value)
  {
    match a.kind
    case Plain => Ok(Scalar(PStr(raw)))
    case Integer =>
      (match ParseInt(raw)
       case Some(n) => Ok(Scalar(PInt(n)))
       case None => Err(ValueError))
    case Reference(t) => Ok(Ref(NewHandle(t, PStr(raw))))
  }

  /** The values that survive a write and a read unchanged: text for a plain
      attribute, an integer for an IntegerField, a handle with a text id for a reference. */
  predicate WellTyped(a: Attribute, v: Value)
  {
    match a.kind
    case Plain => v.Scalar? && v.py.PStr?
    case Integer => v.Scalar? && v.py.PInt?
    case Reference(t) => v.Ref? && v.handle.model == t && v.handle.oid.PStr?
  }

  /** Writing a value and reading the stored text back gives the value back. */
  lemma ReadAfterWrite(a: Attribute, v: Value)
    requires WellTyped(a, v)
    ensures Fits(a, v) && ReadCast(a, Str(WriteCast(a, v))) == Ok(v)
  {
    if a.kind.Integer? {
      ParseIntToString(v.py.n);
    }
  }

  /** A reference read from stored id text writes back as that same text. */
  lemma ReferenceWriteAfterRead(a: Attribute, raw: string)
    requires a.kind.Reference?
    ensures ReadCast(a, raw).Ok? && WriteCast(a, ReadCast(a, raw).value) == PStr(raw)
  {
  }

  /** An IntegerField reads stored decimal text as the integer it denotes. */
  lemma IntegerRead(a: Attribute, n: int)
    requires a.kind.Integer?
    ensures ReadCast(a, IntToString(n)) == Ok(Scalar(PInt(n)))
  {
    ParseIntToString(n);
  }

  /** A list or set field descriptor, bound to its name and its record type. */
  datatype ContainerField = ContainerField(
    name: string, model: string, kind: ContainerKind, target: ElemType,
    indexed: bool, unique: bool, owned: bool)

  /** `ListField(...)` / `SetField(...)`: flags are kept as given, except that a
      unique field is also indexed. */
  function NewContainerField(name: string, model: string, kind: ContainerKind, target: ElemType,
                             indexed: bool, unique: bool, owned: bool): (c: ContainerField)
    requires kind == ListKind || kind == SetKind
    ensures indexed ==> c.indexed
    ensures c.unique ==> c.indexed
    ensures !indexed && !unique ==> !c.indexed
    ensures c.unique == unique && c.owned == owned && c.target == target && c.kind == kind
    ensures c.name == name && c.model == model
  {
    ContainerField(name, model, kind, target, indexed || unique, unique, owned)
  }
}
