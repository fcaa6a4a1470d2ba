/** The values that travel between application code, records and the store:
    Python scalars, record handles, and the errors the writers raise. */
module Values {
  import opened Text

  /** A Python scalar as application code hands it to the library. */
  datatype Py = PNone | PStr(s: string) | PInt(n: int)

  /** How the store client encodes a scalar: Python's `str()`. */
  function Str(p: Py): string
  {
    match p
    case PNone => "None"
    case PStr(s) => s
    case PInt(n) => IntToString(n)
  }

  /** Python truthiness of a scalar. */
  predicate Truthy(p: Py)
  {
    match p
    case PNone => false
    case PStr(s) => s != ""
    case PInt(n) => n != 0
  }

  /** A reference to a record of the type named `model`; `oid` is its id, which
      may be unset. Equality of handles is Dafny's structural equality: same
      model and same id, as `Handle.__eq__` compares them. */
  datatype Handle = Handle(model: string, oid: Py)

  /** `Handle(model, oid)`: a truthy id is stored as its string form, a falsy one as given. */
  function NewHandle(model: string, oid: Py): (h: Handle)
    ensures h.model == model
    ensures Truthy(oid) ==> h.oid == PStr(Str(oid))
    ensures !Truthy(oid) ==> h.oid == oid
    ensures Truthy(h.oid) == Truthy(oid)
  {
    Handle(model, if Truthy(oid) then PStr(Str(oid)) else oid)
  }

  /** `Handle.__nonzero__`: a handle is truthy iff its id is. */
  predicate HandleTruthy(h: Handle) { Truthy(h.oid) }

  /** A value a caller passes for an attribute, a container element or a query:
      a scalar, or a record reference (a record is passed as its handle). */
  datatype Value = Scalar(py: Py) | Ref(handle: Handle)

  /** The element type of a container: a record type (elements stored by id) or a
      primitive type whose values are stored as text. */
  datatype ElemType = RecordType(name: string) | StrType | IntType
  {
    /** `hasattr(target_type, 'oid')`. */
    predicate HasId() { RecordType? }
  }

  datatype ContainerKind = ListKind | SetKind | SortedSetKind

  /** The library's exceptions, plus the Python built-ins the modelled code can
      raise. ArgNamesError is the BadArgsError of record construction, whose
      message lists the expected and the given names, sorted. KeyError: a stored
      hash lacks an attribute. ValueError: `int()` of text that is no integer (its
      message is not modelled). IndexError: a container key without an owner segment. */
  datatype Error =
    | UniqueError(msg: string)
    | NotFoundError(msg: string)
    | BadArgsError(msg: string)
    | ArgNamesError(expected: set<string>, given: set<string>)
    | KeyError(key: string)
    | ValueError
    | IndexError

  datatype Outcome = Pass | Fail(error: Error)

  datatype Result<+T> = Ok(value: T) | Err(error: Error)

  /** Ids written to the store are colon-free, so keys built from them can be taken apart. */
  predicate PlainId(p: Py) { ColonFree(Str(p)) }

  /** `Model.by_id(n)` and `Model.by_id(str(n))` are the same handle. */
  lemma ByIntOrText(model: string, n: int)
    requires n != 0
    ensures NewHandle(model, PInt(n)) == NewHandle(model, PStr(IntToString(n)))
  {
    IntToStringColonFree(n);
  }

  /** A truthy handle's id is a non-empty string. */
  lemma TruthyHandleHoldsText(model: string, oid: Py)
    ensures HandleTruthy(NewHandle(model, oid)) <==> NewHandle(model, oid).oid.PStr? && NewHandle(model, oid).oid.s != ""
  {
  }
}
