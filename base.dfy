/** Record types, record objects and handles: key derivation, loading a record
    from the store, construction from keyword values, reference coercion, and the
    key and bound construction of by-value queries. */
module Base {
  import opened Text
  import opened Values
  import opened Keys
  import opened Store
  import opened Attributes
  import opened Containers

  /** What the metaclass collects for a record type: its name, the type it extends
      (if any), and its attributes, list fields and set fields in declaration order. */
  datatype TypeDesc = TypeDesc(
    name: string, owner: Option<string>,
    attributes: seq<Attribute>, lists: seq<ContainerField>, sets: seq<ContainerField>)
  {
    /** Names are colon-free identifiers, and each names one descriptor of the
        class body; a unique attribute is indexed, as its constructor makes it; list
        and set fields belong to this type. */
    predicate Valid()
    {
      && ColonFree(name)
      && (forall i :: 0 <= i < |attributes| ==> ColonFree(attributes[i].name))
      && DistinctNames(attributes)
      && (forall i :: 0 <= i < |attributes| ==> attributes[i].unique ==> attributes[i].indexed)
      && (forall i, j :: 0 <= i < |attributes| && 0 <= j < |lists| ==> attributes[i].name != lists[j].name)
      && (forall i, j :: 0 <= i < |attributes| && 0 <= j < |sets| ==> attributes[i].name != sets[j].name)
      && (forall i :: 0 <= i < |lists| ==> lists[i].kind == ListKind && lists[i].model == name && ColonFree(lists[i].name))
      && (forall i :: 0 <= i < |sets| ==> sets[i].kind == SetKind && sets[i].model == name && ColonFree(sets[i].name))
      && (forall i, j :: 0 <= i < j < |lists| ==> lists[i].name != lists[j].name)
      && (forall i, j :: 0 <= i < j < |sets| ==> sets[i].name != sets[j].name)
      && (forall i, j :: 0 <= i < |lists| && 0 <= j < |sets| ==> lists[i].name != sets[j].name)
    }

    function AttrNames(): set<string> { Names(attributes) }

    /** The attributes that take part in the index snapshot. */
    function TrackedNames(): set<string> { Tracked(attributes) }

    /** `_attr_dict[n]`. */
    function AttrOf(n: string): Option<Attribute> { Lookup(attributes, n) }

    /** The descriptor a query names: an attribute, or a list or set field. */
    predicate HasField(n: string)
    {
      n in AttrNames() || (exists i :: 0 <= i < |lists| && lists[i].name == n) || (exists i :: 0 <= i < |sets| && sets[i].name == n)
    }
  }

  /** Attribute names are declared once. */
  predicate DistinctNames(attrs: seq<Attribute>)
  {
    forall p, q :: 0 <= p < q < |attrs| ==> attrs[p].name != attrs[q].name
  }

  function Names(attrs: seq<Attribute>): set<string> { set i | 0 <= i < |attrs| :: attrs[i].name }

  function Tracked(attrs: seq<Attribute>): set<string>
  {
    set i | 0 <= i < |attrs| && (attrs[i].indexed || attrs[i].zindexed) :: attrs[i].name
  }

  /** The first attribute with the name, as a dictionary keyed by name holds it
      when names are distinct. */
  function Lookup(attrs: seq<Attribute>, n: string): (r: Option<Attribute>)
    ensures r.Some? <==> n in Names(attrs)
    ensures r.Some? ==> r.value.name == n && r.value in attrs
    decreases |attrs|
  {
    if attrs == [] then None
    else if attrs[0].name == n then Some(attrs[0])
    else
      assert Names(attrs) == {attrs[0].name} + Names(attrs[1..]) by {
        forall x | x in Names(attrs) ensures x in {attrs[0].name} + Names(attrs[1..]) {
          var i :| 0 <= i < |attrs| && attrs[i].name == x;
          if i > 0 { assert attrs[1..][i - 1].name == x; }
        }
      }
      Lookup(attrs[1..], n)
  }

  /** With distinct names, looking an attribute's name up finds that attribute. */
  lemma {:induction false} LookupAt(attrs: seq<Attribute>, i: int)
    requires 0 <= i < |attrs| && DistinctNames(attrs)
    ensures Lookup(attrs, attrs[i].name) == Some(attrs[i])
    decreases |attrs|
  {
    if i > 0 {
      assert attrs[0].name != attrs[i].name;
      LookupAt(attrs[1..], i - 1);
    }
  }

  /** `Handle.key`. */
  function HandleKey(h: Handle): string { KeyById(h.model, h.oid) }

  /** `Model.by_id`; the handle's key is the type's `key_by_id` of the id. */
  function ById(T: TypeDesc, oid: Py): (h: Handle)
    ensures h.model == T.name && HandleKey(h) == KeyById(T.name, oid)
    ensures HandleTruthy(h) <==> Truthy(oid)
  {
    NewHandle(T.name, oid)
  }

  /** `Model.by_owner`: an extension record has its owner's id. */
  function ByOwner(T: TypeDesc, owner: Handle): (h: Handle)
    requires T.owner == Some(owner.model)
    ensures h.model == T.name && HandleKey(h) == KeyById(T.name, owner.oid)
  {
    NewHandle(T.name, owner.oid)
  }

  /** What `typecast_for_write` of each attribute gives for the values a record
      holds, keyed by attribute name. */
  predicate FitsAll(T: TypeDesc, values: map<string, Value>)
  {
    forall n :: n in values ==> T.AttrOf(n).Some? && Fits(T.AttrOf(n).value, values[n])
  }

  /** `make_dict`: every attribute the record holds, write-typecast. */
  function Dict(T: TypeDesc, values: map<string, Value>): (d: map<string, Py>)
    requires FitsAll(T, values)
    ensures d.Keys == values.Keys
  {
    map n | n in values :: WriteCast(T.AttrOf(n).value, values[n])
  }

  /** The texts the store keeps for a dictionary written with `hmset`. */
  function StrMap(d: map<string, Py>): (m: map<string, string>)
    ensures m.Keys == d.Keys
  {
    map n | n in d :: Str(d[n])
  }

  /** What `update_attributes` accepts for an attribute: for a reference, a handle
      must target the field's type (a record is passed as its handle); a raw id is
      also accepted. Other attributes take scalars. */
  predicate Accepts(a: Attribute, v: Value)
  {
    match a.kind
    case Reference(t) => v.Ref? ==> v.handle.model == t
    case _ => v.Scalar?
  }

  /** Reference coercion: a raw id becomes `target.by_id(id)`. */
  function CoerceArg(a: Attribute, v: Value): (r: Value)
    requires Accepts(a, v)
    ensures Fits(a, r)
    ensures a.kind.Reference? && v.Scalar? ==> r == Ref(NewHandle(a.kind.target, v.py))
    ensures !(a.kind.Reference? && v.Scalar?) ==> r == v
  {
    match a.kind
    case Reference(t) => if v.Ref? then v else Ref(NewHandle(t, v.py))
    case _ => v
  }

  /** `None` given for a reference goes through `by_id` and becomes a falsy handle,
      whose write typecast is `None` again: `update_attributes` never leaves a bare
      `None` for `typecast_for_write` to read `.oid` from. */
  lemma CoerceNoneReference(a: Attribute)
    requires a.kind.Reference?
    ensures CoerceArg(a, Scalar(PNone)) == Ref(Handle(a.kind.target, PNone))
    ensures WriteCast(a, CoerceArg(a, Scalar(PNone))) == PNone
  {
  }

  /** Keyword values each of which, when it names an attribute, is one the attribute
      accepts (a handle of another type fails an assert of `update_attributes`). */
  predicate Accepted(T: TypeDesc, kwargs: map<string, Value>)
  {
    forall n :: n in kwargs && T.AttrOf(n).Some? ==> Accepts(T.AttrOf(n).value, kwargs[n])
  }

  /** Keyword values every one of which names an attribute that accepts it. */
  predicate Assignable(T: TypeDesc, kwargs: map<string, Value>)
  {
    forall n :: n in kwargs ==> T.AttrOf(n).Some? && Accepts(T.AttrOf(n).value, kwargs[n])
  }

  /** The values `update_attributes` stores for keyword arguments. */
  function Coerced(T: TypeDesc, kwargs: map<string, Value>): (r: map<string, Value>)
    requires Assignable(T, kwargs)
    ensures r.Keys == kwargs.Keys && FitsAll(T, r)
  {
    map n | n in kwargs :: CoerceArg(T.AttrOf(n).value, kwargs[n])
  }

  /** Assigning coerced keyword values keeps every held value fitting its attribute. */
  lemma CoercedFits(T: TypeDesc, values: map<string, Value>, kwargs: map<string, Value>)
    requires FitsAll(T, values) && Assignable(T, kwargs)
    ensures FitsAll(T, values + Coerced(T, kwargs))
  {
  }

  /** The handles of a type's list or set fields under a record key, later fields
      overriding earlier ones as dictionary assignments do. */
  function Handles(fs: seq<ContainerField>, key: string): map<string, Option<ContainerHandle>>
    decreases |fs|
  {
    if fs == [] then map[]
    else
      var f := fs[|fs| - 1];
      Handles(fs[..|fs| - 1], key)[f.name := Some(ContainerHandle(f.kind, FieldKey(key, f.name), f.target))]
  }

  /** Each field's handle is keyed `recordKey:field` and has the field's kind and element type. */
  lemma {:induction false} HandlesAt(fs: seq<ContainerField>, key: string, i: int)
    requires 0 <= i < |fs|
    requires forall p, q :: 0 <= p < q < |fs| ==> fs[p].name != fs[q].name
    ensures fs[i].name in Handles(fs, key)
    ensures Handles(fs, key)[fs[i].name] == Some(ContainerHandle(fs[i].kind, FieldKey(key, fs[i].name), fs[i].target))
    decreases |fs|
  {
    if i < |fs| - 1 {
      HandlesAt(fs[..|fs| - 1], key, i);
    }
  }

  /** `load` and `create`: list handles, then set handles. */
  function FieldHandles(T: TypeDesc, key: string): map<string, Option<ContainerHandle>>
  {
    Handles(T.lists, key) + Handles(T.sets, key)
  }

  /** `__new__`: list and set fields start as None. */
  function NoContainers(T: TypeDesc): map<string, Option<ContainerHandle>>
  {
    Nones(T.lists) + Nones(T.sets)
  }

  function Nones(fs: seq<ContainerField>): (m: map<string, Option<ContainerHandle>>)
    ensures forall n :: n in m ==> m[n] == None
    decreases |fs|
  {
    if fs == [] then map[] else Nones(fs[..|fs| - 1])[fs[|fs| - 1].name := None]
  }

  /** `__new__`: every tracked attribute starts with snapshot None. */
  function Untracked(T: TypeDesc): (m: map<string, Py>)
    ensures m.Keys == T.TrackedNames()
    ensures forall n :: n in m ==> m[n] == PNone
  {
    map n | n in T.TrackedNames() :: PNone
  }

  /** The fields a record object carries. */
  datatype RecordState = RecordState(
    oid: Py,
    values: map<string, Value>,
    snapshot: map<string, Py>,
    containers: map<string, Option<ContainerHandle>>)

  /** `Model(**kwargs)`: no arguments give a bare object; otherwise the names must be
      exactly the attribute names, and the record starts unsaved with every tracked
      attribute's snapshot None and every list and set field None. */
  function NewState(T: TypeDesc, kwargs: map<string, Value>): Result<RecordState>
    requires kwargs.Keys == T.AttrNames() ==> Assignable(T, kwargs)
  {
    if kwargs == map[] then Ok(RecordState(PNone, map[], map[], map[]))
    else if kwargs.Keys != T.AttrNames() then Err(ArgNamesError(T.AttrNames(), kwargs.Keys))
    else Ok(RecordState(PNone, Coerced(T, kwargs), Untracked(T), NoContainers(T)))
  }

  /** Construction arguments are validated: a missing or extra name is a
      BadArgsError; accepted arguments give an unsaved record. */
  lemma NewValidates(T: TypeDesc, kwargs: map<string, Value>)
    requires kwargs.Keys == T.AttrNames() ==> Assignable(T, kwargs)
    ensures NewState(T, kwargs).Ok? <==> kwargs == map[] || kwargs.Keys == T.AttrNames()
    ensures NewState(T, kwargs).Err? ==> NewState(T, kwargs).error == ArgNamesError(T.AttrNames(), kwargs.Keys)
    ensures NewState(T, kwargs).Ok? ==> NewState(T, kwargs).value.oid == PNone
    ensures NewState(T, kwargs).Ok? && kwargs != map[] ==>
      && NewState(T, kwargs).value.values.Keys == T.AttrNames()
      && (forall n :: n in T.TrackedNames() ==> NewState(T, kwargs).value.snapshot[n] == PNone)
      && (forall i :: 0 <= i < |T.lists| ==>
            T.lists[i].name in NewState(T, kwargs).value.containers && NewState(T, kwargs).value.containers[T.lists[i].name] == None)
      && (forall i :: 0 <= i < |T.sets| ==>
            T.sets[i].name in NewState(T, kwargs).value.containers && NewState(T, kwargs).value.containers[T.sets[i].name] == None)
  {
    if NewState(T, kwargs).Ok? && kwargs != map[] {
      forall i | 0 <= i < |T.lists| ensures T.lists[i].name in NoContainers(T) {
        NonesHas(T.lists, i);
      }
      forall i | 0 <= i < |T.sets| ensures T.sets[i].name in NoContainers(T) {
        NonesHas(T.sets, i);
      }
    }
  }

  lemma {:induction false} NonesHas(fs: seq<ContainerField>, i: int)
    requires 0 <= i < |fs|
    ensures fs[i].name in Nones(fs)
    decreases |fs|
  {
    if i < |fs| - 1 {
      NonesHas(fs[..|fs| - 1], i);
    }
  }

  /** The attribute loop of `Handle.load` over the stored hash `d`: each attribute's
      value is read-typecast, tracked attributes keep the raw text as snapshot; a
      missing attribute is a KeyError, a bad integer a ValueError. */
  function ReadAttrs(d: map<string, string>, attrs: seq<Attribute>): Result<(map<string, Value>, map<string, Py>)>
    decreases |attrs|
  {
    if attrs == [] then Ok((map[], map[]))
    else
      match ReadAttrs(d, attrs[..|attrs| - 1])
      case Err(e) => Err(e)
      case Ok(acc) =>
        var a := attrs[|attrs| - 1];
        if a.name !in d then Err(KeyError(a.name))
        else
          match ReadCast(a, d[a.name])
          case Err(e) => Err(e)
          case Ok(v) =>
            Ok((acc.0[a.name := v], if a.indexed || a.zindexed then acc.1[a.name := PStr(d[a.name])] else acc.1))
  }

  /** A failure on a prefix of the attributes is the failure of the whole loop. */
  lemma {:induction false} ReadAttrsStops(d: map<string, string>, attrs: seq<Attribute>, i: int)
    requires 0 <= i <= |attrs| && ReadAttrs(d, attrs[..i]).Err?
    ensures ReadAttrs(d, attrs) == ReadAttrs(d, attrs[..i])
    decreases |attrs| - i
  {
    if i < |attrs| {
      assert attrs[..i + 1][..i] == attrs[..i];
      ReadAttrsStops(d, attrs, i + 1);
    } else {
      assert attrs[..i] == attrs;
    }
  }

  /** The attribute loop succeeds exactly when every attribute is stored and its
      text reads back; it then yields a value for every attribute and a snapshot
      for every tracked one. */
  lemma {:induction false} ReadAttrsOk(d: map<string, string>, attrs: seq<Attribute>)
    ensures ReadAttrs(d, attrs).Ok? <==> forall i :: 0 <= i < |attrs| ==> attrs[i].name in d && ReadCast(attrs[i], d[attrs[i].name]).Ok?
    ensures ReadAttrs(d, attrs).Ok? ==>
      && ReadAttrs(d, attrs).value.0.Keys == Names(attrs)
      && ReadAttrs(d, attrs).value.1.Keys == Tracked(attrs)
    decreases |attrs|
  {
    if attrs != [] {
      var init := attrs[..|attrs| - 1];
      var a := attrs[|attrs| - 1];
      ReadAttrsOk(d, init);
      assert attrs == init + [a];
      assert forall i :: 0 <= i < |init| ==> init[i] == attrs[i];
      var r := ReadAttrs(d, attrs);
      if ReadAttrs(d, init).Err? {
        assert r == ReadAttrs(d, init);
        var j :| 0 <= j < |init| && !(init[j].name in d && ReadCast(init[j], d[init[j].name]).Ok?);
        assert attrs[j] == init[j];
      } else if a.name !in d {
        assert r.Err?;
      } else {
        var c := ReadCast(a, d[a.name]);
        var acc := ReadAttrs(d, init).value;
        if c.Err? {
          assert r.Err?;
        } else {
          assert r == Ok((acc.0[a.name := c.value], if a.indexed || a.zindexed then acc.1[a.name := PStr(d[a.name])] else acc.1));
          NamesSnoc(init, a);
          TrackedSnoc(init, a);
        }
      }
    }
  }

  /** With distinct attribute names, each value the loop yields is the read-typecast
      stored text, and each tracked attribute's snapshot is the text itself. */
  lemma {:induction false} ReadAttrsAt(d: map<string, string>, attrs: seq<Attribute>, i: int)
    requires 0 <= i < |attrs| && ReadAttrs(d, attrs).Ok? && DistinctNames(attrs)
    ensures attrs[i].name in d && ReadCast(attrs[i], d[attrs[i].name]).Ok?
    ensures attrs[i].name in ReadAttrs(d, attrs).value.0
    ensures ReadAttrs(d, attrs).value.0[attrs[i].name] == ReadCast(attrs[i], d[attrs[i].name]).value
    ensures attrs[i].indexed || attrs[i].zindexed ==>
      attrs[i].name in ReadAttrs(d, attrs).value.1 && ReadAttrs(d, attrs).value.1[attrs[i].name] == PStr(d[attrs[i].name])
    decreases |attrs|
  {
    var init := attrs[..|attrs| - 1];
    if i < |attrs| - 1 {
      assert init[i] == attrs[i];
      assert attrs[|attrs| - 1].name != attrs[i].name;
      ReadAttrsAt(d, init, i);
    }
  }

  /** `Handle.load` on a store state: the record the handle names, built from its
      hash; a missing attribute of a record whose hash is empty and whose key does
      not exist is a NotFoundError. */
  function LoadState(db: DB, T: TypeDesc, h: Handle): Result<RecordState>
  {
    var key := HandleKey(h);
    var d := db.Hash(key);
    match ReadAttrs(d, T.attributes)
    case Err(e) => if e.KeyError? && |d| == 0 && !db.Exists(key) then Err(NotFoundError(key)) else Err(e)
    case Ok(acc) => Ok(RecordState(h.oid, acc.0, acc.1, FieldHandles(T, key)))
  }

  /** With no hash stored, the loop fails on the first attribute. */
  lemma {:induction false} ReadAttrsEmpty(attrs: seq<Attribute>)
    requires |attrs| > 0
    ensures ReadAttrs(map[], attrs) == Err(KeyError(attrs[0].name))
    decreases |attrs|
  {
    if |attrs| > 1 {
      ReadAttrsEmpty(attrs[..|attrs| - 1]);
      assert attrs[..|attrs| - 1][0] == attrs[0];
    }
  }

  /** Loading a record that is not stored raises NotFoundError with its key. */
  lemma LoadMissing(db: DB, T: TypeDesc, h: Handle)
    requires |T.attributes| > 0 && !db.Exists(HandleKey(h))
    ensures LoadState(db, T, h) == Err(NotFoundError(HandleKey(h)))
  {
    assert db.Hash(HandleKey(h)) == map[];
    ReadAttrsEmpty(T.attributes);
  }

  /** Values that survive a write and a read. */
  predicate AllWellTyped(T: TypeDesc, values: map<string, Value>)
  {
    forall n :: n in values ==> T.AttrOf(n).Some? && WellTyped(T.AttrOf(n).value, values[n])
  }

  /** The snapshot a load takes of written values: the stored text of each
      tracked attribute. */
  function WrittenSnapshot(T: TypeDesc, values: map<string, Value>): (m: map<string, Py>)
    requires FitsAll(T, values)
    ensures m.Keys == values.Keys * T.TrackedNames()
  {
    map n | n in values && n in T.TrackedNames() :: PStr(Str(WriteCast(T.AttrOf(n).value, values[n])))
  }

  /** Loading a record whose hash had what `make_dict` gives for a full set of
      well-typed values merged into it (whatever it held before) gives back those
      values, the written texts as snapshot, and handles for the list and set fields. */
  lemma LoadAfterWrite(db: DB, T: TypeDesc, h: Handle, values: map<string, Value>, before: map<string, string>)
    requires T.Valid()
    requires values.Keys == T.AttrNames() && AllWellTyped(T, values)
    requires db.Hash(HandleKey(h)) == before + StrMap(Dict(T, values))
    ensures LoadState(db, T, h) == Ok(RecordState(h.oid, values, WrittenSnapshot(T, values), FieldHandles(T, HandleKey(h))))
  {
    var d := db.Hash(HandleKey(h));
    assert Written(T, values, d);
    ReadWritten(T, values, d);
  }

  /** The stored hash holds, for every value, the text `make_dict` gives it. */
  ghost predicate Written(T: TypeDesc, values: map<string, Value>, d: map<string, string>)
  {
    forall n :: n in values ==>
      && T.AttrOf(n).Some? && WellTyped(T.AttrOf(n).value, values[n]) && Fits(T.AttrOf(n).value, values[n])
      && n in d && d[n] == Str(WriteCast(T.AttrOf(n).value, values[n]))
  }

  /** The attribute loop over a hash holding what `make_dict` wrote. */
  lemma ReadWritten(T: TypeDesc, values: map<string, Value>, d: map<string, string>)
    requires DistinctNames(T.attributes) && values.Keys == T.AttrNames() && Written(T, values, d)
    ensures ReadAttrs(d, T.attributes) == Ok((values, WrittenSnapshot(T, values)))
  {
    ReadWrittenOk(T, values, d);
    ReadWrittenValues(T, values, d);
    ReadWrittenSnapshot(T, values, d);
  }

  lemma ReadWrittenOk(T: TypeDesc, values: map<string, Value>, d: map<string, string>)
    requires DistinctNames(T.attributes) && values.Keys == T.AttrNames() && Written(T, values, d)
    ensures ReadAttrs(d, T.attributes).Ok?
    ensures ReadAttrs(d, T.attributes).value.0.Keys == values.Keys
    ensures ReadAttrs(d, T.attributes).value.1.Keys == T.TrackedNames()
  {
    var A := T.attributes;
    forall i | 0 <= i < |A| ensures A[i].name in d && ReadCast(A[i], d[A[i].name]).Ok? {
      LoadAttrAt(T, values, d, i);
    }
    ReadAttrsOk(d, A);
  }

  lemma ReadWrittenValues(T: TypeDesc, values: map<string, Value>, d: map<string, string>)
    requires DistinctNames(T.attributes) && values.Keys == T.AttrNames() && Written(T, values, d)
    requires ReadAttrs(d, T.attributes).Ok? && ReadAttrs(d, T.attributes).value.0.Keys == values.Keys
    ensures ReadAttrs(d, T.attributes).value.0 == values
  {
    var m := ReadAttrs(d, T.attributes).value.0;
    forall n | n in values ensures m[n] == values[n] {
      ReadWrittenAt(T, values, d, n);
    }
    MapsEqual(m, values);
  }

  lemma ReadWrittenSnapshot(T: TypeDesc, values: map<string, Value>, d: map<string, string>)
    requires DistinctNames(T.attributes) && values.Keys == T.AttrNames() && Written(T, values, d)
    requires ReadAttrs(d, T.attributes).Ok? && ReadAttrs(d, T.attributes).value.1.Keys == T.TrackedNames()
    ensures ReadAttrs(d, T.attributes).value.1 == WrittenSnapshot(T, values)
  {
    var m := ReadAttrs(d, T.attributes).value.1;
    var w := WrittenSnapshot(T, values);
    WrittenSnapshotKeys(T, values);
    forall n | n in w ensures m[n] == w[n] {
      ReadWrittenAt(T, values, d, n);
    }
    MapsEqual(w, m);
  }

  /** A full set of values has a snapshot entry for every tracked attribute. */
  lemma WrittenSnapshotKeys(T: TypeDesc, values: map<string, Value>)
    requires values.Keys == T.AttrNames() && FitsAll(T, values)
    ensures WrittenSnapshot(T, values).Keys == T.TrackedNames()
  {
    TrackedInNames(T.attributes);
  }

  /** One attribute of a hash `make_dict` wrote, as the attribute loop reads it. */
  lemma ReadWrittenAt(T: TypeDesc, values: map<string, Value>, d: map<string, string>, n: string)
    requires DistinctNames(T.attributes) && values.Keys == T.AttrNames() && Written(T, values, d)
    requires ReadAttrs(d, T.attributes).Ok? && n in values
    ensures n in ReadAttrs(d, T.attributes).value.0 && ReadAttrs(d, T.attributes).value.0[n] == values[n]
    ensures n in T.TrackedNames() ==>
      n in ReadAttrs(d, T.attributes).value.1 && ReadAttrs(d, T.attributes).value.1[n] == WrittenSnapshot(T, values)[n]
  {
    var A := T.attributes;
    var i :| 0 <= i < |A| && A[i].name == n;
    LoadAttrAt(T, values, d, i);
    ReadAttrsAt(d, A, i);
    if n in T.TrackedNames() {
      var j :| 0 <= j < |A| && (A[j].indexed || A[j].zindexed) && A[j].name == n;
      assert i == j;
    }
  }

  /** Updating a union at a key updates its right operand there. */
  lemma UnionUpdate<K, V>(m: map<K, V>, n: map<K, V>, k: K, v: V)
    ensures (m + n)[k := v] == m + n[k := v]
  {
  }

  /** The empty map is a left unit of union. */
  lemma EmptyUnion<K, V>(m: map<K, V>)
    ensures map[] + m == m
  {
  }

  /** Maps with the same keys and values are equal. */
  lemma MapsEqual<K, V>(m: map<K, V>, w: map<K, V>)
    requires m.Keys == w.Keys && forall k :: k in m ==> m[k] == w[k]
    ensures m == w
  {
  }

  /** The stored text of one attribute reads back as the value written. */
  lemma LoadAttrAt(T: TypeDesc, values: map<string, Value>, d: map<string, string>, i: int)
    requires DistinctNames(T.attributes) && 0 <= i < |T.attributes|
    requires values.Keys == T.AttrNames() && Written(T, values, d)
    ensures T.attributes[i].name in values && T.attributes[i].name in d
    ensures T.AttrOf(T.attributes[i].name) == Some(T.attributes[i])
    ensures ReadCast(T.attributes[i], d[T.attributes[i].name]) == Ok(values[T.attributes[i].name])
  {
    var a := T.attributes[i];
    LookupAt(T.attributes, i);
    assert a.name in Names(T.attributes);
    ReadAfterWrite(a, values[a.name]);
  }

  lemma TrackedInNames(A: seq<Attribute>)
    ensures Tracked(A) <= Names(A)
  {
    forall n | n in Tracked(A) ensures n in Names(A) {
      var i :| 0 <= i < |A| && (A[i].indexed || A[i].zindexed) && A[i].name == n;
    }
  }

  /** The keyword of a query, `fld` or `fld__cond`, split into field and condition. */
  function QueryField(kw: string): (string, Option<string>)
  {
    var parts := Split(kw, "__");
    (parts[0], if |parts| >= 2 then Some(parts[1]) else None)
  }

  /** A field name in which `__` does not occur is a query without condition; when
      it also does not end in `_`, `fld__cond` gives it back with the condition. */
  lemma QueryFieldParts(f: string, c: string)
    requires NoDoubleUnderscore(f) && NoDoubleUnderscore(c)
    ensures QueryField(f) == (f, None)
    ensures f == [] || f[|f| - 1] != '_' ==> QueryField(f + "__" + c) == (f, Some(c))
  {
    SplitNoDoubleUnderscore(f);
    SplitNoDoubleUnderscore(c);
    if f == [] || f[|f| - 1] != '_' {
      SplitAtDoubleUnderscore(f, c);
    }
  }

  /** The scalar a query looks up: a handle's or a record's id, else the value. */
  function QueryScalar(v: Value): Py
  {
    if v.Ref? then v.handle.oid else v.py
  }

  /** The first list or set field with the name. */
  function FieldLookup(fs: seq<ContainerField>, n: string): (r: Option<ContainerField>)
    ensures r.Some? <==> exists i :: 0 <= i < |fs| && fs[i].name == n
    ensures r.Some? ==> r.value.name == n && r.value in fs
    decreases |fs|
  {
    if fs == [] then None
    else if fs[0].name == n then Some(fs[0])
    else
      var r := FieldLookup(fs[1..], n);
      assert (exists i :: 0 <= i < |fs| && fs[i].name == n) ==> exists i :: 0 <= i < |fs[1..]| && fs[1..][i].name == n by {
        if exists i :: 0 <= i < |fs| && fs[i].name == n {
          var i :| 0 <= i < |fs| && fs[i].name == n;
          assert fs[1..][i - 1].name == n;
        }
      }
      assert r.Some? ==> exists i :: 0 <= i < |fs| && fs[i].name == n by {
        if r.Some? {
          var i :| 0 <= i < |fs[1..]| && fs[1..][i].name == n;
          assert fs[i + 1].name == n;
        }
      }
      r
  }

  /** The element type a queried field declares, if it has one (`target_type`). */
  function FieldTarget(T: TypeDesc, fld: string): Option<ElemType>
  {
    match T.AttrOf(fld)
    case Some(a) => if a.kind.Reference? then Some(RecordType(a.kind.target)) else None
    case None =>
      match FieldLookup(T.lists, fld)
      case Some(l) => Some(l.target)
      case None =>
        match FieldLookup(T.sets, fld)
        case Some(f) => Some(f.target)
        case None => None
  }

  /** The assertion `find` and `multifind` make: a field with a target type is
      queried by a value of that type. */
  predicate QueryAsserts(T: TypeDesc, fld: string, val: Value)
  {
    FieldTarget(T, fld).Some? ==> Matches(FieldTarget(T, fld).value, val)
  }

  /** A query of a declared field that passes the assertion. */
  predicate QueryFits(T: TypeDesc, fld: string, val: Value)
  {
    T.HasField(fld) && QueryAsserts(T, fld, val)
  }

  /** `Model.find(fld=val)` or `find(fld__contains=val)`: KeyError when the type
      declares no such field (`cls.__dict__[fld]`); otherwise the handle the unique
      map `u:Type:fld` names for the value (falsy when there is none), and None for
      any other condition. */
  function Find(db: DB, T: TypeDesc, kw: string, val: Value): Result<Option<Handle>>
    requires QueryAsserts(T, QueryField(kw).0, val)
  {
    var (fld, cond) := QueryField(kw);
    if !T.HasField(fld) then Err(KeyError(fld))
    else if cond.None? || cond.value == "contains" then
      var hit := db.HGet(UniqueKey(T.name, fld), Str(QueryScalar(val)));
      Ok(Some(NewHandle(T.name, if hit.Some? then PStr(hit.value) else PNone)))
    else Ok(None)
  }

  /** `Model.multifind(fld=val)`: KeyError for an undeclared field, otherwise
      handles for the ids in the set `i:Type:fld:val`. */
  function Multifind(db: DB, T: TypeDesc, kw: string, val: Value): Result<Option<set<Handle>>>
    requires QueryAsserts(T, QueryField(kw).0, val)
  {
    var (fld, cond) := QueryField(kw);
    if !T.HasField(fld) then Err(KeyError(fld))
    else if cond.None? || cond.value == "contains" then
      Ok(Some(set m | m in db.Members(MemberKey(T.name, fld, Str(QueryScalar(val)))) :: NewHandle(T.name, PStr(m))))
    else Ok(None)
  }

  /** A query of a field the type does not declare raises KeyError of the field
      name, whatever its condition; a declared field never does. */
  lemma QueryUnknownField(db: DB, T: TypeDesc, kw: string, val: Value)
    requires QueryAsserts(T, QueryField(kw).0, val)
    ensures Find(db, T, kw, val).Err? <==> !T.HasField(QueryField(kw).0)
    ensures Multifind(db, T, kw, val).Err? <==> !T.HasField(QueryField(kw).0)
    ensures Find(db, T, kw, val).Err? ==> Find(db, T, kw, val).error == KeyError(QueryField(kw).0)
    ensures Multifind(db, T, kw, val).Err? ==> Multifind(db, T, kw, val).error == KeyError(QueryField(kw).0)
    ensures T.HasField(QueryField(kw).0) && QueryField(kw).1.Some? && QueryField(kw).1 != Some("contains") ==>
      Find(db, T, kw, val) == Ok(None) && Multifind(db, T, kw, val) == Ok(None)
  {
  }

  /** `Model.zfind(fld__cond=val)`: the sorted index `z:Type:fld` and the score
      bounds; no condition means equality, unknown conditions give None. */
  function ModelZFind(T: TypeDesc, kw: string, arg: ZArg): Option<(string, Bounds)>
    requires arg.Pair? <==> QueryField(kw).1 == Some("in")
  {
    var (fld, cond) := QueryField(kw);
    if cond.None? then Some((SortedKey(T.name, fld), Bounds(Str(arg.v), Str(arg.v))))
    else
      match RangeBounds(cond.value, arg)
      case Some(b) => Some((SortedKey(T.name, fld), b))
      case None => None
  }

  /** A unique lookup of a value nobody holds gives a falsy handle, and loading it
      raises NotFoundError. */
  lemma FindAbsent(db: DB, T: TypeDesc, kw: string, val: Value)
    requires QueryFits(T, QueryField(kw).0, val) && QueryField(kw).1.None?
    requires !db.HExists(UniqueKey(T.name, QueryField(kw).0), Str(QueryScalar(val)))
    requires |T.attributes| > 0 && !db.Exists(KeyById(T.name, PNone))
    ensures Find(db, T, kw, val).Ok? && Find(db, T, kw, val).value.Some? && !HandleTruthy(Find(db, T, kw, val).value.value)
    ensures LoadState(db, T, Find(db, T, kw, val).value.value) == Err(NotFoundError(KeyById(T.name, PNone)))
  {
    LoadMissing(db, T, Find(db, T, kw, val).value.value);
  }

  /** A unique lookup finds the record the unique map names. */
  lemma FindHit(db: DB, T: TypeDesc, kw: string, val: Value, oid: string)
    requires QueryFits(T, QueryField(kw).0, val) && (QueryField(kw).1.None? || QueryField(kw).1 == Some("contains"))
    requires db.HGet(UniqueKey(T.name, QueryField(kw).0), Str(QueryScalar(val))) == Some(oid)
    requires oid != ""
    ensures Find(db, T, kw, val) == Ok(Some(Handle(T.name, PStr(oid))))
  {
  }

  /** A membership lookup includes every record the membership set lists. */
  lemma MultifindHit(db: DB, T: TypeDesc, kw: string, val: Value, oid: string)
    requires QueryFits(T, QueryField(kw).0, val) && (QueryField(kw).1.None? || QueryField(kw).1 == Some("contains"))
    requires oid in db.Members(MemberKey(T.name, QueryField(kw).0, Str(QueryScalar(val)))) && oid != ""
    ensures Multifind(db, T, kw, val).Ok? && Multifind(db, T, kw, val).value.Some?
    ensures Handle(T.name, PStr(oid)) in Multifind(db, T, kw, val).value.value
  {
    assert NewHandle(T.name, PStr(oid)) == Handle(T.name, PStr(oid));
  }

  /** The bounds of `Model.zfind` select exactly the scores that satisfy the query,
      a query without condition selecting the value itself. */
  lemma ModelZFindMeaning(T: TypeDesc, kw: string, arg: ZArg, score: int)
    requires arg.Pair? <==> QueryField(kw).1 == Some("in")
    requires arg.Pair? ==> arg.lo.PInt? && arg.hi.PInt?
    requires arg.Single? ==> arg.v.PInt?
    ensures ModelZFind(T, kw, arg).Some? <==> QueryField(kw).1.None? || QueryField(kw).1.value in {"lte", "lt", "gte", "gt", "in"}
    ensures ModelZFind(T, kw, arg).Some? ==> ModelZFind(T, kw, arg).value.0 == SortedKey(T.name, QueryField(kw).0)
    ensures ModelZFind(T, kw, arg).Some? ==>
      (Admits(ModelZFind(T, kw, arg).value.1, score) <==> Satisfies(if QueryField(kw).1.None? then "eq" else QueryField(kw).1.value, arg, score))
  {
    var cond := QueryField(kw).1;
    if cond.None? {
      ZFindMeaning("eq", arg, score);
    } else if cond.value in {"lte", "lt", "gte", "gt", "in"} {
      ZFindMeaning(cond.value, arg, score);
    }
  }

  /** A record object: its type, id, attribute values, index snapshot
      (`_indexed_values`) and list/set field handles. */
  class Record {
    const model: TypeDesc
    var oid: Py
    var values: map<string, Value>
    var snapshot: map<string, Py>
    var containers: map<string, Option<ContainerHandle>>

    constructor (model: TypeDesc, s: RecordState)
      ensures this.model == model && State() == s
    {
      this.model := model;
      oid, values, snapshot, containers := s.oid, s.values, s.snapshot, s.containers;
    }

    function State(): RecordState
      reads this
    {
      RecordState(oid, values, snapshot, containers)
    }

    /** `Model.key`. */
    function Key(): string
      reads this
    {
      KeyById(model.name, oid)
    }

    /** `Model.handle()`: names the same record. */
    function ToHandle(): (h: Handle)
      reads this
      ensures h.model == model.name && HandleKey(h) == Key()
    {
      NewHandle(model.name, oid)
    }

    /** `make_dict`. */
    method MakeDict() returns (d: map<string, Py>)
      requires DistinctNames(model.attributes) && FitsAll(model, values)
      ensures d == Dict(model, values)
    {
      d := WriteDict(model, values);
    }

    /** `update_attributes(**kwargs)`: each keyword's coerced value is assigned, in
        whatever order the dictionary yields them. A keyword that names no attribute
        raises KeyError, after the keywords visited before it were assigned. */
    method UpdateAttributes(kwargs: map<string, Value>) returns (r: Outcome)
      requires Accepted(model, kwargs)
      modifies this
      ensures r.Pass? <==> Assignable(model, kwargs)
      ensures r.Pass? ==> values == old(values) + Coerced(model, kwargs)
      ensures r.Fail? ==> r.error.KeyError? && r.error.key in kwargs && model.AttrOf(r.error.key).None?
      ensures r.Fail? ==> PartlyAssigned(model, old(values), kwargs, values)
      ensures oid == old(oid) && snapshot == old(snapshot) && containers == old(containers)
    {
      var vals, d := AssignAll(model, values, kwargs);
      values := vals;
      r := if d.Ok? then Pass else Fail(d.error);
    }

    /** `update_attributes_dict(**kwargs)`: as `update_attributes`, and returns the
        write-typecast values. */
    method UpdateAttributesDict(kwargs: map<string, Value>) returns (d: Result<map<string, Py>>)
      requires Accepted(model, kwargs)
      modifies this
      ensures d.Ok? <==> Assignable(model, kwargs)
      ensures d.Ok? ==> values == old(values) + Coerced(model, kwargs) && d.value == Dict(model, Coerced(model, kwargs))
      ensures d.Err? ==> d.error.KeyError? && d.error.key in kwargs && model.AttrOf(d.error.key).None?
      ensures d.Err? ==> PartlyAssigned(model, old(values), kwargs, values)
      ensures oid == old(oid) && snapshot == old(snapshot) && containers == old(containers)
    {
      var vals;
      vals, d := AssignAll(model, values, kwargs);
      values := vals;
    }

    /** The list and set handle loops of `load` and `create`. */
    method BindContainers(key: string)
      modifies this
      ensures containers == old(containers) + FieldHandles(model, key)
      ensures oid == old(oid) && values == old(values) && snapshot == old(snapshot)
    {
      var c := BindFields(containers, model.lists, key);
      c := BindFields(c, model.sets, key);
      containers := c;
    }
  }

  /** The values after some of the keywords, all naming attributes, were assigned. */
  ghost predicate PartlyAssigned(T: TypeDesc, values: map<string, Value>, kwargs: map<string, Value>, vals: map<string, Value>)
  {
    exists rest: set<string> :: Assignable(T, kwargs - rest) && vals == values + Coerced(T, kwargs - rest)
  }

  /** The loop shared by `update_attributes` and `update_attributes_dict` over the
      keyword arguments, in whatever order the dictionary yields them: the values
      after assignment, and the write-typecast values or the KeyError of a keyword
      that names no attribute. */
  method AssignAll(T: TypeDesc, values: map<string, Value>, kwargs: map<string, Value>)
    returns (vals: map<string, Value>, d: Result<map<string, Py>>)
    requires Accepted(T, kwargs)
    ensures d.Ok? <==> Assignable(T, kwargs)
    ensures d.Ok? ==> vals == values + Coerced(T, kwargs) && d.value == Dict(T, Coerced(T, kwargs))
    ensures d.Err? ==> d.error.KeyError? && d.error.key in kwargs && T.AttrOf(d.error.key).None?
    ensures d.Err? ==> PartlyAssigned(T, values, kwargs, vals)
  {
    var rest := kwargs.Keys;
    var w: map<string, Py> := map[];
    vals := values;
    assert kwargs - rest == map[];
    while rest != {}
      invariant rest <= kwargs.Keys
      invariant Assignable(T, kwargs - rest)
      invariant vals == values + Coerced(T, kwargs - rest)
      invariant w == Dict(T, Coerced(T, kwargs - rest))
      decreases rest
    {
      var k :| k in rest;
      if T.AttrOf(k).None? {
        return vals, Err(KeyError(k));
      }
      var a := T.AttrOf(k).value;
      var v := CoerceArg(a, kwargs[k]);
      CoercedStep(T, kwargs, rest, k);
      UnionUpdate(values, Coerced(T, kwargs - rest), k, v);
      DictUpdate(T, Coerced(T, kwargs - rest), k, v);
      vals := vals[k := v];
      w := w[k := WriteCast(a, v)];
      rest := rest - {k};
    }
    assert kwargs - rest == kwargs;
    d := Ok(w);
  }

  /** The assignments done so far grow by one keyword naming an attribute. */
  lemma CoercedStep(T: TypeDesc, kwargs: map<string, Value>, rest: set<string>, k: string)
    requires Accepted(T, kwargs) && Assignable(T, kwargs - rest)
    requires k in rest && rest <= kwargs.Keys && T.AttrOf(k).Some?
    ensures Assignable(T, kwargs - (rest - {k}))
    ensures Coerced(T, kwargs - (rest - {k})) == Coerced(T, kwargs - rest)[k := CoerceArg(T.AttrOf(k).value, kwargs[k])]
  {
  }

  /** `make_dict` of one more assigned attribute. */
  lemma DictUpdate(T: TypeDesc, values: map<string, Value>, k: string, v: Value)
    requires FitsAll(T, values) && T.AttrOf(k).Some? && Fits(T.AttrOf(k).value, v)
    ensures FitsAll(T, values[k := v])
    ensures Dict(T, values[k := v]) == Dict(T, values)[k := WriteCast(T.AttrOf(k).value, v)]
  {
  }

  /** One handle loop of `load` and `create`: a handle per field, keyed by name. */
  method BindFields(c: map<string, Option<ContainerHandle>>, fs: seq<ContainerField>, key: string)
    returns (c': map<string, Option<ContainerHandle>>)
    ensures c' == c + Handles(fs, key)
  {
    c' := c;
    var i := 0;
    while i < |fs|
      invariant 0 <= i <= |fs|
      invariant c' == c + Handles(fs[..i], key)
    {
      HandlesSnoc(fs, i, key);
      c' := c'[fs[i].name := Some(ContainerHandle(fs[i].kind, FieldKey(key, fs[i].name), fs[i].target))];
      i := i + 1;
    }
    assert fs[..i] == fs;
  }

  /** The loop of `make_dict`, over the declared attributes. */
  method WriteDict(T: TypeDesc, vals: map<string, Value>) returns (d: map<string, Py>)
    requires DistinctNames(T.attributes) && FitsAll(T, vals)
    ensures d == Dict(T, vals)
  {
    var A := T.attributes;
    d := map[];
    var i := 0;
    RestrictFits(T, vals, Names(A[..i]));
    while i < |A|
      invariant 0 <= i <= |A|
      invariant FitsAll(T, Restrict(vals, Names(A[..i])))
      invariant d == Dict(T, Restrict(vals, Names(A[..i])))
    {
      WriteDictStep(T, vals, i);
      if A[i].name in vals {
        d := d[A[i].name := WriteCast(A[i], vals[A[i].name])];
      }
      i := i + 1;
    }
    assert A[..i] == A;
    RestrictAll(T, vals);
  }

  /** The values whose names lie in `S`. */
  ghost function Restrict(vals: map<string, Value>, S: set<string>): map<string, Value>
  {
    map n | n in vals && n in S :: vals[n]
  }

  lemma RestrictFits(T: TypeDesc, vals: map<string, Value>, S: set<string>)
    requires FitsAll(T, vals)
    ensures FitsAll(T, Restrict(vals, S))
  {
  }

  /** A value-fitting map holds only declared names, so restricting it to them keeps it whole. */
  lemma RestrictAll(T: TypeDesc, vals: map<string, Value>)
    requires FitsAll(T, vals)
    ensures Restrict(vals, Names(T.attributes)) == vals
  {
    assert Restrict(vals, Names(T.attributes)).Keys == vals.Keys;
  }

  /** One pass of the `make_dict` loop adds the attribute at `i`, if the record holds it. */
  lemma WriteDictStep(T: TypeDesc, vals: map<string, Value>, i: int)
    requires DistinctNames(T.attributes) && FitsAll(T, vals) && 0 <= i < |T.attributes|
    ensures FitsAll(T, Restrict(vals, Names(T.attributes[..i])))
    ensures FitsAll(T, Restrict(vals, Names(T.attributes[..i + 1])))
    ensures T.attributes[i].name in vals ==>
      Dict(T, Restrict(vals, Names(T.attributes[..i + 1])))
        == Dict(T, Restrict(vals, Names(T.attributes[..i])))[T.attributes[i].name := WriteCast(T.attributes[i], vals[T.attributes[i].name])]
    ensures T.attributes[i].name !in vals ==>
      Dict(T, Restrict(vals, Names(T.attributes[..i + 1]))) == Dict(T, Restrict(vals, Names(T.attributes[..i])))
  {
    var A := T.attributes;
    var x := A[i].name;
    LookupAt(A, i);
    NamesSnoc(A[..i], A[i]);
    assert A[..i + 1] == A[..i] + [A[i]];
    var S := Names(A[..i]);
    RestrictFits(T, vals, S);
    RestrictFits(T, vals, S + {x});
    RestrictSnoc(vals, S, x);
    if x in vals {
      DictUpdate(T, Restrict(vals, S), x, vals[x]);
    }
  }

  lemma RestrictSnoc(vals: map<string, Value>, S: set<string>, x: string)
    ensures x in vals ==> Restrict(vals, S + {x}) == Restrict(vals, S)[x := vals[x]]
    ensures x !in vals ==> Restrict(vals, S + {x}) == Restrict(vals, S)
  {
    if x in vals {
      assert Restrict(vals, S + {x}).Keys == Restrict(vals, S)[x := vals[x]].Keys;
    } else {
      assert Restrict(vals, S + {x}).Keys == Restrict(vals, S).Keys;
    }
  }

  lemma NamesSnoc(s: seq<Attribute>, a: Attribute)
    ensures Names(s + [a]) == Names(s) + {a.name}
  {
    forall x | x in Names(s + [a]) ensures x in Names(s) + {a.name} {
      var k :| 0 <= k < |s| + 1 && (s + [a])[k].name == x;
      if k < |s| { assert s[k].name == x; }
    }
    forall x | x in Names(s) ensures x in Names(s + [a]) {
      var k :| 0 <= k < |s| && s[k].name == x;
      assert (s + [a])[k].name == x;
    }
    assert (s + [a])[|s|].name == a.name;
  }

  lemma TrackedSnoc(s: seq<Attribute>, a: Attribute)
    ensures Tracked(s + [a]) == Tracked(s) + (if a.indexed || a.zindexed then {a.name} else {})
  {
    forall x | x in Tracked(s + [a]) ensures x in Tracked(s) + (if a.indexed || a.zindexed then {a.name} else {}) {
      var k :| 0 <= k < |s| + 1 && ((s + [a])[k].indexed || (s + [a])[k].zindexed) && (s + [a])[k].name == x;
      if k < |s| { assert s[k].name == x; }
    }
    forall x | x in Tracked(s) ensures x in Tracked(s + [a]) {
      var k :| 0 <= k < |s| && (s[k].indexed || s[k].zindexed) && s[k].name == x;
      assert (s + [a])[k] == s[k];
    }
    assert (s + [a])[|s|] == a;
  }

  lemma HandlesSnoc(fs: seq<ContainerField>, i: int, key: string)
    requires 0 <= i < |fs|
    ensures Handles(fs[..i + 1], key) == Handles(fs[..i], key)[fs[i].name := Some(ContainerHandle(fs[i].kind, FieldKey(key, fs[i].name), fs[i].target))]
  {
    assert fs[..i + 1][..i] == fs[..i];
  }

  lemma NonesSnoc(fs: seq<ContainerField>, i: int)
    requires 0 <= i < |fs|
    ensures Nones(fs[..i + 1]) == Nones(fs[..i])[fs[i].name := None]
  {
    assert fs[..i + 1][..i] == fs[..i];
  }

  /** `Model(**kwargs)`. */
  method New(T: TypeDesc, kwargs: map<string, Value>) returns (r: Result<Record>)
    requires kwargs.Keys == T.AttrNames() ==> Assignable(T, kwargs)
    ensures r.Ok? <==> NewState(T, kwargs).Ok?
    ensures r.Ok? ==> fresh(r.value) && r.value.model == T && r.value.State() == NewState(T, kwargs).value
    ensures r.Err? ==> r.error == NewState(T, kwargs).error
  {
    if kwargs == map[] {
      var obj := new Record(T, RecordState(PNone, map[], map[], map[]));
      return Ok(obj);
    }
    var names := T.AttrNames();
    if kwargs.Keys != names {
      return Err(ArgNamesError(names, kwargs.Keys));
    }
    var vals, _ := AssignAll(T, map[], kwargs);
    var snap := InitSnapshot(T.attributes);
    var c := InitContainers(map[], T.lists);
    c := InitContainers(c, T.sets);
    MapsEqual(snap, Untracked(T));
    EmptyUnion(Coerced(T, kwargs));
    EmptyUnion(Nones(T.lists));
    var obj := new Record(T, RecordState(PNone, vals, snap, c));
    r := Ok(obj);
  }

  /** The snapshot loop of `__new__`: every tracked attribute's snapshot is None. */
  method InitSnapshot(A: seq<Attribute>) returns (snap: map<string, Py>)
    ensures snap.Keys == Tracked(A)
    ensures forall n :: n in snap ==> snap[n] == PNone
  {
    snap := map[];
    var i := 0;
    while i < |A|
      invariant 0 <= i <= |A|
      invariant snap.Keys == Tracked(A[..i])
      invariant forall n :: n in snap ==> snap[n] == PNone
    {
      TrackedSnoc(A[..i], A[i]);
      assert A[..i + 1] == A[..i] + [A[i]];
      if A[i].indexed || A[i].zindexed {
        snap := snap[A[i].name := PNone];
      }
      i := i + 1;
    }
    assert A[..i] == A;
  }

  /** A list or set loop of `__new__`: every container field is None. */
  method InitContainers(c: map<string, Option<ContainerHandle>>, fs: seq<ContainerField>)
    returns (c': map<string, Option<ContainerHandle>>)
    ensures c' == c + Nones(fs)
  {
    c' := c;
    var j := 0;
    while j < |fs|
      invariant 0 <= j <= |fs|
      invariant c' == c + Nones(fs[..j])
    {
      NonesSnoc(fs, j);
      c' := c'[fs[j].name := None];
      j := j + 1;
    }
    assert fs[..j] == fs;
  }

  /** `Handle.load` (and `Model(handle)`). */
  method Load(st: Store, T: TypeDesc, h: Handle) returns (r: Result<Record>)
    requires h.model == T.name
    ensures r.Ok? <==> LoadState(st.View(), T, h).Ok?
    ensures r.Ok? ==> fresh(r.value) && r.value.model == T && r.value.State() == LoadState(st.View(), T, h).value
    ensures r.Err? ==> r.error == LoadState(st.View(), T, h).error
  {
    var key := HandleKey(h);
    var d := st.HGetAll(key);
    var read := ReadAll(d, T.attributes);
    match read
    case Err(e) =>
      var ex := st.Exists(key);
      if e.KeyError? && |d| == 0 && !ex {
        return Err(NotFoundError(key));
      }
      return Err(e);
    case Ok(acc) =>
      var c := BindFields(map[], T.lists, key);
      c := BindFields(c, T.sets, key);
      EmptyUnion(Handles(T.lists, key));
      var obj := new Record(T, RecordState(h.oid, acc.0, acc.1, c));
      r := Ok(obj);
  }

  /** The attribute loop of `Handle.load`, stopping at the first failure. */
  method ReadAll(d: map<string, string>, A: seq<Attribute>) returns (r: Result<(map<string, Value>, map<string, Py>)>)
    ensures r == ReadAttrs(d, A)
  {
    var vals: map<string, Value> := map[];
    var snap: map<string, Py> := map[];
    var i := 0;
    while i < |A|
      invariant 0 <= i <= |A|
      invariant ReadAttrs(d, A[..i]) == Ok((vals, snap))
    {
      var a := A[i];
      assert A[..i + 1][..i] == A[..i];
      if a.name !in d {
        ReadAttrsStops(d, A, i + 1);
        return Err(KeyError(a.name));
      }
      match ReadCast(a, d[a.name])
      case Err(e) =>
        ReadAttrsStops(d, A, i + 1);
        return Err(e);
      case Ok(v) =>
        vals := vals[a.name := v];
        if a.indexed || a.zindexed {
          snap := snap[a.name := PStr(d[a.name])];
        }
      i := i + 1;
    }
    assert A[..i] == A;
    r := Ok((vals, snap));
  }
}
