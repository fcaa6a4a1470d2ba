/** Writers: ModelWriter saves, updates and deletes records and keeps their
    attribute indexes in step; ContainerFieldWriter appends to and removes from a
    record's list and set fields, creating and deleting owned elements. */
module Writer {
  import opened Text
  import opened Values
  import opened Keys
  import opened Store
  import opened Attributes
  import opened Containers
  import opened Base

  /** `__unindex`: a unique map forgets the value; a membership set loses the id. */
  function Unindex(db: DB, T: TypeDesc, oid: Py, a: Attribute, val: Py): DB
  {
    if a.unique then db.HDel(UniqueKey(T.name, a.name), Str(val))
    else db.SRem(MemberKey(T.name, a.name, Str(val)), Str(oid))
  }

  /** `__index`: a unique map sends the value to the id; a membership set gains the id. */
  function Index(db: DB, T: TypeDesc, oid: Py, a: Attribute, val: Py): DB
  {
    if a.unique then db.HSet(UniqueKey(T.name, a.name), Str(val), Str(oid))
    else db.SAdd(MemberKey(T.name, a.name, Str(val)), Str(oid))
  }

  /** Whether `__update_attrs` checks a unique value against its map. As written
      (`textual` false) the new value is compared with the snapshot as a Python
      value; the corrected check (`textual` true), which `update` and `update_all`
      use, compares the texts the store holds. `create` keeps the check as
      written: a deleted record created again still carries its old snapshot. */
  predicate Changed(v: Py, oldv: Py, textual: bool)
  {
    if textual && oldv != PNone then Str(v) != Str(oldv) else v != oldv
  }

  /** The snapshot has an entry for every indexed attribute the data names
      (`_indexed_values[fld]` is read for each). */
  predicate Covered(attrs: seq<Attribute>, data: map<string, Py>, snap: map<string, Py>)
  {
    forall i :: 0 <= i < |attrs| && (attrs[i].indexed || attrs[i].unique) && attrs[i].name in data ==> attrs[i].name in snap
  }

  /** `__check_unique` for one attribute of the data, when its value changed. */
  function Conflict(db: DB, T: TypeDesc, data: map<string, Py>, snap: map<string, Py>, a: Attribute, textual: bool): Option<Error>
    requires (a.indexed || a.unique) && a.name in data ==> a.name in snap
  {
    if a.unique && a.name in data && Changed(data[a.name], snap[a.name], textual)
       && db.HExists(UniqueKey(T.name, a.name), Str(data[a.name]))
    then Some(UniqueError(UniqueKey(T.name, a.name) + "<" + Str(data[a.name]) + ">"))
    else None
  }

  /** The check loop of `__update_attrs`, attributes taken in declaration order:
      the first conflict raises. */
  function FirstConflict(db: DB, T: TypeDesc, data: map<string, Py>, snap: map<string, Py>, attrs: seq<Attribute>, textual: bool): Option<Error>
    requires Covered(attrs, data, snap)
    decreases |attrs|
  {
    if attrs == [] then None
    else
      var c := FirstConflict(db, T, data, snap, attrs[..|attrs| - 1], textual);
      if c.Some? then c else Conflict(db, T, data, snap, attrs[|attrs| - 1], textual)
  }

  /** One iteration of the index loop of `__update_attrs`: the old value is
      unindexed unless it is None, the new value indexed and recorded. */
  function Step(st: (DB, map<string, Py>), T: TypeDesc, oid: Py, data: map<string, Py>, a: Attribute): (DB, map<string, Py>)
    requires (a.indexed || a.unique) && a.name in data ==> a.name in st.1
  {
    if a.indexed && a.name in data then
      var oldv := st.1[a.name];
      var d := if oldv != PNone then Unindex(st.0, T, oid, a, oldv) else st.0;
      (Index(d, T, oid, a, data[a.name]), st.1[a.name := data[a.name]])
    else st
  }

  /** The index loop of `__update_attrs` over a prefix of the attributes. */
  function Reindex(db: DB, T: TypeDesc, oid: Py, data: map<string, Py>, snap: map<string, Py>, attrs: seq<Attribute>): (r: (DB, map<string, Py>))
    requires Covered(attrs, data, snap)
    ensures snap.Keys <= r.1.Keys
    decreases |attrs|
  {
    if attrs == [] then (db, snap)
    else Step(Reindex(db, T, oid, data, snap, attrs[..|attrs| - 1]), T, oid, data, attrs[|attrs| - 1])
  }

  /** `__update_attrs(obj, data)` on a store state: the outcome, the new store and
      the new snapshot. Nothing is written for empty data or on a conflict;
      otherwise the hash is merged and every indexed attribute reindexed. */
  function UpdateEffect(db: DB, T: TypeDesc, oid: Py, data: map<string, Py>, snap: map<string, Py>, textual: bool): (Outcome, DB, map<string, Py>)
    requires Covered(T.attributes, data, snap)
  {
    if data == map[] then (Pass, db, snap)
    else
      match FirstConflict(db, T, data, snap, T.attributes, textual)
      case Some(e) => (Fail(e), db, snap)
      case None =>
        var r := Reindex(db.HMSet(KeyById(T.name, oid), StrMap(data)), T, oid, data, snap, T.attributes);
        (Pass, r.0, r.1)
  }

  /** `__unindex_all` over a prefix of the attributes: every indexed attribute
      whose snapshot is not None is unindexed. */
  function UnindexAll(db: DB, T: TypeDesc, oid: Py, snap: map<string, Py>, attrs: seq<Attribute>): DB
    requires forall i :: 0 <= i < |attrs| && attrs[i].indexed ==> attrs[i].name in snap
    decreases |attrs|
  {
    if attrs == [] then db
    else
      var d := UnindexAll(db, T, oid, snap, attrs[..|attrs| - 1]);
      var a := attrs[|attrs| - 1];
      if a.indexed && snap[a.name] != PNone then Unindex(d, T, oid, a, snap[a.name]) else d
  }

  /** `delete(obj)` on a store state: NotFoundError for a record that is not
      stored; otherwise its index entries and its hash go. */
  function DeleteEffect(db: DB, T: TypeDesc, oid: Py, snap: map<string, Py>): (Outcome, DB)
    requires forall i :: 0 <= i < |T.attributes| && T.attributes[i].indexed ==> T.attributes[i].name in snap
  {
    var key := KeyById(T.name, oid);
    if !db.Exists(key) then (Fail(NotFoundError(key)), db)
    else (Pass, UnindexAll(db, T, oid, snap, T.attributes).Del(key))
  }

  /** The id `create` gives a record: the next value of the type's counter, or the
      owner's id for an extension type. */
  function NewId(db: DB, T: TypeDesc, owner: Option<Handle>): (Py, DB)
  {
    if owner.None? then (PStr(IntToString(db.Counter(CounterKey(T.name)) + 1)), db.Incr(CounterKey(T.name)))
    else (owner.value.oid, db)
  }

  /** `create(obj, owner)` on a store state: the record gets its id, its
      `make_dict` is saved, and on success its list and set fields get handles. */
  function CreateEffect(db: DB, T: TypeDesc, s: RecordState, owner: Option<Handle>): (Outcome, DB, RecordState)
    requires FitsAll(T, s.values) && Covered(T.attributes, Dict(T, s.values), s.snapshot)
  {
    var (oid, d0) := NewId(db, T, owner);
    var (out, d1, snap) := UpdateEffect(d0, T, oid, Dict(T, s.values), s.snapshot, false);
    (out, d1, RecordState(oid, s.values, snap,
                          if out.Pass? then s.containers + FieldHandles(T, KeyById(T.name, oid)) else s.containers))
  }

  /** Names the index keys of a type are built from are colon-free. */
  predicate PlainNames(T: TypeDesc, attrs: seq<Attribute>)
  {
    ColonFree(T.name) && forall i :: 0 <= i < |attrs| ==> ColonFree(attrs[i].name)
  }

  /** What index maintenance may touch: unique maps (keys with two colons) and
      membership sets (keys with three or more); no record hash, container,
      sorted set or counter. */
  ghost predicate OnlyIndexes(db: DB, d: DB)
  {
    && d.lists == db.lists && d.zsets == db.zsets && d.counters == db.counters
    && (forall k :: Colons(k) != 2 ==> d.Hash(k) == db.Hash(k))
    && (forall k :: Colons(k) < 3 ==> d.Members(k) == db.Members(k))
  }

  lemma HashOnlyIndexes(db: DB, k: string, h: map<string, string>)
    requires Colons(k) == 2
    ensures OnlyIndexes(db, db.PutHash(k, h))
  {
  }

  lemma SetOnlyIndexes(db: DB, k: string, m: set<string>)
    requires Colons(k) >= 3
    ensures OnlyIndexes(db, db.PutSet(k, m))
  {
  }

  lemma UnindexOnlyIndexes(db: DB, T: TypeDesc, oid: Py, a: Attribute, v: Py)
    requires ColonFree(T.name) && ColonFree(a.name)
    ensures OnlyIndexes(db, Unindex(db, T, oid, a, v))
  {
    var u := UniqueKey(T.name, a.name);
    var m := MemberKey(T.name, a.name, Str(v));
    if a.unique {
      ColonsUniqueKey(T.name, a.name);
      HashOnlyIndexes(db, u, db.Hash(u) - {Str(v)});
    } else {
      ColonsMemberKey(T.name, a.name, Str(v));
      SetOnlyIndexes(db, m, db.Members(m) - {Str(oid)});
    }
  }

  lemma IndexOnlyIndexes(db: DB, T: TypeDesc, oid: Py, a: Attribute, v: Py)
    requires ColonFree(T.name) && ColonFree(a.name)
    ensures OnlyIndexes(db, Index(db, T, oid, a, v))
  {
    var u := UniqueKey(T.name, a.name);
    var m := MemberKey(T.name, a.name, Str(v));
    if a.unique {
      ColonsUniqueKey(T.name, a.name);
      HashOnlyIndexes(db, u, db.Hash(u)[Str(v) := Str(oid)]);
    } else {
      ColonsMemberKey(T.name, a.name, Str(v));
      SetOnlyIndexes(db, m, db.Members(m) + {Str(oid)});
    }
  }

  /** The index loop writes nothing but indexes. */
  lemma {:induction false} ReindexOnlyIndexes(db: DB, T: TypeDesc, oid: Py, data: map<string, Py>, snap: map<string, Py>, attrs: seq<Attribute>)
    requires Covered(attrs, data, snap) && PlainNames(T, attrs)
    ensures OnlyIndexes(db, Reindex(db, T, oid, data, snap, attrs).0)
    decreases |attrs|
  {
    if attrs != [] {
      var init := attrs[..|attrs| - 1];
      var a := attrs[|attrs| - 1];
      ReindexOnlyIndexes(db, T, oid, data, snap, init);
      var st := Reindex(db, T, oid, data, snap, init);
      if a.indexed && a.name in data {
        var oldv := st.1[a.name];
        var d := if oldv != PNone then Unindex(st.0, T, oid, a, oldv) else st.0;
        if oldv != PNone { UnindexOnlyIndexes(st.0, T, oid, a, oldv); }
        IndexOnlyIndexes(d, T, oid, a, data[a.name]);
      }
    }
  }

  /** Unindexing on delete writes nothing but indexes. */
  lemma {:induction false} UnindexAllOnlyIndexes(db: DB, T: TypeDesc, oid: Py, snap: map<string, Py>, attrs: seq<Attribute>)
    requires forall i :: 0 <= i < |attrs| && attrs[i].indexed ==> attrs[i].name in snap
    requires PlainNames(T, attrs)
    ensures OnlyIndexes(db, UnindexAll(db, T, oid, snap, attrs))
    decreases |attrs|
  {
    if attrs != [] {
      var init := attrs[..|attrs| - 1];
      var a := attrs[|attrs| - 1];
      UnindexAllOnlyIndexes(db, T, oid, snap, init);
      if a.indexed && snap[a.name] != PNone {
        UnindexOnlyIndexes(UnindexAll(db, T, oid, snap, init), T, oid, a, snap[a.name]);
      }
    }
  }

  /** The first conflict of a prefix is the first conflict of the whole sequence:
      `__update_attrs` may stop at the first attribute that raises. */
  lemma {:induction false} FirstConflictStops(db: DB, T: TypeDesc, data: map<string, Py>, snap: map<string, Py>, attrs: seq<Attribute>, i: nat, textual: bool)
    requires Covered(attrs, data, snap) && i <= |attrs|
    requires FirstConflict(db, T, data, snap, attrs[..i], textual).Some?
    ensures FirstConflict(db, T, data, snap, attrs, textual) == FirstConflict(db, T, data, snap, attrs[..i], textual)
    decreases |attrs|
  {
    if i < |attrs| {
      var init := attrs[..|attrs| - 1];
      assert init[..i] == attrs[..i];
      FirstConflictStops(db, T, data, snap, init, i, textual);
    } else {
      assert attrs[..i] == attrs;
    }
  }

  /** `__check_unique` over the data, stopping at the first value already taken,
      with the comparison as written or corrected as `textual` picks. */
  method CheckUnique(st: Store, T: TypeDesc, data: map<string, Py>, snap: map<string, Py>, textual: bool) returns (c: Option<Error>)
    requires Covered(T.attributes, data, snap)
    ensures c == FirstConflict(st.View(), T, data, snap, T.attributes, textual)
  {
    var A := T.attributes;
    var db := st.View();
    c := None;
    var i := 0;
    while i < |A| && c.None?
      invariant 0 <= i <= |A|
      invariant c == FirstConflict(db, T, data, snap, A[..i], textual)
    {
      assert A[..i + 1][..i] == A[..i];
      var a := A[i];
      if a.unique && a.name in data && Changed(data[a.name], snap[a.name], textual) {
        var k := UniqueKey(T.name, a.name);
        var taken := st.HExists(k, Str(data[a.name]));
        if taken {
          c := Some(UniqueError(k + "<" + Str(data[a.name]) + ">"));
        }
      }
      i := i + 1;
    }
    if c.Some? {
      FirstConflictStops(db, T, data, snap, A, i, textual);
    } else {
      assert A[..i] == A;
    }
  }

  /** `__unindex` on the store. */
  method UnindexOp(st: Store, T: TypeDesc, oid: Py, a: Attribute, val: Py)
    modifies st
    ensures st.View() == Unindex(old(st.View()), T, oid, a, val)
  {
    if a.unique {
      var _ := st.HDel(UniqueKey(T.name, a.name), Str(val));
    } else {
      var _ := st.SRem(MemberKey(T.name, a.name, Str(val)), Str(oid));
    }
  }

  /** `__index` on the store. */
  method IndexOp(st: Store, T: TypeDesc, oid: Py, a: Attribute, val: Py)
    modifies st
    ensures st.View() == Index(old(st.View()), T, oid, a, val)
  {
    if a.unique {
      st.HSet(UniqueKey(T.name, a.name), Str(val), Str(oid));
    } else {
      st.SAdd(MemberKey(T.name, a.name, Str(val)), Str(oid));
    }
  }

  /** The index loop of `__update_attrs`, on the store and a snapshot. */
  method ReindexOp(st: Store, T: TypeDesc, oid: Py, data: map<string, Py>, snap: map<string, Py>) returns (snap': map<string, Py>)
    requires Covered(T.attributes, data, snap)
    modifies st
    ensures (st.View(), snap') == Reindex(old(st.View()), T, oid, data, snap, T.attributes)
  {
    var A := T.attributes;
    ghost var db := st.View();
    snap' := snap;
    var i := 0;
    while i < |A|
      invariant 0 <= i <= |A|
      invariant (st.View(), snap') == Reindex(db, T, oid, data, snap, A[..i])
    {
      assert A[..i + 1][..i] == A[..i];
      var a := A[i];
      if a.indexed && a.name in data {
        var oldv := snap'[a.name];
        if oldv != PNone {
          UnindexOp(st, T, oid, a, oldv);
        }
        IndexOp(st, T, oid, a, data[a.name]);
        snap' := snap'[a.name := data[a.name]];
      }
      i := i + 1;
    }
    assert A[..i] == A;
  }

  /** `__unindex_all`, on the store. */
  method UnindexAllOp(st: Store, T: TypeDesc, oid: Py, snap: map<string, Py>)
    requires forall i :: 0 <= i < |T.attributes| && T.attributes[i].indexed ==> T.attributes[i].name in snap
    modifies st
    ensures st.View() == UnindexAll(old(st.View()), T, oid, snap, T.attributes)
  {
    var A := T.attributes;
    ghost var db := st.View();
    var i := 0;
    while i < |A|
      invariant 0 <= i <= |A|
      invariant st.View() == UnindexAll(db, T, oid, snap, A[..i])
    {
      assert A[..i + 1][..i] == A[..i];
      var a := A[i];
      if a.indexed && snap[a.name] != PNone {
        UnindexOp(st, T, oid, a, snap[a.name]);
      }
      i := i + 1;
    }
    assert A[..i] == A;
  }

  /** The body of `__update_attrs` on the store and the record's id and snapshot. */
  method UpdateAttrsOp(st: Store, T: TypeDesc, oid: Py, data: map<string, Py>, snap: map<string, Py>, textual: bool) returns (r: Outcome, snap': map<string, Py>)
    requires Covered(T.attributes, data, snap)
    modifies st
    ensures (r, st.View(), snap') == UpdateEffect(old(st.View()), T, oid, data, snap, textual)
  {
    if |data| == 0 {
      return Pass, snap;
    }
    var c := CheckUnique(st, T, data, snap, textual);
    if c.Some? {
      return Fail(c.value), snap;
    }
    st.HMSet(KeyById(T.name, oid), StrMap(data));
    snap' := ReindexOp(st, T, oid, data, snap);
    r := Pass;
  }

  /** `ModelWriter`: writes records of one type. */
  class ModelWriter {
    const model: TypeDesc

    constructor (model: TypeDesc)
      ensures this.model == model
    {
      this.model := model;
    }

    /** `__update_attrs(obj, data)`: the record's unique values are checked, then
        the data is merged into its hash and its indexes and snapshot follow. */
    method UpdateAttrs(st: Store, obj: Record, data: map<string, Py>, textual: bool) returns (r: Outcome)
      requires obj.model == model && Covered(model.attributes, data, obj.snapshot)
      modifies st, obj
      ensures (r, st.View(), obj.snapshot) == UpdateEffect(old(st.View()), model, obj.oid, data, old(obj.snapshot), textual)
      ensures obj.oid == old(obj.oid) && obj.values == old(obj.values) && obj.containers == old(obj.containers)
    {
      var snap;
      r, snap := UpdateAttrsOp(st, model, obj.oid, data, obj.snapshot, textual);
      obj.snapshot := snap;
    }

    /** `create(obj, owner)`: the record gets the next id of the type, or its
        owner's id, is saved and indexed, and gets its list and set handles. */
    method Create(st: Store, obj: Record, owner: Option<Handle>) returns (r: Outcome)
      requires obj.model == model && obj.oid == PNone
      requires owner.Some? ==> owner.value.oid != PNone
      requires (owner.None? && model.owner.None?) || (owner.Some? && model.owner == Some(owner.value.model))
      requires DistinctNames(model.attributes) && FitsAll(model, obj.values)
      requires Covered(model.attributes, Dict(model, obj.values), obj.snapshot)
      modifies st, obj
      ensures (r, st.View(), obj.State()) == CreateEffect(old(st.View()), model, old(obj.State()), owner)
    {
      if owner.None? {
        var n := st.Incr(CounterKey(model.name));
        obj.oid := PStr(IntToString(n));
      } else {
        obj.oid := owner.value.oid;
      }
      var data := obj.MakeDict();
      r := UpdateAttrs(st, obj, data, false);
      if r.Fail? {
        return;
      }
      obj.BindContainers(obj.Key());
    }

    /** `update(obj, **kwargs)`: the keywords are assigned and written. A keyword
        that names no attribute raises KeyError before anything is written, and
        the keywords visited before it stay assigned. */
    method Update(st: Store, obj: Record, kwargs: map<string, Value>) returns (r: Outcome)
      requires obj.model == model && obj.oid != PNone && |kwargs| > 0
      requires Accepted(model, kwargs)
      requires Assignable(model, kwargs) ==> Covered(model.attributes, Dict(model, Coerced(model, kwargs)), obj.snapshot)
      modifies st, obj
      ensures !Assignable(model, kwargs) ==>
        && r.Fail? && r.error.KeyError? && r.error.key in kwargs && model.AttrOf(r.error.key).None?
        && st.View() == old(st.View()) && obj.snapshot == old(obj.snapshot)
        && PartlyAssigned(model, old(obj.values), kwargs, obj.values)
      ensures Assignable(model, kwargs) ==>
        && obj.values == old(obj.values) + Coerced(model, kwargs)
        && (r, st.View(), obj.snapshot) == UpdateEffect(old(st.View()), model, obj.oid, Dict(model, Coerced(model, kwargs)), old(obj.snapshot), true)
      ensures obj.oid == old(obj.oid) && obj.containers == old(obj.containers)
    {
      var data := obj.UpdateAttributesDict(kwargs);
      if data.Err? {
        return Fail(data.error);
      }
      r := UpdateAttrs(st, obj, data.value, true);
    }

    /** `update_all(obj)`: every value the record holds is written. */
    method UpdateAll(st: Store, obj: Record) returns (r: Outcome)
      requires obj.model == model && obj.oid != PNone
      requires DistinctNames(model.attributes) && FitsAll(model, obj.values)
      requires Covered(model.attributes, Dict(model, obj.values), obj.snapshot)
      modifies st, obj
      ensures (r, st.View(), obj.snapshot) == UpdateEffect(old(st.View()), model, obj.oid, Dict(model, old(obj.values)), old(obj.snapshot), true)
      ensures obj.oid == old(obj.oid) && obj.values == old(obj.values) && obj.containers == old(obj.containers)
    {
      var data := obj.MakeDict();
      r := UpdateAttrs(st, obj, data, true);
    }

    /** `delete(obj)`: a stored record loses its index entries and its hash, and
        its id is cleared. */
    method Delete(st: Store, obj: Record) returns (r: Outcome)
      requires obj.model == model && obj.oid != PNone
      requires forall i :: 0 <= i < |model.attributes| && model.attributes[i].indexed ==> model.attributes[i].name in obj.snapshot
      modifies st, obj
      ensures (r, st.View()) == DeleteEffect(old(st.View()), model, old(obj.oid), old(obj.snapshot))
      ensures obj.oid == (if r.Pass? then PNone else old(obj.oid))
      ensures obj.values == old(obj.values) && obj.snapshot == old(obj.snapshot) && obj.containers == old(obj.containers)
    {
      var key := obj.Key();
      var found := st.Exists(key);
      if !found {
        return Fail(NotFoundError(key));
      }
      UnindexAllOp(st, model, obj.oid, obj.snapshot);
      st.Delete(key);
      obj.oid := PNone;
      r := Pass;
    }
  }

  /** The conflict `__update_attrs` raises is the first attribute, in declaration
      order, whose changed unique value is already taken; there is none exactly
      when no attribute conflicts. */
  lemma {:induction false} FirstConflictIsFirst(db: DB, T: TypeDesc, data: map<string, Py>, snap: map<string, Py>, attrs: seq<Attribute>, textual: bool)
    requires Covered(attrs, data, snap)
    ensures var c := FirstConflict(db, T, data, snap, attrs, textual);
      && (c.None? ==> forall i :: 0 <= i < |attrs| ==> Conflict(db, T, data, snap, attrs[i], textual).None?)
      && (c.Some? ==> exists i :: 0 <= i < |attrs| && c == Conflict(db, T, data, snap, attrs[i], textual)
                       && forall j :: 0 <= j < i ==> Conflict(db, T, data, snap, attrs[j], textual).None?)
    decreases |attrs|
  {
    if attrs != [] {
      var init := attrs[..|attrs| - 1];
      FirstConflictIsFirst(db, T, data, snap, init, textual);
      var c := FirstConflict(db, T, data, snap, init, textual);
      if c.Some? {
        var i :| 0 <= i < |init| && c == Conflict(db, T, data, snap, init[i], textual)
                 && forall j :: 0 <= j < i ==> Conflict(db, T, data, snap, init[j], textual).None?;
        assert attrs[i] == init[i];
        assert forall j :: 0 <= j < i ==> attrs[j] == init[j];
      } else {
        assert forall i :: 0 <= i < |init| ==> attrs[i] == init[i];
      }
    }
  }

  /** `__update_attrs` fails exactly when the data is not empty and some unique
      value conflicts, and then with a UniqueError and without writing anything. */
  lemma UpdateFailsOnConflict(db: DB, T: TypeDesc, oid: Py, data: map<string, Py>, snap: map<string, Py>, textual: bool)
    requires Covered(T.attributes, data, snap)
    ensures var r := UpdateEffect(db, T, oid, data, snap, textual);
      && (r.0.Fail? <==> data != map[] && exists i :: 0 <= i < |T.attributes| && Conflict(db, T, data, snap, T.attributes[i], textual).Some?)
      && (r.0.Fail? ==> r.0.error.UniqueError? && r.1 == db && r.2 == snap)
      && (data == map[] ==> r == (Pass, db, snap))
  {
    FirstConflictIsFirst(db, T, data, snap, T.attributes, textual);
  }

  /** A successful `__update_attrs` merges the data into the record's hash, and
      writes nothing else but indexes. */
  lemma UpdateWritesHash(db: DB, T: TypeDesc, oid: Py, data: map<string, Py>, snap: map<string, Py>, textual: bool)
    requires Covered(T.attributes, data, snap) && PlainNames(T, T.attributes) && PlainId(oid)
    ensures var r := UpdateEffect(db, T, oid, data, snap, textual);
      var key := KeyById(T.name, oid);
      r.0.Pass? ==>
        && r.1.Hash(key) == db.Hash(key) + StrMap(data)
        && (forall k :: k != key && Colons(k) != 2 ==> r.1.Hash(k) == db.Hash(k))
        && (forall k :: Colons(k) < 3 ==> r.1.Members(k) == db.Members(k))
        && r.1.lists == db.lists && r.1.zsets == db.zsets && r.1.counters == db.counters
  {
    var key := KeyById(T.name, oid);
    if data == map[] {
      assert StrMap(data) == map[];
      assert db.Hash(key) + StrMap(data) == db.Hash(key);
    } else if FirstConflict(db, T, data, snap, T.attributes, textual).None? {
      var d := db.HMSet(key, StrMap(data));
      ReindexOnlyIndexes(d, T, oid, data, snap, T.attributes);
      ColonsKeyById(T.name, oid);
      HashWriteFrame(db, key, db.Hash(key) + StrMap(data), Reindex(d, T, oid, data, snap, T.attributes).0);
    }
  }

  /** A hash write on a key with one colon, followed by index writes. */
  lemma HashWriteFrame(db: DB, key: string, h: map<string, string>, r: DB)
    requires Colons(key) == 1 && OnlyIndexes(db.PutHash(key, h), r)
    ensures r.Hash(key) == h
    ensures forall k :: k != key && Colons(k) != 2 ==> r.Hash(k) == db.Hash(k)
    ensures forall k :: Colons(k) < 3 ==> r.Members(k) == db.Members(k)
    ensures r.lists == db.lists && r.zsets == db.zsets && r.counters == db.counters
  {
  }

  /** What index maintenance needs of a type: colon-free names, distinct
      attribute names, and unique attributes indexed. */
  predicate Indexable(T: TypeDesc)
  {
    PlainNames(T, T.attributes) && DistinctNames(T.attributes) && UniqueIndexed(T.attributes)
  }

  /** The index of attribute `a` sends value `v` to the record id. */
  ghost predicate Indexes(db: DB, T: TypeDesc, oid: Py, a: Attribute, v: Py)
  {
    if a.unique then db.HGet(UniqueKey(T.name, a.name), Str(v)) == Some(Str(oid))
    else Str(oid) in db.Members(MemberKey(T.name, a.name, Str(v)))
  }

  /** The index of attribute `a` no longer lists the record under value `v`. */
  ghost predicate Forgets(db: DB, T: TypeDesc, oid: Py, a: Attribute, v: Py)
  {
    if a.unique then !db.HExists(UniqueKey(T.name, a.name), Str(v))
    else Str(oid) !in db.Members(MemberKey(T.name, a.name, Str(v)))
  }

  /** The index entries of field `f` are the same in both states. */
  ghost predicate SameIndex(db: DB, d: DB, T: TypeDesc, f: string)
  {
    && d.Hash(UniqueKey(T.name, f)) == db.Hash(UniqueKey(T.name, f))
    && forall x :: d.Members(MemberKey(T.name, f, x)) == db.Members(MemberKey(T.name, f, x))
  }

  /** The index keys of two different fields of a type are different. */
  lemma IndexKeysApart(T: TypeDesc, b: string, f: string)
    requires ColonFree(T.name) && ColonFree(b) && ColonFree(f) && b != f
    ensures UniqueKey(T.name, b) != UniqueKey(T.name, f)
    ensures forall x :: MemberKey(T.name, f, x) != UniqueKey(T.name, b)
    ensures forall x, y :: MemberKey(T.name, b, y) != MemberKey(T.name, f, x)
    ensures forall y :: MemberKey(T.name, b, y) != UniqueKey(T.name, f)
  {
    if UniqueKey(T.name, b) == UniqueKey(T.name, f) { UniqueKeyInjective(T.name, b, f); }
    ColonsUniqueKey(T.name, b);
    ColonsUniqueKey(T.name, f);
    forall x ensures MemberKey(T.name, f, x) != UniqueKey(T.name, b) && MemberKey(T.name, f, x) != UniqueKey(T.name, f) {
      ColonsMemberKey(T.name, f, x);
    }
    forall y ensures MemberKey(T.name, b, y) != UniqueKey(T.name, f) {
      ColonsMemberKey(T.name, b, y);
    }
    forall x, y ensures MemberKey(T.name, b, y) != MemberKey(T.name, f, x) {
      if MemberKey(T.name, b, y) == MemberKey(T.name, f, x) { MemberKeyInjective(T.name, b, y, f, x); }
    }
  }

  /** Indexing or unindexing field `b` leaves the index of another field alone. */
  lemma StepKeepsOther(st: (DB, map<string, Py>), T: TypeDesc, oid: Py, data: map<string, Py>, b: Attribute, f: string)
    requires (b.indexed || b.unique) && b.name in data ==> b.name in st.1
    requires ColonFree(T.name) && ColonFree(b.name) && ColonFree(f) && b.name != f
    ensures var r := Step(st, T, oid, data, b);
      SameIndex(st.0, r.0, T, f) && (f in st.1 ==> f in r.1 && r.1[f] == st.1[f])
  {
    IndexKeysApart(T, b.name, f);
  }

  /** The index loop over attributes not named `f` leaves the index and the
      snapshot entry of `f` alone. */
  lemma {:induction false} ReindexKeepsOther(db: DB, T: TypeDesc, oid: Py, data: map<string, Py>, snap: map<string, Py>, attrs: seq<Attribute>, f: string)
    requires Covered(attrs, data, snap) && PlainNames(T, attrs) && ColonFree(f)
    requires forall i :: 0 <= i < |attrs| ==> attrs[i].name != f
    ensures var r := Reindex(db, T, oid, data, snap, attrs);
      SameIndex(db, r.0, T, f) && (f in snap ==> r.1[f] == snap[f])
    decreases |attrs|
  {
    if attrs != [] {
      var init := attrs[..|attrs| - 1];
      ReindexKeepsOther(db, T, oid, data, snap, init, f);
      StepKeepsOther(Reindex(db, T, oid, data, snap, init), T, oid, data, attrs[|attrs| - 1], f);
    }
  }

  /** One step on an indexed attribute in the data: its new value is indexed and
      recorded, and an old value with a different text is forgotten. */
  lemma StepIndexes(st: (DB, map<string, Py>), T: TypeDesc, oid: Py, data: map<string, Py>, a: Attribute)
    requires a.indexed && a.name in data && a.name in st.1
    requires ColonFree(T.name) && ColonFree(a.name)
    ensures var r := Step(st, T, oid, data, a);
      var v := data[a.name];
      var oldv := st.1[a.name];
      && Indexes(r.0, T, oid, a, v) && r.1[a.name] == v
      && (oldv != PNone && Str(oldv) != Str(v) ==> Forgets(r.0, T, oid, a, oldv))
  {
    var v := data[a.name];
    var oldv := st.1[a.name];
    if !a.unique && MemberKey(T.name, a.name, Str(oldv)) == MemberKey(T.name, a.name, Str(v)) {
      MemberKeyInjective(T.name, a.name, Str(oldv), a.name, Str(v));
    }
  }

  /** After the index loop, every indexed attribute of the data is indexed under
      its new value, recorded in the snapshot, and no longer indexed under an old
      value whose text differs. */
  lemma {:induction false} ReindexAt(db: DB, T: TypeDesc, oid: Py, data: map<string, Py>, snap: map<string, Py>, attrs: seq<Attribute>, i: nat)
    requires Covered(attrs, data, snap) && PlainNames(T, attrs) && DistinctNames(attrs)
    requires i < |attrs| && attrs[i].indexed && attrs[i].name in data
    ensures var r := Reindex(db, T, oid, data, snap, attrs);
      var a := attrs[i];
      var v := data[a.name];
      var oldv := snap[a.name];
      && Indexes(r.0, T, oid, a, v) && r.1[a.name] == v
      && (oldv != PNone && Str(oldv) != Str(v) ==> Forgets(r.0, T, oid, a, oldv))
    decreases |attrs|
  {
    var init := attrs[..|attrs| - 1];
    var a := attrs[i];
    if i == |attrs| - 1 {
      ReindexKeepsOther(db, T, oid, data, snap, init, a.name);
      StepIndexes(Reindex(db, T, oid, data, snap, init), T, oid, data, a);
    } else {
      assert init[i] == a;
      ReindexAt(db, T, oid, data, snap, init, i);
      StepKeepsOther(Reindex(db, T, oid, data, snap, init), T, oid, data, attrs[|attrs| - 1], a.name);
    }
  }

  /** What a successful update leaves in the indexes, attribute by attribute. */
  lemma UpdateIndexes(db: DB, T: TypeDesc, oid: Py, data: map<string, Py>, snap: map<string, Py>, textual: bool, i: nat)
    requires Covered(T.attributes, data, snap) && Indexable(T)
    requires i < |T.attributes| && T.attributes[i].indexed && T.attributes[i].name in data
    ensures var r := UpdateEffect(db, T, oid, data, snap, textual);
      var a := T.attributes[i];
      var v := data[a.name];
      var oldv := snap[a.name];
      r.0.Pass? ==>
        && Indexes(r.1, T, oid, a, v) && r.2[a.name] == v
        && (oldv != PNone && Str(oldv) != Str(v) ==> Forgets(r.1, T, oid, a, oldv))
  {
    var r := UpdateEffect(db, T, oid, data, snap, textual);
    if r.0.Pass? {
      ReindexAt(db.HMSet(KeyById(T.name, oid), StrMap(data)), T, oid, data, snap, T.attributes, i);
    }
  }

  /** Unindexing field `b` leaves the index of another field alone. */
  lemma UnindexKeepsOther(db: DB, T: TypeDesc, oid: Py, b: Attribute, v: Py, f: string)
    requires ColonFree(T.name) && ColonFree(b.name) && ColonFree(f) && b.name != f
    ensures SameIndex(db, Unindex(db, T, oid, b, v), T, f)
  {
    IndexKeysApart(T, b.name, f);
  }

  lemma {:induction false} UnindexAllKeepsOther(db: DB, T: TypeDesc, oid: Py, snap: map<string, Py>, attrs: seq<Attribute>, f: string)
    requires forall i :: 0 <= i < |attrs| && attrs[i].indexed ==> attrs[i].name in snap
    requires PlainNames(T, attrs) && ColonFree(f)
    requires forall i :: 0 <= i < |attrs| ==> attrs[i].name != f
    ensures SameIndex(db, UnindexAll(db, T, oid, snap, attrs), T, f)
    decreases |attrs|
  {
    if attrs != [] {
      var init := attrs[..|attrs| - 1];
      var a := attrs[|attrs| - 1];
      UnindexAllKeepsOther(db, T, oid, snap, init, f);
      if a.indexed && snap[a.name] != PNone {
        UnindexKeepsOther(UnindexAll(db, T, oid, snap, init), T, oid, a, snap[a.name], f);
      }
    }
  }

  /** `__unindex_all` forgets every indexed attribute whose snapshot is set. */
  lemma {:induction false} UnindexAllAt(db: DB, T: TypeDesc, oid: Py, snap: map<string, Py>, attrs: seq<Attribute>, i: nat)
    requires forall j :: 0 <= j < |attrs| && attrs[j].indexed ==> attrs[j].name in snap
    requires PlainNames(T, attrs) && DistinctNames(attrs)
    requires i < |attrs| && attrs[i].indexed && snap[attrs[i].name] != PNone
    ensures Forgets(UnindexAll(db, T, oid, snap, attrs), T, oid, attrs[i], snap[attrs[i].name])
    decreases |attrs|
  {
    var init := attrs[..|attrs| - 1];
    var a := attrs[i];
    if i < |attrs| - 1 {
      assert init[i] == a;
      UnindexAllAt(db, T, oid, snap, init, i);
      var b := attrs[|attrs| - 1];
      if b.indexed && snap[b.name] != PNone {
        UnindexKeepsOther(UnindexAll(db, T, oid, snap, init), T, oid, b, snap[b.name], a.name);
      }
    }
  }

  /** `delete` fails exactly for a record that is not stored, and then writes
      nothing. Otherwise the record's hash is gone, so loading it raises
      NotFoundError, and no index lists it under its snapshot values. */
  lemma DeleteRemoves(db: DB, T: TypeDesc, oid: Py, snap: map<string, Py>)
    requires forall i :: 0 <= i < |T.attributes| && T.attributes[i].indexed ==> T.attributes[i].name in snap
    requires Indexable(T) && PlainId(oid)
    ensures var r := DeleteEffect(db, T, oid, snap);
      var key := KeyById(T.name, oid);
      && (r.0.Fail? <==> !db.Exists(key))
      && (r.0.Fail? ==> r.0.error == NotFoundError(key) && r.1 == db)
      && (r.0.Pass? ==> !r.1.Exists(key))
      && (r.0.Pass? && |T.attributes| > 0 ==> LoadState(r.1, T, ById(T, oid)) == Err(NotFoundError(key)))
      && (r.0.Pass? ==> forall i :: 0 <= i < |T.attributes| && T.attributes[i].indexed && snap[T.attributes[i].name] != PNone ==>
                          Forgets(r.1, T, oid, T.attributes[i], snap[T.attributes[i].name]))
  {
    var key := KeyById(T.name, oid);
    var r := DeleteEffect(db, T, oid, snap);
    if r.0.Pass? {
      if |T.attributes| > 0 {
        LoadMissing(r.1, T, ById(T, oid));
      }
      var u := UnindexAll(db, T, oid, snap, T.attributes);
      ColonsKeyById(T.name, oid);
      forall i | 0 <= i < |T.attributes| && T.attributes[i].indexed && snap[T.attributes[i].name] != PNone
        ensures Forgets(r.1, T, oid, T.attributes[i], snap[T.attributes[i].name])
      {
        var a := T.attributes[i];
        UnindexAllAt(db, T, oid, snap, T.attributes, i);
        ColonsUniqueKey(T.name, a.name);
        ColonsMemberKey(T.name, a.name, Str(snap[a.name]));
      }
    }
  }

  /** `create` takes the next value of the type's counter as the id of a record
      without owner, and the owner's id otherwise; only the former moves the counter. */
  lemma CreateIds(db: DB, T: TypeDesc, s: RecordState, owner: Option<Handle>)
    requires FitsAll(T, s.values) && Covered(T.attributes, Dict(T, s.values), s.snapshot)
    requires PlainNames(T, T.attributes) && (owner.Some? ==> PlainId(owner.value.oid))
    ensures var r := CreateEffect(db, T, s, owner);
      var ck := CounterKey(T.name);
      && (owner.None? ==> r.2.oid == PStr(IntToString(db.Counter(ck) + 1)) && r.1.Counter(ck) == db.Counter(ck) + 1)
      && (owner.Some? ==> r.2.oid == owner.value.oid && r.1.counters == db.counters)
      && (r.0.Fail? ==> r.1 == (if owner.None? then db.Incr(ck) else db))
  {
    var (oid, d0) := NewId(db, T, owner);
    if owner.None? {
      IntToStringColonFree(db.Counter(CounterKey(T.name)) + 1);
    }
    UpdateWritesHash(d0, T, oid, Dict(T, s.values), s.snapshot, false);
    UpdateFailsOnConflict(d0, T, oid, Dict(T, s.values), s.snapshot, false);
  }

  /** Two records created one after the other get different ids. */
  lemma SuccessiveCreatesDiffer(db: DB, T: TypeDesc, s1: RecordState, s2: RecordState)
    requires FitsAll(T, s1.values) && Covered(T.attributes, Dict(T, s1.values), s1.snapshot)
    requires FitsAll(T, s2.values) && Covered(T.attributes, Dict(T, s2.values), s2.snapshot)
    requires PlainNames(T, T.attributes)
    ensures var r1 := CreateEffect(db, T, s1, None);
      r1.2.oid != CreateEffect(r1.1, T, s2, None).2.oid
  {
    var r1 := CreateEffect(db, T, s1, None);
    CreateIds(db, T, s1, None);
    CreateIds(r1.1, T, s2, None);
    var n := db.Counter(CounterKey(T.name)) + 1;
    ParseIntToString(n);
    ParseIntToString(n + 1);
  }

  /** A type whose counter is not set yet numbers its first two records "1" and "2". */
  lemma FirstIds(db: DB, T: TypeDesc, s1: RecordState, s2: RecordState)
    requires FitsAll(T, s1.values) && Covered(T.attributes, Dict(T, s1.values), s1.snapshot)
    requires FitsAll(T, s2.values) && Covered(T.attributes, Dict(T, s2.values), s2.snapshot)
    requires PlainNames(T, T.attributes) && CounterKey(T.name) !in db.counters
    ensures var r1 := CreateEffect(db, T, s1, None);
      r1.2.oid == PStr("1") && CreateEffect(r1.1, T, s2, None).2.oid == PStr("2")
  {
    var r1 := CreateEffect(db, T, s1, None);
    CreateIds(db, T, s1, None);
    CreateIds(r1.1, T, s2, None);
  }

  /** Loading a record just created gives back its values, the stored texts of
      its tracked attributes as snapshot, and its list and set handles. */
  lemma CreateThenLoad(db: DB, T: TypeDesc, s: RecordState, owner: Option<Handle>)
    requires T.Valid() && s.values.Keys == T.AttrNames() && AllWellTyped(T, s.values)
    requires Covered(T.attributes, Dict(T, s.values), s.snapshot)
    requires owner.Some? ==> owner.value.oid.PStr? && PlainId(owner.value.oid)
    ensures var r := CreateEffect(db, T, s, owner);
      r.0.Pass? ==>
        LoadState(r.1, T, ById(T, r.2.oid))
          == Ok(RecordState(r.2.oid, s.values, WrittenSnapshot(T, s.values), FieldHandles(T, KeyById(T.name, r.2.oid))))
  {
    var (oid, d0) := NewId(db, T, owner);
    if owner.None? {
      IntToStringColonFree(db.Counter(CounterKey(T.name)) + 1);
    }
    var key := KeyById(T.name, oid);
    assert d0.Hash(key) == db.Hash(key);
    var r := CreateEffect(db, T, s, owner);
    if r.0.Pass? {
      UpdateWritesHash(d0, T, oid, Dict(T, s.values), s.snapshot, false);
      LoadAfterWrite(r.1, T, ById(T, oid), s.values, d0.Hash(key));
    }
  }

  /** After a successful `create`, every indexed attribute is indexed under the
      value written. */
  lemma CreateIndexes(db: DB, T: TypeDesc, s: RecordState, owner: Option<Handle>, i: nat)
    requires Indexable(T) && FitsAll(T, s.values) && Covered(T.attributes, Dict(T, s.values), s.snapshot)
    requires i < |T.attributes| && T.attributes[i].indexed && T.attributes[i].name in s.values
    ensures var r := CreateEffect(db, T, s, owner);
      r.0.Pass? ==> Indexes(r.1, T, r.2.oid, T.attributes[i], Dict(T, s.values)[T.attributes[i].name])
  {
    var (oid, d0) := NewId(db, T, owner);
    UpdateIndexes(d0, T, oid, Dict(T, s.values), s.snapshot, false, i);
  }

  /** `create` checks every unique value that differs from the record's snapshot
      as a Python value: once the unique map holds it, creation fails with a
      UniqueError and only the id counter has moved. A deleted record created
      again still carries its snapshot, whose stored text does not exempt an
      integer from the check. */
  lemma CreateChecksChangedUnique(db: DB, T: TypeDesc, s: RecordState, owner: Option<Handle>, i: nat)
    requires FitsAll(T, s.values) && Covered(T.attributes, Dict(T, s.values), s.snapshot)
    requires i < |T.attributes| && T.attributes[i].unique
    requires T.attributes[i].name in Dict(T, s.values)
    requires Changed(Dict(T, s.values)[T.attributes[i].name], s.snapshot[T.attributes[i].name], false)
    requires db.HExists(UniqueKey(T.name, T.attributes[i].name), Str(Dict(T, s.values)[T.attributes[i].name]))
    ensures var r := CreateEffect(db, T, s, owner);
      && r.0.Fail? && r.0.error.UniqueError?
      && r.1 == NewId(db, T, owner).1 && r.2.containers == s.containers
  {
    var (oid, d0) := NewId(db, T, owner);
    var data := Dict(T, s.values);
    var a := T.attributes[i];
    assert d0.HExists(UniqueKey(T.name, a.name), Str(data[a.name]));
    assert Conflict(d0, T, data, s.snapshot, a, false).Some?;
    UpdateFailsOnConflict(d0, T, oid, data, s.snapshot, false);
  }

  /** A unique attribute is indexed, as its constructor makes it. */
  predicate UniqueIndexed(attrs: seq<Attribute>)
  {
    forall i :: 0 <= i < |attrs| && attrs[i].unique ==> attrs[i].indexed
  }

  /** The snapshot a load takes covers every indexed attribute of the values
      loaded. */
  lemma WrittenCovered(T: TypeDesc, values: map<string, Value>)
    requires UniqueIndexed(T.attributes) && FitsAll(T, values)
    ensures Covered(T.attributes, Dict(T, values), WrittenSnapshot(T, values))
  {
    var A := T.attributes;
    forall i | 0 <= i < |A| && (A[i].indexed || A[i].unique) && A[i].name in Dict(T, values)
      ensures A[i].name in WrittenSnapshot(T, values)
    {
      assert A[i].name in Tracked(A);
    }
  }

  /** As written: a record with a unique IntegerField, created and loaded back,
      cannot be saved unchanged with `update_all`. The snapshot holds the stored
      text while `make_dict` gives the integer, so the value counts as changed and
      the record's own entry in the unique map is taken for a conflict. */
  lemma UpdateAllAfterLoadRejects(db: DB, T: TypeDesc, s: RecordState, i: nat)
    requires T.Valid() && s.values.Keys == T.AttrNames() && AllWellTyped(T, s.values)
    requires Covered(T.attributes, Dict(T, s.values), s.snapshot)
    requires i < |T.attributes| && T.attributes[i].unique && T.attributes[i].kind.Integer?
    ensures Covered(T.attributes, Dict(T, s.values), WrittenSnapshot(T, s.values))
    ensures var r := CreateEffect(db, T, s, None);
      r.0.Pass? ==>
        && LoadState(r.1, T, ById(T, r.2.oid))
             == Ok(RecordState(r.2.oid, s.values, WrittenSnapshot(T, s.values), FieldHandles(T, KeyById(T.name, r.2.oid))))
        && UpdateEffect(r.1, T, r.2.oid, Dict(T, s.values), WrittenSnapshot(T, s.values), false).0.Fail?
        && UpdateEffect(r.1, T, r.2.oid, Dict(T, s.values), WrittenSnapshot(T, s.values), false).0.error.UniqueError?
  {
    WrittenCovered(T, s.values);
    var r := CreateEffect(db, T, s, None);
    if r.0.Pass? {
      CreateThenLoad(db, T, s, None);
      assert T.attributes[i].name in T.AttrNames();
      CreateIndexes(db, T, s, None, i);
      IndexedIntegerConflicts(r.1, T, r.2.oid, s.values, i);
    }
  }

  /** The step of the above: an indexed unique IntegerField conflicts with its
      own entry when saved against the stored text. */
  lemma IndexedIntegerConflicts(db: DB, T: TypeDesc, oid: Py, values: map<string, Value>, i: nat)
    requires DistinctNames(T.attributes) && UniqueIndexed(T.attributes) && AllWellTyped(T, values)
    requires i < |T.attributes| && T.attributes[i].unique && T.attributes[i].kind.Integer?
    requires T.attributes[i].name in values
    requires Indexes(db, T, oid, T.attributes[i], Dict(T, values)[T.attributes[i].name])
    ensures Covered(T.attributes, Dict(T, values), WrittenSnapshot(T, values))
    ensures UpdateEffect(db, T, oid, Dict(T, values), WrittenSnapshot(T, values), false).0.Fail?
    ensures UpdateEffect(db, T, oid, Dict(T, values), WrittenSnapshot(T, values), false).0.error.UniqueError?
  {
    WrittenCovered(T, values);
    var a := T.attributes[i];
    var data := Dict(T, values);
    var snap := WrittenSnapshot(T, values);
    LookupAt(T.attributes, i);
    assert data[a.name].PInt?;
    assert Conflict(db, T, data, snap, a, false).Some?;
    UpdateFailsOnConflict(db, T, oid, data, snap, false);
  }

  /** Corrected: comparing the texts the store holds, a record loaded back saves
      unchanged without any conflict. */
  lemma LoadedRecordSavesUnchanged(db: DB, T: TypeDesc, oid: Py, values: map<string, Value>)
    requires UniqueIndexed(T.attributes) && FitsAll(T, values)
    ensures Covered(T.attributes, Dict(T, values), WrittenSnapshot(T, values))
    ensures UpdateEffect(db, T, oid, Dict(T, values), WrittenSnapshot(T, values), true).0 == Pass
  {
    WrittenCovered(T, values);
    var data := Dict(T, values);
    var snap := WrittenSnapshot(T, values);
    forall j | 0 <= j < |T.attributes|
      ensures Conflict(db, T, data, snap, T.attributes[j], true).None?
    {
    }
    UpdateFailsOnConflict(db, T, oid, data, snap, true);
  }

  /** After a successful `create`, `find` on a unique attribute gives the new
      record's handle. */
  lemma CreateThenFind(db: DB, T: TypeDesc, s: RecordState, i: nat)
    requires Indexable(T) && FitsAll(T, s.values) && Covered(T.attributes, Dict(T, s.values), s.snapshot)
    requires i < |T.attributes| && T.attributes[i].unique && T.attributes[i].name in s.values
    requires NoDoubleUnderscore(T.attributes[i].name)
    requires QueryFits(T, T.attributes[i].name, s.values[T.attributes[i].name])
    ensures QueryField(T.attributes[i].name) == (T.attributes[i].name, None)
    ensures var r := CreateEffect(db, T, s, None);
      r.0.Pass? ==> Find(r.1, T, T.attributes[i].name, s.values[T.attributes[i].name]) == Ok(Some(Handle(T.name, r.2.oid)))
  {
    var a := T.attributes[i];
    QueryFieldParts(a.name, "");
    var r := CreateEffect(db, T, s, None);
    CreateIds(db, T, s, None);
    IntToStringColonFree(db.Counter(CounterKey(T.name)) + 1);
    if r.0.Pass? {
      CreateIndexes(db, T, s, None, i);
      LookupAt(T.attributes, i);
      FindHit(r.1, T, a.name, s.values[a.name], Str(r.2.oid));
    }
  }

  /** After a successful `create`, `multifind` on an indexed, not unique
      attribute includes the new record's handle. */
  lemma CreateThenMultifind(db: DB, T: TypeDesc, s: RecordState, i: nat)
    requires Indexable(T) && FitsAll(T, s.values) && Covered(T.attributes, Dict(T, s.values), s.snapshot)
    requires i < |T.attributes| && T.attributes[i].indexed && !T.attributes[i].unique && T.attributes[i].name in s.values
    requires NoDoubleUnderscore(T.attributes[i].name)
    requires QueryFits(T, T.attributes[i].name, s.values[T.attributes[i].name])
    ensures QueryField(T.attributes[i].name) == (T.attributes[i].name, None)
    ensures var r := CreateEffect(db, T, s, None);
      r.0.Pass? ==>
        && Multifind(r.1, T, T.attributes[i].name, s.values[T.attributes[i].name]).Ok?
        && Multifind(r.1, T, T.attributes[i].name, s.values[T.attributes[i].name]).value.Some?
        && Handle(T.name, r.2.oid) in Multifind(r.1, T, T.attributes[i].name, s.values[T.attributes[i].name]).value.value
  {
    var a := T.attributes[i];
    QueryFieldParts(a.name, "");
    var r := CreateEffect(db, T, s, None);
    CreateIds(db, T, s, None);
    IntToStringColonFree(db.Counter(CounterKey(T.name)) + 1);
    if r.0.Pass? {
      CreateIndexes(db, T, s, None, i);
      LookupAt(T.attributes, i);
      MultifindHit(r.1, T, a.name, s.values[a.name], Str(r.2.oid));
    }
  }

  /** The index key of a list or set field: `u:Type:name` for a unique field,
      `i:Type:name` for another indexed one, none otherwise. */
  function FieldIndexKey(f: ContainerField): Option<string>
  {
    if f.indexed then Some((if f.unique then "u:" else "i:") + f.model + ":" + f.name) else None
  }

  /** The container writer a field writer is. */
  function FieldWriter(f: ContainerField): ContainerWriter
  {
    ContainerWriter(f.kind, f.target, FieldIndexKey(f), f.unique)
  }

  /** A field's container index lives where `find` and `multifind` look for an
      attribute of that name: the unique map of the field, or its membership sets. */
  lemma FieldIndexKeys(f: ContainerField, raw: string)
    ensures FieldWriter(f).Indexed() <==> f.indexed
    ensures f.indexed && f.unique ==> FieldIndexKey(f) == Some(UniqueKey(f.model, f.name))
    ensures f.indexed && !f.unique ==> EntryKey(FieldIndexKey(f).value, raw) == MemberKey(f.model, f.name, raw)
  {
  }

  /** After appending to a unique indexed list or set field of a record, `find`
      on the field gives the record that owns the container. */
  lemma AppendThenFind(db: DB, T: TypeDesc, f: ContainerField, oid: Py, value: Value)
    requires f.model == T.name && f.indexed && f.unique && (f.kind == ListKind || f.kind == SetKind)
    requires ColonFree(T.name) && ColonFree(f.name) && PlainId(oid) && Str(oid) != "" && NoDoubleUnderscore(f.name)
    requires Matches(f.target, value) && QueryFits(T, f.name, value)
    ensures QueryField(f.name) == (f.name, None)
    ensures var h := ContainerHandle(f.kind, FieldKey(KeyById(T.name, oid), f.name), f.target);
      var r := FieldWriter(f).AppendEffect(db, h, Encode(f.target, value), None);
      r.0.Pass? ==> Find(r.1, T, f.name, value) == Ok(Some(Handle(T.name, PStr(Str(oid)))))
  {
    QueryFieldParts(f.name, "");
    OwnerSegment(T.name, oid, f.name);
    var h := ContainerHandle(f.kind, FieldKey(KeyById(T.name, oid), f.name), f.target);
    var r := FieldWriter(f).AppendEffect(db, h, Encode(f.target, value), None);
    if r.0.Pass? {
      assert Str(QueryScalar(value)) == Encode(f.target, value);
      FindHit(r.1, T, f.name, value, Str(oid));
    }
  }

  /** Key `k` holds the same hash and exists alike in both states. */
  ghost predicate KeepsKey(db: DB, d: DB, k: string)
  {
    d.Hash(k) == db.Hash(k) && d.Exists(k) == db.Exists(k)
  }

  lemma PutHashKeeps(db: DB, k': string, m: map<string, string>, k: string)
    requires k' != k
    ensures KeepsKey(db, db.PutHash(k', m), k)
  {
  }

  lemma PutSetKeeps(db: DB, k': string, m: set<string>, k: string)
    requires k' != k
    ensures KeepsKey(db, db.PutSet(k', m), k)
  {
  }

  lemma PutListKeeps(db: DB, k': string, l: seq<string>, k: string)
    requires k' != k
    ensures KeepsKey(db, db.PutList(k', l), k)
  {
  }

  /** A raw list or set removal on another key keeps key `k`. */
  lemma RawRemoveKeeps(db: DB, kind: ContainerKind, key: string, raw: string, k: string)
    requires (kind == ListKind || kind == SetKind) && key != k
    ensures KeepsKey(db, RawRemoveEffect(db, kind, key, raw).1, k)
  {
    if kind == ListKind {
      PutListKeeps(db, key, Without(db.List(key), raw), k);
    } else {
      PutSetKeeps(db, key, db.Members(key) - {raw}, k);
    }
  }

  /** Removing from a list or set field writes no record hash: an owned element
      that was not in the container stays loadable as it was. */
  lemma FieldRemoveKeepsRecords(db: DB, T: TypeDesc, f: ContainerField, h: ContainerHandle, raw: string, e: Handle)
    requires ColonFree(f.model) && ColonFree(f.name) && (f.kind == ListKind || f.kind == SetKind)
    requires h.kind == f.kind && Colons(h.key) == 2 && Colons(HandleKey(e)) == 1
    ensures var r := GuardedRemoveEffect(FieldWriter(f), db, h, raw);
      r.Ok? ==> LoadState(r.value.1, T, e) == LoadState(db, T, e)
  {
    var k := HandleKey(e);
    var w := FieldWriter(f);
    var r := GuardedRemoveEffect(w, db, h, raw);
    if r.Ok? {
      FieldIndexKeys(f, raw);
      if w.Indexed() && f.unique {
        ColonsUniqueKey(f.model, f.name);
        var uk := UniqueKey(f.model, f.name);
        var d := RawRemoveEffect(db, h.kind, h.key, raw).1;
        RawRemoveKeeps(db, h.kind, h.key, raw, k);
        PutHashKeeps(d, uk, d.Hash(uk) - {raw}, k);
        LoadKept(db, r.value.1, T, e);
        return;
      }
      var d1 := db;
      if w.Indexed() {
        ColonsMemberKey(f.model, f.name, raw);
        var o := h.OwnerId().value;
        d1 := db.SRem(MemberKey(f.model, f.name, raw), o);
        PutSetKeeps(db, MemberKey(f.model, f.name, raw), db.Members(MemberKey(f.model, f.name, raw)) - {o}, k);
      }
      RawRemoveKeeps(d1, h.kind, h.key, raw, k);
      assert r.value.1 == RawRemoveEffect(d1, h.kind, h.key, raw).1;
      LoadKept(db, r.value.1, T, e);
    }
  }

  /** A load sees only the record's hash and whether its key exists. */
  lemma LoadKept(db: DB, d: DB, T: TypeDesc, e: Handle)
    requires KeepsKey(db, d, HandleKey(e))
    ensures LoadState(d, T, e) == LoadState(db, T, e)
  {
  }

  /** `repr` of a container handle. */
  function ContainerRepr(h: ContainerHandle): string
  {
    (match h.kind
     case ListKind => "<ListHandle: "
     case SetKind => "<SetHandle: "
     case SortedSetKind => "<SortedSetHandle: ") + h.key + ">"
  }

  /** `repr` of a record handle. */
  function HandleRepr(h: Handle): string { "<Handle: " + HandleKey(h) + ">" }

  /** `ContainerFieldWriter`: the container writer of a list or set field; for an
      owned field it also creates and deletes the elements. */
  class ContainerFieldWriter {
    const field: ContainerField
    const element: Option<ModelWriter>
    const writer: ContainerWriter

    constructor (field: ContainerField, element: Option<ModelWriter>)
      requires field.owned <==> element.Some?
      requires field.kind == ListKind || field.kind == SetKind
      ensures this.field == field && this.element == element && writer == FieldWriter(field)
    {
      this.field := field;
      this.element := element;
      writer := FieldWriter(field);
    }

    /** `append(hcont, value)` on a field whose elements are not owned. */
    method Append(st: Store, h: ContainerHandle, value: Value) returns (r: Outcome)
      requires !field.owned && writer == FieldWriter(field) && (field.kind == ListKind || field.kind == SetKind)
      requires writer.CanAppend(h, value, None)
      modifies st
      ensures (r, st.View()) == writer.AppendEffect(old(st.View()), h, Encode(field.target, value), None)
    {
      r := writer.Append(st, h, value, None);
    }

    /** `append(hcont, obj)` on an owned field: the element is created first, then
        its handle appended. */
    method AppendOwned(st: Store, h: ContainerHandle, obj: Record) returns (r: Outcome)
      requires field.owned && element.Some? && writer == FieldWriter(field) && (field.kind == ListKind || field.kind == SetKind)
      requires obj.model == element.value.model && field.target == RecordType(obj.model.name)
      requires h.target == field.target && h.kind == field.kind
      requires obj.oid == PNone && obj.model.owner.None?
      requires DistinctNames(obj.model.attributes) && FitsAll(obj.model, obj.values)
      requires Covered(obj.model.attributes, Dict(obj.model, obj.values), obj.snapshot)
      modifies st, obj
      ensures var c := CreateEffect(old(st.View()), obj.model, old(obj.State()), None);
        && obj.State() == c.2
        && (c.0.Fail? ==> r == c.0 && st.View() == c.1)
        && (c.0.Pass? ==> (r, st.View()) == writer.AppendEffect(c.1, h, Str(c.2.oid), None))
    {
      r := element.value.Create(st, obj, None);
      if r.Fail? {
        return;
      }
      var v := Ref(obj.ToHandle());
      IntToStringColonFree(old(st.View()).Counter(CounterKey(obj.model.name)) + 1);
      r := writer.Append(st, h, v, None);
    }

    /** `remove(hcont, value)` on a field whose elements are not owned; the count
        removed is not returned. */
    method Remove(st: Store, h: ContainerHandle, value: Value) returns (r: Outcome)
      requires !field.owned && writer == FieldWriter(field)
      requires h.target == field.target && h.kind == field.kind && Matches(field.target, value)
      modifies st
      ensures var e := GuardedRemoveEffect(writer, old(st.View()), h, Encode(field.target, value));
        && (e.Err? ==> r == Fail(e.error) && st.View() == old(st.View()))
        && (e.Ok? ==> r == Pass && st.View() == e.value.1)
    {
      var n := writer.Remove(st, h, value);
      r := if n.Err? then Fail(n.error) else Pass;
    }

    /** `remove(hcont, obj)` on an owned field: an element the container did not
        hold raises NotFoundError; a removed element is deleted. */
    method RemoveOwned(st: Store, h: ContainerHandle, obj: Record) returns (r: Outcome)
      requires field.owned && element.Some? && writer == FieldWriter(field)
      requires obj.model == element.value.model && field.target == RecordType(obj.model.name)
      requires h.target == field.target && h.kind == field.kind
      requires obj.oid != PNone
      requires forall i :: 0 <= i < |obj.model.attributes| && obj.model.attributes[i].indexed ==> obj.model.attributes[i].name in obj.snapshot
      modifies st, obj
      ensures var e := GuardedRemoveEffect(writer, old(st.View()), h, Str(old(obj.oid)));
        && (e.Err? ==> r == Fail(e.error) && st.View() == old(st.View()) && obj.oid == old(obj.oid))
        && (e.Ok? && e.value.0 == 0 ==>
              r == Fail(NotFoundError(HandleRepr(NewHandle(obj.model.name, old(obj.oid))) + " in " + ContainerRepr(h)))
              && st.View() == e.value.1 && obj.oid == old(obj.oid))
        && (e.Ok? && e.value.0 != 0 ==>
              (r, st.View()) == DeleteEffect(e.value.1, obj.model, old(obj.oid), old(obj.snapshot))
              && obj.oid == (if r.Pass? then PNone else old(obj.oid)))
      ensures obj.values == old(obj.values) && obj.snapshot == old(obj.snapshot) && obj.containers == old(obj.containers)
    {
      var n := writer.Remove(st, h, Ref(Handle(obj.model.name, obj.oid)));
      if n.Err? {
        return Fail(n.error);
      }
      if n.value == 0 {
        return Fail(NotFoundError(HandleRepr(obj.ToHandle()) + " in " + ContainerRepr(h)));
      }
      r := element.value.Delete(st, obj);
    }
  }
}

