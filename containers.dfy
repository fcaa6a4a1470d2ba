/** Lists, sets and sorted sets stored under one key, with read-only handles and
    writers that keep an optional companion index in step with the container. */
module Containers {
  import opened Text
  import opened Values
  import opened Store

  /** A ListHandle, SetHandle or SortedSetHandle: the key of the container and the
      type of its elements. */
  datatype ContainerHandle = ContainerHandle(kind: ContainerKind, key: string, target: ElemType)
  {
    /** `owner_id`: the second `:`-separated segment of the key; Python raises
        IndexError when the key has no second segment. */
    function OwnerId(): (r: Result<string>)
      ensures r.Ok? <==> ':' in key
      ensures r.Ok? ==> r.value == OwnerOf(key)
    {
      SplitHasColon(key);
      var parts := Split(key, ":");
      if |parts| >= 2 then Ok(parts[1]) else Err(IndexError)
    }
  }

  /** The second segment of a key that has one. */
  function OwnerOf(key: string): string
    requires ':' in key
  {
    SplitHasColon(key);
    Split(key, ":")[1]
  }

  /** `_transform` of one stored element: a record type builds a handle by id,
      `str` keeps the text, `int` parses it. */
  function Transform(t: ElemType, raw: string): Result<Value>
  {
    match t
    case RecordType(n) => Ok(Ref(NewHandle(n, PStr(raw))))
    case StrType => Ok(Scalar(PStr(raw)))
    case IntType =>
      (match ParseInt(raw)
       case Some(n) => Ok(Scalar(PInt(n)))
       case None => Err(ValueError))
  }

  /** `_transform` of a sequence, element by element; the first bad element raises. */
  function TransformAll(t: ElemType, raws: seq<string>): (r: Result<seq<Value>>)
    ensures r.Ok? ==> |r.value| == |raws|
    decreases |raws|
  {
    if raws == [] then Ok([])
    else
      match Transform(t, raws[0])
      case Err(e) => Err(e)
      case Ok(v) =>
        match TransformAll(t, raws[1..])
        case Err(e) => Err(e)
        case Ok(vs) => Ok([v] + vs)
  }

  /** `ListHandle.load`: the stored list, in order, transformed. */
  function ListLoad(db: DB, h: ContainerHandle): Result<seq<Value>>
  {
    TransformAll(h.target, db.List(h.key))
  }

  /** `SetHandle.load`: the stored members, transformed; one bad member raises. */
  function SetLoad(db: DB, h: ContainerHandle): (r: Result<set<Value>>)
    ensures r.Ok? <==> forall m :: m in db.Members(h.key) ==> Transform(h.target, m).Ok?
    ensures r.Ok? ==> forall m :: m in db.Members(h.key) ==> Transform(h.target, m).value in r.value
    ensures r.Ok? ==> forall v :: v in r.value ==> exists m :: m in db.Members(h.key) && Transform(h.target, m) == Ok(v)
  {
    var ms := db.Members(h.key);
    if forall m :: m in ms ==> Transform(h.target, m).Ok? then
      Ok(set m | m in ms :: Transform(h.target, m).value)
    else Err(ValueError)
  }

  /** An element that loads back as itself: text, an integer, or a handle with a text id. */
  predicate RoundTrips(t: ElemType, v: Value)
  {
    match t
    case RecordType(n) => v.Ref? && v.handle.model == n && v.handle.oid.PStr?
    case StrType => v.Scalar? && v.py.PStr?
    case IntType => v.Scalar? && v.py.PInt?
  }

  /** `type(value) is target_type or value.model is target_type`. */
  predicate Matches(t: ElemType, v: Value)
  {
    match t
    case RecordType(n) => v.Ref? && v.handle.model == n
    case StrType => v.Scalar? && v.py.PStr?
    case IntType => v.Scalar? && v.py.PInt?
  }

  /** The scalar a writer stores for an element: a record's id, else the value. */
  function Coerce(t: ElemType, v: Value): Py
    requires Matches(t, v)
  {
    if t.HasId() then v.handle.oid else v.py
  }

  /** The text stored for an element. */
  function Encode(t: ElemType, v: Value): string
    requires Matches(t, v)
  {
    Str(Coerce(t, v))
  }

  lemma TransformEncode(t: ElemType, v: Value)
    requires RoundTrips(t, v)
    ensures Matches(t, v) && Transform(t, Encode(t, v)) == Ok(v)
  {
    if t.IntType? {
      ParseIntToString(v.py.n);
    }
  }

  function EncodeAll(t: ElemType, vs: seq<Value>): (r: seq<string>)
    requires forall i :: 0 <= i < |vs| ==> Matches(t, vs[i])
    ensures |r| == |vs|
    decreases |vs|
  {
    if vs == [] then [] else [Encode(t, vs[0])] + EncodeAll(t, vs[1..])
  }

  /** Loading what was stored for a sequence of elements gives the elements back. */
  lemma {:induction false} TransformAllEncode(t: ElemType, vs: seq<Value>)
    requires forall i :: 0 <= i < |vs| ==> RoundTrips(t, vs[i])
    ensures forall i :: 0 <= i < |vs| ==> Matches(t, vs[i])
    ensures TransformAll(t, EncodeAll(t, vs)) == Ok(vs)
    decreases |vs|
  {
    forall i | 0 <= i < |vs| ensures Matches(t, vs[i]) {
      TransformEncode(t, vs[i]);
    }
    if vs != [] {
      TransformEncode(t, vs[0]);
      TransformAllEncode(t, vs[1..]);
      assert [vs[0]] + vs[1..] == vs;
    }
  }

  /** The argument of a score-range query: one value, or a pair for `in`. */
  datatype ZArg = Single(v: Py) | Pair(lo: Py, hi: Py)

  /** The min and max score bounds handed to `zrangebyscore`. */
  datatype Bounds = Bounds(min: string, max: string)

  /** Bound translation shared by `SortedSetHandle.zfind` and `Model.zfind`; `(`
      marks an exclusive bound. None for any other condition. */
  function RangeBounds(cond: string, arg: ZArg): Option<Bounds>
    requires arg.Pair? <==> cond == "in"
  {
    if cond == "lte" then Some(Bounds("-inf", Str(arg.v)))
    else if cond == "lt" then Some(Bounds("-inf", "(" + Str(arg.v)))
    else if cond == "gte" then Some(Bounds(Str(arg.v), "+inf"))
    else if cond == "gt" then Some(Bounds("(" + Str(arg.v), "+inf"))
    else if cond == "in" then Some(Bounds(Str(arg.lo), Str(arg.hi)))
    else None
  }

  /** `SortedSetHandle.zfind(cond=val)`: also `eq`; any other condition is a BadArgsError. */
  function ZFind(cond: string, arg: ZArg): Result<Bounds>
    requires arg.Pair? <==> cond == "in"
  {
    if cond == "eq" then Ok(Bounds(Str(arg.v), Str(arg.v)))
    else
      match RangeBounds(cond, arg)
      case Some(b) => Ok(b)
      case None => Err(BadArgsError("Wrong zfind condition: " + cond))
  }

  /** How the store reads a lower score bound (integer scores only). */
  predicate LowerAdmits(b: string, score: int)
  {
    if b == "-inf" then true
    else if b == "+inf" then false
    else if |b| > 0 && b[0] == '(' then ParseDecimal(b[1..]).Some? && score > ParseDecimal(b[1..]).value
    else ParseDecimal(b).Some? && score >= ParseDecimal(b).value
  }

  /** How the store reads an upper score bound (integer scores only). */
  predicate UpperAdmits(b: string, score: int)
  {
    if b == "+inf" then true
    else if b == "-inf" then false
    else if |b| > 0 && b[0] == '(' then ParseDecimal(b[1..]).Some? && score < ParseDecimal(b[1..]).value
    else ParseDecimal(b).Some? && score <= ParseDecimal(b).value
  }

  predicate Admits(b: Bounds, score: int) { LowerAdmits(b.min, score) && UpperAdmits(b.max, score) }

  /** What each query condition means for a score. */
  predicate Satisfies(cond: string, arg: ZArg, score: int)
    requires arg.Pair? <==> cond == "in"
    requires arg.Pair? ==> arg.lo.PInt? && arg.hi.PInt?
    requires arg.Single? ==> arg.v.PInt?
  {
    if cond == "lte" then score <= arg.v.n
    else if cond == "lt" then score < arg.v.n
    else if cond == "gte" then score >= arg.v.n
    else if cond == "gt" then score > arg.v.n
    else if cond == "in" then arg.lo.n <= score <= arg.hi.n
    else if cond == "eq" then score == arg.v.n
    else false
  }

  lemma BoundText(n: int, score: int)
    ensures LowerAdmits(IntToString(n), score) <==> score >= n
    ensures UpperAdmits(IntToString(n), score) <==> score <= n
    ensures LowerAdmits("(" + IntToString(n), score) <==> score > n
    ensures UpperAdmits("(" + IntToString(n), score) <==> score < n
  {
    ParseIntToString(n);
    IntToStringColonFree(n);
    assert ("(" + IntToString(n))[1..] == IntToString(n);
  }

  /** The translated bounds select exactly the scores that satisfy the condition,
      and only the six conditions are accepted. */
  lemma ZFindMeaning(cond: string, arg: ZArg, score: int)
    requires arg.Pair? <==> cond == "in"
    requires arg.Pair? ==> arg.lo.PInt? && arg.hi.PInt?
    requires arg.Single? ==> arg.v.PInt?
    ensures ZFind(cond, arg).Ok? <==> cond in {"lte", "lt", "gte", "gt", "in", "eq"}
    ensures ZFind(cond, arg).Ok? ==> (Admits(ZFind(cond, arg).value, score) <==> Satisfies(cond, arg, score))
  {
    match arg
    case Single(v) =>
      var t := IntToString(v.n);
      BoundText(v.n, score);
      if cond == "eq" {
        assert ZFind(cond, arg) == Ok(Bounds(t, t));
      } else if cond == "lte" {
        assert ZFind(cond, arg) == Ok(Bounds("-inf", t));
      } else if cond == "lt" {
        assert ZFind(cond, arg) == Ok(Bounds("-inf", "(" + t));
      } else if cond == "gte" {
        assert ZFind(cond, arg) == Ok(Bounds(t, "+inf"));
      } else if cond == "gt" {
        assert ZFind(cond, arg) == Ok(Bounds("(" + t, "+inf"));
      } else {
        assert ZFind(cond, arg).Err?;
      }
    case Pair(lo, hi) =>
      BoundText(lo.n, score);
      BoundText(hi.n, score);
      assert ZFind(cond, arg) == Ok(Bounds(IntToString(lo.n), IntToString(hi.n)));
  }

  /** What a container holds after one raw append. */
  function RawAppendEffect(db: DB, kind: ContainerKind, key: string, raw: string, score: Option<int>): DB
    requires score.Some? <==> kind == SortedSetKind
  {
    match kind
    case ListKind => db.RPush(key, raw)
    case SetKind => db.SAdd(key, raw)
    case SortedSetKind => db.ZAdd(key, raw, score.value)
  }

  /** How many elements a raw removal takes out, and the store afterwards. */
  function RawRemoveEffect(db: DB, kind: ContainerKind, key: string, raw: string): (int, DB)
  {
    match kind
    case ListKind => (multiset(db.List(key))[raw], db.LRem(key, raw))
    case SetKind => (if raw in db.Members(key) then 1 else 0, db.SRem(key, raw))
    case SortedSetKind => (if raw in db.Scores(key) then 1 else 0, db.ZRem(key, raw))
  }

  /** The membership set of one value under a non-unique index key. */
  function EntryKey(indexKey: string, raw: string): string { indexKey + ":" + raw }

  /** Whether a container holds a raw element. */
  predicate Contains(db: DB, kind: ContainerKind, key: string, raw: string)
  {
    match kind
    case ListKind => raw in db.List(key)
    case SetKind => raw in db.Members(key)
    case SortedSetKind => raw in db.Scores(key)
  }

  /** A ListWriter, SetWriter or SortedSetWriter. An absent or empty index key
      means the container is not indexed; otherwise `unique` picks a unique map
      `indexKey -> {value -> ownerId}` or membership sets `indexKey:value -> {ownerId}`. */
  datatype ContainerWriter = ContainerWriter(kind: ContainerKind, target: ElemType, indexKey: Option<string>, unique: bool)
  {
    predicate Indexed() { indexKey.Some? && indexKey.value != "" }

    /** The preconditions the writer asserts before appending. */
    predicate CanAppend(h: ContainerHandle, value: Value, score: Option<int>)
    {
      && h.target == target && h.kind == kind
      && Matches(target, value) && Coerce(target, value) != PNone
      && (score.Some? <==> kind == SortedSetKind)
      // `zadd(key, **{value: score})` takes the member as a keyword, which must be text
      && (kind == SortedSetKind ==> Coerce(target, value).PStr?)
    }

    /** `ContainerWriter.append` on the store: the outcome and the new store. */
    function AppendEffect(db: DB, h: ContainerHandle, raw: string, score: Option<int>): (Outcome, DB)
      requires score.Some? <==> kind == SortedSetKind
    {
      if !Indexed() then (Pass, RawAppendEffect(db, kind, h.key, raw, score))
      else if unique then
        if db.HExists(indexKey.value, raw) then (Fail(UniqueError(indexKey.value + "<" + raw + ">")), db)
        else
          match h.OwnerId()
          case Err(e) => (Fail(e), db)
          case Ok(o) => (Pass, RawAppendEffect(db, kind, h.key, raw, score).HSet(indexKey.value, raw, o))
      else
        match h.OwnerId()
        case Err(e) => (Fail(e), db)
        case Ok(o) => (Pass, RawAppendEffect(db, kind, h.key, raw, score).SAdd(EntryKey(indexKey.value, raw), o))
    }

    /** `ContainerWriter.remove` on the store: the container-removal count and the new store. */
    function RemoveEffect(db: DB, h: ContainerHandle, raw: string): Result<(int, DB)>
    {
      if !Indexed() then Ok(RawRemoveEffect(db, kind, h.key, raw))
      else if unique then Ok(RawRemoveEffect(db.HDel(indexKey.value, raw), kind, h.key, raw))
      else
        match h.OwnerId()
        case Err(e) => Err(e)
        case Ok(o) => Ok(RawRemoveEffect(db.SRem(EntryKey(indexKey.value, raw), o), kind, h.key, raw))
    }

    /** `raw_append` of the list, set or sorted-set writer. */
    method RawAppend(st: Store, h: ContainerHandle, raw: string, score: Option<int>)
      requires h.kind == kind && (score.Some? <==> kind == SortedSetKind)
      modifies st
      ensures st.View() == RawAppendEffect(old(st.View()), kind, h.key, raw, score)
    {
      match kind
      case ListKind => st.RPush(h.key, raw);
      case SetKind => st.SAdd(h.key, raw);
      case SortedSetKind => st.ZAdd(h.key, raw, score.value);
    }

    /** `raw_remove` of the list, set or sorted-set writer. */
    method RawRemove(st: Store, h: ContainerHandle, raw: string) returns (n: int)
      requires h.kind == kind
      modifies st
      ensures (n, st.View()) == RawRemoveEffect(old(st.View()), kind, h.key, raw)
    {
      match kind
      case ListKind => n := st.LRem(h.key, raw);
      case SetKind => n := st.SRem(h.key, raw);
      case SortedSetKind => n := st.ZRem(h.key, raw);
    }

    /** `ContainerWriter.append(hcont, value, score)`. */
    method Append(st: Store, h: ContainerHandle, value: Value, score: Option<int>) returns (r: Outcome)
      requires CanAppend(h, value, score)
      modifies st
      ensures (r, st.View()) == AppendEffect(old(st.View()), h, Encode(target, value), score)
    {
      var raw := Encode(target, value);
      if !Indexed() {
        RawAppend(st, h, raw, score);
        r := Pass;
      } else if unique {
        var taken := st.HExists(indexKey.value, raw);
        if taken {
          r := Fail(UniqueError(indexKey.value + "<" + raw + ">"));
        } else {
          match h.OwnerId()
          case Err(e) =>
            r := Fail(e);
          case Ok(o) =>
            RawAppend(st, h, raw, score);
            st.HSet(indexKey.value, raw, o);
            r := Pass;
        }
      } else {
        match h.OwnerId()
        case Err(e) =>
          r := Fail(e);
        case Ok(o) =>
          RawAppend(st, h, raw, score);
          st.SAdd(EntryKey(indexKey.value, raw), o);
          r := Pass;
      }
    }

    /** `ContainerWriter.remove(hcont, value)`: returns how many elements left the
        container. A unique index entry is dropped only when an element was removed
        (the corrected behaviour, see GuardedRemoveEffect). */
    method Remove(st: Store, h: ContainerHandle, value: Value) returns (r: Result<int>)
      requires h.target == target && h.kind == kind && Matches(target, value)
      modifies st
      ensures GuardedRemoveEffect(this, old(st.View()), h, Encode(target, value)).Ok? <==> r.Ok?
      ensures r.Ok? ==> (r.value, st.View()) == GuardedRemoveEffect(this, old(st.View()), h, Encode(target, value)).value
      ensures r.Err? ==> r.error == GuardedRemoveEffect(this, old(st.View()), h, Encode(target, value)).error && st.View() == old(st.View())
    {
      var raw := Encode(target, value);
      if !Indexed() {
        var n := RawRemove(st, h, raw);
        r := Ok(n);
      } else if unique {
        var n := RawRemove(st, h, raw);
        if n > 0 {
          var _ := st.HDel(indexKey.value, raw);
        }
        r := Ok(n);
      } else {
        match h.OwnerId()
        case Err(e) =>
          r := Err(e);
        case Ok(o) =>
          var _ := st.SRem(EntryKey(indexKey.value, raw), o);
          var n := RawRemove(st, h, raw);
          r := Ok(n);
      }
    }
  }

  /** One raw append adds exactly the element to exactly its container, and
      writes no hash. */
  lemma RawAppendContains(db: DB, kind: ContainerKind, key: string, raw: string, score: Option<int>)
    requires score.Some? <==> kind == SortedSetKind
    ensures var d := RawAppendEffect(db, kind, key, raw, score);
      && d.hashes == db.hashes
      && (forall k :: k != key ==> d.Members(k) == db.Members(k))
      && (forall k, v :: Contains(d, kind, k, v) <==> Contains(db, kind, k, v) || (k == key && v == raw))
  {
  }

  /** One raw removal takes exactly the element out of exactly its container, and
      writes no hash. */
  lemma RawRemoveContains(db: DB, kind: ContainerKind, key: string, raw: string)
    ensures var d := RawRemoveEffect(db, kind, key, raw).1;
      && d.hashes == db.hashes
      && (forall k :: k != key ==> d.Members(k) == db.Members(k))
      && (forall k, v :: Contains(d, kind, k, v) <==> Contains(db, kind, k, v) && !(k == key && v == raw))
  {
    if kind == ListKind {
      var d := RawRemoveEffect(db, kind, key, raw).1;
      forall k, v ensures Contains(d, kind, k, v) <==> Contains(db, kind, k, v) && !(k == key && v == raw) {
        if k == key {
          assert multiset(d.List(k)) == multiset(db.List(k))[raw := 0];
          assert v in d.List(k) <==> v in multiset(d.List(k));
          assert v in db.List(k) <==> v in multiset(db.List(k));
        }
      }
    }
  }

  /** A raw removal takes something out exactly when the container held the element. */
  lemma RawRemoveCount(db: DB, kind: ContainerKind, key: string, raw: string)
    ensures RawRemoveEffect(db, kind, key, raw).0 > 0 <==> Contains(db, kind, key, raw)
  {
    if kind == ListKind {
      assert raw in db.List(key) <==> raw in multiset(db.List(key));
    }
  }

  /** Writing a hash or a set that is no container leaves every container as it was. */
  lemma IndexWritesKeepContainers(db: DB, kind: ContainerKind, e: string, f: string, o: string)
    ensures forall k, v :: Contains(db.HSet(e, f, o), kind, k, v) == Contains(db, kind, k, v)
    ensures forall k, v :: Contains(db.HDel(e, f), kind, k, v) == Contains(db, kind, k, v)
    ensures forall k, v :: k != e ==> Contains(db.SAdd(e, o), kind, k, v) == Contains(db, kind, k, v)
    ensures forall k, v :: k != e ==> Contains(db.SRem(e, o), kind, k, v) == Contains(db, kind, k, v)
  {
    HashWritesKeepContainers(db, kind, e, f, o);
    SetWritesKeepContainers(db, kind, e, o);
  }

  lemma HashWritesKeepContainers(db: DB, kind: ContainerKind, e: string, f: string, o: string)
    ensures forall k, v :: Contains(db.HSet(e, f, o), kind, k, v) == Contains(db, kind, k, v)
    ensures forall k, v :: Contains(db.HDel(e, f), kind, k, v) == Contains(db, kind, k, v)
  {
  }

  lemma SetWritesKeepContainers(db: DB, kind: ContainerKind, e: string, o: string)
    ensures forall k, v :: k != e ==> Contains(db.SAdd(e, o), kind, k, v) == Contains(db, kind, k, v)
    ensures forall k, v :: k != e ==> Contains(db.SRem(e, o), kind, k, v) == Contains(db, kind, k, v)
  {
  }

  /** A unique-indexed append rejects a value the unique map already holds and
      changes nothing; otherwise it adds the value to the container and maps it to
      the container's owner. */
  lemma UniqueAppendOutcome(w: ContainerWriter, db: DB, h: ContainerHandle, raw: string, score: Option<int>)
    requires w.Indexed() && w.unique && h.kind == w.kind && (score.Some? <==> w.kind == SortedSetKind)
    requires ':' in h.key
    ensures var ik := w.indexKey.value;
      db.HExists(ik, raw) ==> w.AppendEffect(db, h, raw, score) == (Fail(UniqueError(ik + "<" + raw + ">")), db)
    ensures var ik := w.indexKey.value;
      var r := w.AppendEffect(db, h, raw, score);
      !db.HExists(ik, raw) ==>
        && r.0 == Pass
        && (forall k, v :: Contains(r.1, w.kind, k, v) <==> Contains(db, w.kind, k, v) || (k == h.key && v == raw))
        && r.1.Hash(ik) == db.Hash(ik)[raw := OwnerOf(h.key)]
  {
    RawAppendContains(db, w.kind, h.key, raw, score);
    IndexWritesKeepContainers(RawAppendEffect(db, w.kind, h.key, raw, score), w.kind, w.indexKey.value, raw, OwnerOf(h.key));
  }

  /** An indexed remove drops the value's index entry whether or not the container
      held it, and reports how many elements the container removal took out. */
  lemma IndexedRemoveOutcome(w: ContainerWriter, db: DB, h: ContainerHandle, raw: string)
    requires w.Indexed() && h.kind == w.kind
    ensures w.RemoveEffect(db, h, raw).Ok? <==> w.unique || ':' in h.key
    ensures var ik := w.indexKey.value;
      var r := w.RemoveEffect(db, h, raw);
      w.unique ==>
        && r.value.0 == RawRemoveEffect(db, w.kind, h.key, raw).0
        && r.value.1.Hash(ik) == db.Hash(ik) - {raw}
        && (forall k, v :: Contains(r.value.1, w.kind, k, v) <==> Contains(db, w.kind, k, v) && !(k == h.key && v == raw))
    ensures var ek := EntryKey(w.indexKey.value, raw);
      var r := w.RemoveEffect(db, h, raw);
      !w.unique && ':' in h.key && ek != h.key ==>
        && r.value.0 == RawRemoveEffect(db, w.kind, h.key, raw).0
        && r.value.1.Members(ek) == db.Members(ek) - {OwnerOf(h.key)}
        && (forall k, v :: k != ek ==> (Contains(r.value.1, w.kind, k, v) <==> Contains(db, w.kind, k, v) && !(k == h.key && v == raw)))
  {
    var ik := w.indexKey.value;
    if w.unique {
      IndexWritesKeepContainers(db, w.kind, ik, raw, "");
      RawRemoveContains(db.HDel(ik, raw), w.kind, h.key, raw);
    } else if ':' in h.key {
      var ek := EntryKey(ik, raw);
      if ek != h.key {
        IndexWritesKeepContainers(db, w.kind, ek, raw, OwnerOf(h.key));
        RawRemoveContains(db.SRem(ek, OwnerOf(h.key)), w.kind, h.key, raw);
      }
    }
  }

  /** Container keys of one field name their owners by their second segment, one
      owner per container. */
  predicate OwnersDistinct(keys: set<string>)
  {
    && (forall k :: k in keys ==> ':' in k)
    && (forall k1, k2 :: k1 in keys && k2 in keys && OwnerOf(k1) == OwnerOf(k2) ==> k1 == k2)
  }

  /** The consistency a unique container index promises: the map `ik` sends each
      element of each container to that container's owner, and holds nothing else. */
  ghost predicate UniqueIndexed(db: DB, kind: ContainerKind, ik: string, keys: set<string>)
    requires OwnersDistinct(keys)
  {
    && (forall k, v :: k in keys && Contains(db, kind, k, v) ==> db.HGet(ik, v) == Some(OwnerOf(k)))
    && (forall v :: v in db.Hash(ik) ==>
          exists k :: k in keys && Contains(db, kind, k, v) && OwnerOf(k) == db.Hash(ik)[v])
  }

  /** Under a consistent unique index no element is held by two containers. */
  lemma UniqueIndexedExclusive(db: DB, kind: ContainerKind, ik: string, keys: set<string>, k1: string, k2: string, v: string)
    requires OwnersDistinct(keys) && UniqueIndexed(db, kind, ik, keys)
    requires k1 in keys && k2 in keys && Contains(db, kind, k1, v) && Contains(db, kind, k2, v)
    ensures k1 == k2
  {
  }

  /** Adding one element to one container, with its index entry, keeps a unique
      index consistent when no container held the element. */
  lemma UniqueIndexedAfterAdd(db: DB, d: DB, kind: ContainerKind, ik: string, keys: set<string>, key: string, raw: string)
    requires OwnersDistinct(keys) && key in keys && UniqueIndexed(db, kind, ik, keys)
    requires raw !in db.Hash(ik)
    requires d.Hash(ik) == db.Hash(ik)[raw := OwnerOf(key)]
    requires forall k, v :: Contains(d, kind, k, v) <==> Contains(db, kind, k, v) || (k == key && v == raw)
    ensures UniqueIndexed(d, kind, ik, keys)
  {
    forall k, v | k in keys && Contains(d, kind, k, v)
      ensures d.HGet(ik, v) == Some(OwnerOf(k))
    {
      if !(k == key && v == raw) {
        assert Contains(db, kind, k, v);
        assert db.HGet(ik, v) == Some(OwnerOf(k));
      }
    }
    forall v | v in d.Hash(ik)
      ensures exists k :: k in keys && Contains(d, kind, k, v) && OwnerOf(k) == d.Hash(ik)[v]
    {
      if v == raw {
        assert Contains(d, kind, key, v);
      } else {
        assert v in db.Hash(ik);
        var k :| k in keys && Contains(db, kind, k, v) && OwnerOf(k) == db.Hash(ik)[v];
        assert Contains(d, kind, k, v);
      }
    }
  }

  /** Taking one element out of one container, with its index entry, keeps a unique
      index consistent when the entry named that container (or there was none). */
  lemma UniqueIndexedAfterDrop(db: DB, d: DB, kind: ContainerKind, ik: string, keys: set<string>, key: string, raw: string)
    requires OwnersDistinct(keys) && key in keys && UniqueIndexed(db, kind, ik, keys)
    requires raw in db.Hash(ik) ==> db.Hash(ik)[raw] == OwnerOf(key)
    requires d.Hash(ik) == db.Hash(ik) - {raw}
    requires forall k, v :: Contains(d, kind, k, v) <==> Contains(db, kind, k, v) && !(k == key && v == raw)
    ensures UniqueIndexed(d, kind, ik, keys)
  {
    forall k, v | k in keys && Contains(d, kind, k, v)
      ensures d.HGet(ik, v) == Some(OwnerOf(k))
    {
      assert Contains(db, kind, k, v);
      assert db.HGet(ik, v) == Some(OwnerOf(k));
    }
    forall v | v in d.Hash(ik)
      ensures exists k :: k in keys && Contains(d, kind, k, v) && OwnerOf(k) == d.Hash(ik)[v]
    {
      var k :| k in keys && Contains(db, kind, k, v) && OwnerOf(k) == db.Hash(ik)[v];
      assert Contains(d, kind, k, v);
    }
  }

  /** Removing from a container an element it does not hold, touching no index,
      keeps a unique index consistent. */
  lemma UniqueIndexedAfterMiss(db: DB, d: DB, kind: ContainerKind, ik: string, keys: set<string>, key: string, raw: string)
    requires OwnersDistinct(keys) && UniqueIndexed(db, kind, ik, keys)
    requires !Contains(db, kind, key, raw)
    requires d.Hash(ik) == db.Hash(ik)
    requires forall k, v :: Contains(d, kind, k, v) <==> Contains(db, kind, k, v) && !(k == key && v == raw)
    ensures UniqueIndexed(d, kind, ik, keys)
  {
    forall v | v in d.Hash(ik)
      ensures exists k :: k in keys && Contains(d, kind, k, v) && OwnerOf(k) == d.Hash(ik)[v]
    {
      var k :| k in keys && Contains(db, kind, k, v) && OwnerOf(k) == db.Hash(ik)[v];
      assert Contains(d, kind, k, v);
    }
  }

  /** A unique-indexed append succeeds exactly when no container holds the element
      yet, and keeps the index consistent. */
  lemma AppendKeepsUniqueIndex(w: ContainerWriter, db: DB, h: ContainerHandle, raw: string, score: Option<int>, keys: set<string>)
    requires w.Indexed() && w.unique && h.kind == w.kind && (score.Some? <==> w.kind == SortedSetKind)
    requires OwnersDistinct(keys) && h.key in keys
    requires UniqueIndexed(db, w.kind, w.indexKey.value, keys)
    ensures w.AppendEffect(db, h, raw, score).0 == Pass <==> forall k :: k in keys ==> !Contains(db, w.kind, k, raw)
    ensures w.AppendEffect(db, h, raw, score).0 == Pass ==> Contains(w.AppendEffect(db, h, raw, score).1, w.kind, h.key, raw)
    ensures UniqueIndexed(w.AppendEffect(db, h, raw, score).1, w.kind, w.indexKey.value, keys)
  {
    var ik := w.indexKey.value;
    if !db.HExists(ik, raw) {
      var mid := RawAppendEffect(db, w.kind, h.key, raw, score);
      var d := mid.HSet(ik, raw, OwnerOf(h.key));
      assert w.AppendEffect(db, h, raw, score) == (Pass, d);
      RawAppendContains(db, w.kind, h.key, raw, score);
      IndexWritesKeepContainers(mid, w.kind, ik, raw, OwnerOf(h.key));
      assert mid.Hash(ik) == db.Hash(ik);
      UniqueIndexedAfterAdd(db, d, w.kind, ik, keys, h.key, raw);
    } else {
      var k :| k in keys && Contains(db, w.kind, k, raw) && OwnerOf(k) == db.Hash(ik)[raw];
    }
  }

  /** Removing an element its own container holds (or that no container holds)
      keeps the unique index consistent. */
  lemma RemoveKeepsUniqueIndex(w: ContainerWriter, db: DB, h: ContainerHandle, raw: string, keys: set<string>)
    requires w.Indexed() && w.unique && h.kind == w.kind
    requires OwnersDistinct(keys) && h.key in keys
    requires UniqueIndexed(db, w.kind, w.indexKey.value, keys)
    requires db.HExists(w.indexKey.value, raw) ==> db.Hash(w.indexKey.value)[raw] == OwnerOf(h.key)
    ensures w.RemoveEffect(db, h, raw).Ok?
    ensures !Contains(w.RemoveEffect(db, h, raw).value.1, w.kind, h.key, raw)
    ensures UniqueIndexed(w.RemoveEffect(db, h, raw).value.1, w.kind, w.indexKey.value, keys)
  {
    var ik := w.indexKey.value;
    var mid := db.HDel(ik, raw);
    var d := RawRemoveEffect(mid, w.kind, h.key, raw).1;
    assert w.RemoveEffect(db, h, raw).value.1 == d;
    IndexWritesKeepContainers(db, w.kind, ik, raw, "");
    RawRemoveContains(mid, w.kind, h.key, raw);
    assert d.Hash(ik) == db.Hash(ik) - {raw};
    UniqueIndexedAfterDrop(db, d, w.kind, ik, keys, h.key, raw);
  }

  /** `remove` of an element held by another container deletes that container's
      unique index entry: the store ends up inconsistent. */
  lemma RemoveForeignDropsEntry()
    ensures var w := ContainerWriter(SetKind, StrType, Some("u:T:f"), true);
      && OwnersDistinct(ForeignKeys)
      && UniqueIndexed(ForeignDB, SetKind, "u:T:f", ForeignKeys)
      && w.RemoveEffect(ForeignDB, ContainerHandle(SetKind, Foreign2, StrType), "x").Ok?
      && !UniqueIndexed(w.RemoveEffect(ForeignDB, ContainerHandle(SetKind, Foreign2, StrType), "x").value.1, SetKind, "u:T:f", ForeignKeys)
  {
    ForeignBefore();
    ForeignOwners();
    var d := ContainerWriter(SetKind, StrType, Some("u:T:f"), true).RemoveEffect(ForeignDB, ContainerHandle(SetKind, Foreign2, StrType), "x").value.1;
    assert d.Members(Foreign1) == {"x"};
    assert Contains(d, SetKind, Foreign1, "x");
    assert d.Hash("u:T:f") == map[];
    assert d.HGet("u:T:f", "x") == None;
  }

  /** Two containers of field `f` of type `T`, owners 1 and 2; only the first holds `x`. */
  const Foreign1: string := "T" + ":" + "1" + ":" + "f"
  const Foreign2: string := "T" + ":" + "2" + ":" + "f"
  const ForeignKeys: set<string> := {Foreign1, Foreign2}
  const ForeignDB := DB(map["u:T:f" := map["x" := "1"]], map[Foreign1 := {"x"}], map[], map[], map[])

  lemma ForeignOwners()
    ensures OwnersDistinct(ForeignKeys) && OwnerOf(Foreign1) == "1" && Foreign1 != Foreign2
  {
    OwnerSegmentOf("T", "1", "f");
    OwnerSegmentOf("T", "2", "f");
    assert OwnerOf(Foreign1) != OwnerOf(Foreign2);
  }

  lemma ForeignBefore()
    ensures OwnersDistinct(ForeignKeys) && UniqueIndexed(ForeignDB, SetKind, "u:T:f", ForeignKeys)
  {
    ForeignOwners();
    var db := ForeignDB;
    forall k, v | k in ForeignKeys && Contains(db, SetKind, k, v)
      ensures db.HGet("u:T:f", v) == Some(OwnerOf(k))
    {
      assert k == Foreign1 && v == "x";
    }
    forall v | v in db.Hash("u:T:f")
      ensures exists k :: k in ForeignKeys && Contains(db, SetKind, k, v) && OwnerOf(k) == db.Hash("u:T:f")[v]
    {
      assert v == "x";
      assert Contains(db, SetKind, Foreign1, v);
    }
  }

  lemma OwnerSegmentOf(t: string, o: string, f: string)
    requires ColonFree(t) && ColonFree(o) && ColonFree(f)
    ensures ':' in t + ":" + o + ":" + f && OwnerOf(t + ":" + o + ":" + f) == o
  {
    assert (t + ":" + o + ":" + f)[|t|] == ':';
    assert t + ":" + o + ":" + f == t + ":" + (o + ":" + f);
    SplitColon(t, o + ":" + f);
    SplitColon(o, f);
  }

  /** The corrected `remove` for unique indexes: the index entry is dropped only
      when the container removal took an element out. Other writers remove as
      written. */
  function GuardedRemoveEffect(w: ContainerWriter, db: DB, h: ContainerHandle, raw: string): Result<(int, DB)>
  {
    if w.Indexed() && w.unique then
      var (n, d) := RawRemoveEffect(db, w.kind, h.key, raw);
      Ok((n, if n > 0 then d.HDel(w.indexKey.value, raw) else d))
    else w.RemoveEffect(db, h, raw)
  }

  /** The guarded removal keeps the unique index consistent whatever is removed. */
  lemma GuardedRemoveKeepsUniqueIndex(w: ContainerWriter, db: DB, h: ContainerHandle, raw: string, keys: set<string>)
    requires w.Indexed() && w.unique && h.kind == w.kind
    requires OwnersDistinct(keys) && h.key in keys
    requires UniqueIndexed(db, w.kind, w.indexKey.value, keys)
    ensures GuardedRemoveEffect(w, db, h, raw).Ok?
    ensures !Contains(GuardedRemoveEffect(w, db, h, raw).value.1, w.kind, h.key, raw)
    ensures UniqueIndexed(GuardedRemoveEffect(w, db, h, raw).value.1, w.kind, w.indexKey.value, keys)
  {
    var ik := w.indexKey.value;
    var d := RawRemoveEffect(db, w.kind, h.key, raw).1;
    RawRemoveCount(db, w.kind, h.key, raw);
    RawRemoveContains(db, w.kind, h.key, raw);
    if Contains(db, w.kind, h.key, raw) {
      assert GuardedRemoveEffect(w, db, h, raw).value.1 == d.HDel(ik, raw);
      HeldRemoveKeepsUniqueIndex(db, d, w.kind, ik, keys, h.key, raw);
    } else {
      assert GuardedRemoveEffect(w, db, h, raw).value.1 == d;
      UniqueIndexedAfterMiss(db, d, w.kind, ik, keys, h.key, raw);
    }
  }

  /** Removing a held element and then its unique map entry keeps the unique index. */
  lemma HeldRemoveKeepsUniqueIndex(db: DB, d: DB, kind: ContainerKind, ik: string, keys: set<string>, key: string, raw: string)
    requires OwnersDistinct(keys) && key in keys && UniqueIndexed(db, kind, ik, keys)
    requires Contains(db, kind, key, raw) && d == RawRemoveEffect(db, kind, key, raw).1
    ensures !Contains(d.HDel(ik, raw), kind, key, raw)
    ensures UniqueIndexed(d.HDel(ik, raw), kind, ik, keys)
  {
    RawRemoveContains(db, kind, key, raw);
    assert db.HGet(ik, raw) == Some(OwnerOf(key));
    IndexWritesKeepContainers(d, kind, ik, raw, "");
    UniqueIndexedAfterDrop(db, d.HDel(ik, raw), kind, ik, keys, key, raw);
  }

  /** The consistency a non-unique container index promises: the set
      `ik:value` holds exactly the owners of the containers holding `value`. */
  ghost predicate MemberIndexed(db: DB, kind: ContainerKind, ik: string, keys: set<string>)
    requires OwnersDistinct(keys)
  {
    && (forall k, v :: k in keys && Contains(db, kind, k, v) ==> OwnerOf(k) in db.Members(EntryKey(ik, v)))
    && (forall v, o :: o in db.Members(EntryKey(ik, v)) ==>
          exists k :: k in keys && OwnerOf(k) == o && Contains(db, kind, k, v))
  }

  /** Index entry keys have more colons than the container keys of their field. */
  predicate EntriesApart(ik: string, keys: set<string>)
  {
    forall k :: k in keys ==> Colons(k) <= Colons(ik)
  }

  lemma EntryKeyApart(ik: string, k: string, v: string)
    requires Colons(k) <= Colons(ik)
    ensures EntryKey(ik, v) != k
  {
    assert multiset(EntryKey(ik, v)) == multiset(ik) + multiset(":") + multiset(v);
  }

  lemma EntryKeyInjective(ik: string, v: string, u: string)
    requires EntryKey(ik, v) == EntryKey(ik, u)
    ensures v == u
  {
    var p := ik + ":";
    assert EntryKey(ik, v) == p + v && EntryKey(ik, u) == p + u;
    assert v == (p + v)[|p|..];
    assert u == (p + u)[|p|..];
  }

  lemma MemberIndexedAfterAdd(db: DB, d: DB, kind: ContainerKind, ik: string, keys: set<string>, key: string, raw: string)
    requires OwnersDistinct(keys) && key in keys && MemberIndexed(db, kind, ik, keys)
    requires d.Members(EntryKey(ik, raw)) == db.Members(EntryKey(ik, raw)) + {OwnerOf(key)}
    requires forall v :: v != raw ==> d.Members(EntryKey(ik, v)) == db.Members(EntryKey(ik, v))
    requires forall k, v :: k in keys ==> (Contains(d, kind, k, v) <==> Contains(db, kind, k, v) || (k == key && v == raw))
    ensures MemberIndexed(d, kind, ik, keys)
  {
    forall k, v | k in keys && Contains(d, kind, k, v)
      ensures OwnerOf(k) in d.Members(EntryKey(ik, v))
    {
      if !(k == key && v == raw) {
        assert Contains(db, kind, k, v);
      }
    }
    forall v, o | o in d.Members(EntryKey(ik, v))
      ensures exists k :: k in keys && OwnerOf(k) == o && Contains(d, kind, k, v)
    {
      if v == raw && o == OwnerOf(key) {
        assert Contains(d, kind, key, v);
      } else {
        assert o in db.Members(EntryKey(ik, v));
        var k :| k in keys && OwnerOf(k) == o && Contains(db, kind, k, v);
        assert Contains(d, kind, k, v);
      }
    }
  }

  lemma MemberIndexedAfterDrop(db: DB, d: DB, kind: ContainerKind, ik: string, keys: set<string>, key: string, raw: string)
    requires OwnersDistinct(keys) && key in keys && MemberIndexed(db, kind, ik, keys)
    requires d.Members(EntryKey(ik, raw)) == db.Members(EntryKey(ik, raw)) - {OwnerOf(key)}
    requires forall v :: v != raw ==> d.Members(EntryKey(ik, v)) == db.Members(EntryKey(ik, v))
    requires forall k, v :: k in keys ==> (Contains(d, kind, k, v) <==> Contains(db, kind, k, v) && !(k == key && v == raw))
    ensures MemberIndexed(d, kind, ik, keys)
  {
    forall k, v | k in keys && Contains(d, kind, k, v)
      ensures OwnerOf(k) in d.Members(EntryKey(ik, v))
    {
      assert Contains(db, kind, k, v);
    }
    forall v, o | o in d.Members(EntryKey(ik, v))
      ensures exists k :: k in keys && OwnerOf(k) == o && Contains(d, kind, k, v)
    {
      assert o in db.Members(EntryKey(ik, v));
      var k :| k in keys && OwnerOf(k) == o && Contains(db, kind, k, v);
      assert Contains(d, kind, k, v);
    }
  }

  /** A non-unique indexed append always succeeds on a container of the field, and
      keeps the membership index consistent. */
  lemma AppendKeepsMemberIndex(w: ContainerWriter, db: DB, h: ContainerHandle, raw: string, score: Option<int>, keys: set<string>)
    requires w.Indexed() && !w.unique && h.kind == w.kind && (score.Some? <==> w.kind == SortedSetKind)
    requires OwnersDistinct(keys) && h.key in keys && EntriesApart(w.indexKey.value, keys)
    requires MemberIndexed(db, w.kind, w.indexKey.value, keys)
    ensures w.AppendEffect(db, h, raw, score).0 == Pass
    ensures Contains(w.AppendEffect(db, h, raw, score).1, w.kind, h.key, raw)
    ensures OwnerOf(h.key) in w.AppendEffect(db, h, raw, score).1.Members(EntryKey(w.indexKey.value, raw))
    ensures MemberIndexed(w.AppendEffect(db, h, raw, score).1, w.kind, w.indexKey.value, keys)
  {
    var ik := w.indexKey.value;
    var mid := RawAppendEffect(db, w.kind, h.key, raw, score);
    var d := mid.SAdd(EntryKey(ik, raw), OwnerOf(h.key));
    assert w.AppendEffect(db, h, raw, score) == (Pass, d);
    RawAppendContains(db, w.kind, h.key, raw, score);
    IndexWritesKeepContainers(mid, w.kind, EntryKey(ik, raw), raw, OwnerOf(h.key));
    forall k | k in keys ensures k != EntryKey(ik, raw) {
      EntryKeyApart(ik, k, raw);
    }
    forall v | v != raw ensures d.Members(EntryKey(ik, v)) == db.Members(EntryKey(ik, v)) {
      EntryKeyApart(ik, h.key, v);
      if EntryKey(ik, v) == EntryKey(ik, raw) {
        EntryKeyInjective(ik, v, raw);
      }
    }
    EntryKeyApart(ik, h.key, raw);
    MemberIndexedAfterAdd(db, d, w.kind, ik, keys, h.key, raw);
  }

  /** A non-unique indexed removal on a container of the field empties the
      container of the element and keeps the membership index consistent. */
  lemma RemoveKeepsMemberIndex(w: ContainerWriter, db: DB, h: ContainerHandle, raw: string, keys: set<string>)
    requires w.Indexed() && !w.unique && h.kind == w.kind
    requires OwnersDistinct(keys) && h.key in keys && EntriesApart(w.indexKey.value, keys)
    requires MemberIndexed(db, w.kind, w.indexKey.value, keys)
    ensures w.RemoveEffect(db, h, raw).Ok?
    ensures !Contains(w.RemoveEffect(db, h, raw).value.1, w.kind, h.key, raw)
    ensures OwnerOf(h.key) !in w.RemoveEffect(db, h, raw).value.1.Members(EntryKey(w.indexKey.value, raw))
    ensures MemberIndexed(w.RemoveEffect(db, h, raw).value.1, w.kind, w.indexKey.value, keys)
  {
    var ik := w.indexKey.value;
    var mid := db.SRem(EntryKey(ik, raw), OwnerOf(h.key));
    var d := RawRemoveEffect(mid, w.kind, h.key, raw).1;
    assert w.RemoveEffect(db, h, raw).value.1 == d;
    IndexWritesKeepContainers(db, w.kind, EntryKey(ik, raw), raw, OwnerOf(h.key));
    RawRemoveContains(mid, w.kind, h.key, raw);
    forall k | k in keys ensures k != EntryKey(ik, raw) {
      EntryKeyApart(ik, k, raw);
    }
    forall v | v != raw ensures d.Members(EntryKey(ik, v)) == db.Members(EntryKey(ik, v)) {
      EntryKeyApart(ik, h.key, v);
      if EntryKey(ik, v) == EntryKey(ik, raw) {
        EntryKeyInjective(ik, v, raw);
      }
    }
    EntryKeyApart(ik, h.key, raw);
    MemberIndexedAfterDrop(db, d, w.kind, ik, keys, h.key, raw);
  }

  /** Successive appends, stopping at the first failure. */
  function AppendEach(w: ContainerWriter, db: DB, h: ContainerHandle, vals: seq<Value>): (Outcome, DB)
    requires w.kind != SortedSetKind
    requires forall i :: 0 <= i < |vals| ==> Matches(w.target, vals[i])
    decreases |vals|
  {
    if vals == [] then (Pass, db)
    else
      var (o, d) := w.AppendEffect(db, h, Encode(w.target, vals[0]), None);
      if o.Fail? then (o, d) else AppendEach(w, d, h, vals[1..])
  }

  /** An unindexed writer never refuses an element. */
  lemma {:induction false} UnindexedAppendsPass(w: ContainerWriter, db: DB, h: ContainerHandle, vals: seq<Value>)
    requires w.kind != SortedSetKind && !w.Indexed()
    requires forall i :: 0 <= i < |vals| ==> Matches(w.target, vals[i])
    ensures AppendEach(w, db, h, vals).0 == Pass
    decreases |vals|
  {
    if vals != [] {
      UnindexedAppendsPass(w, w.AppendEffect(db, h, Encode(w.target, vals[0]), None).1, h, vals[1..]);
    }
  }

  /** A successful append to a list adds the stored text at its tail. */
  lemma AppendListStep(w: ContainerWriter, db: DB, h: ContainerHandle, raw: string)
    requires w.kind == ListKind && h.kind == ListKind
    requires w.AppendEffect(db, h, raw, None).0 == Pass
    ensures w.AppendEffect(db, h, raw, None).1.List(h.key) == db.List(h.key) + [raw]
  {
    var mid := RawAppendEffect(db, ListKind, h.key, raw, None);
    assert mid.List(h.key) == db.List(h.key) + [raw];
    if w.Indexed() {
      var o := h.OwnerId().value;
      if w.unique {
        assert w.AppendEffect(db, h, raw, None).1 == mid.HSet(w.indexKey.value, raw, o);
      } else {
        assert w.AppendEffect(db, h, raw, None).1 == mid.SAdd(EntryKey(w.indexKey.value, raw), o);
      }
    }
  }

  /** The first of several successful list appends, taken apart. */
  lemma AppendEachFirst(w: ContainerWriter, db: DB, h: ContainerHandle, vals: seq<Value>) returns (d: DB)
    requires w.kind == ListKind && h.kind == ListKind && vals != []
    requires forall i :: 0 <= i < |vals| ==> Matches(w.target, vals[i])
    requires AppendEach(w, db, h, vals).0 == Pass
    ensures d.List(h.key) == db.List(h.key) + [Encode(w.target, vals[0])]
    ensures AppendEach(w, d, h, vals[1..]) == AppendEach(w, db, h, vals)
  {
    var raw := Encode(w.target, vals[0]);
    var r := w.AppendEffect(db, h, raw, None);
    d := r.1;
    AppendListStep(w, db, h, raw);
  }

  /** Sequence concatenation regrouped, for the list induction below. */
  lemma ConcatAssoc(a: seq<string>, b: seq<string>, c: seq<string>)
    ensures a + b + c == a + (b + c)
  {
  }

  /** Successful appends to a list add the stored texts at its tail, in order. */
  lemma {:induction false} AppendEachList(w: ContainerWriter, db: DB, h: ContainerHandle, vals: seq<Value>)
    requires w.kind == ListKind && h.kind == ListKind
    requires forall i :: 0 <= i < |vals| ==> Matches(w.target, vals[i])
    requires AppendEach(w, db, h, vals).0 == Pass
    ensures AppendEach(w, db, h, vals).1.List(h.key) == db.List(h.key) + EncodeAll(w.target, vals)
    decreases |vals|
  {
    if vals != [] {
      var raw := Encode(w.target, vals[0]);
      var rest := vals[1..];
      var d := AppendEachFirst(w, db, h, vals);
      assert forall i :: 0 <= i < |rest| ==> Matches(w.target, rest[i]) by {
        forall i | 0 <= i < |rest| ensures Matches(w.target, rest[i]) { assert rest[i] == vals[i + 1]; }
      }
      AppendEachList(w, d, h, rest);
      var tail := EncodeAll(w.target, rest);
      assert EncodeAll(w.target, vals) == [raw] + tail;
      ConcatAssoc(db.List(h.key), [raw], tail);
    }
  }

  /** Appending elements to an empty list and loading it gives the elements back. */
  lemma ListRoundTrip(w: ContainerWriter, db: DB, h: ContainerHandle, vals: seq<Value>)
    requires w.kind == ListKind && h.kind == ListKind && h.target == w.target
    requires forall i :: 0 <= i < |vals| ==> RoundTrips(w.target, vals[i])
    requires forall i :: 0 <= i < |vals| ==> Matches(w.target, vals[i])
    requires db.List(h.key) == []
    requires AppendEach(w, db, h, vals).0 == Pass
    ensures ListLoad(AppendEach(w, db, h, vals).1, h) == Ok(vals)
  {
    var d := AppendEach(w, db, h, vals).1;
    AppendEachList(w, db, h, vals);
    assert d.List(h.key) == EncodeAll(w.target, vals);
    TransformAllEncode(w.target, vals);
  }
}
