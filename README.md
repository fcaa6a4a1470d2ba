# redmodel: records and their indexes in a key-value store

redmodel maps Python record types onto a Redis-like store. A record of type
`T` with id `n` is kept in the hash `T:n`. Its list and set fields are stored
under `T:n:field`. Ids come from the counter `T:id`. An extension type takes its
owner's id instead.

Attributes and container fields can be indexed:

- a unique index is the hash `u:T:field`, mapping each raw value to the owning id;
- a non-unique index is one membership set `i:T:field:value` per value, holding the ids.

The writers keep these indexes in step with the primary data. Each record carries
a snapshot of the last persisted value of every indexed attribute (`_indexed_values`).
That snapshot says which index entry to take down when the value changes, and which
entries to remove when the record is deleted.

The model has eight modules:

- `Text`: decimal notation, `int()` parsing and `split(':')`.
- `Values`: Python scalars, handles, values and the library's errors.
- `Keys`: the key naming scheme, and lemmas that keep differently named keys apart.
- `Store`: the store as a class of maps, and a value `DB` of its contents.
- `Attributes`: attribute and container-field descriptors and their typecasts.
- `Containers`: container handles, loading and score-range bounds, and the
  `ContainerWriter` append/remove with its companion index.
- `Base`: a record type's descriptor, `Record` (a model instance), handles, loading,
  construction and the by-value queries.
- `Writer`: `ModelWriter` (create, update, update_all, delete) and
  `ContainerFieldWriter`.

Every writer method changes a `Store` object. Each one is proved equal to a pure
"effect" function of the old store (`UpdateEffect`, `CreateEffect`, `DeleteEffect`,
`AppendEffect`, `GuardedRemoveEffect`). The properties are lemmas about those functions:

- an index invariant that append and remove preserve;
- uniqueness checks that run before any write;
- indexes written and old entries forgotten;
- loading what was created gives the record back;
- finding a created record by a unique value.

Python `assert`s are preconditions. A pipeline is one atomic update.

Two behaviours of the code as written are defects (see "## Findings"). Each one is
modelled twice: once as written, with a lemma that exhibits the defect, and once
corrected, with the intended property proved. The writer methods use the corrected
definitions:

- the uniqueness check of `update` and `update_all` compares stored texts (`Changed`
  with `textual` true). `create` keeps the check as written (`textual` false), so a
  deleted record created again with its old snapshot raises exactly where the
  source raises;
- a unique-indexed container remove drops the map entry only when an element was
  actually removed (`GuardedRemoveEffect`).

Python dict iteration order is unspecified. The model visits a data dictionary in
the declared attribute order.

A record type is described by explicit, ordered sequences: its attributes, its
list fields and its set fields, plus an optional owner type. These replace the
metaclass. Type names, field names and ids are colon-free, which keeps the key
scheme unambiguous. Lemmas that need this state it as a precondition.

## Model

| member | source | states |
|---|---|---|
| Text.Split | redmodel/models/base.py:133 | Python's `split(sep)`: at least one piece (Text.JoinSplit: joining them gives the text back) |
| Text.JoinSplit | redmodel/models/base.py:133 | joining the pieces of a split with the separator gives the text back |
| Text.ParseInt | redmodel/models/attributes.py:29-31 | `int()` of text: surrounding whitespace skipped, then an optional sign and decimal digits; None (ValueError) otherwise |
| Text.ParseIntPadded | redmodel/models/attributes.py:29-31 | whitespace before and after a number does not change what `int()` reads, as in `int(' 29\n')` |
| Text.ParseIntToString | redmodel/models/attributes.py:29-31 | `int(str(n)) == n` for every integer |
| Values.NewHandle | redmodel/models/base.py:24-26 | a truthy id is kept as its string form, a falsy id as given; truthiness is preserved |
| Values.ByIntOrText | redmodel/models/base.py:24-26 | `by_id(21)` and `by_id('21')` are the same handle |
| Values.TruthyHandleHoldsText | redmodel/models/base.py:40-41 | a handle is truthy iff its id is a non-empty string |
| Attributes.NewAttribute | redmodel/models/attributes.py:19-21 | the attribute is indexed exactly when indexed or unique is asked for (`indexed or unique`); the other flags are kept |
| Attributes.ReadCast | redmodel/models/attributes.py:23-42 | a successful read typecast gives a value of the attribute's type |
| Attributes.ReadAfterWrite | redmodel/models/attributes.py:23-42 | reading back the stored text of a well-typed value gives the value itself, for plain, integer and reference attributes |
| Attributes.ReferenceWriteAfterRead | redmodel/models/attributes.py:38-42 | a reference read from stored id text writes back as exactly that text |
| Attributes.IntegerRead | redmodel/models/attributes.py:29-31 | an IntegerField reads decimal text as the integer it denotes |
| Attributes.NewContainerField | redmodel/models/attributes.py:44-57 | the field is indexed exactly when indexed or unique is asked for; target, owned, unique and kind are kept as given |
| Keys.ColonsKeyById | redmodel/models/base.py:122-124 | a record key `T:id` has exactly one colon |
| Keys.ColonsUniqueKey | redmodel/models/writer.py:31 | a unique-map key `u:T:f` has exactly two colons |
| Keys.ColonsFieldKey | redmodel/models/writer.py:91-95 | a container key `T:id:f` has exactly two colons |
| Keys.ColonsMemberKey | redmodel/models/writer.py:40 | a membership key `i:T:f:v` has at least three colons |
| Keys.RecordKeyNotUniqueKey | redmodel/models/base.py:122-124 | no record key is a unique-map key |
| Keys.FieldKeyNotRecordKey | redmodel/models/writer.py:91-95 | no container key of a record is a record key |
| Keys.UniqueKeyInjective | redmodel/models/writer.py:37 | unique maps of different fields are different keys |
| Keys.MemberKeyInjective | redmodel/models/writer.py:40 | membership keys differ for different fields or different values |
| Keys.OwnerSegment | redmodel/containers.py:34-36 | the key `T:id:f` splits on `:` into exactly `[T, id, f]` |
| Containers.ContainerHandle.OwnerId | redmodel/containers.py:34-36 | the owner id exists iff the key has a colon, and it is the second `:`-segment; otherwise IndexError |
| Containers.SetLoad | redmodel/containers.py:53-56 | the load succeeds iff every member transforms; the result is exactly the set of transformed members |
| Containers.Transform | redmodel/containers.py:41-46 | one stored element: a handle by id for a record type, the text for `str`, `int()` of the text (ValueError when it is no integer) for `int` |
| Containers.TransformAll | redmodel/containers.py:41-46 | the elements transformed in order, as many as stored; the first bad element's error otherwise |
| Containers.ListLoad | redmodel/containers.py:48-51 | `lrange(key, 0, -1)` transformed, in stored order |
| Containers.TransformEncode | redmodel/containers.py:41-46 | an element stored as text and transformed back is the element itself |
| Containers.TransformAllEncode | redmodel/containers.py:41-46 | a sequence of elements stored and transformed back is the sequence itself |
| Containers.RangeBounds | redmodel/containers.py:62-71 | the score bounds of lte, lt, gte, gt (with `(` for the exclusive ones) and in; none for any other condition |
| Containers.ZFind | redmodel/containers.py:59-75 | `SortedSetHandle.zfind`: the bounds of RangeBounds, `eq` as the bound pair `(v, v)`, BadArgsError `Wrong zfind condition: cond` otherwise |
| Containers.BoundText | redmodel/containers.py:62-69 | a bound `v` or `(v` admits exactly the scores `>=`/`<=` or `>`/`<` v |
| Containers.ZFindMeaning | redmodel/containers.py:59-75 | zfind succeeds iff the condition is lte, lt, gte, gt, in or eq, else BadArgsError; the bounds admit exactly the scores meeting the condition |
| Containers.ContainerWriter.AppendEffect | redmodel/containers.py:181-203 | unindexed: the raw append; unique: UniqueError `key<value>` when the map holds the value, else the raw append and `hset(key, value, owner)`; non-unique: the raw append and `sadd(key:value, owner)`; IndexError for a key without owner segment |
| Containers.ContainerWriter.RemoveEffect | redmodel/containers.py:205-221 | as written: unindexed, the raw removal; unique, `hdel(key, value)` whatever is removed; non-unique, `srem(key:value, owner)`; then the raw removal and its count |
| Containers.GuardedRemoveEffect | redmodel/containers.py:205-221 | the corrected removal: for a unique index the raw removal, then `hdel` only when it removed an element; other writers as RemoveEffect |
| Containers.ContainerWriter.RawAppend | redmodel/containers.py:227-256 | rpush, sadd or zadd of the raw value on the container key |
| Containers.ContainerWriter.RawRemove | redmodel/containers.py:232-260 | lrem, srem or zrem of the raw value, returning the count removed |
| Containers.ContainerWriter.Append | redmodel/containers.py:181-203 | the outcome and new store are AppendEffect of the old store and the value's stored text (its id for a record type) |
| Containers.ContainerWriter.Remove | redmodel/containers.py:205-221 | the count and new store are GuardedRemoveEffect (as written for unindexed and non-unique containers, guarded for unique ones); on an error the store is unchanged |
| Containers.RawRemoveCount | redmodel/containers.py:232-260 | a raw removal reports a positive count exactly when the container held the element |
| Containers.RawAppendContains | redmodel/containers.py:227-256 | a raw append adds exactly that element to exactly that container and writes no hash |
| Containers.RawRemoveContains | redmodel/containers.py:232-260 | a raw remove takes exactly that element out of exactly that container and writes no hash |
| Containers.IndexWritesKeepContainers | redmodel/containers.py:194-218 | index writes (hset, hdel, and sadd/srem on other keys) change no container's contents |
| Containers.UniqueAppendOutcome | redmodel/containers.py:189-197 | a value already in the unique map gives UniqueError `key<value>` with the store unchanged; otherwise Pass, the value joins the container and maps to the owner id |
| Containers.IndexedRemoveOutcome | redmodel/containers.py:205-221 | the index entry is removed whether or not the container held the value; the result is the container-removal count; a non-unique remove needs an owner segment |
| Containers.UniqueIndexedExclusive | redmodel/containers.py:189-197 | under the unique-index invariant no two containers of the field hold the same value |
| Containers.AppendKeepsUniqueIndex | redmodel/containers.py:189-197 | a unique append passes iff no container of the field holds the value; on a pass the container holds it; the invariant (map entries are exactly the held values, pointing to their owners) is preserved |
| Containers.RemoveKeepsUniqueIndex | redmodel/containers.py:213-221 | removing a value that is unmapped or mapped to this owner preserves the unique-index invariant and leaves the value out of the container |
| Containers.RemoveForeignDropsEntry | redmodel/containers.py:213-219 | a concrete store where removing a value another owner holds breaks the unique-index invariant |
| Containers.GuardedRemoveKeepsUniqueIndex | redmodel/containers.py:205-221 | the corrected remove, which drops the map entry only after it removed an element, preserves the unique-index invariant in every store and leaves the value out of the container |
| Containers.HeldRemoveKeepsUniqueIndex | redmodel/containers.py:213-219 | removing a held element together with its map entry keeps the unique-index invariant |
| Containers.AppendKeepsMemberIndex | redmodel/containers.py:198-203 | a non-unique append passes, adds the value and the owner id to `index:value`, and preserves the membership invariant (a set lists exactly the owners holding the value) |
| Containers.RemoveKeepsMemberIndex | redmodel/containers.py:216-219 | a non-unique remove takes the value and the owner id out and preserves the membership invariant |
| Containers.UnindexedAppendsPass | redmodel/containers.py:187-188 | appends to an unindexed container always pass |
| Containers.AppendEachList | redmodel/containers.py:227-230 | a series of list appends adds the stored texts at the end, in order |
| Containers.ListRoundTrip | redmodel/containers.py:48-51 | loading a list that was empty and then received appended values gives those values back, in order |
| Base.Lookup | redmodel/models/base.py:63 | `_attr_dict[n]` exists iff n is an attribute name, and it has that name |
| Base.LookupAt | redmodel/models/base.py:63 | with distinct names, looking an attribute up by its name gives that attribute |
| Base.ById | redmodel/models/base.py:113-115 | the handle's type is T, its key is `key_by_id` of the id, and it is truthy iff the id is |
| Base.ByOwner | redmodel/models/base.py:117-120 | the handle takes the owner's id; the owner must be of the declared owner type |
| Base.Dict | redmodel/models/base.py:296-301 | `make_dict` has exactly the keys of the assigned attributes |
| Base.CoerceArg | redmodel/models/base.py:272-278 | a raw id for a reference becomes `target.by_id(id)`; a handle must target the field's type and is kept; other values are kept |
| Base.CoerceNoneReference | redmodel/models/base.py:269-279 | `None` for a reference becomes the falsy handle `by_id(None)`, whose write typecast is `None` |
| Base.Coerced | redmodel/models/base.py:269-279 | the coerced assignments have the given keys and each fits its attribute |
| Base.CoercedFits | redmodel/models/base.py:269-279 | assigning coerced values keeps every attribute value well-formed |
| Base.NewValidates | redmodel/models/base.py:234-251 | construction succeeds iff no names are given or exactly the attribute names; otherwise ArgNamesError with the expected and given names; a new record has no id, a None snapshot for every tracked attribute and None list/set fields |
| Base.NewState | redmodel/models/base.py:234-251 | `Model(**kwargs)`: no keywords give a bare record; names other than exactly the attribute names give ArgNamesError; otherwise the coerced values, a None snapshot per tracked attribute and None list/set fields |
| Base.ReadAttrs | redmodel/models/base.py:52-57 | the attribute loop of `load`: KeyError for the first attribute missing from the hash, the typecast's error for the first unreadable one, else the read values and the raw-text snapshot |
| Base.LoadState | redmodel/models/base.py:47-69 | `Handle.load`: ReadAttrs of `hgetall(key)`; a KeyError on an empty hash of an absent key becomes NotFoundError(key), other errors pass; on success the values, snapshot and `key:field` handles |
| Base.ReadAttrsOk | redmodel/models/base.py:52-57 | reading the attributes succeeds iff every attribute is in the hash and its typecast succeeds; the values and snapshot have the attribute and tracked names |
| Base.ReadAttrsAt | redmodel/models/base.py:53-57 | each loaded value is the read typecast of the stored text; the snapshot of an indexed or zindexed attribute is the raw stored text |
| Base.LoadMissing | redmodel/models/base.py:65-69 | loading a record whose key does not exist raises NotFoundError of its key |
| Base.WrittenSnapshot | redmodel/models/base.py:56-57 | the snapshot after a load covers exactly the tracked attributes that were written |
| Base.LoadAfterWrite | redmodel/models/base.py:47-64 | loading a hash that holds the written attributes gives back the values, the raw-text snapshot and the list/set handles keyed `T:id:field` |
| Base.QueryFieldParts | redmodel/models/base.py:133-134 | a name in which `__` does not occur (snake_case names included) parses as the field without a condition; when it does not end in `_` either, `fld__cond` parses as the field and the condition |
| Base.FieldLookup | redmodel/models/base.py:136 | a container field is found iff the type declares one of that name |
| Base.Find | redmodel/models/base.py:130-151 | KeyError for a field the type does not declare; for no condition or `contains`, the handle of the id `u:T:fld` maps the query's text to (falsy when it maps none); None for another condition |
| Base.Multifind | redmodel/models/base.py:153-174 | KeyError for an undeclared field; for no condition or `contains`, a handle per id in `i:T:fld:val`; None for another condition |
| Base.QueryUnknownField | redmodel/models/base.py:130-174 | find and multifind raise KeyError of the field name exactly when the type does not declare the field; a declared field with a condition other than `contains` gives None |
| Base.ModelZFind | redmodel/models/base.py:176-195 | `Model.zfind`: the key `z:T:fld` with `(v, v)` for no condition, RangeBounds for a known condition, None otherwise |
| Base.FindAbsent | redmodel/models/base.py:144-146 | a unique lookup of a value nobody holds gives a falsy handle, and loading it raises NotFoundError |
| Base.FindHit | redmodel/models/base.py:144-151 | a unique lookup (plain or `__contains`) gives the handle of the id the unique map names |
| Base.MultifindHit | redmodel/models/base.py:167-174 | a membership lookup includes the handle of every id in `i:T:fld:val` |
| Base.ModelZFindMeaning | redmodel/models/base.py:176-195 | zfind queries `z:T:fld`; no condition means equality; the bounds admit exactly the scores meeting the condition; other conditions give None |
| Base.Record.ToHandle | redmodel/models/base.py:266-267 | the record's handle has its type and its key |
| Base.Record.MakeDict | redmodel/models/base.py:296-301 | the write-typecast values of the assigned attributes |
| Base.Record.UpdateAttributes | redmodel/models/base.py:269-279 | passes exactly when every keyword names an attribute, and then the values become the old values overridden by the coerced arguments; otherwise KeyError of an unknown keyword, with only some known keywords assigned; nothing else changes |
| Base.Record.UpdateAttributesDict | redmodel/models/base.py:281-294 | as UpdateAttributes, KeyError included, and on success returns the write-typecast coerced arguments |
| Base.Record.BindContainers | redmodel/models/base.py:58-63 | each list and set field gets a handle keyed `key:field` |
| Base.New | redmodel/models/base.py:234-251 | constructing from keywords succeeds and fails exactly as NewState says, with its error |
| Base.Load | redmodel/models/base.py:47-69 | a loaded record is LoadState of the store, with its error on a failure |
| Base.ReadAll | redmodel/models/base.py:53-57 | the attribute-reading loop computes ReadAttrs |
| Base.WriteDict | redmodel/models/base.py:296-301 | the `make_dict` loop computes Dict |
| Base.InitSnapshot | redmodel/models/base.py:243-246 | the new snapshot maps every tracked attribute to None |
| Base.InitContainers | redmodel/models/base.py:247-250 | every list and set field starts as None |
| Writer.CheckUnique | redmodel/models/writer.py:62-68 | the loop returns the first conflict in declared attribute order. With `textual` false a value counts as changed when it differs from the snapshot as a Python value, as written; with `textual` true, when its stored text differs |
| Writer.IndexOp | redmodel/models/writer.py:35-41 | hset of `u:T:f[v] = id`, or sadd of the id to `i:T:f:v` |
| Writer.UnindexOp | redmodel/models/writer.py:43-49 | hdel of `u:T:f[v]`, or srem of the id from `i:T:f:v` |
| Writer.ReindexOp | redmodel/models/writer.py:71-79 | the index loop computes Reindex, with its new snapshot |
| Writer.UnindexAllOp | redmodel/models/writer.py:51-57 | the unindex loop computes UnindexAll |
| Writer.UpdateAttrsOp | redmodel/models/writer.py:59-80 | `__update_attrs` computes UpdateEffect with the comparison `textual` picks: outcome, store and snapshot |
| Writer.ModelWriter.UpdateAttrs | redmodel/models/writer.py:59-80 | as UpdateAttrsOp, on the record's snapshot; id, values and containers unchanged |
| Writer.ModelWriter.Create | redmodel/models/writer.py:82-95 | the outcome, store and record state are CreateEffect of the old store and state (comparison as written) |
| Writer.ModelWriter.Update | redmodel/models/writer.py:97-101 | a keyword naming no attribute fails with its KeyError, the store and snapshot unchanged; otherwise the values take the coerced arguments, and the store and snapshot are UpdateEffect of their write-typecast dict, with the corrected comparison |
| Writer.ModelWriter.UpdateAll | redmodel/models/writer.py:103-105 | the store and snapshot are UpdateEffect of `make_dict` with the corrected comparison; values unchanged |
| Writer.ModelWriter.Delete | redmodel/models/writer.py:107-115 | the store is DeleteEffect; the id becomes None on success |
| Writer.UpdateEffect | redmodel/models/writer.py:59-80 | `__update_attrs` on a store: empty data writes nothing; the first unique conflict fails with the store and snapshot unchanged; else `hmset` then reindexing every indexed field. `textual` picks the corrected stored-text comparison (true) or the comparison as written (false) |
| Writer.NewId | redmodel/models/writer.py:86-89 | the string of the incremented counter `T:id`, or the owner's id with the store unchanged |
| Writer.CreateEffect | redmodel/models/writer.py:82-95 | NewId, then UpdateEffect of `make_dict` with the comparison as written; list/set handles `T:id:field` only on success |
| Writer.CreateChecksChangedUnique | redmodel/models/writer.py:64-68 | `create` checks a unique value that differs from the snapshot as a Python value; when the map holds it, creation fails with UniqueError, only the counter has moved and no handles are bound. Covers a deleted record created again with its old snapshot |
| Writer.DeleteEffect | redmodel/models/writer.py:107-115 | NotFoundError(key) with nothing changed for an absent key; else unindex every non-None snapshot value and delete the key |
| Writer.ReindexOnlyIndexes | redmodel/models/writer.py:71-79 | reindexing writes only index keys: it leaves record hashes, container sets and all lists, sorted sets and counters alone |
| Writer.UnindexAllOnlyIndexes | redmodel/models/writer.py:51-57 | unindexing writes only index keys |
| Writer.FirstConflictStops | redmodel/models/writer.py:62-68 | once a prefix of the attributes has a conflict, that is the conflict reported |
| Writer.FirstConflictIsFirst | redmodel/models/writer.py:62-68 | no conflict means no attribute conflicts; a reported conflict is some attribute's, and no earlier attribute conflicts |
| Writer.UpdateFailsOnConflict | redmodel/models/writer.py:59-68 | an update fails iff data is non-empty and some unique field changed to a value the unique map holds; then UniqueError with store and snapshot unchanged; empty data writes nothing |
| Writer.UpdateWritesHash | redmodel/models/writer.py:69-70 | on success the record hash is the old hash merged with the data; other record hashes and all lists, sorted sets and counters are unchanged |
| Writer.HashWriteFrame | redmodel/models/writer.py:69-79 | writing the record hash and then only index keys leaves every non-index key as it was |
| Writer.IndexKeysApart | redmodel/models/writer.py:35-49 | the index keys of two different fields never coincide |
| Writer.StepKeepsOther | redmodel/models/writer.py:71-79 | reindexing one field leaves another field's index and snapshot alone |
| Writer.ReindexKeepsOther | redmodel/models/writer.py:71-79 | reindexing other fields leaves this field's index and snapshot alone |
| Writer.StepIndexes | redmodel/models/writer.py:73-79 | one field's reindexing indexes the new value, stores it in the snapshot and forgets an old value whose text differs |
| Writer.ReindexAt | redmodel/models/writer.py:71-79 | after reindexing every field, each indexed field in the data is indexed at its new value and has forgotten its old one |
| Writer.UpdateIndexes | redmodel/models/writer.py:71-79 | after a successful update each written indexed field maps or lists the id at its new value, the snapshot holds it, and an old value with different text no longer refers to the id |
| Writer.UnindexKeepsOther | redmodel/models/writer.py:43-49 | unindexing one field leaves another field's index alone |
| Writer.UnindexAllKeepsOther | redmodel/models/writer.py:51-57 | unindexing other fields leaves this field's index alone |
| Writer.UnindexAllAt | redmodel/models/writer.py:51-57 | after unindexing, the index of every non-None snapshot value no longer refers to the id |
| Writer.DeleteRemoves | redmodel/models/writer.py:107-115 | delete fails with NotFoundError, changing nothing, iff the key is absent; otherwise the key is gone, loading raises NotFoundError, and no snapshot value's index refers to the id |
| Writer.CreateIds | redmodel/models/writer.py:86-89 | without an owner the id is the incremented counter; with one it is the owner's id and the counter is untouched; a failure leaves only the counter increment |
| Writer.SuccessiveCreatesDiffer | redmodel/models/writer.py:86-87 | two successive creates get different ids |
| Writer.FirstIds | redmodel/models/writer.py:86-87 | with no counter yet the first two ids are `'1'` and `'2'` |
| Writer.CreateThenLoad | redmodel/models/writer.py:82-95 | loading after a successful create gives back its values, a raw-text snapshot and the list/set handles |
| Writer.CreateIndexes | redmodel/models/writer.py:90 | after a successful create every indexed attribute is indexed at its written value |
| Writer.WrittenCovered | redmodel/models/base.py:56-57 | a loaded snapshot covers every unique attribute of the written dict |
| Writer.UpdateAllAfterLoadRejects | redmodel/models/writer.py:103-105 | after create and load of a record with a unique IntegerField, `update_all` fails with UniqueError |
| Writer.IndexedIntegerConflicts | redmodel/models/writer.py:64-68 | an integer compared with its own stored text counts as changed, and then the record's own unique entry is a conflict |
| Writer.LoadedRecordSavesUnchanged | redmodel/models/writer.py:62-68 | when changes are detected by stored text, saving a loaded, unchanged record always passes |
| Writer.CreateThenFind | redmodel/models/writer.py:82-90 | after a successful create, `find` by a unique attribute's value gives the new record's handle |
| Writer.CreateThenMultifind | redmodel/models/writer.py:82-90 | after a successful create, `multifind` by an indexed attribute's value includes the new record's handle |
| Writer.FieldIndexKeys | redmodel/models/writer.py:122-126 | a field's writer is indexed iff the field is; a unique field uses `u:T:f`; a non-unique field's sets are `i:T:f:value` |
| Writer.AppendThenFind | redmodel/models/writer.py:128-134 | after a successful append to a unique field, `find` by the value gives the owner's handle |
| Writer.FieldRemoveKeepsRecords | redmodel/models/writer.py:136-138 | a container field's remove changes no record hash or record key, so an element that was not removed still loads as before |
| Writer.LoadKept | redmodel/models/base.py:47-69 | a store that keeps a record's key loads that record the same |
| Writer.ContainerRepr | redmodel/containers.py:38-39 | `<ListHandle: key>`, `<SetHandle: key>` or `<SortedSetHandle: key>` |
| Writer.HandleRepr | redmodel/models/base.py:28-29 | `<Handle: key>` |
| Writer.ContainerFieldWriter.Append | redmodel/models/writer.py:128-134 | an unowned field's append is the container writer's AppendEffect |
| Writer.ContainerFieldWriter.AppendOwned | redmodel/models/writer.py:128-134 | an owned field first creates the element (CreateEffect); on success it appends the element's id |
| Writer.ContainerFieldWriter.Remove | redmodel/models/writer.py:136-138 | an unowned field's remove is the container writer's corrected GuardedRemoveEffect, with the count dropped and an error passed on |
| Writer.ContainerFieldWriter.RemoveOwned | redmodel/models/writer.py:136-144 | an owned remove of a non-member raises NotFoundError `handle in container` and keeps the element; otherwise it deletes the element (DeleteEffect), clearing its id; the container removal is the corrected GuardedRemoveEffect |

## Left out

- The store connection, pipelines and the network (`redmodel/__init__.py`) are not part of this model. The store is a class of maps, and a pipeline is one atomic update.
- The window between `hexists` and the pipeline (concurrent writers) is not modelled. Uniqueness is claimed for sequential calls only.
- Sorted (`z:`) and list (`l:`) index maintenance and the extra field types (boolean, float, datetime, sorted-set fields) are not modelled. They are not implemented in the modelled writer and attribute code. `zindexed` is only a flag that adds an attribute to the snapshot.
- Float scores and weights are not modelled. Scores are integers.
- The store's own evaluation of ranges (`-inf`, `+inf`, `(`) is given by `LowerAdmits`/`UpperAdmits`, for integer scores only. Rank queries and range reads (`zrange`, `zrank`, `zcount` and so on) are not modelled.
- The metaclass is not modelled. A type is an explicit descriptor with ordered attribute, list and set sequences and an optional owner.
- `__repr__` is not modelled, except the two strings that go into `ContainerFieldWriter.remove`'s NotFoundError message (`ContainerRepr`, `HandleRepr`).
- `redmodel/models/exceptions.py` and `redmodel/models/__init__.py` are not part of this model. Errors are the `Error` datatype.
- Python `assert`s are preconditions, not runtime errors. This includes the type checks of writers against records, handles and owners. Those checks compare type names.
- Python dict iteration order is not modelled. `__update_attrs` is modelled as visiting fields in declared attribute order, so when several fields conflict, which UniqueError is reported follows that order.
- Writer.ContainerFieldWriter.RemoveOwned: requires a persisted element. The source asserts `value.oid is not None` only after removing from the container.
- Writer.ContainerFieldWriter.Append and Writer.ContainerFieldWriter.AppendOwned: the owned and unowned cases of `append` are two methods, chosen by the field's `owned` flag.
- `ListFieldWriter`/`SetFieldWriter` are not separate classes. Their field-type assertion is the kind requirement of the `ContainerFieldWriter` constructor (list or set).
- The error message of a failed `int()` (ValueError) is not modelled.
- `Model.exists` is not modelled apart from the load path. A load whose hash is empty but whose key exists re-raises the KeyError.
- Text.ParseInt: skips whitespace around the number only. Further leniency of Python 2's `int()`, such as a space between the sign and the digits, is not modelled.
- The store's own reading of score bounds (`ParseDecimal`) accepts no whitespace. Bounds in this model are always `str()` of an integer.
- Base.Find and Base.Multifind: the source looks the name up in the class dictionary. A class member that is not a field, such as a method, counts as undeclared here and gives KeyError. The source would go on to query the store with it.
- Attributes.WriteCast: requires a handle for a reference attribute. A bare `None` set on the attribute directly, bypassing `update_attributes`, makes `typecast_for_write` raise AttributeError. Direct attribute assignment is not modelled. `update_attributes` turns `None` into a falsy handle (Base.CoerceNoneReference).
- Containers.SetLoad: returns a set, where `SetHandle.load` returns Python 2's `map(...)` list with one element per member. Members that transform to the same value, such as `"1"` and `"01"` of an int set, merge here, and the list's order is not modelled.
- Writer.ModelWriter.Create: a deleted record created again keeps its old snapshot. The model, like the source, unindexes those stale values (writer.py:74-77). That can drop an entry another record took after the delete. No corrected version of this is modelled.
- Store.DB: hashes, sets, lists, sorted sets and counters are separate maps, so one key can hold several kinds at once. The store's WRONGTYPE errors are not modelled.
- Writer.ModelWriter.Update: runs the corrected comparison. An IntegerField updated to its own loaded value passes here, while the source raises UniqueError. Writer.UpdateAllAfterLoadRejects states the behaviour as written.
- Writer.ModelWriter.Update, Base.Record.UpdateAttributes, Base.Record.UpdateAttributesDict: after a KeyError, which known keywords were assigned depends on the dictionary's order. The model says only that some of them were, each with its coerced value.
- Writer.ModelWriter.UpdateAll: runs the corrected comparison. On the input of the first Findings row it passes, while the source's `update_all` raises UniqueError `u:T:n<29>`.
- Containers.ContainerWriter.Remove: a unique-indexed remove drops the map entry only when an element was removed. The source drops it unconditionally (Containers.RemoveForeignDropsEntry).
- Writer.ContainerFieldWriter.Remove: uses the corrected container remove, as Containers.ContainerWriter.Remove does.
- Writer.ContainerFieldWriter.RemoveOwned: uses the corrected container remove as well.
- Handle equality is Dafny's equality on the handle datatype (same type name, same id). `__hash__` is not modelled.

## Findings

| source | as written | input that shows it | evidently intended | confidence | as-written member | corrected member |
|---|---|---|---|---|---|---|
| redmodel/models/writer.py:62-68 | a unique field counts as changed when the new write value differs from the snapshot, but a loaded record's snapshot holds the stored text while `make_dict` gives an IntegerField's integer | create a record with a unique IntegerField `n = 29`, load it, then call `update_all`: `29 != '29'`, and `hexists('u:T:n', 29)` finds the record's own entry | an unchanged record saves without error (compare the stored text of both sides) | not executed | Writer.UpdateAllAfterLoadRejects | Writer.LoadedRecordSavesUnchanged |
| redmodel/containers.py:213-215 | a unique-indexed remove deletes `index[value]` unconditionally | owners 1 and 2 of set field `f`, owner 1 holding `'x'` (`u:T:f = {x: 1}`); removing `'x'` from owner 2's set deletes owner 1's map entry | drop the entry only when the container removal took the element out | not executed | Containers.RemoveForeignDropsEntry | Containers.GuardedRemoveKeepsUniqueIndex |
