/** The store key naming scheme, and the facts that keep differently named keys apart.
    Type names, field names and ids are colon-free (Python identifiers and decimal
    ids), which is what makes the scheme unambiguous. */
module Keys {
  import opened Text
  import opened Values

  /** `Model.key_by_id`: the primary key of a record. */
  function KeyById(typeName: string, oid: Py): string { typeName + ":" + Str(oid) }

  /** The key of a record's list or set field. */
  function FieldKey(recordKey: string, field: string): string { recordKey + ":" + field }

  /** The unique map of a field: raw value -> id. */
  function UniqueKey(typeName: string, field: string): string { "u:" + typeName + ":" + field }

  /** The membership set of a field for one raw value. */
  function MemberKey(typeName: string, field: string, raw: string): string
  {
    "i:" + typeName + ":" + field + ":" + raw
  }

  /** The sorted index of a field. */
  function SortedKey(typeName: string, field: string): string { "z:" + typeName + ":" + field }

  /** The per-type id counter. */
  function CounterKey(typeName: string): string { typeName + ":id" }

  lemma ColonsKeyById(t: string, oid: Py)
    requires ColonFree(t) && PlainId(oid)
    ensures Colons(KeyById(t, oid)) == 1
  {
    assert KeyById(t, oid) == t + ":" + Str(oid);
  }

  lemma ColonsUniqueKey(t: string, f: string)
    requires ColonFree(t) && ColonFree(f)
    ensures Colons(UniqueKey(t, f)) == 2
  {
    assert UniqueKey(t, f) == "u" + ":" + t + ":" + f;
    assert multiset("u")[':'] == 0;
  }

  lemma ColonsFieldKey(t: string, oid: Py, f: string)
    requires ColonFree(t) && PlainId(oid) && ColonFree(f)
    ensures Colons(FieldKey(KeyById(t, oid), f)) == 2
  {
    assert FieldKey(KeyById(t, oid), f) == t + ":" + Str(oid) + ":" + f;
  }

  lemma ColonsMemberKey(t: string, f: string, raw: string)
    requires ColonFree(t) && ColonFree(f)
    ensures Colons(MemberKey(t, f, raw)) >= 3
  {
    assert MemberKey(t, f, raw) == "i" + ":" + t + ":" + f + ":" + raw;
    assert multiset("i")[':'] == 0;
  }

  /** A record's primary key is no unique-map key, of any type and field. */
  lemma RecordKeyNotUniqueKey(t: string, oid: Py, t': string, f: string)
    requires ColonFree(t) && PlainId(oid) && ColonFree(t') && ColonFree(f)
    ensures KeyById(t, oid) != UniqueKey(t', f)
  {
    ColonsKeyById(t, oid);
    ColonsUniqueKey(t', f);
  }

  /** A container key of a record is no record primary key. */
  lemma FieldKeyNotRecordKey(t: string, oid: Py, f: string, t': string, oid': Py)
    requires ColonFree(t) && PlainId(oid) && ColonFree(f) && ColonFree(t') && PlainId(oid')
    ensures FieldKey(KeyById(t, oid), f) != KeyById(t', oid')
  {
    ColonsKeyById(t', oid');
    ColonsFieldKey(t, oid, f);
  }

  /** Unique maps of two fields of one type are distinct. */
  lemma UniqueKeyInjective(t: string, f: string, g: string)
    requires UniqueKey(t, f) == UniqueKey(t, g)
    ensures f == g
  {
    var p := "u:" + t + ":";
    assert UniqueKey(t, f) == p + f && UniqueKey(t, g) == p + g;
    assert f == (p + f)[|p|..];
    assert g == (p + g)[|p|..];
  }

  /** Membership sets are distinct for different fields or values. */
  lemma MemberKeyInjective(t: string, f: string, x: string, g: string, y: string)
    requires ColonFree(f) && ColonFree(g)
    requires MemberKey(t, f, x) == MemberKey(t, g, y)
    ensures f == g && x == y
  {
    var p := "i:" + t + ":";
    assert MemberKey(t, f, x) == p + (f + ":" + x);
    assert MemberKey(t, g, y) == p + (g + ":" + y);
    assert f + ":" + x == (p + (f + ":" + x))[|p|..];
    assert g + ":" + y == (p + (g + ":" + y))[|p|..];
    CutAtColon(f, x, g, y);
  }

  /** A container's owner id, the second colon-separated segment of its key, is the
      record id the container key was built from. */
  lemma OwnerSegment(t: string, oid: Py, f: string)
    requires ColonFree(t) && PlainId(oid) && ColonFree(f)
    ensures Split(FieldKey(KeyById(t, oid), f), ":") == [t, Str(oid), f]
  {
    var k := FieldKey(KeyById(t, oid), f);
    assert k == t + ":" + (Str(oid) + ":" + f);
    SplitColon(t, Str(oid) + ":" + f);
    SplitColon(Str(oid), f);
    SplitColonFree(f);
  }
}
