/** The backing key-value store, reduced to the commands the library issues.
    A key names a hash, a set, a list, a sorted set or a counter. As in the real
    store, a collection that becomes empty disappears, so a collection key
    exists exactly while it has members. */
module Store {
  import opened Text

  /** A snapshot of the whole store. */
  datatype DB = DB(
    hashes: map<string, map<string, string>>,
    sets: map<string, set<string>>,
    lists: map<string, seq<string>>,
    zsets: map<string, map<string, int>>,
    counters: map<string, int>)
  {
    /** No empty collection is ever stored. */
    ghost predicate Valid()
    {
      && (forall k :: k in hashes ==> hashes[k] != map[])
      && (forall k :: k in sets ==> sets[k] != {})
      && (forall k :: k in lists ==> lists[k] != [])
      && (forall k :: k in zsets ==> zsets[k] != map[])
    }

    /** `hgetall`: the fields of a hash, empty if there is none. */
    function Hash(k: string): map<string, string> { if k in hashes then hashes[k] else map[] }

    /** `smembers`. */
    function Members(k: string): set<string> { if k in sets then sets[k] else {} }

    /** `lrange(k, 0, -1)`. */
    function List(k: string): seq<string> { if k in lists then lists[k] else [] }

    /** The member -> score map of a sorted set. */
    function Scores(k: string): map<string, int> { if k in zsets then zsets[k] else map[] }

    /** A counter's value; a missing counter counts as 0. */
    function Counter(k: string): int { if k in counters then counters[k] else 0 }

    /** `exists`. */
    predicate Exists(k: string)
    {
      k in hashes || k in sets || k in lists || k in zsets || k in counters
    }

    /** `hexists`. */
    predicate HExists(k: string, f: string) { f in Hash(k) }

    /** `hget`. */
    function HGet(k: string, f: string): Option<string>
    {
      if f in Hash(k) then Some(Hash(k)[f]) else None
    }

    function PutHash(k: string, h: map<string, string>): (d: DB)
      ensures d.Hash(k) == h
      ensures forall k' :: k' != k ==> d.Hash(k') == Hash(k')
      ensures d.sets == sets && d.lists == lists && d.zsets == zsets && d.counters == counters
      ensures Valid() ==> d.Valid()
    {
      if h == map[] then this.(hashes := hashes - {k}) else this.(hashes := hashes[k := h])
    }

    function PutSet(k: string, s: set<string>): (d: DB)
      ensures d.Members(k) == s
      ensures forall k' :: k' != k ==> d.Members(k') == Members(k')
      ensures d.hashes == hashes && d.lists == lists && d.zsets == zsets && d.counters == counters
      ensures Valid() ==> d.Valid()
    {
      if s == {} then this.(sets := sets - {k}) else this.(sets := sets[k := s])
    }

    function PutList(k: string, l: seq<string>): (d: DB)
      ensures d.List(k) == l
      ensures forall k' :: k' != k ==> d.List(k') == List(k')
      ensures d.hashes == hashes && d.sets == sets && d.zsets == zsets && d.counters == counters
      ensures Valid() ==> d.Valid()
    {
      if l == [] then this.(lists := lists - {k}) else this.(lists := lists[k := l])
    }

    function PutScores(k: string, z: map<string, int>): (d: DB)
      ensures d.Scores(k) == z
      ensures forall k' :: k' != k ==> d.Scores(k') == Scores(k')
      ensures d.hashes == hashes && d.sets == sets && d.lists == lists && d.counters == counters
      ensures Valid() ==> d.Valid()
    {
      if z == map[] then this.(zsets := zsets - {k}) else this.(zsets := zsets[k := z])
    }

    function HSet(k: string, f: string, v: string): DB { PutHash(k, Hash(k)[f := v]) }

    /** `hmset`: merge fields into a hash. */
    function HMSet(k: string, m: map<string, string>): DB { PutHash(k, Hash(k) + m) }

    function HDel(k: string, f: string): DB { PutHash(k, Hash(k) - {f}) }

    function SAdd(k: string, m: string): DB { PutSet(k, Members(k) + {m}) }

    function SRem(k: string, m: string): DB { PutSet(k, Members(k) - {m}) }

    /** `rpush`: append at the tail. */
    function RPush(k: string, v: string): DB { PutList(k, List(k) + [v]) }

    /** `lrem(k, v)` with count 0: remove every occurrence. */
    function LRem(k: string, v: string): DB { PutList(k, Without(List(k), v)) }

    function ZAdd(k: string, m: string, score: int): DB { PutScores(k, Scores(k)[m := score]) }

    function ZRem(k: string, m: string): DB { PutScores(k, Scores(k) - {m}) }

    function Incr(k: string): (d: DB)
      ensures d.Counter(k) == Counter(k) + 1
      ensures Valid() ==> d.Valid()
    {
      this.(counters := counters[k := Counter(k) + 1])
    }

    /** `delete`: the key disappears whatever it holds. */
    function Del(k: string): (d: DB)
      ensures !d.Exists(k)
      ensures forall k' :: k' != k ==> d.Hash(k') == Hash(k') && d.Members(k') == Members(k')
      ensures Valid() ==> d.Valid()
    {
      DB(hashes - {k}, sets - {k}, lists - {k}, zsets - {k}, counters - {k})
    }
  }

  /** An empty store (`flushdb`). */
  const Empty := DB(map[], map[], map[], map[], map[])

  /** A list with every occurrence of `v` removed, the rest in order. */
  function Without(l: seq<string>, v: string): (r: seq<string>)
    ensures v !in r
    ensures multiset(r) == multiset(l)[v := 0]
    decreases |l|
  {
    if l == [] then []
    else
      assert l == [l[0]] + l[1..];
      if l[0] == v then Without(l[1..], v) else [l[0]] + Without(l[1..], v)
  }

  /** `lrem` returns how many elements it removed: the occurrences of `v`. */
  lemma WithoutCount(l: seq<string>, v: string)
    ensures |l| - |Without(l, v)| == multiset(l)[v]
  {
    var r := Without(l, v);
    assert |multiset(r)| == |multiset(l)| - multiset(l)[v];
  }

  /** The store as one mutable object. */
  class Store {
    var hashes: map<string, map<string, string>>
    var sets: map<string, set<string>>
    var lists: map<string, seq<string>>
    var zsets: map<string, map<string, int>>
    var counters: map<string, int>

    function View(): DB
      reads this
    {
      DB(hashes, sets, lists, zsets, counters)
    }

    /** The store keeps no empty collection; each command preserves this. */
    ghost predicate Valid()
      reads this
    {
      View().Valid()
    }

    /** A fresh, empty store. */
    constructor ()
      ensures View() == Empty && Valid()
    {
      hashes, sets, lists, zsets, counters := map[], map[], map[], map[], map[];
    }

    method Put(d: DB)
      modifies this
      ensures View() == d
    {
      hashes, sets, lists, zsets, counters := d.hashes, d.sets, d.lists, d.zsets, d.counters;
    }

    method HSet(k: string, f: string, v: string)
      modifies this
      ensures View() == old(View()).HSet(k, f, v)
      ensures old(Valid()) ==> Valid()
    {
      Put(View().HSet(k, f, v));
    }

    method HMSet(k: string, m: map<string, string>)
      modifies this
      ensures View() == old(View()).HMSet(k, m)
      ensures old(Valid()) ==> Valid()
    {
      Put(View().HMSet(k, m));
    }

    /** Returns the number of fields removed. */
    method HDel(k: string, f: string) returns (n: int)
      modifies this
      ensures View() == old(View()).HDel(k, f)
      ensures old(Valid()) ==> Valid()
      ensures n == if old(View()).HExists(k, f) then 1 else 0
    {
      n := if View().HExists(k, f) then 1 else 0;
      Put(View().HDel(k, f));
    }

    method SAdd(k: string, m: string)
      modifies this
      ensures View() == old(View()).SAdd(k, m)
      ensures old(Valid()) ==> Valid()
    {
      Put(View().SAdd(k, m));
    }

    /** Returns the number of members removed. */
    method SRem(k: string, m: string) returns (n: int)
      modifies this
      ensures View() == old(View()).SRem(k, m)
      ensures old(Valid()) ==> Valid()
      ensures n == if m in old(View()).Members(k) then 1 else 0
    {
      n := if m in View().Members(k) then 1 else 0;
      Put(View().SRem(k, m));
    }

    method RPush(k: string, v: string)
      modifies this
      ensures View() == old(View()).RPush(k, v)
      ensures old(Valid()) ==> Valid()
    {
      Put(View().RPush(k, v));
    }

    /** Returns the number of elements removed. */
    method LRem(k: string, v: string) returns (n: int)
      modifies this
      ensures View() == old(View()).LRem(k, v)
      ensures old(Valid()) ==> Valid()
      ensures n == multiset(old(View()).List(k))[v]
    {
      WithoutCount(View().List(k), v);
      n := |View().List(k)| - |Without(View().List(k), v)|;
      Put(View().LRem(k, v));
    }

    method ZAdd(k: string, m: string, score: int)
      modifies this
      ensures View() == old(View()).ZAdd(k, m, score)
      ensures old(Valid()) ==> Valid()
    {
      Put(View().ZAdd(k, m, score));
    }

    /** Returns the number of members removed. */
    method ZRem(k: string, m: string) returns (n: int)
      modifies this
      ensures View() == old(View()).ZRem(k, m)
      ensures old(Valid()) ==> Valid()
      ensures n == if m in old(View()).Scores(k) then 1 else 0
    {
      n := if m in View().Scores(k) then 1 else 0;
      Put(View().ZRem(k, m));
    }

    /** Returns the incremented value. */
    method Incr(k: string) returns (n: int)
      modifies this
      ensures View() == old(View()).Incr(k)
      ensures old(Valid()) ==> Valid()
      ensures n == old(View()).Counter(k) + 1
    {
      n := View().Counter(k) + 1;
      Put(View().Incr(k));
    }

    method Delete(k: string)
      modifies this
      ensures View() == old(View()).Del(k)
      ensures old(Valid()) ==> Valid()
    {
      Put(View().Del(k));
    }

    method Exists(k: string) returns (b: bool)
      ensures b == View().Exists(k)
    {
      b := View().Exists(k);
    }

    method HExists(k: string, f: string) returns (b: bool)
      ensures b == View().HExists(k, f)
    {
      b := View().HExists(k, f);
    }

    method HGet(k: string, f: string) returns (r: Option<string>)
      ensures r == View().HGet(k, f)
    {
      r := View().HGet(k, f);
    }

    method HGetAll(k: string) returns (h: map<string, string>)
      ensures h == View().Hash(k)
    {
      h := View().Hash(k);
    }

    method SMembers(k: string) returns (s: set<string>)
      ensures s == View().Members(k)
    {
      s := View().Members(k);
    }

    method LRange(k: string) returns (l: seq<string>)
      ensures l == View().List(k)
    {
      l := View().List(k);
    }
  }
}
