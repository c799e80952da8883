/**
 * The attribute store of one scope: a bounded table from keys to a primitive
 * value and the destinations the value may be sent to.
 */
module AttributeStore {
  import opened Wrappers
  import opened ByteLimit
  import opened Destinations

  /** Keys longer than this many UTF-8 bytes are refused. */
  const MAX_KEY_BYTES: nat := 255

  /** String values are read back cut to this many UTF-8 bytes. */
  const MAX_VALUE_BYTES: nat := 255

  /** A storable value: a string, a number or a boolean. */
  datatype Value = Str(s: string) | Num(n: int) | Bool(b: bool)

  /** Any JavaScript value a caller may pass as an attribute value. */
  datatype Input =
    | JsString(s: string)
    | JsNumber(n: int)
    | JsBoolean(b: bool)
    | JsArray
    | JsObject
    | JsUndefined
    | JsNull
    | JsSymbol
    | JsFunction

  /** One stored attribute. */
  datatype Entry = Entry(value: Value, destinations: Mask)

  /** The most keys a store may hold. */
  datatype Limit = Unlimited | AtMost(n: nat) {
    predicate Admits(count: nat) {
      Unlimited? || count <= n
    }
  }

  type Store = map<string, Entry>

  /** The storable form of `v`, when it has one. */
  function AsPrimitive(v: Input): Option<Value> {
    match v
    case JsString(s) => Some(Str(s))
    case JsNumber(n) => Some(Num(n))
    case JsBoolean(b) => Some(Bool(b))
    case _ => None
  }

  predicate ValidKey(key: string) {
    ByteLength(key) <= MAX_KEY_BYTES
  }

  /** The store invariant: within the limit, and every key short enough. */
  predicate Bounded(store: Store, limit: Limit) {
    limit.Admits(|store|) && forall k :: k in store ==> ValidKey(k)
  }

  /**
   * Whether a write of `key` is kept: the value is primitive, the key is short
   * enough, and the key is already present or there is room for one more.
   */
  predicate Accepts(store: Store, limit: Limit, key: string, v: Input) {
    AsPrimitive(v).Some? && ValidKey(key) && (key in store || limit.Admits(|store| + 1))
  }

  /** The store after one `addAttribute`. */
  function Added(store: Store, limit: Limit, mask: Mask, key: string, v: Input): Store {
    if Accepts(store, limit, key, v) then store[key := Entry(AsPrimitive(v).value, mask)] else store
  }

  /** The store after `addAttribute` for each pair of `pairs`, in order. */
  function AddedAll(store: Store, limit: Limit, mask: Mask, pairs: seq<(string, Input)>): Store
    decreases |pairs|
  {
    if pairs == [] then store
    else
      var last := pairs[|pairs| - 1];
      Added(AddedAll(store, limit, mask, pairs[..|pairs| - 1]), limit, mask, last.0, last.1)
  }

  /** A value as `get` returns it: strings cut to the value byte budget. */
  function ReadBack(v: Value): Value {
    match v
    case Str(s) => Str(Truncate(s, MAX_VALUE_BYTES))
    case _ => v
  }

  /** What `get(mask)` returns for `store`. */
  function Visible(store: Store, mask: Mask): map<string, Value> {
    map k | k in store && Overlaps(store[k].destinations, mask) :: ReadBack(store[k].value)
  }

  class Attributes {
    const scope: string
    const limit: Limit
    /** The attribute filter configured for `scope`. */
    const filter: Filter
    var attributes: Store

    ghost predicate Valid()
      reads this
    {
      Bounded(attributes, limit)
    }

    constructor (scope: string, limit: Limit, filter: Filter)
      ensures Valid()
      ensures this.scope == scope && this.limit == limit && this.filter == filter
      ensures attributes == map[]
    {
      this.scope := scope;
      this.limit := limit;
      this.filter := filter;
      attributes := map[];
    }

    /**
     * Stores `value` under `key` for `destinations`, or silently drops the
     * write when the value is not primitive, the key is too long, or the key
     * is new and the store is full.
     */
    method AddAttribute(destinations: Mask, key: string, value: Input)
      requires Valid()
      modifies this
      ensures Valid()
      ensures Accepts(old(attributes), limit, key, value) ==>
                attributes == old(attributes)[key := Entry(AsPrimitive(value).value, destinations)]
      ensures !Accepts(old(attributes), limit, key, value) ==> attributes == old(attributes)
      ensures attributes == Added(old(attributes), limit, destinations, key, value)
    {
      if AsPrimitive(value).None? {
        return;
      }
      if !ValidKey(key) {
        return;
      }
      if key !in attributes && !limit.Admits(|attributes| + 1) {
        return;
      }
      attributes := attributes[key := Entry(AsPrimitive(value).value, destinations)];
    }

    /** `AddAttribute` for each pair, in iteration order. */
    method AddAttributes(destinations: Mask, pairs: seq<(string, Input)>)
      requires Valid()
      modifies this
      ensures Valid()
      ensures attributes == AddedAll(old(attributes), limit, destinations, pairs)
    {
      var i := 0;
      while i < |pairs|
        invariant 0 <= i <= |pairs|
        invariant Valid()
        invariant attributes == AddedAll(old(attributes), limit, destinations, pairs[..i])
      {
        assert pairs[..i + 1][..i] == pairs[..i];
        AddAttribute(destinations, pairs[i].0, pairs[i].1);
        i := i + 1;
      }
      assert pairs[..i] == pairs;
    }

    /**
     * A fresh map of the attributes whose destinations share a flag with
     * `destinations`, string values cut to the value byte budget.
     */
    method Get(destinations: Mask) returns (result: map<string, Value>)
      ensures forall k :: k in result <==> k in attributes && Overlaps(attributes[k].destinations, destinations)
      ensures forall k :: k in result ==> result[k] == ReadBack(attributes[k].value)
      ensures result == Visible(attributes, destinations)
    {
      result := map[];
      var pending := attributes.Keys;
      while pending != {}
        invariant pending <= attributes.Keys
        invariant forall k :: k in result <==>
                    k in attributes && k !in pending && Overlaps(attributes[k].destinations, destinations)
        invariant forall k :: k in result ==> result[k] == ReadBack(attributes[k].value)
        decreases pending
      {
        var key :| key in pending;
        var entry := attributes[key];
        if entry.destinations * destinations != {} {
          var v := entry.value;
          if v.Str? {
            v := Str(Truncate(v.s, MAX_VALUE_BYTES));
          }
          result := result[key := v];
        }
        pending := pending - {key};
      }
    }

    /** Whether any of `destinations` keeps `key` after filtering. */
    function HasValidDestination(destinations: Mask, key: string): (r: bool)
      ensures r <==> exists d :: d in destinations && filter(d, key)
    {
      Surviving(filter, destinations, key) != {}
    }

    /** Forgets every attribute; scope, limit and filter stay. */
    method Reset()
      requires Valid()
      modifies this
      ensures Valid()
      ensures attributes == map[]
    {
      attributes := map[];
    }
  }

  // ---------------------------------------------------------------------------
  // Properties of a single write

  /** A write keeps the store invariant. */
  lemma AddedBounded(store: Store, limit: Limit, mask: Mask, key: string, v: Input)
    requires Bounded(store, limit)
    ensures Bounded(Added(store, limit, mask, key, v), limit)
  {
  }

  /** Only the written key can change. */
  lemma AddedOthersUnchanged(store: Store, limit: Limit, mask: Mask, key: string, v: Input, other: string)
    requires other != key
    ensures other in Added(store, limit, mask, key, v) <==> other in store
    ensures other in store ==> Added(store, limit, mask, key, v)[other] == store[other]
  {
  }

  /** An accepted write is read back through any overlapping mask. */
  lemma AddThenGet(store: Store, limit: Limit, mask: Mask, key: string, v: Input, read: Mask)
    requires ValidKey(key) && AsPrimitive(v).Some?
    requires key in store || limit.Admits(|store| + 1)
    requires Overlaps(mask, read)
    ensures key in Visible(Added(store, limit, mask, key, v), read)
    ensures Visible(Added(store, limit, mask, key, v), read)[key] == ReadBack(AsPrimitive(v).value)
  {
  }

  /** A key over the byte budget is never stored. */
  lemma LongKeyDropped(store: Store, limit: Limit, mask: Mask, key: string, v: Input)
    requires ByteLength(key) > MAX_KEY_BYTES
    ensures Added(store, limit, mask, key, v) == store
  {
  }

  /** A value that is not a string, number or boolean is never stored. */
  lemma NonPrimitiveDropped(store: Store, limit: Limit, mask: Mask, key: string, v: Input)
    requires !(v.JsString? || v.JsNumber? || v.JsBoolean?)
    ensures Added(store, limit, mask, key, v) == store
  {
  }

  /** Writing an existing key replaces its entry and takes no further slot. */
  lemma Overwrite(store: Store, limit: Limit, mask: Mask, key: string, v: Input)
    requires key in store && ValidKey(key) && AsPrimitive(v).Some?
    ensures Added(store, limit, mask, key, v).Keys == store.Keys
    ensures Added(store, limit, mask, key, v)[key] == Entry(AsPrimitive(v).value, mask)
  {
  }

  /** A new key is refused once the store holds `limit` keys. */
  lemma FullStoreRefusesNewKey(store: Store, n: nat, mask: Mask, key: string, v: Input)
    requires |store| == n && key !in store
    ensures Added(store, AtMost(n), mask, key, v) == store
  {
  }

  // ---------------------------------------------------------------------------
  // Properties of a sequence of writes

  /** Writing one more pair continues from the store the earlier pairs left. */
  lemma AddedAllSnoc(store: Store, limit: Limit, mask: Mask, pairs: seq<(string, Input)>, p: (string, Input))
    ensures AddedAll(store, limit, mask, pairs + [p]) == Added(AddedAll(store, limit, mask, pairs), limit, mask, p.0, p.1)
  {
    assert (pairs + [p])[..|pairs|] == pairs;
  }

  /** Any sequence of writes keeps the store invariant. */
  lemma {:induction false} AddedAllBounded(store: Store, limit: Limit, mask: Mask, pairs: seq<(string, Input)>)
    requires Bounded(store, limit)
    ensures Bounded(AddedAll(store, limit, mask, pairs), limit)
    decreases |pairs|
  {
    if pairs != [] {
      AddedAllBounded(store, limit, mask, pairs[..|pairs| - 1]);
    }
  }

  /**
   * Every key a sequence of writes stores was already there, or came with a
   * short enough key and a primitive value.
   */
  lemma {:induction false} AddedAllOrigin(store: Store, limit: Limit, mask: Mask, pairs: seq<(string, Input)>, k: string)
    requires k in AddedAll(store, limit, mask, pairs)
    ensures k in store || (ValidKey(k) && exists i :: 0 <= i < |pairs| && pairs[i].0 == k && AsPrimitive(pairs[i].1).Some?)
    decreases |pairs|
  {
    if pairs != [] {
      var front := pairs[..|pairs| - 1];
      var last := pairs[|pairs| - 1];
      if k in AddedAll(store, limit, mask, front) {
        AddedAllOrigin(store, limit, mask, front, k);
        if k !in store {
          var i :| 0 <= i < |front| && front[i].0 == k && AsPrimitive(front[i].1).Some?;
          assert pairs[i] == front[i];
        }
      } else {
        assert k == last.0 && Accepts(AddedAll(store, limit, mask, front), limit, last.0, last.1);
      }
    }
  }

  /** Writes into an empty store under one mask leave every entry under that mask. */
  lemma {:induction false} AddedAllMask(limit: Limit, mask: Mask, pairs: seq<(string, Input)>, k: string)
    requires k in AddedAll(map[], limit, mask, pairs)
    ensures AddedAll(map[], limit, mask, pairs)[k].destinations == mask
    decreases |pairs|
  {
    var n := |pairs| - 1;
    if k in AddedAll(map[], limit, mask, pairs[..n]) {
      AddedAllMask(limit, mask, pairs[..n], k);
    }
  }

  /** Whether a pair could be stored given room: short key, primitive value. */
  predicate Storable(p: (string, Input)) {
    ValidKey(p.0) && AsPrimitive(p.1).Some?
  }

  /** The keys of the storable pairs. */
  function StorableKeys(pairs: seq<(string, Input)>): set<string>
    decreases |pairs|
  {
    if pairs == [] then {}
    else
      var last := pairs[|pairs| - 1];
      StorableKeys(pairs[..|pairs| - 1]) + (if Storable(last) then {last.0} else {})
  }

  lemma StorableKeysSnoc(pairs: seq<(string, Input)>, p: (string, Input))
    ensures StorableKeys(pairs + [p]) == StorableKeys(pairs) + (if Storable(p) then {p.0} else {})
  {
    assert (pairs + [p])[..|pairs|] == pairs;
  }

  lemma {:induction false} StorableKeysConcat(a: seq<(string, Input)>, b: seq<(string, Input)>)
    ensures StorableKeys(a + b) == StorableKeys(a) + StorableKeys(b)
    decreases |b|
  {
    if b == [] {
      assert a + b == a;
    } else {
      var n := |b| - 1;
      assert a + b == (a + b[..n]) + [b[n]];
      StorableKeysSnoc(a + b[..n], b[n]);
      StorableKeysConcat(a, b[..n]);
      assert b == b[..n] + [b[n]];
      StorableKeysSnoc(b[..n], b[n]);
    }
  }

  lemma {:induction false} StorableKeysSubset(pairs: seq<(string, Input)>, k: string)
    requires k in StorableKeys(pairs)
    ensures exists i :: 0 <= i < |pairs| && pairs[i].0 == k
    decreases |pairs|
  {
    var n := |pairs| - 1;
    if k in StorableKeys(pairs[..n]) {
      StorableKeysSubset(pairs[..n], k);
      var i :| 0 <= i < n && pairs[..n][i].0 == k;
      assert pairs[i] == pairs[..n][i];
    } else {
      assert pairs[n].0 == k;
    }
  }

  /**
   * With room for every pair, a sequence of writes with distinct keys into an
   * empty store keeps exactly the pairs with a short enough key and a
   * primitive value.
   */
  lemma {:induction false} OnlyStorableKept(limit: Limit, mask: Mask, pairs: seq<(string, Input)>)
    requires DistinctKeys(pairs) && limit.Admits(|pairs|)
    ensures |AddedAll(map[], limit, mask, pairs)| <= |pairs|
    ensures AddedAll(map[], limit, mask, pairs).Keys == StorableKeys(pairs)
    decreases |pairs|
  {
    if pairs != [] {
      var n := |pairs| - 1;
      var front := pairs[..n];
      var last := pairs[n];
      assert DistinctKeys(front) by {
        assert forall i :: 0 <= i < |front| ==> front[i] == pairs[i];
      }
      OnlyStorableKept(limit, mask, front);
      var before := AddedAll(map[], limit, mask, front);
      if last.0 in before {
        StorableKeysSubset(front, last.0);
        assert false;
      }
      StorableStep(before, limit, mask, front, last);
      assert front + [last] == pairs;
    }
  }

  /** One more pair with a new key, written while there is room, is kept exactly when it is storable. */
  lemma StorableStep(before: Store, limit: Limit, mask: Mask, front: seq<(string, Input)>, last: (string, Input))
    requires before.Keys == StorableKeys(front) && |before| <= |front|
    requires last.0 !in before && limit.Admits(|front| + 1)
    ensures |Added(before, limit, mask, last.0, last.1)| <= |front| + 1
    ensures Added(before, limit, mask, last.0, last.1).Keys == StorableKeys(front + [last])
  {
    StorableKeysSnoc(front, last);
  }

  /** The keys of `pairs`. */
  function KeysOf(pairs: seq<(string, Input)>): set<string> {
    set i | 0 <= i < |pairs| :: pairs[i].0
  }

  predicate DistinctKeys(pairs: seq<(string, Input)>) {
    forall i, j :: 0 <= i < j < |pairs| ==> pairs[i].0 != pairs[j].0
  }

  /** How many of `count` new keys a store with room for `limit` keeps. */
  function Kept(limit: Limit, count: nat): nat {
    match limit
    case Unlimited => count
    case AtMost(n) => if count <= n then count else n
  }

  lemma KeysOfSnoc(pairs: seq<(string, Input)>, p: (string, Input))
    ensures KeysOf(pairs + [p]) == KeysOf(pairs) + {p.0}
  {
    var s := pairs + [p];
    forall x | x in KeysOf(s) ensures x in KeysOf(pairs) + {p.0} {
      var i :| 0 <= i < |s| && s[i].0 == x;
      if i < |pairs| { assert s[i] == pairs[i]; }
    }
    forall x | x in KeysOf(pairs) + {p.0} ensures x in KeysOf(s) {
      if x == p.0 {
        assert s[|pairs|].0 == x;
      } else {
        var i :| 0 <= i < |pairs| && pairs[i].0 == x;
        assert s[i] == pairs[i];
      }
    }
  }

  /** With distinct keys, the last key is none of the earlier ones. */
  lemma LastKeyIsNew(pairs: seq<(string, Input)>, k: nat)
    requires DistinctKeys(pairs) && k < |pairs|
    ensures pairs[|pairs| - 1].0 !in KeysOf(pairs[..k])
  {
    forall i | 0 <= i < k ensures pairs[..k][i].0 != pairs[|pairs| - 1].0 {
      assert pairs[..k][i] == pairs[i];
    }
  }

  /** Every pair has a short enough key and a primitive value. */
  predicate AllStorable(pairs: seq<(string, Input)>) {
    forall i :: 0 <= i < |pairs| ==> ValidKey(pairs[i].0) && AsPrimitive(pairs[i].1).Some?
  }

  /** Dropping the last pair keeps both hypotheses of `FirstArrivedWin`. */
  lemma FrontKeepsHypotheses(pairs: seq<(string, Input)>)
    requires pairs != [] && DistinctKeys(pairs) && AllStorable(pairs)
    ensures DistinctKeys(pairs[..|pairs| - 1]) && AllStorable(pairs[..|pairs| - 1])
  {
    var front := pairs[..|pairs| - 1];
    assert forall i :: 0 <= i < |front| ==> front[i] == pairs[i];
  }

  /** One more write of a new storable key grows the store by that key while there is room. */
  lemma NewKeyStep(before: Store, limit: Limit, mask: Mask, prefix: seq<(string, Input)>, last: (string, Input))
    requires before.Keys == KeysOf(prefix) && |before| == |prefix|
    requires last.0 !in before && ValidKey(last.0) && AsPrimitive(last.1).Some?
    ensures limit.Admits(|before| + 1) ==>
              |Added(before, limit, mask, last.0, last.1)| == |prefix| + 1 &&
              Added(before, limit, mask, last.0, last.1).Keys == KeysOf(prefix + [last])
    ensures !limit.Admits(|before| + 1) ==> Added(before, limit, mask, last.0, last.1) == before
  {
    KeysOfSnoc(prefix, last);
  }

  /** The induction step of `FirstArrivedWin`: one more new storable pair. */
  lemma KeptStep(limit: Limit, mask: Mask, pairs: seq<(string, Input)>, before: Store)
    requires pairs != []
    requires |before| == Kept(limit, |pairs| - 1) && before.Keys == KeysOf(pairs[..Kept(limit, |pairs| - 1)])
    requires pairs[|pairs| - 1].0 !in before
    requires ValidKey(pairs[|pairs| - 1].0) && AsPrimitive(pairs[|pairs| - 1].1).Some?
    ensures |Added(before, limit, mask, pairs[|pairs| - 1].0, pairs[|pairs| - 1].1)| == Kept(limit, |pairs|)
    ensures Added(before, limit, mask, pairs[|pairs| - 1].0, pairs[|pairs| - 1].1).Keys ==
              KeysOf(pairs[..Kept(limit, |pairs|)])
  {
    var n := |pairs| - 1;
    var k := Kept(limit, n);
    NewKeyStep(before, limit, mask, pairs[..k], pairs[n]);
    if limit.Admits(n + 1) {
      assert k == n && Kept(limit, n + 1) == n + 1;
      assert pairs[..n + 1] == pairs[..k] + [pairs[n]];
    } else {
      assert Kept(limit, n + 1) == k && !limit.Admits(k + 1);
    }
  }

  /**
   * First come, first served: writing distinct valid keys with primitive
   * values into an empty store keeps exactly the earliest keys that fit.
   */
  lemma {:induction false} FirstArrivedWin(limit: Limit, mask: Mask, pairs: seq<(string, Input)>)
    requires DistinctKeys(pairs) && AllStorable(pairs)
    ensures |AddedAll(map[], limit, mask, pairs)| == Kept(limit, |pairs|)
    ensures AddedAll(map[], limit, mask, pairs).Keys == KeysOf(pairs[..Kept(limit, |pairs|)])
    decreases |pairs|
  {
    if pairs != [] {
      var n := |pairs| - 1;
      var front := pairs[..n];
      FrontKeepsHypotheses(pairs);
      FirstArrivedWin(limit, mask, front);
      var k := Kept(limit, n);
      assert front[..k] == pairs[..k];
      LastKeyIsNew(pairs, k);
      assert ValidKey(pairs[n].0) && AsPrimitive(pairs[n].1).Some?;
      KeptStep(limit, mask, pairs, AddedAll(map[], limit, mask, front));
    }
  }

  // ---------------------------------------------------------------------------
  // Reading back

  /** Entries under a mask sharing no flag with the request are not returned. */
  lemma GetSkipsOtherDestinations(store: Store, key: string, read: Mask)
    requires key in store && !Overlaps(store[key].destinations, read)
    ensures key !in Visible(store, read)
  {
  }

  /** Non-string values come back unchanged; strings come back within budget. */
  lemma ReadBackShape(v: Value)
    ensures !v.Str? ==> ReadBack(v) == v
    ensures v.Str? ==> ReadBack(v).Str? && ReadBack(v).s <= v.s && ByteLength(ReadBack(v).s) <= MAX_VALUE_BYTES
    ensures v.Str? && ByteLength(v.s) <= MAX_VALUE_BYTES ==> ReadBack(v) == v
  {
    if v.Str? && ByteLength(v.s) <= MAX_VALUE_BYTES {
      TruncateFitting(v.s, MAX_VALUE_BYTES);
    }
  }

  /** An ASCII string over the budget comes back exactly `MAX_VALUE_BYTES` long. */
  lemma LongAsciiValueCut(s: string)
    requires IsAscii(s) && ByteLength(s) > MAX_VALUE_BYTES
    ensures ReadBack(Str(s)).Str? && ByteLength(ReadBack(Str(s)).s) == MAX_VALUE_BYTES
  {
    TruncateAsciiExact(s, MAX_VALUE_BYTES);
  }

  /** A new entry whose destinations miss the requested ones does not change what is read. */
  lemma VisibleHidden(store: Store, key: string, e: Entry, read: Mask)
    requires key !in store && !Overlaps(e.destinations, read)
    ensures Visible(store[key := e], read) == Visible(store, read)
  {
  }

  /** A single entry is read back exactly when its destinations meet the requested ones. */
  lemma VisibleSingle(key: string, e: Entry, read: Mask)
    ensures Overlaps(e.destinations, read) ==> Visible(map[key := e], read) == map[key := ReadBack(e.value)]
    ensures !Overlaps(e.destinations, read) ==> Visible(map[key := e], read) == map[]
  {
  }

  /** A store whose every entry is under one non-empty mask shows all its keys through that mask. */
  lemma VisibleUnderOneMask(store: Store, mask: Mask)
    requires mask != {}
    requires forall k :: k in store ==> store[k].destinations == mask
    ensures Visible(store, mask).Keys == store.Keys
  {
    forall k | k in store ensures Overlaps(store[k].destinations, mask) {
      assert mask * mask == mask;
    }
  }

  /** Asking about `a | b` is asking about `a` or about `b`. */
  lemma HasValidDestinationUnion(attrs: Attributes, a: Mask, b: Mask, key: string)
    ensures attrs.HasValidDestination(Union(a, b), key) <==>
              attrs.HasValidDestination(a, key) || attrs.HasValidDestination(b, key)
  {
  }

  /** An emptied store shows nothing to any destination, like a new one. */
  lemma EmptyShowsNothing(read: Mask)
    ensures Visible(map[], read) == map[]
  {
  }
}
