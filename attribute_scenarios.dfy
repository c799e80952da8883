/** The scenarios of the attribute store's unit tests, stated over the model. */
module AttributeScenarios {
  import opened ByteLimit
  import opened Destinations
  import opened AttributeStore

  /** The nine pairs of the value-type test, one of every JavaScript kind, in three groups. */
  function NineKinds(): seq<(string, Input)> {
    StringArrayObject() + NumberBooleanUndefined() + NullSymbolFunction()
  }

  function StringArrayObject(): seq<(string, Input)> {
    [("first", JsString("first")), ("second", JsArray), ("third", JsObject)]
  }

  function NumberBooleanUndefined(): seq<(string, Input)> {
    [("fourth", JsNumber(4)), ("fifth", JsBoolean(true)), ("sixth", JsUndefined)]
  }

  function NullSymbolFunction(): seq<(string, Input)> {
    [("seventh", JsNull), ("eighth", JsSymbol), ("ninth", JsFunction)]
  }

  lemma StorableKeysOfThree(p: (string, Input), q: (string, Input), r: (string, Input))
    ensures StorableKeys([p, q, r]) ==
              (if Storable(p) then {p.0} else {}) + (if Storable(q) then {q.0} else {}) + (if Storable(r) then {r.0} else {})
  {
    StorableKeysSnoc([], p);
    assert [] + [p] == [p];
    StorableKeysSnoc([p], q);
    assert [p] + [q] == [p, q];
    StorableKeysSnoc([p, q], r);
    assert [p, q] + [r] == [p, q, r];
  }

  lemma StringArrayObjectStorable(t: seq<(string, Input)>)
    requires t == StringArrayObject()
    ensures StorableKeys(t) == {"first"}
  {
    StorableKeysOfThree(t[0], t[1], t[2]);
  }

  lemma NumberBooleanUndefinedStorable(t: seq<(string, Input)>)
    requires t == NumberBooleanUndefined()
    ensures StorableKeys(t) == {"fourth", "fifth"}
  {
    StorableKeysOfThree(t[0], t[1], t[2]);
  }

  lemma NullSymbolFunctionStorable(t: seq<(string, Input)>)
    requires t == NullSymbolFunction()
    ensures StorableKeys(t) == {}
  {
    StorableKeysOfThree(t[0], t[1], t[2]);
  }

  lemma NineKindsStorable(ps: seq<(string, Input)>)
    requires ps == NineKinds()
    ensures StorableKeys(ps) == {"first", "fourth", "fifth"}
  {
    var t1, t2, t3 := StringArrayObject(), NumberBooleanUndefined(), NullSymbolFunction();
    StringArrayObjectStorable(t1);
    NumberBooleanUndefinedStorable(t2);
    NullSymbolFunctionStorable(t3);
    StorableKeysConcat(t1, t2);
    StorableKeysConcat(t1 + t2, t3);
  }

  lemma NineKindsDistinct()
    ensures DistinctKeys(NineKinds())
  {
  }

  /**
   * Nine values of every JavaScript kind, written to a store with room for
   * ten: only the string, the number and the boolean are kept.
   */
  lemma OnlyPrimitivesSurvive(mask: Mask)
    requires mask != {}
    ensures Visible(AddedAll(map[], AtMost(10), mask, NineKinds()), mask).Keys == {"first", "fourth", "fifth"}
  {
    var s := AddedAll(map[], AtMost(10), mask, NineKinds());
    NineKindsStorable(NineKinds());
    NineKindsDistinct();
    OnlyStorableKept(AtMost(10), mask, NineKinds());
    forall k | k in s ensures s[k].destinations == mask {
      AddedAllMask(AtMost(10), mask, NineKinds(), k);
    }
    VisibleUnderOneMask(s, mask);
  }

  /** A key of at most 63 characters fits the key budget whatever its characters. */
  lemma ShortKey(key: string)
    requires |key| <= 63
    ensures ValidKey(key)
  {
  }

  /** Writes under one non-empty mask into an empty store are all read back through it. */
  lemma ShownUnderMask(pairs: seq<(string, Input)>, mask: Mask, limit: Limit)
    requires mask != {}
    ensures Visible(AddedAll(map[], limit, mask, pairs), mask).Keys == AddedAll(map[], limit, mask, pairs).Keys
  {
    var s := AddedAll(map[], limit, mask, pairs);
    forall k | k in s ensures s[k].destinations == mask {
      AddedAllMask(limit, mask, pairs, k);
    }
    VisibleUnderOneMask(s, mask);
  }

  /** The four numbered pairs of the limit test have distinct, short keys. */
  lemma FourNumbersStorable(pairs: seq<(string, Input)>)
    requires pairs == [("first", JsNumber(1)), ("second", JsNumber(2)), ("portishead", JsNumber(3)), ("so", JsNumber(4))]
    ensures AllStorable(pairs)
  {
    forall i | 0 <= i < |pairs| ensures ValidKey(pairs[i].0) {
      ShortKey(pairs[i].0);
    }
  }

  lemma FourNumbersDistinct(pairs: seq<(string, Input)>)
    requires pairs == [("first", JsNumber(1)), ("second", JsNumber(2)), ("portishead", JsNumber(3)), ("so", JsNumber(4))]
    ensures DistinctKeys(pairs)
  {
  }

  /** With a limit of three, four new keys leave three to be read back. */
  lemma LimitOfThree(mask: Mask)
    requires mask != {}
    ensures
      var pairs := [("first", JsNumber(1)), ("second", JsNumber(2)), ("portishead", JsNumber(3)), ("so", JsNumber(4))];
      |Visible(AddedAll(map[], AtMost(3), mask, pairs), mask)| == 3
  {
    var pairs := [("first", JsNumber(1)), ("second", JsNumber(2)), ("portishead", JsNumber(3)), ("so", JsNumber(4))];
    var s := AddedAll(map[], AtMost(3), mask, pairs);
    FourNumbersStorable(pairs);
    FourNumbersDistinct(pairs);
    FirstArrivedWin(AtMost(3), mask, pairs);
    ShownUnderMask(pairs, mask, AtMost(3));
    assert |Visible(s, mask).Keys| == |s.Keys|;
  }

  /** The three string pairs of the limit test have distinct, short keys. */
  lemma ThreeStringsStorable(pairs: seq<(string, Input)>)
    requires pairs == [("first", JsString("first")), ("second", JsString("second")), ("third", JsString("third"))]
    ensures DistinctKeys(pairs) && AllStorable(pairs)
  {
    forall i | 0 <= i < |pairs| ensures ValidKey(pairs[i].0) {
      ShortKey(pairs[i].0);
    }
  }

  lemma ThirdLeftOut(pairs: seq<(string, Input)>)
    requires pairs == [("first", JsString("first")), ("second", JsString("second")), ("third", JsString("third"))]
    ensures "third" !in KeysOf(pairs[..2])
  {
    assert pairs[..2] == [pairs[0], pairs[1]];
  }

  /** With a limit of two, the third key written is the one missing from what is read back. */
  lemma LimitOfTwo(mask: Mask)
    requires mask != {}
    ensures
      var pairs := [("first", JsString("first")), ("second", JsString("second")), ("third", JsString("third"))];
      var shown := Visible(AddedAll(map[], AtMost(2), mask, pairs), mask);
      |shown| == 2 && "third" !in shown
  {
    var pairs := [("first", JsString("first")), ("second", JsString("second")), ("third", JsString("third"))];
    var s := AddedAll(map[], AtMost(2), mask, pairs);
    ThreeStringsStorable(pairs);
    FirstArrivedWin(AtMost(2), mask, pairs);
    ThirdLeftOut(pairs);
    ShownUnderMask(pairs, mask, AtMost(2));
    assert |Visible(s, mask).Keys| == |s.Keys|;
  }

  /** Writing `Roboto` twice keeps one entry with the second value. */
  lemma RewriteSameKey(mask: Mask)
    requires mask != {}
    ensures
      var s := Added(Added(map[], AtMost(2), mask, "Roboto", JsNumber(1)), AtMost(2), mask, "Roboto", JsNumber(99));
      Visible(s, mask) == map["Roboto" := Num(99)]
  {
    ShortKey("Roboto");
  }

  /** Two entries under destinations that meet the requested ones are both read back. */
  lemma VisiblePair(k1: string, e1: Entry, k2: string, e2: Entry, read: Mask)
    requires k1 != k2
    requires Overlaps(e1.destinations, read) && Overlaps(e2.destinations, read)
    ensures Visible(map[k1 := e1][k2 := e2], read) == map[k1 := ReadBack(e1.value), k2 := ReadBack(e2.value)]
  {
  }

  /** The store of the destination test after its three writes. */
  lemma ThreeWritesStored(longVal: string)
    ensures
      Added(Added(Added(map[], Unlimited, {0}, "valid", JsNumber(50)), Unlimited, {0}, "tooLong", JsString(longVal)),
            Unlimited, {3}, "wrongDest", JsString("hello"))
      == map["valid" := Entry(Num(50), {0})]["tooLong" := Entry(Str(longVal), {0})]["wrongDest" := Entry(Str("hello"), {3})]
  {
    var first := map["valid" := Entry(Num(50), {0})];
    WrittenUnlimited(map[], {0}, "valid", JsNumber(50));
    WrittenUnlimited(first, {0}, "tooLong", JsString(longVal));
    WrittenUnlimited(first["tooLong" := Entry(Str(longVal), {0})], {3}, "wrongDest", JsString("hello"));
  }

  /** A primitive under a short key is always written into an unlimited store. */
  lemma WrittenUnlimited(store: Store, mask: Mask, key: string, v: Input)
    requires |key| <= 63 && AsPrimitive(v).Some?
    ensures Added(store, Unlimited, mask, key, v) == store[key := Entry(AsPrimitive(v).value, mask)]
  {
    ShortKey(key);
  }

  /**
   * A number and a long ASCII string written for destination 0 are read back
   * through destination 0, the string cut to 255 bytes; a string written only
   * for destination 3 is not.
   */
  lemma ReadByDestination(longVal: string)
    requires IsAscii(longVal) && ByteLength(longVal) > MAX_VALUE_BYTES
    ensures
      var s := Added(Added(Added(map[], Unlimited, {0}, "valid", JsNumber(50)), Unlimited, {0}, "tooLong", JsString(longVal)),
                     Unlimited, {3}, "wrongDest", JsString("hello"));
      var res := Visible(s, {0});
      && res.Keys == {"valid", "tooLong"}
      && res["valid"] == Num(50)
      && res["tooLong"].Str? && ByteLength(res["tooLong"].s) == MAX_VALUE_BYTES
  {
    ThreeWritesStored(longVal);
    ThreeWritesRead(longVal, map["valid" := Entry(Num(50), {0})]["tooLong" := Entry(Str(longVal), {0})]);
  }

  /** What destination 0 reads from the store of the destination test, once its writes are known. */
  lemma ThreeWritesRead(longVal: string, second: Store)
    requires IsAscii(longVal) && ByteLength(longVal) > MAX_VALUE_BYTES
    requires second == map["valid" := Entry(Num(50), {0})]["tooLong" := Entry(Str(longVal), {0})]
    ensures
      var res := Visible(second["wrongDest" := Entry(Str("hello"), {3})], {0});
      && res.Keys == {"valid", "tooLong"}
      && res["valid"] == Num(50)
      && res["tooLong"].Str? && ByteLength(res["tooLong"].s) == MAX_VALUE_BYTES
  {
    assert !Overlaps({3}, {0}) by { assert 3 !in {0}; }
    VisibleHidden(second, "wrongDest", Entry(Str("hello"), {3}), {0});
    assert Overlaps({0}, {0}) by { assert 0 in {0} * {0}; }
    VisiblePair("valid", Entry(Num(50), {0}), "tooLong", Entry(Str(longVal), {0}), {0});
    LongAsciiValueCut(longVal);
  }
}
