/** Structural comparison of stored values: `deepEqual` (index.js:59-74) as
    it is written, and the corrected comparison the store uses. */
module DeepEquality {
  import opened Seqs
  import opened Json

  /** `deepEqual(a, b)` as written: identical values are equal; otherwise both
      must be non-null objects with as many own keys, and every own key of `a`
      must be an own property of `b` (checked with `hasOwnProperty`) whose
      value is deeply equal to `a`'s. The loop over `aKeys` only returns early,
      so it is the conjunction over all positions. */
  function DeepEqual(a: Value, b: Value): (r: bool)
    ensures !IsObject(a) || !IsObject(b) ==> (r <==> a == b)
  {
    if Identical(a, b) then true
    else if !IsObject(a) || !IsObject(b) then false
    else
      && |OwnKeys(a)| == |OwnKeys(b)|
      && forall j | 0 <= j < Width(a) ::
           HasOwnProperty(b, OwnKeys(a)[j]) && DeepEqual(Member(a, j), Property(b, OwnKeys(a)[j]))
  }

  /** The comparison with `hasOwnProperty` replaced by membership in
      `Object.keys(b)`, so that an array's `length` is not mistaken for a key. */
  function DeepEqualByKeys(a: Value, b: Value): (r: bool)
    ensures !IsObject(a) || !IsObject(b) ==> (r <==> a == b)
  {
    if Identical(a, b) then true
    else if !IsObject(a) || !IsObject(b) then false
    else
      && |OwnKeys(a)| == |OwnKeys(b)|
      && forall j | 0 <= j < Width(a) ::
           OwnKeys(a)[j] in OwnKeys(b) && DeepEqualByKeys(Member(a, j), Property(b, OwnKeys(a)[j]))
  }

  /** Every well-formed value equals itself. */
  lemma {:induction false} ByKeysReflexive(a: Value)
    requires WellFormed(a)
    ensures DeepEqualByKeys(a, a)
    decreases a
  {
    if IsObject(a) {
      forall j | 0 <= j < Width(a)
        ensures OwnKeys(a)[j] in OwnKeys(a) && DeepEqualByKeys(Member(a, j), Property(a, OwnKeys(a)[j]))
      {
        PropertyOfOwnKey(a, j);
        ByKeysReflexive(Member(a, j));
      }
    }
  }

  /** Equal objects have the same own keys and pairwise equal values. */
  lemma ByKeysMatchesKeys(a: Value, b: Value)
    requires WellFormed(a) && WellFormed(b) && IsObject(a) && IsObject(b) && DeepEqualByKeys(a, b)
    ensures Elements(OwnKeys(a)) == Elements(OwnKeys(b))
    ensures forall k | k in OwnKeys(a) :: DeepEqualByKeys(Property(a, k), Property(b, k))
  {
    var ka, kb := OwnKeys(a), OwnKeys(b);
    OwnKeysDistinct(a);
    OwnKeysDistinct(b);
    SameElements(ka, kb);
    forall k | k in ka ensures DeepEqualByKeys(Property(a, k), Property(b, k)) {
      var i := IndexOf(ka, k);
      PropertyOfOwnKey(a, i);
    }
  }

  /** Objects with the same own keys and pairwise equal values are equal. */
  lemma KeysMatchByKeys(a: Value, b: Value)
    requires WellFormed(a) && WellFormed(b) && IsObject(a) && IsObject(b)
    requires Elements(OwnKeys(a)) == Elements(OwnKeys(b))
    requires forall k | k in OwnKeys(a) :: DeepEqualByKeys(Property(a, k), Property(b, k))
    ensures DeepEqualByKeys(a, b)
  {
    var ka, kb := OwnKeys(a), OwnKeys(b);
    OwnKeysDistinct(a);
    OwnKeysDistinct(b);
    DistinctCardinality(ka);
    DistinctCardinality(kb);
    forall j | 0 <= j < Width(a)
      ensures ka[j] in kb && DeepEqualByKeys(Member(a, j), Property(b, ka[j]))
    {
      assert ka[j] in Elements(ka);
      PropertyOfOwnKey(a, j);
    }
  }

  /** For two well-formed objects the comparison holds exactly when they have
      the same own keys, in whatever order, with pairwise equal values. */
  lemma ByKeysOnObjects(a: Value, b: Value)
    requires WellFormed(a) && WellFormed(b) && IsObject(a) && IsObject(b)
    ensures DeepEqualByKeys(a, b) <==>
      && Elements(OwnKeys(a)) == Elements(OwnKeys(b))
      && forall k | k in OwnKeys(a) :: DeepEqualByKeys(Property(a, k), Property(b, k))
  {
    if DeepEqualByKeys(a, b) {
      ByKeysMatchesKeys(a, b);
    }
    if && Elements(OwnKeys(a)) == Elements(OwnKeys(b))
       && forall k | k in OwnKeys(a) :: DeepEqualByKeys(Property(a, k), Property(b, k))
    {
      KeysMatchByKeys(a, b);
    }
  }

  lemma {:induction false} ByKeysSymmetricStep(a: Value, b: Value)
    requires WellFormed(a) && WellFormed(b) && DeepEqualByKeys(a, b)
    ensures DeepEqualByKeys(b, a)
    decreases a
  {
    if IsObject(a) && IsObject(b) {
      var ka, kb := OwnKeys(a), OwnKeys(b);
      OwnKeysDistinct(a);
      OwnKeysDistinct(b);
      SameElements(ka, kb);
      forall j | 0 <= j < Width(b)
        ensures kb[j] in ka && DeepEqualByKeys(Member(b, j), Property(a, kb[j]))
      {
        var i := IndexOf(ka, kb[j]);
        PropertyOfOwnKey(a, i);
        PropertyOfOwnKey(b, j);
        ByKeysSymmetricStep(Member(a, i), Member(b, j));
      }
    }
  }

  /** The corrected comparison does not depend on the order of its arguments. */
  lemma ByKeysSymmetric(a: Value, b: Value)
    requires WellFormed(a) && WellFormed(b)
    ensures DeepEqualByKeys(a, b) == DeepEqualByKeys(b, a)
  {
    if DeepEqualByKeys(a, b) { ByKeysSymmetricStep(a, b); }
    if DeepEqualByKeys(b, a) { ByKeysSymmetricStep(b, a); }
  }

  /** Equal to equal values are equal. */
  lemma {:induction false} ByKeysTransitive(a: Value, b: Value, c: Value)
    requires WellFormed(a) && WellFormed(b) && WellFormed(c)
    requires DeepEqualByKeys(a, b) && DeepEqualByKeys(b, c)
    ensures DeepEqualByKeys(a, c)
    decreases a
  {
    if IsObject(a) && IsObject(b) && IsObject(c) {
      var ka, kb, kc := OwnKeys(a), OwnKeys(b), OwnKeys(c);
      forall i | 0 <= i < Width(a)
        ensures ka[i] in kc && DeepEqualByKeys(Member(a, i), Property(c, ka[i]))
      {
        var j := IndexOf(kb, ka[i]);
        PropertyOfOwnKey(b, j);
        PropertyWellFormed(c, ka[i]);
        ByKeysTransitive(Member(a, i), Member(b, j), Property(c, ka[i]));
      }
    }
  }

  /** Object members listed in another order: same names and values. */
  predicate Reordered(fs: seq<Field>, gs: seq<Field>) {
    multiset(fs) == multiset(gs)
  }

  /** Key order does not matter: an object equals any reordering of itself. */
  lemma ByKeysIgnoresOrder(fs: seq<Field>, gs: seq<Field>)
    requires WellFormed(Obj(fs)) && WellFormed(Obj(gs)) && Reordered(fs, gs)
    ensures DeepEqualByKeys(Obj(fs), Obj(gs))
  {
    var a, b := Obj(fs), Obj(gs);
    assert |fs| == |gs| by {
      assert |multiset(fs)| == |multiset(gs)|;
    }
    forall i | 0 <= i < |fs|
      ensures OwnKeys(a)[i] in OwnKeys(b) && DeepEqualByKeys(Member(a, i), Property(b, OwnKeys(a)[i]))
    {
      assert fs[i] in multiset(gs);
      var j :| 0 <= j < |gs| && gs[j] == fs[i];
      assert OwnKeys(b)[j] == fs[i].name;
      PropertyOfOwnKey(b, j);
      ByKeysReflexive(Member(a, i));
    }
  }

  /** The corrected comparison only drops answers of the original: whatever
      it finds equal, `deepEqual` finds equal too. */
  lemma {:induction false} ByKeysImpliesDeepEqual(a: Value, b: Value)
    requires DeepEqualByKeys(a, b)
    ensures DeepEqual(a, b)
    decreases a
  {
    if IsObject(a) && IsObject(b) {
      forall j | 0 <= j < Width(a)
        ensures HasOwnProperty(b, OwnKeys(a)[j]) && DeepEqual(Member(a, j), Property(b, OwnKeys(a)[j]))
      {
        ByKeysImpliesDeepEqual(Member(a, j), Property(b, OwnKeys(a)[j]));
      }
    }
  }

  /** No object anywhere in `v` has a member named `length`. */
  predicate NoLengthKey(v: Value) {
    && "length" !in OwnKeys(v)
    && forall i | 0 <= i < Width(v) :: NoLengthKey(Member(v, i))
  }

  /** The two comparisons differ only through a `length` key of the first
      argument: without one, `deepEqual` is the corrected comparison. */
  lemma {:induction false} DeepEqualWithoutLengthKey(a: Value, b: Value)
    requires NoLengthKey(a)
    ensures DeepEqual(a, b) == DeepEqualByKeys(a, b)
    decreases a
  {
    if DeepEqualByKeys(a, b) {
      ByKeysImpliesDeepEqual(a, b);
    }
    if DeepEqual(a, b) && IsObject(a) && IsObject(b) {
      forall j | 0 <= j < Width(a)
        ensures OwnKeys(a)[j] in OwnKeys(b) && DeepEqualByKeys(Member(a, j), Property(b, OwnKeys(a)[j]))
      {
        DeepEqualWithoutLengthKey(Member(a, j), Property(b, OwnKeys(a)[j]));
      }
    }
  }

  /** `deepEqual` returns true for identical (well-formed) values. */
  lemma DeepEqualReflexive(a: Value)
    requires WellFormed(a)
    ensures DeepEqual(a, a)
  {
    ByKeysReflexive(a);
    ByKeysImpliesDeepEqual(a, a);
  }

  /** As written, `deepEqual` is not symmetric: an object whose only member is
      `length: 1` equals the one-element array `[5]`, because the array owns a
      `length` property of value 1, but `[5]` does not equal that object, which
      has no member `0`. The corrected comparison rejects both orders. */
  lemma DeepEqualAsymmetric()
    ensures var o, arr := Obj([Field("length", Num(1))]), Arr([Num(5)]);
      && WellFormed(o) && WellFormed(arr)
      && DeepEqual(o, arr) && !DeepEqual(arr, o)
      && !DeepEqualByKeys(o, arr) && !DeepEqualByKeys(arr, o)
  {
    var o, arr := Obj([Field("length", Num(1))]), Arr([Num(5)]);
    assert OwnKeys(o) == ["length"];
    assert OwnKeys(arr) == [IndexKey(0)] == ["0"];
    assert Property(arr, "length") == Num(1);
    assert DeepEqual(Member(o, 0), Property(arr, OwnKeys(o)[0]));
  }

}
