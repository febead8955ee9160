/** The store `_store` (index.js:12): a JavaScript object used as a
    dictionary, with the order in which `Object.keys` lists its properties. */
module Dictionary {
  import opened Seqs
  import opened Json

  /** Own properties and their enumeration order. */
  datatype Dict = Dict(items: map<string, Value>, order: seq<string>) {
    /** Every property is listed exactly once. */
    ghost predicate Valid() {
      Distinct(order) && forall k :: k in items <==> k in order
    }
  }

  /** `Object.create(null)`: no properties at all. */
  function Empty(): (d: Dict)
    ensures d.Valid() && d.items == map[] && d.order == []
  {
    Dict(map[], [])
  }

  /** `o[k] = v`: a new key is listed last, an existing one keeps its place. */
  function Insert(d: Dict, k: string, v: Value): (r: Dict)
    requires d.Valid()
    ensures r.Valid()
    ensures r.items == d.items[k := v]
    ensures r.order == if k in d.items then d.order else d.order + [k]
  {
    if k in d.items then Dict(d.items[k := v], d.order) else Dict(d.items[k := v], d.order + [k])
  }

  /** `s` without the occurrences of `k`, the rest in order. */
  function Without(s: seq<string>, k: string): (r: seq<string>)
    ensures forall x :: x in r <==> x in s && x != k
    ensures Distinct(s) ==> Distinct(r)
    ensures k !in s ==> r == s
  {
    if s == [] then []
    else if s[0] == k then Without(s[1..], k)
    else
      var r := Without(s[1..], k);
      assert Distinct(s) ==> s[0] !in s[1..] && Distinct(s[1..]);
      assert forall j | 0 <= j < |r| :: ([s[0]] + r)[j + 1] == r[j];
      [s[0]] + r
  }

  /** Dropping a key that occurs once leaves the entries before it and
      the entries after it, each in their order. */
  lemma {:induction false} WithoutKeepsOrder(s: seq<string>, k: string)
    requires Distinct(s) && k in s
    ensures Without(s, k) == s[..IndexOf(s, k)] + s[IndexOf(s, k) + 1..]
  {
    if s[0] == k {
      assert k !in s[1..];
      assert Without(s[1..], k) == s[1..];
    } else {
      assert Distinct(s[1..]);
      WithoutKeepsOrder(s[1..], k);
      var i := IndexOf(s[1..], k);
      assert s[..i + 1] == [s[0]] + s[1..][..i];
      assert s[i + 2..] == s[1..][i + 1..];
    }
  }

  /** `delete o[k]`: removes the property if it is there, and nothing else. */
  function Delete(d: Dict, k: string): (r: Dict)
    requires d.Valid()
    ensures r.Valid()
    ensures r.items == d.items - {k}
    ensures r.order == Without(d.order, k)
  {
    Dict(d.items - {k}, Without(d.order, k))
  }

  /** `delete` of a present key removes exactly its entry from the key list:
      the keys before and after it keep their order. */
  lemma DeleteKeepsOrder(d: Dict, k: string)
    requires d.Valid() && k in d.items
    ensures var i := IndexOf(d.order, k);
      Delete(d, k).order == d.order[..i] + d.order[i + 1..]
  {
    WithoutKeepsOrder(d.order, k);
  }

  /** A dictionary has as many properties as its key list has entries. */
  lemma Size(d: Dict)
    requires d.Valid()
    ensures |d.items| == |d.order|
  {
    DistinctCardinality(d.order);
    assert d.items.Keys == Elements(d.order);
  }

  /** The object `JSON.parse` builds from the members of a document, listed
      in `fs`: each member assigned in turn, so a repeated name keeps its first
      position and its last value. */
  function FromFields(fs: seq<Field>): (d: Dict)
    ensures d.Valid()
    ensures |d.order| <= |fs|
    ensures fs != [] ==> fs[|fs| - 1].name in d.items && d.items[fs[|fs| - 1].name] == fs[|fs| - 1].value
  {
    if fs == [] then Empty()
    else Insert(FromFields(fs[..|fs| - 1]), fs[|fs| - 1].name, fs[|fs| - 1].value)
  }

  /** No member after the `i`-th has its name. */
  predicate LastOccurrence(fs: seq<Field>, i: nat) {
    i < |fs| && forall j | i < j < |fs| :: fs[j].name != fs[i].name
  }

  /** Some member of `fs` is named `k`. */
  ghost predicate Named(fs: seq<Field>, k: string) {
    exists i | 0 <= i < |fs| :: fs[i].name == k
  }

  lemma NamedSnoc(fs: seq<Field>, k: string)
    requires fs != []
    ensures Named(fs, k) <==> Named(fs[..|fs| - 1], k) || fs[|fs| - 1].name == k
  {
    var init := fs[..|fs| - 1];
    if Named(init, k) {
      var i :| 0 <= i < |init| && init[i].name == k;
      assert fs[i] == init[i];
    }
    if Named(fs, k) && fs[|fs| - 1].name != k {
      var i :| 0 <= i < |fs| && fs[i].name == k;
      assert init[i] == fs[i];
    }
  }

  /** The parsed object's keys are exactly the member names. */
  lemma {:induction false} FromFieldsKeys(fs: seq<Field>)
    ensures forall k :: k in FromFields(fs).items <==> Named(fs, k)
  {
    if fs != [] {
      var init := fs[..|fs| - 1];
      FromFieldsKeys(init);
      FromFieldsLast(fs);
      forall k ensures k in FromFields(fs).items <==> Named(fs, k) {
        NamedSnoc(fs, k);
      }
    }
  }

  /** `d` holds the member `f`. */
  predicate Holds(d: Dict, f: Field) {
    f.name in d.items && d.items[f.name] == f.value
  }

  /** Each key holds the value of the last member with that name. */
  lemma {:induction false} FromFieldsValues(fs: seq<Field>)
    ensures forall i | 0 <= i < |fs| && LastOccurrence(fs, i) :: Holds(FromFields(fs), fs[i])
  {
    if fs != [] {
      var n := |fs| - 1;
      var init := fs[..n];
      FromFieldsValues(init);
      FromFieldsLast(fs);
      forall i | 0 <= i < |fs| && LastOccurrence(fs, i) ensures Holds(FromFields(fs), fs[i]) {
        if i < n {
          LastOccurrenceOfPrefix(fs, i);
          assert Holds(FromFields(init), fs[i]);
          HoldsAfterInsert(FromFields(init), fs[i], fs[n].name, fs[n].value);
        } else {
          assert fs[i] == fs[n];
        }
      }
    }
  }

  /** Assigning one key leaves every other property as it was. */
  lemma HoldsAfterInsert(d: Dict, f: Field, k: string, v: Value)
    requires d.Valid() && Holds(d, f) && f.name != k
    ensures Holds(Insert(d, k, v), f)
  {
  }

  lemma LastOccurrenceOfPrefix(fs: seq<Field>, i: nat)
    requires i < |fs| - 1 && LastOccurrence(fs, i)
    ensures fs[..|fs| - 1][i] == fs[i] && LastOccurrence(fs[..|fs| - 1], i)
  {
    var init := fs[..|fs| - 1];
    forall j | i < j < |init| ensures init[j].name != init[i].name {
      assert init[j] == fs[j];
    }
  }

  /** The last member of a document is assigned last. */
  lemma FromFieldsLast(fs: seq<Field>)
    requires fs != []
    ensures FromFields(fs) == Insert(FromFields(fs[..|fs| - 1]), fs[|fs| - 1].name, fs[|fs| - 1].value)
  {
  }

  /** The object as the JSON document `JSON.stringify` serialises. */
  function ToJson(d: Dict): (v: Value)
    requires d.Valid()
    ensures v.Obj? && OwnKeys(v) == d.order
    ensures forall i | 0 <= i < |d.order| :: Member(v, i) == d.items[d.order[i]]
  {
    Obj(seq(|d.order|, i requires 0 <= i < |d.order| => Field(d.order[i], d.items[d.order[i]])))
  }

  /** The `i`-th member of the serialised object is the `i`-th property. */
  lemma FieldOfToJson(d: Dict, i: nat)
    requires d.Valid() && i < |d.order|
    ensures |ToJson(d).fields| == |d.order|
    ensures ToJson(d).fields[i] == Field(d.order[i], d.items[d.order[i]])
  {
  }

  /** The first `n` properties of `d`, in order. */
  function Prefix(d: Dict, n: nat): (r: Dict)
    requires d.Valid() && n <= |d.order|
    ensures r.Valid()
  {
    Dict(map k | k in d.order[..n] :: d.items[k], d.order[..n])
  }

  lemma PrefixStep(d: Dict, n: nat)
    requires d.Valid() && 0 < n <= |d.order|
    ensures Prefix(d, n) == Insert(Prefix(d, n - 1), d.order[n - 1], d.items[d.order[n - 1]])
  {
    var k := d.order[n - 1];
    assert d.order[..n] == d.order[..n - 1] + [k];
    assert k !in d.order[..n - 1];
    var p, q := Prefix(d, n), Prefix(d, n - 1);
    assert p.items == q.items[k := d.items[k]];
  }

  lemma {:induction false} FromFieldsPrefix(d: Dict, n: nat)
    requires d.Valid() && n <= |d.order|
    ensures FromFields(ToJson(d).fields[..n]) == Prefix(d, n)
  {
    var fs := ToJson(d).fields;
    if n == 0 {
      assert Prefix(d, 0).items == map[];
    } else {
      var gs := fs[..n];
      FromFieldsPrefix(d, n - 1);
      FieldOfToJson(d, n - 1);
      PrefixOfPrefix(fs, n, n - 1);
      FromFieldsLast(gs);
      PrefixStep(d, n);
    }
  }

  /** Reading back the members of the serialised document rebuilds the same
      dictionary, order included. */
  lemma RoundTrip(d: Dict)
    requires d.Valid()
    ensures FromFields(ToJson(d).fields) == d
  {
    var fs := ToJson(d).fields;
    assert fs[..|d.order|] == fs by {
      assert |fs| == |d.order|;
    }
    FromFieldsPrefix(d, |d.order|);
    WholePrefix(d);
  }

  /** All the properties, in order, are the dictionary itself. */
  lemma WholePrefix(d: Dict)
    requires d.Valid()
    ensures Prefix(d, |d.order|) == d
  {
    assert d.order[..|d.order|] == d.order;
    assert Prefix(d, |d.order|).items == d.items;
  }

}
