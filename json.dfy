/** The values the store holds: JSON documents, and the few facts about
    JavaScript property access that `deepEqual` relies on (index.js:59-74). */
module Json {
  import opened Seqs

  /** A JSON value. Objects keep their members in the order `Object.keys`
      enumerates them. */
  datatype Value =
    | Null
    | Bool(b: bool)
    | Num(n: int)
    | Str(s: string)
    | Arr(items: seq<Value>)
    | Obj(fields: seq<Field>)

  /** One own enumerable property of an object. */
  datatype Field = Field(name: string, value: Value)

  /** JavaScript truthiness: `!v` is false exactly for these values. */
  predicate Truthy(v: Value) {
    match v
    case Null => false
    case Bool(b) => b
    case Num(n) => n != 0
    case Str(s) => s != ""
    case _ => true
  }

  /** `typeof v === 'object' && v`: arrays and objects, not null. */
  predicate IsObject(v: Value) {
    v.Arr? || v.Obj?
  }

  /** `a === b`. Primitives compare by value; two arrays or objects are
      identical only when they are one reference, and distinct trees are
      modelled as distinct references. */
  predicate Identical(a: Value, b: Value) {
    !IsObject(a) && !IsObject(b) && a == b
  }

  /** The number of own enumerable properties. */
  function Width(v: Value): nat {
    match v
    case Arr(items) => |items|
    case Obj(fields) => |fields|
    case _ => 0
  }

  /** The value of the `i`-th own enumerable property; always a part of `v`. */
  function Member(v: Value, i: nat): (r: Value)
    requires i < Width(v)
    ensures v decreases to r
  {
    match v
    case Arr(items) => items[i]
    case Obj(fields) => fields[i].value
  }

  function Digit(d: nat): (c: char)
    requires d < 10
    ensures '0' <= c <= '9'
  {
    ['0', '1', '2', '3', '4', '5', '6', '7', '8', '9'][d]
  }

  /** The number a string of decimal digits denotes, most significant
      digit first. */
  function NumeralValue(r: string): nat
    requires forall i | 0 <= i < |r| :: '0' <= r[i] <= '9'
  {
    if r == [] then 0
    else NumeralValue(r[..|r| - 1]) * 10 + (r[|r| - 1] as int - '0' as int)
  }

  /** The property name of array index `n`: its decimal numeral. */
  function IndexKey(n: nat): (r: string)
    ensures 1 <= |r|
    ensures forall i | 0 <= i < |r| :: '0' <= r[i] <= '9'
    ensures NumeralValue(r) == n
    ensures n < 10 <==> |r| == 1
    ensures |r| > 1 ==> r[0] != '0'
  {
    if n < 10 then [Digit(n)]
    else
      var p := IndexKey(n / 10);
      var r := p + [Digit(n % 10)];
      assert r[..|r| - 1] == p;
      r
  }

  /** Distinct indices have distinct property names: each numeral denotes
      its own index. */
  lemma IndexKeyInjective(m: nat, n: nat)
    requires IndexKey(m) == IndexKey(n)
    ensures m == n
  {
    assert NumeralValue(IndexKey(m)) == m;
  }

  /** `Object.keys(v)`: array indices as numerals, object member names in order. */
  function OwnKeys(v: Value): (r: seq<string>)
    ensures |r| == Width(v)
    ensures v.Arr? ==> forall i | 0 <= i < |r| :: r[i] == IndexKey(i)
    ensures v.Obj? ==> forall i | 0 <= i < |r| :: r[i] == v.fields[i].name
    ensures "length" !in r || v.Obj?
  {
    match v
    case Arr(items) =>
      var r := seq(|items|, i requires 0 <= i < |items| => IndexKey(i));
      assert forall i | 0 <= i < |r| :: r[i][0] != 'l';
      r
    case Obj(fields) => seq(|fields|, i requires 0 <= i < |fields| => fields[i].name)
    case _ => []
  }

  /** `Object.prototype.hasOwnProperty.call(v, k)`: an array also owns its
      non-enumerable `length`. */
  predicate HasOwnProperty(v: Value, k: string) {
    k in OwnKeys(v) || (v.Arr? && k == "length")
  }

  /** `v[k]`, with Null standing for `undefined` when `v` has no such property. */
  function Property(v: Value, k: string): Value {
    if v.Arr? && k == "length" then Num(|v.items|)
    else if k in OwnKeys(v) then Member(v, IndexOf(OwnKeys(v), k))
    else Null
  }

  /** A value JSON can denote: no object has two members of one name. */
  predicate WellFormed(v: Value) {
    && (v.Obj? ==> Distinct(OwnKeys(v)))
    && forall i | 0 <= i < Width(v) :: WellFormed(Member(v, i))
  }

  /** Own property names of a well-formed value never repeat. */
  lemma OwnKeysDistinct(v: Value)
    requires WellFormed(v)
    ensures Distinct(OwnKeys(v))
  {
    if v.Arr? {
      var ks := OwnKeys(v);
      forall i, j | 0 <= i < j < |ks| ensures ks[i] != ks[j] {
        assert NumeralValue(ks[i]) == i && NumeralValue(ks[j]) == j;
      }
    }
  }

  /** Reading a well-formed value's `i`-th own key yields its `i`-th member. */
  lemma PropertyOfOwnKey(v: Value, i: nat)
    requires WellFormed(v) && i < Width(v)
    ensures Property(v, OwnKeys(v)[i]) == Member(v, i)
  {
    OwnKeysDistinct(v);
    IndexOfDistinct(OwnKeys(v), i);
  }

  /** Every property read from a well-formed value is well formed. */
  lemma PropertyWellFormed(v: Value, k: string)
    requires WellFormed(v)
    ensures WellFormed(Property(v, k))
  {
  }

}
