/** JSON values and the subset test (packages/core/src/matching.ts, lines 123-143). */
module Json {

  /** Numbers up to `Object.is`, which tells the two zeros apart. */
  datatype Number = Finite(value: real) | NegativeZero

  datatype Value =
    | Null
    | Boolean(flag: bool)
    | Numeric(number: Number)
    | Text(text: string)
    | List(items: seq<Value>)
    | Object(fields: map<string, Value>)

  /** Every key and value of `wanted` is in `actual`, recursively; lists match item by item. */
  predicate IsSubset(wanted: Value, actual: Value) {
    match wanted
    case List(items) =>
      && actual.List?
      && |actual.items| == |items|
      && forall i | 0 <= i < |items| :: IsSubset(items[i], actual.items[i])
    case Object(fields) =>
      && actual.Object?
      && forall key | key in fields :: key in actual.fields && IsSubset(fields[key], actual.fields[key])
    case _ => wanted == actual
  }

  lemma {:induction false} SubsetReflexive(a: Value)
    ensures IsSubset(a, a)
  {
    match a
    case List(items) =>
      forall i | 0 <= i < |items| ensures IsSubset(items[i], items[i]) { SubsetReflexive(items[i]); }
    case Object(fields) =>
      forall key | key in fields ensures IsSubset(fields[key], fields[key]) { SubsetReflexive(fields[key]); }
    case _ =>
  }

  /** Taking keys away from an object gives a subset of it, and putting a key in that is not there does not. */
  lemma FewerKeys(fields: map<string, Value>, keys: set<string>, extra: string, value: Value)
    ensures IsSubset(Object(fields - keys), Object(fields))
    ensures extra !in fields ==> !IsSubset(Object(fields[extra := value]), Object(fields))
  {
    forall key | key in fields - keys ensures IsSubset(fields[key], fields[key]) { SubsetReflexive(fields[key]); }
    if extra !in fields { assert extra in fields[extra := value]; }
  }

  /** Lists match item by item: a shorter or longer one never does. Anything else matches only its equal. */
  lemma ListsMatchWhole(a: seq<Value>, b: seq<Value>, leaf: Value, value: Value)
    ensures |a| != |b| ==> !IsSubset(List(a), List(b))
    ensures !leaf.List? && !leaf.Object? ==> (IsSubset(leaf, value) <==> leaf == value)
  {}

  /** What is a subset stays one inside an object or a list. */
  lemma SubsetInside(less: Value, more: Value, fields: map<string, Value>, key: string, items: seq<Value>, i: nat)
    requires IsSubset(less, more) && i < |items|
    ensures IsSubset(Object(fields[key := less]), Object(fields[key := more]))
    ensures IsSubset(List(items[i := less]), List(items[i := more]))
  {
    var a, b := fields[key := less], fields[key := more];
    forall k | k in a ensures k in b && IsSubset(a[k], b[k]) {
      if k != key { SubsetReflexive(fields[k]); }
    }
    var x, y := items[i := less], items[i := more];
    forall k | 0 <= k < |x| ensures IsSubset(x[k], y[k]) {
      if k != i { SubsetReflexive(items[k]); }
    }
  }

  lemma {:induction false} SubsetTransitive(a: Value, b: Value, c: Value)
    requires IsSubset(a, b) && IsSubset(b, c)
    ensures IsSubset(a, c)
    decreases a
  {
    match a
    case List(items) =>
      forall i | 0 <= i < |items| ensures IsSubset(items[i], c.items[i]) {
        SubsetTransitive(items[i], b.items[i], c.items[i]);
      }
    case Object(fields) =>
      forall key | key in fields ensures key in c.fields && IsSubset(fields[key], c.fields[key]) {
        SubsetTransitive(fields[key], b.fields[key], c.fields[key]);
      }
    case _ =>
  }

  lemma {:induction false} SubsetAntisymmetric(a: Value, b: Value)
    requires IsSubset(a, b) && IsSubset(b, a)
    ensures a == b
    decreases a
  {
    match a
    case List(items) =>
      forall i | 0 <= i < |items| ensures items[i] == b.items[i] {
        SubsetAntisymmetric(items[i], b.items[i]);
      }
    case Object(fields) =>
      assert fields.Keys == b.fields.Keys;
      forall key | key in fields ensures fields[key] == b.fields[key] {
        SubsetAntisymmetric(fields[key], b.fields[key]);
      }
      assert fields == b.fields;
    case _ =>
  }
}
