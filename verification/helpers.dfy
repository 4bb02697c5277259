/**
 * The identity comparators (src/helpers.ts): symbol identity, used by every
 * tree search and by stack reconciliation, and deep structural equality of
 * plain values, used to compare word ranges.
 */
module Helpers {
  import opened Wrappers
  import opened Editor

  /*
   * Symbol identity
   */

  /** Same name, same kind and same defining-file URI string; ranges are ignored. */
  predicate AreSymbolsIdentical(a: DocumentSymbol, b: DocumentSymbol) {
    a.name == b.name && a.kind == b.kind && a.uri == b.uri
  }

  /**
   * Two symbols are identical exactly when they differ at most in their
   * range and their children.
   */
  lemma SymbolsIdenticalIgnoresRange(a: DocumentSymbol, b: DocumentSymbol)
    ensures AreSymbolsIdentical(a, b) <==> a.(range := b.range, children := b.children) == b
  {
  }

  /**
   * Symbol identity is an equivalence relation; in particular two symbols
   * that both lack a location agree on the file component.
   */
  lemma SymbolsIdenticalIsEquivalence(a: DocumentSymbol, b: DocumentSymbol, c: DocumentSymbol)
    ensures AreSymbolsIdentical(a, a)
    ensures AreSymbolsIdentical(a, b) <==> AreSymbolsIdentical(b, a)
    ensures AreSymbolsIdentical(a, b) && AreSymbolsIdentical(b, c) ==> AreSymbolsIdentical(a, c)
    ensures a.uri.None? && b.uri.None? && a.name == b.name && a.kind == b.kind ==> AreSymbolsIdentical(a, b)
  {
  }

  /*
   * Deep equality of plain values
   */

  /**
   * The closed set of plain values the deep comparison is applied to:
   * integers, strings, booleans, null and objects. An object is its list of
   * own keys in enumeration order, each with its value.
   */
  datatype Value = Null | Bool(b: bool) | Num(n: int) | Str(s: string) | Obj(fields: seq<Field>)
  datatype Field = Field(key: string, value: Value)

  /** Property access `obj[key]`; `None` stands for `undefined`. */
  function Lookup(o: seq<Field>, key: string): (r: Option<Value>)
    ensures r.Some? <==> exists i :: 0 <= i < |o| && o[i].key == key
    ensures r.Some? ==> exists i :: 0 <= i < |o| && o[i] == Field(key, r.value)
  {
    if o == [] then None
    else if o[0].key == key then Some(o[0].value)
    else
      var r := Lookup(o[1..], key);
      assert forall i :: 0 < i < |o| ==> o[i] == o[1..][i - 1];
      r
  }

  /** `isObject`: a non-null object. `undefined` and `null` are not objects. */
  predicate IsObject(v: Option<Value>) {
    v.Some? && v.value.Obj?
  }

  /**
   * `areObjectsIdentical`: equal key counts, and for every key of the first
   * object in order, the two values are deeply identical when both are
   * objects and strictly equal otherwise.
   */
  function AreObjectsIdentical(o1: seq<Field>, o2: seq<Field>): (r: bool)
    decreases o1, 1
    ensures r ==> |o1| == |o2|
    ensures r ==> forall i :: 0 <= i < |o1| ==> Lookup(o2, o1[i].key).Some?
  {
    if |o1| != |o2| then false else KeysMatch(o1, o2)
  }

  /** The early-exit loop over the first object's keys, on the keys still to visit. */
  function KeysMatch(rest: seq<Field>, o2: seq<Field>): (r: bool)
    decreases rest, 0
    ensures r ==> forall i :: 0 <= i < |rest| ==> Lookup(o2, rest[i].key).Some?
  {
    if rest == [] then true
    else
      var val1 := Some(rest[0].value);
      var val2 := Lookup(o2, rest[0].key);
      var areObjects := IsObject(val1) && IsObject(val2);
      if (areObjects && !AreObjectsIdentical(rest[0].value.fields, val2.value.fields))
         || (!areObjects && val1 != val2)
      then false
      else
        var r := KeysMatch(rest[1..], o2);
        assert forall i :: 0 < i < |rest| ==> rest[i] == rest[1..][i - 1];
        r
  }

  /** The per-key comparison: deep when both sides are objects, strict otherwise. */
  predicate ValuesIdentical(v1: Value, v2: Value) {
    if v1.Obj? && v2.Obj? then AreObjectsIdentical(v1.fields, v2.fields) else v1 == v2
  }

  /** A field of `o1` is matched in `o2` when `o2` has its key with an identical value. */
  predicate FieldMatches(f: Field, o2: seq<Field>) {
    Lookup(o2, f.key).Some? && ValuesIdentical(f.value, Lookup(o2, f.key).value)
  }

  /** The keys of a JavaScript object are pairwise distinct, at every depth. */
  ghost predicate DistinctKeys(o: seq<Field>)
    decreases o
  {
    && (forall i, j :: 0 <= i < j < |o| ==> o[i].key != o[j].key)
    && (forall i :: 0 <= i < |o| && o[i].value.Obj? ==> DistinctKeys(o[i].value.fields))
  }

  /** The key loop succeeds exactly when every remaining field is matched. */
  lemma {:induction false} KeysMatchMeaning(rest: seq<Field>, o2: seq<Field>)
    ensures KeysMatch(rest, o2) <==> forall i :: 0 <= i < |rest| ==> FieldMatches(rest[i], o2)
    decreases rest
  {
    if rest != [] {
      KeysMatchMeaning(rest[1..], o2);
      assert forall i :: 0 < i < |rest| ==> rest[i] == rest[1..][i - 1];
    }
  }

  /** `areObjectsIdentical` is equal key counts and every field of `o1` matched in `o2`. */
  lemma ObjectsIdenticalMeaning(o1: seq<Field>, o2: seq<Field>)
    ensures AreObjectsIdentical(o1, o2) <==>
      |o1| == |o2| && forall i :: 0 <= i < |o1| ==> FieldMatches(o1[i], o2)
  {
    KeysMatchMeaning(o1, o2);
  }

  /** A nested difference under any key makes the whole comparison false. */
  lemma NestedDifference(o1: seq<Field>, o2: seq<Field>, i: nat, inner: seq<Field>)
    requires i < |o1| && o1[i].value.Obj?
    requires Lookup(o2, o1[i].key) == Some(Obj(inner))
    requires !AreObjectsIdentical(o1[i].value.fields, inner)
    ensures !AreObjectsIdentical(o1, o2)
  {
    ObjectsIdenticalMeaning(o1, o2);
  }

  /** With distinct keys, looking up a field's key finds that field's value. */
  lemma LookupFindsField(o: seq<Field>, i: nat)
    requires i < |o|
    requires forall a, b :: 0 <= a < b < |o| ==> o[a].key != o[b].key
    ensures Lookup(o, o[i].key) == Some(o[i].value)
  {
    var r := Lookup(o, o[i].key);
    var j :| 0 <= j < |o| && o[j] == Field(o[i].key, r.value);
    assert j == i;
  }

  /** Structurally identical objects compare equal. */
  lemma {:induction false} ObjectsIdenticalReflexive(o: seq<Field>)
    requires DistinctKeys(o)
    ensures AreObjectsIdentical(o, o)
    decreases o, 1
  {
    KeysMatchSelf(o, 0);
    assert o[0..] == o;
  }

  lemma {:induction false} KeysMatchSelf(o: seq<Field>, k: nat)
    requires DistinctKeys(o) && k <= |o|
    ensures KeysMatch(o[k..], o)
    decreases o, 0, |o| - k
  {
    if k < |o| {
      LookupFindsField(o, k);
      if o[k].value.Obj? {
        ObjectsIdenticalReflexive(o[k].value.fields);
      }
      KeysMatchSelf(o, k + 1);
      assert o[k..][1..] == o[k + 1..];
    }
  }

  function KeySet(o: seq<Field>): set<string> {
    set i | 0 <= i < |o| :: o[i].key
  }

  lemma {:induction false} KeySetSize(o: seq<Field>)
    requires forall a, b :: 0 <= a < b < |o| ==> o[a].key != o[b].key
    ensures |KeySet(o)| == |o|
  {
    if o != [] {
      KeySetSize(o[1..]);
      assert KeySet(o) == {o[0].key} + KeySet(o[1..]) by {
        forall x | x in KeySet(o) ensures x in {o[0].key} + KeySet(o[1..]) {
          var i :| 0 <= i < |o| && o[i].key == x;
          if i > 0 { assert o[1..][i - 1].key == x; }
        }
        forall x | x in KeySet(o[1..]) ensures x in KeySet(o) {
          var i :| 0 <= i < |o[1..]| && o[1..][i].key == x;
          assert o[i + 1].key == x;
        }
      }
      assert o[0].key !in KeySet(o[1..]) by {
        forall i | 0 <= i < |o[1..]| ensures o[1..][i].key != o[0].key {
          assert o[1..][i] == o[i + 1];
        }
      }
    }
  }

  lemma SubsetOfSameSize(a: set<string>, b: set<string>)
    requires a <= b && |a| == |b|
    ensures a == b
  {
    var d := b - a;
    assert b == a + d;
    assert a !! d;
    assert |b| == |a| + |d|;
  }

  /** On well-formed objects the comparison does not depend on argument order. */
  lemma {:induction false} ObjectsIdenticalSymmetric(o1: seq<Field>, o2: seq<Field>)
    requires DistinctKeys(o1) && DistinctKeys(o2)
    requires AreObjectsIdentical(o1, o2)
    ensures AreObjectsIdentical(o2, o1)
    decreases o1
  {
    ObjectsIdenticalMeaning(o1, o2);
    ObjectsIdenticalMeaning(o2, o1);
    assert KeySet(o1) <= KeySet(o2) by {
      forall x | x in KeySet(o1) ensures x in KeySet(o2) {
        var i :| 0 <= i < |o1| && o1[i].key == x;
        assert FieldMatches(o1[i], o2);
      }
    }
    KeySetSize(o1);
    KeySetSize(o2);
    SubsetOfSameSize(KeySet(o1), KeySet(o2));
    forall j | 0 <= j < |o2| ensures FieldMatches(o2[j], o1) {
      assert o2[j].key in KeySet(o2);
      var i :| 0 <= i < |o1| && o1[i].key == o2[j].key;
      LookupFindsField(o1, i);
      LookupFindsField(o2, j);
      assert FieldMatches(o1[i], o2);
      if o1[i].value.Obj? && o2[j].value.Obj? {
        ObjectsIdenticalSymmetric(o1[i].value.fields, o2[j].value.fields);
      }
    }
  }

  /** The comparison is transitive, on any objects. */
  lemma {:induction false} ObjectsIdenticalTransitive(o1: seq<Field>, o2: seq<Field>, o3: seq<Field>)
    requires AreObjectsIdentical(o1, o2) && AreObjectsIdentical(o2, o3)
    ensures AreObjectsIdentical(o1, o3)
    decreases o1
  {
    ObjectsIdenticalMeaning(o1, o2);
    ObjectsIdenticalMeaning(o2, o3);
    ObjectsIdenticalMeaning(o1, o3);
    forall i | 0 <= i < |o1| ensures FieldMatches(o1[i], o3) {
      assert FieldMatches(o1[i], o2);
      var v2 := Lookup(o2, o1[i].key).value;
      var j :| 0 <= j < |o2| && o2[j] == Field(o1[i].key, v2);
      assert FieldMatches(o2[j], o3);
      var v3 := Lookup(o3, o1[i].key).value;
      if o1[i].value.Obj? && v2.Obj? && v3.Obj? {
        ObjectsIdenticalTransitive(o1[i].value.fields, v2.fields, v3.fields);
      }
    }
  }

  /** `null` is not an object, so two `null` values are compared strictly and agree. */
  lemma NullIsComparedStrictly()
    ensures !IsObject(Some(Null)) && !IsObject(None)
    ensures AreObjectsIdentical([Field("a", Null)], [Field("a", Null)])
    ensures !AreObjectsIdentical([Field("a", Null)], [Field("a", Obj([]))])
  {
  }
}
