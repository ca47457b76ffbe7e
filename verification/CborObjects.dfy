/** The objects of the client's language that the parser builds, where a key may be written several times. */
module CborObjects {
  import opened Cbor
  import opened Wrappers

  /** One property set. */
  function With(fields: seq<Field>, f: Field): seq<Field> {
    SetProperty(fields, f.key, f.value)
  }

  /** Properties set one after the other. */
  function AssignedAll(done: seq<Field>, fields: seq<Field>): seq<Field>
    decreases |fields|
  {
    if fields == [] then done else AssignedAll(With(done, fields[0]), fields[1..])
  }

  function Lookup(fields: seq<Field>, key: Text): Option<Value> {
    if fields == [] then None else if fields[0].key == key then Some(fields[0].value) else Lookup(fields[1..], key)
  }

  /** The position where a key is written first. */
  predicate FirstAt(fields: seq<Field>, key: Text, i: nat) {
    i < |fields| && fields[i].key == key && forall j :: 0 <= j < i ==> fields[j].key != key
  }

  /** The value written last for a key. */
  predicate WrittenLast(fields: seq<Field>, key: Text, i: nat) {
    i < |fields| && fields[i].key == key && forall j :: i < j < |fields| ==> fields[j].key != key
  }

  predicate HasKey(fields: seq<Field>, key: Text) {
    exists i :: 0 <= i < |fields| && fields[i].key == key
  }

  lemma {:induction false} LookupHas(fields: seq<Field>, key: Text)
    ensures HasKey(fields, key) <==> Lookup(fields, key).Some?
  {
    if fields != [] {
      LookupHas(fields[1..], key);
      if i :| 0 <= i < |fields| && fields[i].key == key { assert i > 0 ==> fields[1..][i - 1].key == key; }
      if i :| 0 <= i < |fields| - 1 && fields[1..][i].key == key { assert fields[i + 1].key == key; }
    }
  }

  /** One property set: it alone changes, in its place or behind the others. */
  lemma {:induction false} SetOne(fields: seq<Field>, f: Field, key: Text)
    requires f.key != PROTO
    ensures Lookup(With(fields, f), key) == if key == f.key then Some(f.value) else Lookup(fields, key)
    ensures var after := With(fields, f);
            && |after| == |fields| + (if Lookup(fields, f.key).Some? then 0 else 1)
            && (forall i :: 0 <= i < |fields| ==> after[i].key == fields[i].key)
            && (|after| > |fields| ==> after[|fields|] == f)
  {
    if fields != [] && fields[0].key != f.key {
      SetOne(fields[1..], f, key);
      var rest := With(fields[1..], f);
      assert With(fields, f) == [fields[0]] + rest;
      assert ([fields[0]] + rest)[1..] == rest;
      forall i | 0 <= i < |fields| ensures ([fields[0]] + rest)[i].key == fields[i].key {
        assert i > 0 ==> rest[i - 1].key == fields[1..][i - 1].key;
      }
    } else if fields != [] {
      assert With(fields, f)[1..] == fields[1..];
    }
  }

  lemma {:induction false} AssignedLast(done: seq<Field>, fields: seq<Field>, f: Field)
    ensures AssignedAll(done, fields + [f]) == With(AssignedAll(done, fields), f)
    decreases |fields|
  {
    var more := fields + [f];
    if fields == [] {
      assert more[1..] == [];
    } else {
      assert more[0] == fields[0] && more[1..] == fields[1..] + [f];
      AssignedLast(With(done, fields[0]), fields[1..], f);
    }
  }

  /** An object has the keys that were written but `__proto__`, each with the value written last. */
  lemma {:induction false} ObjectExactly(fields: seq<Field>, key: Text)
    ensures Lookup(AssignedAll([], fields), key).Some? <==> key != PROTO && HasKey(fields, key)
    ensures forall i: nat :: WrittenLast(fields, key, i) && key != PROTO ==>
              Lookup(AssignedAll([], fields), key) == Some(fields[i].value)
  {
    if fields != [] {
      var n := |fields| - 1;
      var less, f := fields[..n], fields[n];
      assert less + [f] == fields;
      AssignedLast([], less, f);
      ObjectExactly(less, key);
      if f.key != PROTO { SetOne(AssignedAll([], less), f, key); }
      assert HasKey(fields, key) <==> f.key == key || HasKey(less, key) by {
        if i :| 0 <= i < n && less[i].key == key { assert fields[i].key == key; }
        if i :| 0 <= i < |fields| && fields[i].key == key { assert i < n ==> less[i].key == key; }
        assert fields[n] == f;
      }
      forall i: nat | WrittenLast(fields, key, i) && key != PROTO
        ensures Lookup(AssignedAll([], fields), key) == Some(fields[i].value)
      {
        if i < n { assert WrittenLast(less, key, i) && fields[n].key != key; }
      }
    }
  }

  ghost predicate Written(fields: seq<Field>, key: Text) {
    exists i: nat :: FirstAt(fields, key, i)
  }

  ghost predicate WrittenBefore(fields: seq<Field>, key: Text, key': Text) {
    exists i: nat, j: nat :: FirstAt(fields, key, i) && FirstAt(fields, key', j) && i < j
  }

  /** Its keys differ, and stand in the order in which they were first written. */
  ghost predicate InOrder(fields: seq<Field>, done: seq<Field>) {
    && (forall a :: 0 <= a < |done| ==> Written(fields, done[a].key))
    && (forall a, b :: 0 <= a < b < |done| ==> WrittenBefore(fields, done[a].key, done[b].key))
  }

  lemma {:induction false} ObjectInOrder(fields: seq<Field>)
    ensures InOrder(fields, AssignedAll([], fields))
  {
    if fields != [] {
      var n := |fields| - 1;
      var less, f := fields[..n], fields[n];
      assert less + [f] == fields;
      AssignedLast([], less, f);
      ObjectInOrder(less);
      ObjectExactly(less, f.key);
      if f.key != PROTO { SetOne(AssignedAll([], less), f, f.key); }
      OneMore(less, f, AssignedAll([], less), AssignedAll([], fields));
    }
  }

  lemma {:induction false} FirstLonger(fields: seq<Field>, f: Field, key: Text, i: nat)
    requires HasKey(fields, key)
    ensures FirstAt(fields, key, i) <==> FirstAt(fields + [f], key, i)
  {
    var k :| 0 <= k < |fields| && fields[k].key == key;
    assert forall j :: 0 <= j < |fields| ==> (fields + [f])[j] == fields[j];
    assert (fields + [f])[k].key == key;
  }

  lemma {:induction false} OneMore(fields: seq<Field>, f: Field, done: seq<Field>, after: seq<Field>)
    requires InOrder(fields, done) && |done| <= |after| <= |done| + 1
    requires forall a :: 0 <= a < |done| ==> after[a].key == done[a].key
    requires |after| > |done| ==> after[|done|] == f && !HasKey(fields, f.key)
    ensures InOrder(fields + [f], after)
  {
    var more, n := fields + [f], |fields|;
    forall a | 0 <= a < |after| ensures Written(more, after[a].key) {
      if a < |done| {
        var i: nat :| FirstAt(fields, done[a].key, i);
        FirstLonger(fields, f, done[a].key, i);
      } else {
        WrittenLastFirst(fields, f);
      }
    }
    forall a, b | 0 <= a < b < |after| ensures WrittenBefore(more, after[a].key, after[b].key) {
      if b < |done| {
        assert WrittenBefore(fields, done[a].key, done[b].key);
        var i: nat, j: nat :| FirstAt(fields, done[a].key, i) && FirstAt(fields, done[b].key, j) && i < j;
        FirstLonger(fields, f, done[a].key, i);
        FirstLonger(fields, f, done[b].key, j);
      } else {
        assert Written(fields, done[a].key);
        var i: nat :| FirstAt(fields, done[a].key, i);
        FirstLonger(fields, f, done[a].key, i);
        WrittenLastFirst(fields, f);
      }
    }
  }

  lemma WrittenLastFirst(fields: seq<Field>, f: Field)
    requires !HasKey(fields, f.key)
    ensures FirstAt(fields + [f], f.key, |fields|)
  {
    forall j | 0 <= j < |fields| ensures (fields + [f])[j].key != f.key { assert (fields + [f])[j] == fields[j]; }
  }
}
