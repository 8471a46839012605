/** Structural equality, deep copy and schema validation, measured against the nested finite maps
    that values stand for. */
module JsonEquality {
  import opened Bytes
  import opened JsonValue
  import opened ObjectMembers
  import opened JsonObjects

  /** A value with the order of object members forgotten. */
  datatype Meaning =
    | MNull
    | MBoolean(b: bool)
    | MNumber(n: int)
    | MStr(chars: bytes)
    | MArray(items: seq<Meaning>)
    | MObject(fields: map<Name, Meaning>)

  function Denote(v: Value): Meaning {
    match v
    case Null => MNull
    case Boolean(b) => MBoolean(b)
    case Number(n) => MNumber(n)
    case Str(chars) => MStr(chars)
    case Array(items) => MArray(seq(|items|, i requires 0 <= i < |items| => Denote(items[i])))
    case Object(ms) => MObject(DenoteMembers(ms))
  }

  function DenoteMembers(ms: seq<Member>): map<Name, Meaning> {
    if ms == [] then map[] else DenoteMembers(ms[1..])[ms[0].name := Denote(ms[0].value)]
  }

  // ----- what the functions compute -----

  predicate SameKind(a: Value, b: Value) {
    a.Null? == b.Null? && a.Boolean? == b.Boolean? && a.Number? == b.Number? &&
    a.Str? == b.Str? && a.Array? == b.Array? && a.Object? == b.Object?
  }

  /** json_value_equals; between exact integers the epsilon comes to equality. */
  predicate Equals(a: Value, b: Value)
    decreases a, 1
  {
    SameKind(a, b) &&
    match a
    case Null => true
    case Boolean(x) => x == b.b
    case Number(n) => n == b.n
    case Str(chars) => chars == b.chars
    case Array(items) =>
      |items| == |b.items| && forall i :: 0 <= i < |items| ==> Equals(items[i], b.items[i])
    case Object(ms) =>
      |ms| == |b.members| && forall i :: 0 <= i < |ms| ==> EqualAt(ms, b.members, i)
  }

  /** Both lists have a value under name i of the first, and the two are equal. */
  predicate EqualAt(ms: seq<Member>, other: seq<Member>, i: nat)
    requires i < |ms|
    decreases ms, 0
  {
    var x, y := Lookup(ms, ms[i].name), Lookup(other, ms[i].name);
    x.Some? && y.Some? && Equals(x.value, y.value)
  }

  /** json_validate: an empty array or object allows all, null allows anything. */
  predicate Validate(schema: Value, value: Value)
    decreases schema, 1
  {
    schema.Null? ||
    (SameKind(schema, value) &&
     match schema
     case Array(items) =>
       |items| == 0 || forall i :: 0 <= i < |value.items| ==> Validate(items[0], value.items[i])
     case Object(ms) =>
       |ms| == 0 ||
       (|ms| <= |value.members| && forall i :: 0 <= i < |ms| ==> ValidAt(ms, value.members, i))
     case _ => true)
  }

  /** The value has something under name i of the schema, and it passes. */
  predicate ValidAt(ms: seq<Member>, other: seq<Member>, i: nat)
    requires i < |ms|
    decreases ms, 0
  {
    var x, y := Lookup(ms, ms[i].name), Lookup(other, ms[i].name);
    x.Some? && y.Some? && Validate(x.value, y.value)
  }

  /** Conformance of meanings: no counting, no order. */
  predicate Conforms(schema: Meaning, value: Meaning) {
    match schema
    case MNull => true
    case MBoolean(_) => value.MBoolean?
    case MNumber(_) => value.MNumber?
    case MStr(_) => value.MStr?
    case MArray(items) =>
      value.MArray? && (|items| == 0 || forall i :: 0 <= i < |value.items| ==> Conforms(items[0], value.items[i]))
    case MObject(fields) =>
      value.MObject? && forall n :: n in fields ==> n in value.fields && Conforms(fields[n], value.fields[n])
  }

  // ----- the loops -----

  method JsonValueEquals(a: Value, b: Value) returns (equal: bool)
    ensures equal <==> Equals(a, b)
    decreases a
  {
    if !SameKind(a, b) { return false; }
    match a
    case Null => return true;
    case Boolean(x) => return x == b.b;
    case Number(n) => return -1 < n - b.n < 1;
    case Str(chars) => return chars == b.chars;
    case Array(items) =>
      if |items| != |b.items| { return false; }
      for i := 0 to |items|
        invariant forall k :: 0 <= k < i ==> Equals(items[k], b.items[k])
      {
        var same := JsonValueEquals(items[i], b.items[i]);
        if !same { return false; }
      }
      return true;
    case Object(ms) =>
      if |ms| != |b.members| { return false; }
      for i := 0 to |ms|
        invariant forall k :: 0 <= k < i ==> EqualAt(ms, b.members, k)
      {
        var x, y := Lookup(ms, ms[i].name), Lookup(b.members, ms[i].name);
        assert EqualAt(ms, b.members, i) <==> y.Some? && Equals(x.value, y.value);
        if y.None? { return false; }
        var same := JsonValueEquals(x.value, y.value);
        if !same { return false; }
      }
      return true;
  }

  method JsonValidate(schema: Value, value: Value) returns (valid: bool)
    ensures valid <==> Validate(schema, value)
    decreases schema
  {
    if !SameKind(schema, value) && !schema.Null? { return false; }
    match schema
    case Array(items) =>
      if |items| == 0 { return true; }
      for i := 0 to |value.items|
        invariant forall k :: 0 <= k < i ==> Validate(items[0], value.items[k])
      {
        var ok := JsonValidate(items[0], value.items[i]);
        if !ok { return false; }
      }
      return true;
    case Object(ms) =>
      if |ms| == 0 { return true; }
      if |value.members| < |ms| { return false; }
      for i := 0 to |ms|
        invariant forall k :: 0 <= k < i ==> ValidAt(ms, value.members, k)
      {
        var x, y := Lookup(ms, ms[i].name), Lookup(value.members, ms[i].name);
        assert ValidAt(ms, value.members, i) <==> y.Some? && Validate(x.value, y.value);
        if y.None? { return false; }
        var ok := JsonValidate(x.value, y.value);
        if !ok { return false; }
      }
      return true;
    case _ => return true;
  }

  /** json_value_deep_copy: copying fails when an object holds a name twice, and is exact otherwise. */
  method DeepCopy(v: Value) returns (copy: Option<Value>)
    ensures copy == if WellFormed(v) then Some(v) else None
    decreases v
  {
    match v
    case Array(items) =>
      var output: seq<Value> := [];
      for i := 0 to |items|
        invariant output == items[..i]
        invariant forall k :: 0 <= k < i ==> WellFormed(items[k])
      {
        var item := DeepCopy(items[i]);
        if item.None? { return None; }
        output := output + [item.value];
      }
      assert items[..|items|] == items;
      return Some(Array(output));
    case Object(ms) =>
      var members := DeepCopyMembers(ms);
      return if members.Some? then Some(Object(members.value)) else None;
    case _ => return Some(v);
  }

  method DeepCopyMembers(ms: seq<Member>) returns (copy: Option<seq<Member>>)
    ensures copy == if WellFormed(Object(ms)) then Some(ms) else None
    decreases ms
  {
    hide Lookup, AsMap, Added;
    var output := new JsonObject();
    for i := 0 to |ms|
      invariant output.Valid() && fresh(output) && (output.names != null ==>
          fresh(output.names) && fresh(output.values))
      invariant output.Members() == ms[..i]
      invariant forall k :: 0 <= k < i ==> WellFormed(ms[k].value)
    {
      var name := ms[i].name;
      FirstOrRepeated(ms, i);
      var x := Lookup(ms, name);
      var item := DeepCopy(x.value);
      if item.None? { return None; }
      AddedNext(ms, i, item.value);
      var added := output.Add(name, item.value);
      if !added { return None; }
    }
    assert ms[..|ms|] == ms;
    return Some(output.Members());
  }

  lemma AddedNext(ms: seq<Member>, i: nat, value: Value)
    requires i < |ms|
    ensures Added(ms[..i], ms[i].name, value) ==
              if Lookup(ms[..i], ms[i].name).None? then Some(ms[..i] + [Member(ms[i].name, value)]) else None
    ensures ms[..i] + [Member(ms[i].name, ms[i].value)] == ms[..i + 1]
  {
  }

  /** A name that is looked up at its own member, or that an earlier member already carries. */
  lemma FirstOrRepeated(ms: seq<Member>, i: nat)
    requires i < |ms|
    ensures Lookup(ms, ms[i].name).Some?
    ensures Lookup(ms[..i], ms[i].name).None? ==> Lookup(ms, ms[i].name) == Some(ms[i].value)
    ensures Lookup(ms[..i], ms[i].name).Some? ==> !DistinctNames(ms)
    ensures exists k :: 0 <= k < |ms| && ms[k].value == Lookup(ms, ms[i].name).value
  {
    hide Lookup, IndexOf;
    var k, j := IndexOf(ms, ms[i].name), IndexOf(ms[..i], ms[i].name);
    assert k < i ==> ms[..i][k].name == ms[i].name;
    assert j < i ==> ms[j].name == ms[i].name;
  }

  // ----- counting -----

  lemma {:induction false} SubsetSmaller<T>(a: set<T>, b: set<T>)
    requires a <= b
    ensures |a| <= |b|
    ensures |a| == |b| ==> a == b
    decreases a
  {
    if a != {} {
      var x :| x in a;
      SubsetSmaller(a - {x}, b - {x});
    }
  }

  lemma {:induction false} MeaningAt(ms: seq<Member>, n: Name)
    ensures n in DenoteMembers(ms) <==> Lookup(ms, n).Some?
    ensures n in DenoteMembers(ms) ==> DenoteMembers(ms)[n] == Denote(Lookup(ms, n).value)
    decreases |ms|
  {
    if ms == [] {
    } else {
      hide Denote;
      MeaningAt(ms[1..], n);
    }
  }

  lemma {:induction false} MeaningCount(ms: seq<Member>)
    requires DistinctNames(ms)
    ensures |DenoteMembers(ms).Keys| == |ms|
    decreases |ms|
  {
    if ms == [] {
    } else {
      hide Denote, Lookup;
      assert DistinctNames(ms[1..]);
      MeaningCount(ms[1..]);
      MeaningAt(ms[1..], ms[0].name);
      assert forall i :: 0 <= i < |ms[1..]| ==> ms[1..][i].name != ms[0].name;
      var rest := DenoteMembers(ms[1..]);
      assert ms[0].name !in rest;
      assert DenoteMembers(ms).Keys == rest.Keys + {ms[0].name};
    }
  }

  lemma MeaningOfMembers(ms: seq<Member>)
    ensures forall n: Name :: n in DenoteMembers(ms) <==> Lookup(ms, n).Some?
    ensures forall n: Name :: n in DenoteMembers(ms) ==> DenoteMembers(ms)[n] == Denote(Lookup(ms, n).value)
    ensures DistinctNames(ms) ==> |DenoteMembers(ms).Keys| == |ms|
  {
    hide DenoteMembers, Denote, Lookup, DistinctNames;
    forall n: Name
      ensures n in DenoteMembers(ms) <==> Lookup(ms, n).Some?
      ensures n in DenoteMembers(ms) ==> DenoteMembers(ms)[n] == Denote(Lookup(ms, n).value)
    {
      MeaningAt(ms, n);
    }
    if DistinctNames(ms) { MeaningCount(ms); }
  }

  // ----- main results -----

  /** With distinct names, two values are equal exactly when they mean the same nested finite map,
      although the loop only ever walks the names of the first. */
  lemma {:induction false} EqualsIffSameMeaning(a: Value, b: Value)
    requires WellFormed(a) && WellFormed(b)
    ensures Equals(a, b) <==> Denote(a) == Denote(b)
    decreases a
  {
    match a
    case Array(items) =>
      if b.Array? {
        assert |Denote(a).items| == |items| && |Denote(b).items| == |b.items|;
      }
      if b.Array? && |items| == |b.items| {
        forall i | 0 <= i < |items| ensures Equals(items[i], b.items[i]) <==> Denote(items[i]) == Denote(b.items[i]) {
          EqualsIffSameMeaning(items[i], b.items[i]);
        }
        ArraysMean(items, b.items);
      }
    case Object(ms) =>
      if b.Object? {
        forall i | 0 <= i < |ms| && Lookup(b.members, ms[i].name).Some?
          ensures WellFormed(Lookup(b.members, ms[i].name).value)
          ensures Equals(ms[i].value, Lookup(b.members, ms[i].name).value) <==>
                    Denote(ms[i].value) == Denote(Lookup(b.members, ms[i].name).value)
        {
          var k := IndexOf(b.members, ms[i].name);
          EqualsIffSameMeaning(ms[i].value, b.members[k].value);
        }
        ObjectsMean(ms, b.members);
      }
    case _ =>
  }

  lemma ArraysMean(a: seq<Value>, b: seq<Value>)
    requires |a| == |b|
    ensures Denote(Array(a)) == Denote(Array(b)) <==> forall i :: 0 <= i < |a| ==> Denote(a[i]) == Denote(b[i])
  {
    var x, y := Denote(Array(a)).items, Denote(Array(b)).items;
    assert |x| == |a| && |y| == |b|;
    assert forall i :: 0 <= i < |a| ==> x[i] == Denote(a[i]) && y[i] == Denote(b[i]);
    if x == y {
      forall i | 0 <= i < |a| ensures Denote(a[i]) == Denote(b[i]) { assert x[i] == y[i]; }
    }
  }

  /** Every name of ms has the same meaning in other. */
  ghost predicate Covered(ms: seq<Member>, other: seq<Member>) {
    forall i :: 0 <= i < |ms| ==>
      Lookup(other, ms[i].name).Some? && Denote(ms[i].value) == Denote(Lookup(other, ms[i].name).value)
  }

  /** Equally many names, all of the first covered by the second: then the maps are the same. */
  lemma SameMapIff(a: seq<Member>, b: seq<Member>)
    requires DistinctNames(a) && DistinctNames(b)
    ensures DenoteMembers(a) == DenoteMembers(b) <==> |a| == |b| && Covered(a, b)
  {
    MeaningOfMembers(a);
    MeaningOfMembers(b);
    var x, y := DenoteMembers(a), DenoteMembers(b);
    hide DenoteMembers, Denote, Lookup, IndexOf;
    if |a| == |b| && Covered(a, b) {
      forall n: Name | n in x ensures n in y && x[n] == y[n] {
        var i := IndexOf(a, n);
        assert a[i].name == n && Lookup(a, n) == Some(a[i].value);
      }
      SubsetSmaller(x.Keys, y.Keys);
      assert x == y;
    }
    if x == y {
      assert |a| == |b|;
      forall i | 0 <= i < |a|
        ensures Lookup(b, a[i].name).Some? && Denote(a[i].value) == Denote(Lookup(b, a[i].name).value)
      {
        LookupAt(a, a[i].name, i);
        assert a[i].name in x;
      }
    }
  }

  lemma ObjectsMean(a: seq<Member>, b: seq<Member>)
    requires DistinctNames(a) && DistinctNames(b)
    requires forall i :: 0 <= i < |a| && Lookup(b, a[i].name).Some? ==>
               (Equals(a[i].value, Lookup(b, a[i].name).value) <==>
                   Denote(a[i].value) == Denote(Lookup(b, a[i].name).value))
    ensures Equals(Object(a), Object(b)) <==> Denote(Object(a)) == Denote(Object(b))
  {
    SameMapIff(a, b);
    forall i | 0 <= i < |a| ensures Lookup(a, a[i].name) == Some(a[i].value) { LookupAt(a, a[i].name, i); }
    assert forall i :: 0 <= i < |a| ==>
      (EqualAt(a, b, i) <==> Lookup(b, a[i].name).Some? && Equals(a[i].value, Lookup(b, a[i].name).value));
  }

  /** So equality is an equivalence relation. */
  lemma EqualsIsEquivalence(a: Value, b: Value, c: Value)
    requires WellFormed(a) && WellFormed(b) && WellFormed(c)
    ensures Equals(a, a)
    ensures Equals(a, b) ==> Equals(b, a)
    ensures Equals(a, b) && Equals(b, c) ==> Equals(a, c)
  {
    EqualsIffSameMeaning(a, a);
    EqualsIffSameMeaning(a, b);
    EqualsIffSameMeaning(b, a);
    EqualsIffSameMeaning(b, c);
    EqualsIffSameMeaning(a, c);
  }

  /** Validation looks only at meanings; rejecting a value for having fewer pairs than the schema never
      changes the verdict. */
  lemma {:induction false} ValidateIffConforms(schema: Value, value: Value)
    requires WellFormed(schema) && WellFormed(value)
    ensures Validate(schema, value) <==> Conforms(Denote(schema), Denote(value))
    decreases schema
  {
    match schema
    case Array(items) =>
      if value.Array? && items != [] {
        forall i | 0 <= i < |value.items|
          ensures Validate(items[0], value.items[i]) <==> Conforms(Denote(items[0]), Denote(value.items[i]))
        {
          ValidateIffConforms(items[0], value.items[i]);
        }
        assert forall i :: 0 <= i < |value.items| ==> Denote(value).items[i] == Denote(value.items[i]);
      }
    case Object(ms) =>
      if value.Object? {
        forall i | 0 <= i < |ms| && Lookup(value.members, ms[i].name).Some?
          ensures Validate(ms[i].value, Lookup(value.members, ms[i].name).value)
             <==> Conforms(Denote(ms[i].value), Denote(Lookup(value.members, ms[i].name).value))
        {
          var k := IndexOf(value.members, ms[i].name);
          ValidateIffConforms(ms[i].value, value.members[k].value);
        }
        ObjectsConform(ms, value.members);
      }
    case _ =>
  }

  /** The names under which the second list has a value that conforms to the first's. */
  ghost function Passing(a: seq<Member>, b: seq<Member>): set<Name> {
    var x, y := DenoteMembers(a), DenoteMembers(b);
    set n | n in x && n in y && Conforms(x[n], y[n])
  }

  lemma PassingAt(a: seq<Member>, b: seq<Member>, i: nat)
    requires DistinctNames(a) && i < |a|
    requires Lookup(b, a[i].name).Some? ==>
               (Validate(a[i].value, Lookup(b, a[i].name).value) <==>
                Conforms(Denote(a[i].value), Denote(Lookup(b, a[i].name).value)))
    ensures ValidAt(a, b, i) <==> a[i].name in Passing(a, b)
  {
    LookupAt(a, a[i].name, i);
    MeaningOfMembers(a);
    MeaningOfMembers(b);
    hide Lookup, IndexOf, DenoteMembers, Denote, Conforms, Validate;
  }

  lemma AllPassing(a: seq<Member>, names: set<Name>)
    ensures (forall i :: 0 <= i < |a| ==> a[i].name in names) <==> DenoteMembers(a).Keys <= names
  {
    MeaningOfMembers(a);
    hide DenoteMembers, Denote, Lookup, IndexOf;
    forall i | 0 <= i < |a| ensures a[i].name in DenoteMembers(a) {
      var k := IndexOf(a, a[i].name);
    }
    if forall i :: 0 <= i < |a| ==> a[i].name in names {
      forall n: Name | n in DenoteMembers(a) ensures n in names {
        var k := IndexOf(a, n);
        assert a[k].name == n;
      }
    }
  }

  lemma ValidateObject(a: seq<Member>, b: seq<Member>)
    ensures |a| == 0 ==> Validate(Object(a), Object(b))
    ensures |a| > 0 ==> (Validate(Object(a), Object(b)) ==> |a| <= |b|)
    ensures |a| > 0 ==> (Validate(Object(a), Object(b)) ==> forall i :: 0 <= i < |a| ==> ValidAt(a, b, i))
    ensures |a| > 0 ==> |a| <= |b| ==> (forall i :: 0 <= i < |a| ==> ValidAt(a, b, i)) ==>
              Validate(Object(a), Object(b))
  {
    hide Lookup;
  }

  lemma ObjectsConform(a: seq<Member>, b: seq<Member>)
    requires DistinctNames(a) && DistinctNames(b)
    requires forall i :: 0 <= i < |a| && Lookup(b, a[i].name).Some? ==>
               (Validate(a[i].value, Lookup(b, a[i].name).value) <==>
                Conforms(Denote(a[i].value), Denote(Lookup(b, a[i].name).value)))
    ensures Validate(Object(a), Object(b)) <==> Conforms(Denote(Object(a)), Denote(Object(b)))
  {
    var x, y, passing := DenoteMembers(a), DenoteMembers(b), Passing(a, b);
    assert Conforms(MObject(x), MObject(y)) <==> x.Keys <= passing;
    assert Denote(Object(a)) == MObject(x) && Denote(Object(b)) == MObject(y);
    assert passing <= y.Keys;
    ValidateObject(a, b);
    MeaningOfMembers(a);
    MeaningOfMembers(b);
    hide Lookup, DenoteMembers, Denote, Conforms, Validate, ValidAt, Passing;
    forall i | 0 <= i < |a| ensures ValidAt(a, b, i) <==> a[i].name in passing { PassingAt(a, b, i); }
    AllPassing(a, passing);
    if x.Keys <= passing {
      SubsetSmaller(x.Keys, y.Keys);
    }
  }

  /** The verdict is the same when schema and value are replaced by equal ones with members reordered. */
  lemma ValidateRespectsEquality(schema: Value, schema': Value, value: Value, value': Value)
    requires WellFormed(schema) && WellFormed(schema') && WellFormed(value) && WellFormed(value')
    requires Equals(schema, schema') && Equals(value, value')
    ensures Validate(schema, value) == Validate(schema', value')
  {
    EqualsIffSameMeaning(schema, schema');
    EqualsIffSameMeaning(value, value');
    ValidateIffConforms(schema, value);
    ValidateIffConforms(schema', value');
  }
}
