/** What the operations on an object do to its list of members, and the finite map that list stands for. */
module ObjectMembers {
  import opened Bytes
  import opened JsonValue

  /** Index of the member with this name, or |ms|. */
  function IndexOf(ms: seq<Member>, name: bytes): (k: nat)
    ensures k <= |ms|
    ensures k < |ms| ==> ms[k].name == name && Lookup(ms, name) == Some(ms[k].value)
    ensures k == |ms| ==> Lookup(ms, name) == None
    ensures forall i :: 0 <= i < k ==> ms[i].name != name
  {
    if ms == [] then 0
    else if ms[0].name == name then 0
    else
      var k := IndexOf(ms[1..], name);
      assert forall i :: 1 <= i < |ms| ==> ms[i] == ms[1..][i - 1];
      k + 1
  }

  /** json_object_addn: refuses a name that is already there. */
  function Added(ms: seq<Member>, name: Name, value: Value): Option<seq<Member>> {
    if Lookup(ms, name).Some? then None else Some(ms + [Member(name, value)])
  }

  /** json_object_set_value: overwrites in place or appends. */
  function WithValue(ms: seq<Member>, name: Name, value: Value): seq<Member> {
    var k := IndexOf(ms, name);
    if k < |ms| then ms[k := Member(name, value)] else ms + [Member(name, value)]
  }

  /** json_object_remove_internal: the last member takes the place of the removed one. */
  function Removed(ms: seq<Member>, name: bytes): Option<seq<Member>> {
    var k := IndexOf(ms, name);
    if k == |ms| then None
    else if k == |ms| - 1 then Some(ms[..k])
    else Some(ms[..|ms| - 1][k := ms[|ms| - 1]])
  }

  /** The finite map a list of members stands for. */
  function AsMap(ms: seq<Member>): (m: map<Name, Value>)
    ensures forall n: Name :: n in m <==> Lookup(ms, n).Some?
    ensures forall n: Name :: n in m ==> Lookup(ms, n) == Some(m[n])
  {
    if ms == [] then map[] else AsMap(ms[1..])[ms[0].name := ms[0].value]
  }

  lemma LookupAt(ms: seq<Member>, name: bytes, k: nat)
    requires DistinctNames(ms) && k < |ms| && ms[k].name == name
    ensures Lookup(ms, name) == Some(ms[k].value) && IndexOf(ms, name) == k
  {
    LookupDistinct(ms, k);
  }

  /** A name no member carries is looked up in vain. */
  lemma LookupNowhere(ms: seq<Member>, name: bytes)
    requires forall i :: 0 <= i < |ms| ==> ms[i].name != name
    ensures Lookup(ms, name) == None
  {
  }

  /** Two lists that hold the same members under a name agree on it, whatever their order. */
  lemma SameMembersSameLookup(a: seq<Member>, b: seq<Member>, name: bytes)
    requires DistinctNames(a) && DistinctNames(b)
    requires forall k :: 0 <= k < |a| && a[k].name == name ==> a[k] in b
    requires forall k :: 0 <= k < |b| && b[k].name == name ==> b[k] in a
    ensures Lookup(a, name) == Lookup(b, name)
  {
    hide Lookup, IndexOf, DistinctNames;
    var i, j := IndexOf(a, name), IndexOf(b, name);
    if j < |b| {
      assert b[j] in a;
    }
    if i < |a| {
      var k :| 0 <= k < |b| && b[k] == a[i];
      LookupAt(b, name, k);
    }
  }

  lemma AddLookup(ms: seq<Member>, name: Name, value: Value, n: bytes)
    requires DistinctNames(ms) && Lookup(ms, name).None?
    ensures DistinctNames(ms + [Member(name, value)])
    ensures Lookup(ms + [Member(name, value)], n) == if n == name then Some(value) else Lookup(ms, n)
  {
    hide Lookup;
    var after := ms + [Member(name, value)];
    if n == name {
      LookupAt(after, name, |ms|);
    } else {
      forall k | 0 <= k < |ms| && ms[k].name == n ensures ms[k] in after { assert after[k] == ms[k]; }
      SameMembersSameLookup(after, ms, n);
    }
  }

  lemma SetLookup(ms: seq<Member>, name: Name, value: Value, n: bytes)
    requires DistinctNames(ms)
    ensures DistinctNames(WithValue(ms, name, value))
    ensures Lookup(WithValue(ms, name, value), n) == if n == name then Some(value) else Lookup(ms, n)
  {
    hide Lookup, IndexOf;
    var k, after := IndexOf(ms, name), WithValue(ms, name, value);
    if k == |ms| {
      AddLookup(ms, name, value, n);
    } else if n == name {
      LookupAt(after, name, k);
    } else {
      forall i | 0 <= i < |ms| && ms[i].name == n ensures ms[i] in after { assert after[i] == ms[i]; }
      SameMembersSameLookup(after, ms, n);
    }
  }

  lemma RemoveLookup(ms: seq<Member>, name: bytes, n: bytes)
    requires DistinctNames(ms) && Removed(ms, name).Some?
    ensures DistinctNames(Removed(ms, name).value) && |Removed(ms, name).value| == |ms| - 1
    ensures Lookup(Removed(ms, name).value, n) == if n == name then None else Lookup(ms, n)
  {
    hide Lookup, IndexOf;
    var k, after := IndexOf(ms, name), Removed(ms, name).value;
    assert forall i :: 0 <= i < |after| ==> after[i] == if i == k then ms[|ms| - 1] else ms[i];
    if n == name {
      LookupNowhere(after, name);
    } else {
      forall i | 0 <= i < |ms| && ms[i].name == n ensures ms[i] in after {
        assert i != k;
        assert ms[i] == after[if i < |ms| - 1 then i else k];
      }
      SameMembersSameLookup(after, ms, n);
    }
  }

  /** Equal lookups are equal maps. */
  lemma MapByLookup(ms: seq<Member>, m: map<Name, Value>)
    requires forall n: Name :: Lookup(ms, n) == if n in m then Some(m[n]) else None
    ensures AsMap(ms) == m
  {
    hide Lookup;
    assert forall n: Name :: n in AsMap(ms) <==> n in m;
  }

  lemma AddRefinesMap(ms: seq<Member>, name: Name, value: Value)
    requires DistinctNames(ms)
    ensures Added(ms, name, value) == None <==> name in AsMap(ms)
    ensures Added(ms, name, value).Some? ==>
              DistinctNames(Added(ms, name, value).value) &&
              AsMap(Added(ms, name, value).value) == AsMap(ms)[name := value]
  {
    hide AsMap, Lookup, DistinctNames;
    if Added(ms, name, value).Some? {
      AddLookup(ms, name, value, name);
      forall n: Name { AddLookup(ms, name, value, n); }
      MapByLookup(ms + [Member(name, value)], AsMap(ms)[name := value]);
    }
  }

  lemma SetRefinesMap(ms: seq<Member>, name: Name, value: Value)
    requires DistinctNames(ms)
    ensures DistinctNames(WithValue(ms, name, value))
    ensures AsMap(WithValue(ms, name, value)) == AsMap(ms)[name := value]
  {
    hide AsMap, Lookup, DistinctNames, WithValue;
    SetLookup(ms, name, value, name);
    forall n: Name { SetLookup(ms, name, value, n); }
    MapByLookup(WithValue(ms, name, value), AsMap(ms)[name := value]);
  }

  lemma RemoveRefinesMap(ms: seq<Member>, name: Name)
    requires DistinctNames(ms)
    ensures Removed(ms, name) == None <==> name !in AsMap(ms)
    ensures Removed(ms, name).Some? ==>
              DistinctNames(Removed(ms, name).value) &&
              |Removed(ms, name).value| == |ms| - 1 &&
              AsMap(Removed(ms, name).value) == AsMap(ms) - {name}
  {
    hide AsMap, Lookup, DistinctNames;
    if Removed(ms, name).Some? {
      hide Removed;
      RemoveLookup(ms, name, name);
      forall n: Name { RemoveLookup(ms, name, n); }
      MapByLookup(Removed(ms, name).value, AsMap(ms) - {name});
    }
  }

  // ----- where members stand -----

  /** A new member stands behind the others. */
  lemma AddedPlaces(ms: seq<Member>, name: Name, value: Value)
    requires forall i :: 0 <= i < |ms| ==> ms[i].name != name
    ensures Added(ms, name, value) == Some(ms + [Member(name, value)])
    ensures WithValue(ms, name, value) == ms + [Member(name, value)]
  {
    LookupNowhere(ms, name);
  }

  /** Overwriting leaves every member in its place. */
  lemma SetPlaces(ms: seq<Member>, k: nat, value: Value)
    requires DistinctNames(ms) && k < |ms|
    ensures var after := WithValue(ms, ms[k].name, value);
            |after| == |ms| &&
            forall i :: 0 <= i < |ms| ==> after[i] == if i == k then Member(ms[k].name, value) else ms[i]
  {
    LookupAt(ms, ms[k].name, k);
  }

  /** Removal leaves every other member in its place, but for the last, which takes the place that is free. */
  lemma RemovedPlaces(ms: seq<Member>, k: nat)
    requires DistinctNames(ms) && k < |ms|
    ensures Removed(ms, ms[k].name).Some?
    ensures var after := Removed(ms, ms[k].name).value;
            |after| == |ms| - 1 && forall i :: 0 <= i < |after| ==> after[i] == if i == k then ms[|ms| - 1] else ms[i]
  {
    LookupAt(ms, ms[k].name, k);
  }

  // ----- whole runs -----

  datatype Op = Add(name: Name, value: Value) | Set(name: Name, value: Value) | Remove(name: Name) | Clear

  /** One operation on the list of members, and its status. */
  function OnMembers(ms: seq<Member>, op: Op): (seq<Member>, bool) {
    match op
    case Add(n, v) => if Added(ms, n, v).Some? then (Added(ms, n, v).value, true) else (ms, false)
    case Set(n, v) => (WithValue(ms, n, v), true)
    case Remove(n) => if Removed(ms, n).Some? then (Removed(ms, n).value, true) else (ms, false)
    case Clear => ([], true)
  }

  /** The same operation on a finite map. */
  function OnMap(m: map<Name, Value>, op: Op): (map<Name, Value>, bool) {
    match op
    case Add(n, v) => if n in m then (m, false) else (m[n := v], true)
    case Set(n, v) => (m[n := v], true)
    case Remove(n) => if n in m then (m - {n}, true) else (m, false)
    case Clear => (map[], true)
  }

  function RunMembers(ms: seq<Member>, ops: seq<Op>): (seq<Member>, seq<bool>)
    decreases |ops|
  {
    if ops == [] then (ms, [])
    else
      var (next, ok) := OnMembers(ms, ops[0]);
      var (last, oks) := RunMembers(next, ops[1..]);
      (last, [ok] + oks)
  }

  function RunMap(m: map<Name, Value>, ops: seq<Op>): (map<Name, Value>, seq<bool>)
    decreases |ops|
  {
    if ops == [] then (m, [])
    else
      var (next, ok) := OnMap(m, ops[0]);
      var (last, oks) := RunMap(next, ops[1..]);
      (last, [ok] + oks)
  }

  /** Any sequence of operations does to the members exactly what it does to the finite map,
      with the same statuses, and names stay distinct. */
  lemma {:induction false} RunRefinesMap(ms: seq<Member>, ops: seq<Op>)
    requires DistinctNames(ms)
    ensures DistinctNames(RunMembers(ms, ops).0)
    ensures AsMap(RunMembers(ms, ops).0) == RunMap(AsMap(ms), ops).0
    ensures RunMembers(ms, ops).1 == RunMap(AsMap(ms), ops).1
    decreases |ops|
  {
    if ops == [] {
    } else {
      hide AsMap, Lookup, DistinctNames, WithValue, Removed;
      match ops[0] {
        case Add(n, v) => AddRefinesMap(ms, n, v);
        case Set(n, v) => SetRefinesMap(ms, n, v);
        case Remove(n) => RemoveRefinesMap(ms, n);
        case Clear =>
      }
      RunRefinesMap(OnMembers(ms, ops[0]).0, ops[1..]);
    }
  }
}
