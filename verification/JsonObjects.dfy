/** The object container: two parallel arrays that grow by doubling and lose a member by
    moving the last one into its place. */
module JsonObjects {
  import opened Bytes
  import opened JsonValue
  import opened ObjectMembers

  const STARTING_CAPACITY: nat := 16

  class JsonObject {
    var names: array?<Name>
    var values: array?<Value>
    var count: nat
    var capacity: nat

    ghost predicate Shaped()
      reads this, names, values
    {
      && (names == null <==> values == null)
      && (names == null ==> capacity == 0)
      && (names != null ==> names.Length == values.Length == capacity)
      && count <= capacity
    }

    ghost predicate Valid()
      reads this, names, values
    {
      Shaped() && DistinctNames(Members())
    }

    /** The members in array order. */
    function Members(): (ms: seq<Member>)
      requires Shaped()
      reads this, names, values
      ensures |ms| == count
    {
      seq(count, i requires 0 <= i < count && Shaped() reads this, names, values => Member(names[i], values[i]))
    }

    constructor ()
      ensures Valid() && Members() == []
      ensures names == null && values == null
    {
      names, values, count, capacity := null, null, 0, 0;
    }

    method Get(name: bytes) returns (r: Option<Value>)
      requires Valid()
      ensures r == Lookup(Members(), name)
    {
      var k := Find(name);
      return if k < count then Some(values[k]) else None;
    }

    /** The search loop the lookup, set and remove operations all run. */
    method Find(name: bytes) returns (k: nat)
      requires Valid()
      ensures k == IndexOf(Members(), name)
    {
      k := 0;
      while k < count
        invariant k <= count
        invariant forall i :: 0 <= i < k ==> names[i] != name
      {
        if names[k] == name {
          LookupAt(Members(), name, k);
          return;
        }
        k := k + 1;
      }
      assert forall i :: 0 <= i < count ==> Members()[i].name == names[i];
    }

    /** json_object_resize: new arrays with the same members. */
    method Resize(newCapacity: nat) returns (ok: bool)
      requires Valid() && count <= newCapacity
      modifies this
      ensures Valid() && Members() == old(Members())
      ensures ok <==> newCapacity > 0
      ensures ok ==> capacity == newCapacity && names != null && fresh(names) && fresh(values)
      ensures !ok ==> names == old(names) && values == old(values) && capacity == old(capacity)
      ensures count == old(count)
    {
      if newCapacity == 0 { return false; }
      var newNames, newValues := new Name[newCapacity], new Value[newCapacity];
      var i := 0;
      while i < count
        invariant i <= count
        invariant forall k :: 0 <= k < i ==> newNames[k] == names[k] && newValues[k] == values[k]
        modifies newNames, newValues
      {
        newNames[i], newValues[i] := names[i], values[i];
        i := i + 1;
      }
      names, values, capacity := newNames, newValues, newCapacity;
      assert Members() == old(Members());
      return true;
    }

    /** Puts a member into the first free slot. */
    method Append(name: Name, value: Value)
      requires Shaped() && count < capacity
      modifies this`count, names, values
      ensures Shaped() && Members() == old(Members()) + [Member(name, value)]
    {
      names[count], values[count] := name, value;
      count := count + 1;
      assert Members() == old(Members()) + [Member(name, value)];
    }

    /** Puts a member into a slot in use. */
    method Overwrite(k: nat, name: Name, value: Value)
      requires Shaped() && k < count
      modifies names, values
      ensures Shaped() && Members() == old(Members())[k := Member(name, value)]
    {
      names[k], values[k] := name, value;
      assert Members() == old(Members())[k := Member(name, value)];
    }

    method Add(name: Name, value: Value) returns (ok: bool)
      requires Valid()
      modifies this, names, values
      ensures Valid()
      ensures ok <==> Added(old(Members()), name, value).Some?
      ensures Members() == if ok then Added(old(Members()), name, value).value else old(Members())
      ensures names == old(names) || fresh(names)
      ensures values == old(values) || fresh(values)
      ensures ok && old(count) == old(capacity) ==>
                capacity == if old(capacity) * 2 > 16 then old(capacity) * 2 else 16
      ensures !ok || old(count) < old(capacity) ==> capacity == old(capacity)
    {
      hide Lookup, DistinctNames, AsMap;
      var found := Get(name);
      if found.Some? { return false; }
      AddLookup(Members(), name, value, name);
      if count >= capacity {
        var newCapacity := if capacity * 2 > STARTING_CAPACITY then capacity * 2 else STARTING_CAPACITY;
        var resized := Resize(newCapacity);
      }
      Append(name, value);
      return true;
    }

    method Set(name: Name, value: Value) returns (ok: bool)
      requires Valid()
      modifies this, names, values
      ensures Valid() && ok
      ensures Members() == WithValue(old(Members()), name, value)
      ensures names == old(names) || fresh(names)
      ensures values == old(values) || fresh(values)
    {
      hide Lookup, DistinctNames, AsMap, IndexOf;
      var k := Find(name);
      SetLookup(Members(), name, value, name);
      if k < count {
        Overwrite(k, name, value);
        return true;
      }
      ok := Add(name, value);
    }

    method Remove(name: bytes) returns (ok: bool)
      requires Valid()
      modifies this, names, values
      ensures Valid() && names == old(names) && values == old(values) && capacity == old(capacity)
      ensures ok <==> Removed(old(Members()), name).Some?
      ensures Members() == if ok then Removed(old(Members()), name).value else old(Members())
    {
      hide Lookup, DistinctNames, AsMap, IndexOf;
      var k := Find(name);
      if k == count { return false; }
      RemoveLookup(Members(), name, name);
      var last := count - 1;
      if k != last {
        Overwrite(k, names[last], values[last]);
      }
      ghost var shifted := Members();
      count := count - 1;
      assert Members() == shifted[..last];
      assert k != last ==> shifted[..last] == old(Members())[..last][k := old(Members())[last]];
      return true;
    }

    method Clear()
      requires Valid()
      modifies this
      ensures Valid() && Members() == []
      ensures names == old(names) && values == old(values) && capacity == old(capacity)
    {
      count := 0;
    }
  }
}
