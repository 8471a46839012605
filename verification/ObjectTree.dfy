/** Objects nested in the heap, each owning the objects below it, and the dotted write that
    changes one of them in place. */
module ObjectTree {
  import opened Bytes
  import opened JsonValue
  import opened ObjectMembers
  import D = DotPath

  /** What a member holds: a value without members of its own, or a nested object. */
  datatype Slot = Leaf(value: Value) | Child(node: Node)

  datatype Entry = Entry(name: Name, slot: Slot)

  ghost function Footprint(slot: Slot): set<object>
    reads if slot.Child? then {slot.node} else {}
  {
    if slot.Child? then slot.node.Repr else {}
  }

  ghost predicate SlotValid(slot: Slot)
    reads if slot.Child? then {slot.node} + slot.node.Repr else {}
  {
    match slot
    case Leaf(v) => !v.Object?
    case Child(n) => n.Valid()
  }

  ghost function ValueOf(slot: Slot): Value
    requires SlotValid(slot)
    reads if slot.Child? then {slot.node} + slot.node.Repr else {}
  {
    match slot
    case Leaf(v) => v
    case Child(n) => Object(n.Members())
  }

  class Node {
    var entries: seq<Entry>
    ghost var Repr: set<object>

    ghost predicate Owns(slot: Slot)
      reads this, Repr
      decreases Repr, 0
    {
      match slot
      case Leaf(v) => !v.Object?
      case Child(n) => this in Repr && n in Repr && n.Repr <= Repr && this !in n.Repr && n.Valid()
    }

    ghost predicate Valid()
      reads this, Repr
      decreases Repr, 1
    {
      && this in Repr
      && (forall i :: 0 <= i < |entries| ==> Owns(entries[i].slot))
      && (forall i, j :: 0 <= i < j < |entries| && entries[i].slot.Child? && entries[j].slot.Child? ==>
            entries[i].slot.node.Repr !! entries[j].slot.node.Repr)
    }

    ghost function At(i: nat): Value
      requires Valid() && i < |entries|
      reads this, Repr
      decreases Repr, 0
    {
      assert Owns(entries[i].slot);
      match entries[i].slot
      case Leaf(v) => v
      case Child(n) => Object(n.Members())
    }

    /** The members this object and the objects below it stand for. */
    ghost function Members(): (ms: seq<Member>)
      requires Valid()
      reads this, Repr
      ensures |ms| == |entries|
      decreases Repr, 1
    {
      seq(|entries|, i requires 0 <= i < |entries| && Valid() reads this, Repr => Member(entries[i].name, At(i)))
    }

    constructor ()
      ensures Valid() && Members() == [] && fresh(Repr)
    {
      entries, Repr := [], {this};
    }

    method Find(name: bytes) returns (k: nat)
      requires Valid()
      ensures k == IndexOf(Members(), name)
    {
      k := 0;
      ghost var ms := Members();
      while k < |entries| && entries[k].name != name
        invariant k <= |entries| && forall i :: 0 <= i < k ==> ms[i].name != name
      {
        k := k + 1;
      }
      assert k < |ms| ==> ms[k].name == name;
    }

    /** Puts a slot from outside the tree behind the entries, or in the place of one of them. */
    method Put(k: nat, name: Name, slot: Slot)
      requires Valid() && k <= |entries| && SlotValid(slot) && Footprint(slot) !! Repr
      modifies this
      ensures Valid() && Repr == old(Repr) + Footprint(slot)
      ensures var m := Member(name, ValueOf(slot));
              Members() == if k < |old(entries)| then old(Members())[k := m] else old(Members()) + [m]
    {
      var e := Entry(name, slot);
      entries := if k < |entries| then entries[k := e] else entries + [e];
      Repr := Repr + Footprint(slot);
      assert forall i :: 0 <= i < |entries| && i != k ==> entries[i] == old(entries)[i];
      assert forall i :: 0 <= i < |entries| && i != k ==> Owns(entries[i].slot);
    }

    /** Carries a write on into the object at position k; the objects beside it are not touched. */
    method DotSetBelow(k: nat, rest: Name, slot: Slot) returns (ok: bool)
      requires Valid() && k < |entries| && entries[k].slot.Child?
      requires SlotValid(slot) && Footprint(slot) !! Repr
      modifies Repr
      ensures Valid() && fresh(Repr - old(Repr) - old(Footprint(slot)))
      ensures var (done, after) := D.DotSet(old(At(k)).members, rest, old(ValueOf(slot)));
              ok == done && Members() == old(Members())[k := Member(old(entries)[k].name, Object(after))]
      decreases |rest|, 2
    {
      assert Owns(entries[k].slot);
      var n := entries[k].slot.node;
      ghost var was, repr := n.Repr, Repr;
      ok := n.DotSet(rest, slot);
      Repr := Repr + n.Repr;
      OwnsBeside(k);
      assert Owns(entries[k].slot);
      SameBeside(k);
    }

    /** When only objects below position k have changed, this one still owns those at the other positions,
        with the same objects below them. */
    twostate lemma OwnsBeside(k: nat)
      requires old(Valid()) && k < |old(entries)| && old(entries)[k].slot.Child?
      requires entries == old(entries) && old(Repr) <= Repr
      requires unchanged(old(Repr) - {this} - old(entries[k].slot.node.Repr))
      ensures forall i :: 0 <= i < |entries| && i != k ==> Owns(entries[i].slot)
      ensures forall i :: 0 <= i < |entries| && i != k && entries[i].slot.Child? ==>
                var c := entries[i].slot.node;
                c.Repr == old(c.Repr) <= old(Repr) && c.Repr !! old(entries[k].slot.node.Repr)
    {
      forall i | 0 <= i < |entries| && i != k && entries[i].slot.Child?
        ensures var c := entries[i].slot.node;
                Owns(entries[i].slot) && c.Repr == old(c.Repr) && c.Repr !! old(entries[k].slot.node.Repr)
      {
        var c := entries[i].slot.node;
        assert old(Owns(entries[i].slot));
        assert old(c.Valid()) && c in old(c.Repr);
      }
      assert forall i :: 0 <= i < |entries| ==> old(Owns(entries[i].slot));
    }

    /** And these stand for the same members. */
    twostate lemma SameBeside(k: nat)
      requires old(Valid()) && k < |old(entries)| && old(entries)[k].slot.Child?
      requires entries == old(entries) && old(Repr) <= Repr && Valid()
      requires unchanged(old(Repr) - {this} - old(entries[k].slot.node.Repr))
      ensures forall i :: 0 <= i < |entries| && i != k ==> At(i) == old(At(i))
    {
      forall i | 0 <= i < |entries| && i != k
        ensures At(i) == old(At(i))
      {
        assert old(Owns(entries[i].slot));
        if entries[i].slot.Child? {
          var c := entries[i].slot.node;
          assert old(c.Valid()) && c in old(c.Repr);
          assert c.Members() == old(c.Members());
        }
      }
    }

    /** Builds the object for a segment that is not there yet, and adds it only if that worked. */
    method DotSetInNew(head: Name, rest: Name, slot: Slot) returns (ok: bool)
      requires Valid() && SlotValid(slot) && Footprint(slot) !! Repr
      modifies Repr
      ensures Valid() && fresh(Repr - old(Repr) - old(Footprint(slot)))
      ensures var (done, after) := D.DotSet([], rest, old(ValueOf(slot)));
              ok == done && Members() == if done then old(Members()) + [Member(head, Object(after))] else old(Members())
      decreases |rest|, 2
    {
      hide D.DotSet, IndexOf;
      var n := new Node();
      ok := n.DotSet(rest, slot);
      if ok {
        Put(|entries|, head, Child(n));
      }
    }

    /** json_object_set_value. */
    method Set(name: Name, slot: Slot)
      requires Valid() && SlotValid(slot) && Footprint(slot) !! Repr
      modifies this
      ensures Valid() && Repr == old(Repr) + Footprint(slot)
      ensures Members() == WithValue(old(Members()), name, ValueOf(slot))
    {
      var k := Find(name);
      hide IndexOf;
      Put(k, name, slot);
    }

    /** The branch for a first segment that is there. */
    method DotSetFound(k: nat, path: Name, slot: Slot) returns (ok: bool)
      requires Valid() && D.FirstDot(path) < |path| && k < |entries| && k == IndexOf(Members(), D.Head(path))
      requires SlotValid(slot) && Footprint(slot) !! Repr
      modifies Repr
      ensures Valid() && fresh(Repr - old(Repr) - old(Footprint(slot)))
      ensures (ok, Members()) == D.DotSet(old(Members()), path, old(ValueOf(slot)))
      decreases |D.Rest(path)|, 3
    {
      hide D.DotSet, IndexOf, D.FirstDot, D.Head;
      ghost var ms := Members();
      assert Owns(entries[k].slot) && ms[k].value == At(k);
      GoOn(ms, path, ValueOf(slot), k);
      match entries[k].slot
      case Leaf(_) =>
        return false;
      case Child(n) =>
        ok := DotSetBelow(k, D.Rest(path), slot);
    }

    /** json_object_dotset_value. */
    method DotSet(path: Name, slot: Slot) returns (ok: bool)
      requires Valid() && SlotValid(slot) && Footprint(slot) !! Repr
      modifies Repr
      ensures Valid() && fresh(Repr - old(Repr) - old(Footprint(slot)))
      ensures (ok, Members()) == D.DotSet(old(Members()), path, old(ValueOf(slot)))
      decreases |path|, 1
    {
      hide D.DotSet, IndexOf, WithValue, D.FirstDot;
      ghost var ms, v := Members(), ValueOf(slot);
      var dot := D.FirstDot(path);
      if dot == |path| {
        SetHere(ms, path, v);
        Set(path, slot);
        return true;
      }
      var head, rest := path[..dot], path[dot + 1..];
      var k := Find(head);
      if k < |entries| {
        ok := DotSetFound(k, path, slot);
      } else {
        StartAnew(ms, path, v);
        ok := DotSetInNew(head, rest, slot);
      }
    }
  }

  /** The value a slot found by a lookup stands for. */
  ghost function Found(r: Option<Slot>): Option<Value>
    requires r.Some? ==> SlotValid(r.value)
    reads if r.Some? && r.value.Child? then {r.value.node} + r.value.node.Repr else {}
  {
    if r.None? then None else Some(ValueOf(r.value))
  }

  /** The members of an object, or nothing for the NULL object. */
  ghost function MembersOf(within: Node?): Option<seq<Member>>
    requires within != null ==> within.Valid()
    reads if within != null then {within} + within.Repr else {}
  {
    if within == null then None else Some(within.Members())
  }

  /** json_object_getn_value. */
  method Get(within: Node?, name: bytes) returns (r: Option<Slot>)
    requires within != null ==> within.Valid()
    ensures r.Some? ==> SlotValid(r.value)
    ensures Found(r) == D.Get(MembersOf(within), name)
  {
    if within == null { return None; }
    var k := within.Find(name);
    if k == |within.entries| { return None; }
    assert within.Owns(within.entries[k].slot);
    assert within.Members()[k].value == within.At(k);
    return Some(within.entries[k].slot);
  }

  /** json_object_dotget_value; null is the NULL object it passes on when nothing is found. */
  method DotGet(within: Node?, path: Name) returns (r: Option<Slot>)
    requires within != null ==> within.Valid()
    ensures r.Some? ==> SlotValid(r.value)
    ensures Found(r) == D.DotGet(MembersOf(within), path)
    decreases |path|
  {
    hide D.Get, D.FirstDot;
    var dot := D.FirstDot(path);
    var found := Get(within, path[..dot]);
    if dot == |path| {
      assert path[..dot] == path;
      return found;
    }
    var next: Node? := if found.Some? && found.value.Child? then found.value.node else null;
    assert MembersOf(next) == D.AsObject(Found(found));
    hide MembersOf, Found;
    r := DotGet(next, path[dot + 1..]);
  }

  // ---- One level of the specification ----

  lemma SetHere(ms: seq<Member>, path: Name, v: Value)
    requires D.FirstDot(path) == |path|
    ensures D.DotSet(ms, path, v) == (true, WithValue(ms, path, v))
  {
  }

  lemma GoOn(ms: seq<Member>, path: Name, v: Value, k: nat)
    requires D.FirstDot(path) < |path| && k == IndexOf(ms, D.Head(path)) < |ms|
    ensures !ms[k].value.Object? ==> D.DotSet(ms, path, v) == (false, ms)
    ensures ms[k].value.Object? ==>
              var (done, after) := D.DotSet(ms[k].value.members, D.Rest(path), v);
              D.DotSet(ms, path, v) == (done, ms[k := Member(ms[k].name, Object(after))])
  {
  }

  lemma StartAnew(ms: seq<Member>, path: Name, v: Value)
    requires D.FirstDot(path) < |path| && IndexOf(ms, D.Head(path)) == |ms|
    ensures var (done, after) := D.DotSet([], D.Rest(path), v);
            D.DotSet(ms, path, v) == if done then (true, ms + [Member(D.Head(path), Object(after))]) else (false, ms)
  {
  }
}
