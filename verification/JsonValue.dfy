/** JSON values as the trees parson builds. */
module JsonValue {
  import opened Bytes

  /** A name is a char*: it cannot hold a NUL. */
  type Name = s: bytes | NUL !in s

  /** Integers a double holds exactly and "%1.17g" prints as plain digits. */
  const MAX_EXACT: int := 0x20_0000_0000_0000

  lemma LargestExact()
    ensures MAX_EXACT == 9007199254740992
  {
  }

  type ExactInt = n: int | -MAX_EXACT <= n <= MAX_EXACT

  datatype Member = Member(name: Name, value: Value)

  datatype Value =
    | Null
    | Boolean(b: bool)
    | Number(n: ExactInt)
    | Str(chars: bytes)
    | Array(items: seq<Value>)
    | Object(members: seq<Member>)

  const MAX_NESTING: nat := 2048

  predicate DistinctNames(ms: seq<Member>) {
    forall i, j :: 0 <= i < j < |ms| ==> ms[i].name != ms[j].name
  }

  /** Every object in the tree has pairwise distinct names. */
  predicate WellFormed(v: Value) {
    match v
    case Array(items) => forall i :: 0 <= i < |items| ==> WellFormed(items[i])
    case Object(ms) => DistinctNames(ms) && forall i :: 0 <= i < |ms| ==> WellFormed(ms[i].value)
    case _ => true
  }

  /** No node lies deeper than MAX_NESTING when v itself stands at the given depth. */
  predicate NestsFrom(v: Value, depth: nat) {
    depth <= MAX_NESTING &&
    match v
    case Array(items) => forall i :: 0 <= i < |items| ==> NestsFrom(items[i], depth + 1)
    case Object(ms) => forall i :: 0 <= i < |ms| ==> NestsFrom(ms[i].value, depth + 1)
    case _ => true
  }

  /** json_object_getn_value: the value of the first member with this name. */
  function Lookup(ms: seq<Member>, name: bytes): (r: Option<Value>)
    ensures r.None? <==> forall i :: 0 <= i < |ms| ==> ms[i].name != name
    ensures r.Some? ==> exists i :: 0 <= i < |ms| && ms[i] == Member(name, r.value)
  {
    if ms == [] then None
    else if ms[0].name == name then
      assert ms[0] == Member(name, ms[0].value);
      Some(ms[0].value)
    else
      var r := Lookup(ms[1..], name);
      assert r.Some? ==> exists i :: 0 <= i < |ms[1..]| && ms[1..][i] == ms[i + 1] == Member(name, r.value);
      assert forall i :: 1 <= i < |ms| ==> ms[i] == ms[1..][i - 1];
      r
  }

  lemma LookupDistinct(ms: seq<Member>, k: nat)
    requires DistinctNames(ms) && k < |ms|
    ensures Lookup(ms, ms[k].name) == Some(ms[k].value)
  {
    var r := Lookup(ms, ms[k].name);
    assert r.Some?;
    var i :| 0 <= i < |ms| && ms[i] == Member(ms[k].name, r.value);
    assert i == k;
  }
}
