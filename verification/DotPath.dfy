/** Dotted paths: reading and writing through nested objects. */
module DotPath {
  import opened Bytes
  import opened JsonValue
  import opened ObjectMembers

  /** strchr(path, '.'), or the length when there is no dot. */
  function FirstDot(path: bytes): (k: nat)
    ensures k <= |path| && (k < |path| ==> path[k] == DOT)
    ensures forall i :: 0 <= i < k ==> path[i] != DOT
  {
    if path == [] || path[0] == DOT then 0 else FirstDot(path[1..]) + 1
  }

  function Head(path: Name): Name {
    path[..FirstDot(path)]
  }

  function Rest(path: Name): Name
    requires FirstDot(path) < |path|
  {
    path[FirstDot(path) + 1..]
  }

  /** json_value_get_object. */
  function AsObject(v: Option<Value>): Option<seq<Member>> {
    match v
    case Some(Object(ms)) => Some(ms)
    case _ => None
  }

  function Get(within: Option<seq<Member>>, name: bytes): Option<Value> {
    match within
    case None => None
    case Some(ms) => Lookup(ms, name)
  }

  /** json_object_dotget_value; None in place of the members is the NULL the recursion may pass on. */
  function DotGet(within: Option<seq<Member>>, path: Name): Option<Value>
    decreases |path|
  {
    if FirstDot(path) == |path| then Get(within, path)
    else DotGet(AsObject(Get(within, Head(path))), Rest(path))
  }

  /** json_object_dotset_value: the status and the members afterwards. */
  function DotSet(ms: seq<Member>, path: Name, v: Value): (bool, seq<Member>)
    decreases |path|
  {
    if FirstDot(path) == |path| then (true, WithValue(ms, path, v))
    else
      match Lookup(ms, Head(path))
      case Some(Object(inner)) =>
        var (ok, after) := DotSet(inner, Rest(path), v);
        (ok, WithValue(ms, Head(path), Object(after)))
      case Some(_) => (false, ms)
      case None =>
        var (ok, after) := DotSet([], Rest(path), v);
        var added := Added(ms, Head(path), Object(after));
        if ok && added.Some? then (true, added.value) else (false, ms)
  }

  /** The segments of a are the first segments of b. */
  predicate SegmentPrefix(a: bytes, b: bytes) {
    a <= b && (|a| == |b| || b[|a|] == DOT)
  }

  // ----- one level -----

  /** What a write below a name does to a lookup. */
  lemma WriteLookup(ms: seq<Member>, name: Name, v: Value, n: bytes)
    requires DistinctNames(ms)
    ensures DistinctNames(WithValue(ms, name, v))
    ensures Lookup(WithValue(ms, name, v), n) == if n == name then Some(v) else Lookup(ms, n)
    ensures Lookup(ms, name).None? ==> Added(ms, name, v) == Some(WithValue(ms, name, v))
  {
    SetLookup(ms, name, v, n);
  }

  /** Writing back the value that is there changes nothing. */
  lemma WriteSame(ms: seq<Member>, name: Name)
    requires Lookup(ms, name).Some?
    ensures WithValue(ms, name, Lookup(ms, name).value) == ms
  {
  }

  lemma {:induction false} NothingThere(path: Name)
    ensures DotGet(None, path) == None && DotGet(Some([]), path) == None
    decreases |path|
  {
    if FirstDot(path) < |path| { NothingThere(Rest(path)); }
  }

  lemma FirstDotIs(path: bytes, k: nat)
    requires k <= |path| && (forall i :: 0 <= i < k ==> path[i] != DOT) && (k < |path| ==> path[k] == DOT)
    ensures FirstDot(path) == k
  {
  }

  lemma SegmentPrefixBehind(front: bytes, a: bytes, b: bytes)
    requires SegmentPrefix(a, b)
    ensures SegmentPrefix(front + a, front + b)
  {
    assert b == a + b[|a|..];
    assert front + b == (front + a) + b[|a|..];
  }

  /** Paths with the same first segment compare like what follows it. */
  lemma SegmentPrefixBelow(a: Name, b: Name)
    requires FirstDot(a) < |a| && FirstDot(b) < |b| && Head(a) == Head(b)
    ensures SegmentPrefix(Rest(a), Rest(b)) ==> SegmentPrefix(a, b)
  {
    var front := Head(a) + [DOT];
    assert a == front + Rest(a) && b == front + Rest(b);
    hide SegmentPrefix;
    if SegmentPrefix(Rest(a), Rest(b)) { SegmentPrefixBehind(front, Rest(a), Rest(b)); }
  }

  lemma SegmentPrefixOneLevel(a: Name, b: Name)
    requires FirstDot(a) == |a| && Head(a) == Head(b)
    ensures SegmentPrefix(a, b)
  {
    assert Head(a) == a;
  }

  // ----- a path is its segments -----

  /** The segments with a dot between each two. */
  function Join(segments: seq<Name>): Name
    requires segments != []
  {
    if |segments| == 1 then segments[0] else segments[0] + ['.' as int] + Join(segments[1..])
  }

  predicate NoDots(segments: seq<Name>) {
    forall i, k :: 0 <= i < |segments| && 0 <= k < |segments[i]| ==> segments[i][k] != '.' as int
  }

  /** What is found going down member by member, through objects only. */
  function Walk(v: Value, segments: seq<Name>): Option<Value>
    decreases |segments|
  {
    if segments == [] then Some(v)
    else
      match v
      case Object(ms) =>
        (match Lookup(ms, segments[0])
         case Some(inner) => Walk(inner, segments[1..])
         case None => None)
      case _ => None
  }

  /** A dotted read goes down along the segments of the path. */
  lemma {:induction false} DotGetWalks(ms: seq<Member>, segments: seq<Name>)
    requires segments != [] && NoDots(segments)
    ensures DotGet(Some(ms), Join(segments)) == Walk(Object(ms), segments)
    decreases |segments|
  {
    var path := Join(segments);
    if |segments| == 1 {
      FirstDotIs(path, |path|);
      OneSegment(ms, segments);
    } else {
      FirstDotIs(path, |segments[0]|);
      assert Head(path) == segments[0] && Rest(path) == Join(segments[1..]);
      match Lookup(ms, segments[0]) {
        case Some(Object(inner)) => DotGetWalks(inner, segments[1..]);
        case _ => NothingThere(Rest(path));
      }
    }
  }

  lemma OneSegment(ms: seq<Member>, segments: seq<Name>)
    requires |segments| == 1
    ensures Walk(Object(ms), segments) == Lookup(ms, segments[0])
  {
    assert segments[1..] == [];
  }

  /** Every path is made of segments. */
  lemma {:induction false} HasSegments(path: Name) returns (segments: seq<Name>)
    ensures segments != [] && NoDots(segments) && Join(segments) == path
    decreases |path|
  {
    var k := FirstDot(path);
    if k == |path| {
      segments := [path];
    } else {
      var rest := HasSegments(Rest(path));
      segments := [Head(path)] + rest;
      assert segments[1..] == rest;
      assert path == Head(path) + [DOT] + Rest(path);
    }
  }

  // ----- main results -----

  /** A failed write changes nothing. */
  lemma {:induction false} FailedSetChangesNothing(ms: seq<Member>, path: Name, v: Value)
    requires !DotSet(ms, path, v).0
    ensures DotSet(ms, path, v).1 == ms
    decreases |path|
  {
    if FirstDot(path) < |path| {
      match Lookup(ms, Head(path))
      case Some(Object(inner)) =>
        FailedSetChangesNothing(inner, Rest(path), v);
        WriteSame(ms, Head(path));
      case _ =>
    }
  }

  /** Every object on the way and everything in it keeps distinct names. */
  lemma {:induction false} SetKeepsWellFormed(ms: seq<Member>, path: Name, v: Value)
    requires WellFormed(Object(ms)) && WellFormed(v)
    ensures WellFormed(Object(DotSet(ms, path, v).1))
    decreases |path|
  {
    if FirstDot(path) == |path| {
      OneWriteKeepsWellFormed(ms, path, v);
    } else {
      match Lookup(ms, Head(path))
      case Some(Object(inner)) =>
        var k := IndexOf(ms, Head(path));
        assert WellFormed(ms[k].value);
        SetKeepsWellFormed(inner, Rest(path), v);
        OneWriteKeepsWellFormed(ms, Head(path), Object(DotSet(inner, Rest(path), v).1));
      case None =>
        SetKeepsWellFormed([], Rest(path), v);
        OneWriteKeepsWellFormed(ms, Head(path), Object(DotSet([], Rest(path), v).1));
        WriteLookup(ms, Head(path), Object(DotSet([], Rest(path), v).1), []);
      case _ =>
    }
  }

  lemma OneWriteKeepsWellFormed(ms: seq<Member>, name: Name, v: Value)
    requires WellFormed(Object(ms)) && WellFormed(v)
    ensures WellFormed(Object(WithValue(ms, name, v)))
  {
    WriteLookup(ms, name, v, name);
    var after := WithValue(ms, name, v);
    hide Lookup, IndexOf;
    forall i | 0 <= i < |after| ensures WellFormed(after[i].value) {
      assert after[i].value == v || (i < |ms| && after[i] == ms[i]);
    }
  }

  /** The members the write goes on with: those of the object under the first segment, or none. */
  function Inner(ms: seq<Member>, path: Name): seq<Member> {
    match Lookup(ms, Head(path))
    case Some(Object(inner)) => inner
    case _ => []
  }

  /** One level of a successful write. */
  lemma SetBelow(ms: seq<Member>, path: Name, v: Value)
    requires WellFormed(Object(ms)) && FirstDot(path) < |path| && DotSet(ms, path, v).0
    ensures WellFormed(Object(Inner(ms, path))) && DotSet(Inner(ms, path), Rest(path), v).0
    ensures DotSet(ms, path, v).1 == WithValue(ms, Head(path), Object(DotSet(Inner(ms, path), Rest(path), v).1))
    ensures AsObject(Lookup(ms, Head(path))) == Some(Inner(ms, path)) ||
            (Lookup(ms, Head(path)) == None && Inner(ms, path) == [])
  {
    var k := IndexOf(ms, Head(path));
    assert k < |ms| ==> WellFormed(ms[k].value);
    WriteLookup(ms, Head(path), Object(DotSet([], Rest(path), v).1), []);
  }

  /** After a successful write the path reads as the value written. */
  lemma {:induction false} SetThenGet(ms: seq<Member>, path: Name, v: Value)
    requires WellFormed(Object(ms)) && DotSet(ms, path, v).0
    ensures DotGet(Some(DotSet(ms, path, v).1), path) == Some(v)
    decreases |path|
  {
    if FirstDot(path) == |path| {
      WriteLookup(ms, path, v, path);
    } else {
      SetBelow(ms, path, v);
      hide DotSet, Lookup, WithValue, Inner, WellFormed;
      SetThenGet(Inner(ms, path), Rest(path), v);
      WriteLookup(ms, Head(path), Object(DotSet(Inner(ms, path), Rest(path), v).1), Head(path));
    }
  }

  /** Paths that part at the first segment. */
  lemma OtherHead(ms: seq<Member>, name: Name, v: Value, other: Name)
    requires DistinctNames(ms) && Head(other) != name
    ensures DotGet(Some(WithValue(ms, name, v)), other) == DotGet(Some(ms), other)
  {
    WriteLookup(ms, name, v, Head(other));
    assert FirstDot(other) == |other| ==> Head(other) == other;
  }

  /** A path that is neither above nor below the written one reads as before. */
  lemma {:induction false} SetLeavesOthers(ms: seq<Member>, path: Name, v: Value, other: Name)
    requires WellFormed(Object(ms))
    requires !SegmentPrefix(path, other) && !SegmentPrefix(other, path)
    ensures DotGet(Some(DotSet(ms, path, v).1), other) == DotGet(Some(ms), other)
    decreases |path|
  {
    if !DotSet(ms, path, v).0 {
      FailedSetChangesNothing(ms, path, v);
    } else if Head(other) != Head(path) {
      assert FirstDot(path) == |path| ==> Head(path) == path && DotSet(ms, path, v).1 == WithValue(ms, path, v);
      if FirstDot(path) < |path| { SetBelow(ms, path, v); }
      var written := if FirstDot(path) == |path| then v else Object(DotSet(Inner(ms, path), Rest(path), v).1);
      OtherHead(ms, Head(path), written, other);
    } else if FirstDot(path) == |path| {
      SegmentPrefixOneLevel(path, other);
    } else if FirstDot(other) == |other| {
      SegmentPrefixOneLevel(other, path);
    } else {
      SetBelow(ms, path, v);
      SegmentPrefixBelow(path, other);
      SegmentPrefixBelow(other, path);
      var inner := Inner(ms, path);
      hide DotSet, Lookup, WithValue, Inner, WellFormed, SegmentPrefix;
      WriteLookup(ms, Head(path), Object(DotSet(inner, Rest(path), v).1), Head(path));
      SetLeavesOthers(inner, Rest(path), v, Rest(other));
      NothingThere(Rest(other));
    }
  }

  /** Something other than an object stands at a proper segment-prefix of the path. */
  predicate Blocked(within: Option<seq<Member>>, path: Name) {
    exists d :: 0 <= d < |path| && BlockedAt(within, path, d)
  }

  predicate BlockedAt(within: Option<seq<Member>>, path: Name, d: nat)
    requires d < |path|
  {
    path[d] == DOT && DotGet(within, path[..d]).Some? && !DotGet(within, path[..d]).value.Object?
  }

  /** A write succeeds exactly when nothing but objects, or nothing at all, is found on the way. */
  lemma {:induction false} SetSucceedsIff(ms: seq<Member>, path: Name, v: Value)
    ensures DotSet(ms, path, v).0 <==> !Blocked(Some(ms), path)
    decreases |path|
  {
    if FirstDot(path) < |path| {
      BlockedBelow(ms, path);
      match Lookup(ms, Head(path))
      case Some(Object(inner)) => SetSucceedsIff(inner, Rest(path), v);
      case None =>
        SetSucceedsIff([], Rest(path), v);
        NeverBlocked(Rest(path));
      case _ =>
    }
  }

  lemma NeverBlocked(path: Name)
    ensures !Blocked(None, path) && !Blocked(Some([]), path)
  {
    forall d | 0 <= d < |path| ensures !BlockedAt(None, path, d) && !BlockedAt(Some([]), path, d) {
      NothingThere(path[..d]);
    }
  }

  lemma BlockedHere(ms: seq<Member>, path: Name)
    requires FirstDot(path) < |path|
    ensures BlockedAt(Some(ms), path, FirstDot(path)) <==>
              Lookup(ms, Head(path)).Some? && !Lookup(ms, Head(path)).value.Object?
    ensures forall d :: 0 <= d < FirstDot(path) ==> !BlockedAt(Some(ms), path, d)
  {
    FirstDotIs(path[..FirstDot(path)], FirstDot(path));
  }

  /** A part of the path that goes beyond its first segment begins with that segment. */
  lemma PartBelow(path: Name, d: nat)
    requires FirstDot(path) < |path| && d < |Rest(path)|
    ensures var part: Name := path[..FirstDot(path) + 1 + d];
            FirstDot(part) == FirstDot(path) && Head(part) == Head(path) && Rest(part) == Rest(path)[..d]
    ensures path[FirstDot(path) + 1 + d] == Rest(path)[d]
  {
    var k := FirstDot(path);
    var part: Name := path[..k + 1 + d];
    FirstDotIs(part, k);
    assert part[..k] == path[..k];
    assert part[k + 1..] == Rest(path)[..d];
  }

  lemma BlockedDeeper(ms: seq<Member>, path: Name, d: nat)
    requires FirstDot(path) < |path| && d < |Rest(path)|
    ensures BlockedAt(Some(ms), path, FirstDot(path) + 1 + d) <==>
              BlockedAt(AsObject(Lookup(ms, Head(path))), Rest(path), d)
  {
    hide Lookup, FirstDot, Head, Rest, AsObject;
    PartBelow(path, d);
    RestLength(path);
  }

  /** Being blocked, by what is found under the first segment. */
  lemma BlockedBelow(ms: seq<Member>, path: Name)
    requires FirstDot(path) < |path|
    ensures Blocked(Some(ms), path) <==>
              (Lookup(ms, Head(path)).Some? && !Lookup(ms, Head(path)).value.Object?) ||
              Blocked(AsObject(Lookup(ms, Head(path))), Rest(path))
  {
    hide *;
    var below := AsObject(Lookup(ms, Head(path)));
    BlockedHere(ms, path);
    BlockedWhere(Some(ms), path);
    BlockedWhere(below, Rest(path));
    RestLength(path);
    if Blocked(Some(ms), path) {
      var d :| 0 <= d < |path| && BlockedAt(Some(ms), path, d);
      if d > FirstDot(path) { BlockedDeeper(ms, path, d - FirstDot(path) - 1); }
    }
    if Blocked(below, Rest(path)) {
      var d :| 0 <= d < |Rest(path)| && BlockedAt(below, Rest(path), d);
      BlockedDeeper(ms, path, d);
    }
  }

  lemma RestLength(path: Name)
    requires FirstDot(path) < |path|
    ensures |Rest(path)| == |path| - FirstDot(path) - 1
  {
  }

  lemma BlockedWhere(within: Option<seq<Member>>, path: Name)
    ensures Blocked(within, path) <==> exists d :: 0 <= d < |path| && BlockedAt(within, path, d)
  {
  }
}
