/** The growing byte buffer and its two searches. */
module HttpBuffer {
  import opened Bytes

  predicate SameByte(a: byte, b: byte, fold: bool) {
    if fold then ToLower(a) == ToLower(b) else a == b
  }

  /** The same letter in either case, or the same byte. */
  predicate SameLetter(a: byte, b: byte) {
    || a == b
    || ('A' as int <= a <= 'Z' as int && b == a + 0x20)
    || ('A' as int <= b <= 'Z' as int && a == b + 0x20)
  }

  lemma SameByteIff(a: byte, b: byte)
    ensures SameByte(a, b, false) <==> a == b
    ensures SameByte(a, b, true) <==> SameLetter(a, b)
  {
  }

  predicate MatchesAt(s: bytes, i: nat, pat: bytes, fold: bool) {
    i + |pat| <= |s| && forall j :: 0 <= j < |pat| ==> SameByte(s[i + j], pat[j], fold)
  }

  /** r is the offset of the first match, or -1 when there is none. */
  ghost predicate IsFirst(s: bytes, pat: bytes, fold: bool, r: int) {
    if r < 0 then r == -1 && forall i: nat :: !MatchesAt(s, i, pat, fold)
    else MatchesAt(s, r, pat, fold) && forall i: nat :: i < r ==> !MatchesAt(s, i, pat, fold)
  }

  /** The offset of the first match at or behind i. */
  function FirstFrom(s: bytes, pat: bytes, fold: bool, i: nat): (r: int)
    requires forall k: nat :: k < i ==> !MatchesAt(s, k, pat, fold)
    ensures IsFirst(s, pat, fold, r)
    decreases |s| - i
  {
    if i + |pat| > |s| then -1 else if MatchesAt(s, i, pat, fold) then i else FirstFrom(s, pat, fold, i + 1)
  }

  function First(s: bytes, pat: bytes, fold: bool): (r: int)
    ensures IsFirst(s, pat, fold, r)
  {
    FirstFrom(s, pat, fold, 0)
  }

  /** The first match is unique, and a longer text has the same one if it lies inside the shorter. */
  lemma FirstInPrefix(s: bytes, n: nat, pat: bytes, fold: bool, r: int, inPrefix: int)
    requires n <= |s| && IsFirst(s, pat, fold, r) && IsFirst(s[..n], pat, fold, inPrefix)
    ensures inPrefix == if r >= 0 && r + |pat| <= n then r else -1
  {
    assert forall i: nat :: MatchesAt(s[..n], i, pat, fold) <==> i + |pat| <= n && MatchesAt(s, i, pat, fold);
  }

  class Buffer {
    var data: array?<byte>
    var size: nat

    ghost predicate Valid()
      reads this
    {
      if data == null then size == 0 else data.Length == size
    }

    ghost function Contents(): bytes
      requires Valid()
      reads this, data
    {
      if data == null then [] else data[..]
    }

    constructor ()
      ensures Valid() && Contents() == [] && data == null
    {
      data, size := null, 0;
    }

    /** buffer_add: a reallocated array with the new bytes behind the old ones. */
    method Add(bytes: bytes)
      requires Valid()
      modifies this
      ensures Valid() && Contents() == old(Contents()) + bytes
      ensures data != null && fresh(data) && size == old(size) + |bytes|
    {
      var grown := new byte[size + |bytes|];
      if data != null {
        for i := 0 to size
          invariant grown[..i] == data[..i]
          modifies grown
        {
          grown[i] := data[i];
        }
        assert grown[..size] == data[..];
      }
      for i := 0 to |bytes|
        invariant grown[..size + i] == old(Contents()) + bytes[..i]
        modifies grown
      {
        grown[size + i] := bytes[i];
      }
      assert bytes[..|bytes|] == bytes;
      assert grown[..] == grown[..size + |bytes|];
      data := grown;
      size := size + |bytes|;
    }

    /** buffer_find and buffer_find_insensitive: two nested loops over positions and pattern bytes. */
    method Find(pat: bytes, fold: bool) returns (r: int)
      requires Valid() && pat != []
      ensures IsFirst(Contents(), pat, fold, r)
    {
      ghost var s := Contents();
      if |pat| > size { return -1; }
      var lastPos := size - |pat| + 1;
      var i := 0;
      while i < lastPos
        invariant i <= lastPos
        invariant forall k: nat :: k < i ==> !MatchesAt(s, k, pat, fold)
      {
        var j := 0;
        while j < |pat|
          invariant j <= |pat| && forall k :: 0 <= k < j ==> SameByte(s[i + k], pat[k], fold)
        {
          if !SameByte(data[i + j], pat[j], fold) { break; }
          j := j + 1;
        }
        if j == |pat| { return i; }
        assert !MatchesAt(s, i, pat, fold);
        i := i + 1;
      }
      return -1;
    }
  }
}
