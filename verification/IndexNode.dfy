/** One page of the index: searches inside the page and edits of its two arrays in place. */
module IndexNode {
  import opened Config
  import opened TreeShape
  import opened TreeSplit

  const PAGE_HDR_SIZE := 24
  const RID_SIZE := 8
  const MAX_COL_LEN := 512

  function Order(colLen: nat): int {
    (PAGE_SIZE - PAGE_HDR_SIZE) / (colLen + RID_SIZE) - 1
  }

  /** GetMaxSize and GetMinSize. */
  function MaxSize(order: int): int { order + 1 }
  function MinSize(max: nat): nat { max / 2 }

  /** For every legal key length a page has room for the reserved slot, and the tree can branch. */
  lemma LayoutFits(colLen: nat)
    requires colLen <= MAX_COL_LEN
    ensures Order(colLen) > 2 && MaxSize(Order(colLen)) >= 4
    ensures PAGE_HDR_SIZE + MaxSize(Order(colLen)) * colLen + MaxSize(Order(colLen)) * RID_SIZE <= PAGE_SIZE
  {
    var d, room := colLen + RID_SIZE, PAGE_SIZE - PAGE_HDR_SIZE;
    var n := room / d;
    assert room == n * d + room % d;
    assert n * d == n * colLen + n * RID_SIZE;
  }

  /** The first slot whose key is not below target. */
  method LowerBound(keys: seq<Key>, target: Key) returns (l: nat)
    requires Ascending(keys)
    ensures l <= |keys|
    ensures forall i :: 0 <= i < l ==> keys[i] < target
    ensures forall i :: l <= i < |keys| ==> target <= keys[i]
  {
    l := 0;
    var r := |keys|;
    while l < r
      invariant 0 <= l <= r <= |keys|
      invariant forall i :: 0 <= i < l ==> keys[i] < target
      invariant forall i :: r <= i < |keys| ==> target <= keys[i]
    {
      var mid := (l + r) / 2;
      if keys[mid] < target {
        l := mid + 1;
      } else {
        r := mid;
      }
    }
  }

  /** Slot c is the one whose child is responsible for target: key 0 of an internal page is a dummy. */
  predicate ResponsibleSlot(keys: seq<Key>, target: Key, c: nat) {
    && c < |keys|
    && (c == 0 || keys[c] <= target)
    && (c + 1 == |keys| || target < keys[c + 1])
  }

  /**
   Binary search for the first key above target, in a page whose key 0 may be out of order.
   As a slot to descend into, the result is the responsible one exactly when target is below
   every key of the page; otherwise it lies behind the responsible slot or past the last one.
   */
  method UpperBound(keys: seq<Key>, target: Key) returns (l: nat)
    requires keys != [] && Ascending(keys[1..])
    ensures l <= |keys|
    ensures l > 0 ==> keys[l - 1] <= target
    ensures l < |keys| ==> target < keys[l]
    ensures ResponsibleSlot(keys, target, l) <==> forall i :: 0 <= i < |keys| ==> target < keys[i]
    ensures l > 0 ==> ResponsibleSlot(keys, target, l - 1)
    ensures l == 0 <==> forall i :: 0 <= i < |keys| ==> target < keys[i]
    ensures l == |keys| <==> keys[|keys| - 1] <= target
  {
    l := 0;
    var r := |keys|;
    while l < r
      invariant 0 <= l <= r <= |keys|
      invariant l > 0 ==> keys[l - 1] <= target
      invariant r < |keys| ==> target < keys[r]
      invariant r == 0 && |keys| > 1 ==> target < keys[1]
    {
      var mid := (l + r) / 2;
      if keys[mid] <= target {
        l := mid + 1;
      } else {
        r := mid;
      }
    }
    assert forall i :: 1 <= i < |keys| ==> keys[i] == keys[1..][i - 1];
  }

  /** The first slot that points to page c. */
  method FindChild(rids: seq<Rid>, c: PageNo) returns (i: nat)
    requires exists j :: 0 <= j < |rids| && rids[j].pageNo == c
    ensures i < |rids| && rids[i].pageNo == c
    ensures forall j :: 0 <= j < i ==> rids[j].pageNo != c
  {
    i := 0;
    while i < |rids| && rids[i].pageNo != c
      invariant i <= |rids|
      invariant forall j :: 0 <= j < i ==> rids[j].pageNo != c
    {
      i := i + 1;
    }
  }

  /** memmove of the elements from pos on, then memcpy of xs into the gap. */
  method ShiftIn<T>(a: array<T>, used: nat, pos: nat, xs: seq<T>)
    requires pos <= used && used + |xs| <= a.Length
    modifies a
    ensures a[..used + |xs|] == Splice(old(a[..used]), pos, xs)
  {
    var n := |xs|;
    ghost var s := a[..used];
    forall i | pos <= i < used { a[i + n] := a[i]; }
    assert forall i :: pos <= i < used ==> a[i + n] == s[i];
    forall i | 0 <= i < n { a[pos + i] := xs[i]; }
    forall i | 0 <= i < used + n ensures a[i] == Splice(s, pos, xs)[i] {
      if i >= pos + n {
        assert a[(i - n) + n] == s[i - n];
      } else if i >= pos {
        assert a[pos + (i - pos)] == xs[i - pos];
      }
    }
  }

  /** memmove of the elements behind pos onto pos.  What was last stays behind the new end as well. */
  method ShiftOut<T>(a: array<T>, used: nat, pos: nat)
    requires pos < used <= a.Length
    modifies a
    ensures a[..used - 1] == Cut(old(a[..used]), pos)
    ensures a[used - 1] == old(a[used - 1])
  {
    ghost var s := a[..used];
    forall i | pos <= i < used - 1 { a[i] := a[i + 1]; }
    assert forall i :: pos <= i < used - 1 ==> a[i] == s[i + 1];
    assert forall i :: 0 <= i < pos ==> a[i] == s[i];
    forall i | 0 <= i < used - 1 ensures a[i] == Cut(s, pos)[i] {
    }
  }

  /** A page in memory: two arrays with room for keys.Length entries, of which numKey are in use. */
  class IxNodeHandle {
    const keys: array<Key>
    const rids: array<Rid>
    var numKey: nat

    constructor (maxSize: nat)
      ensures Valid() && numKey == 0 && keys.Length == maxSize && fresh(keys) && fresh(rids)
    {
      keys := new Key[maxSize];
      rids := new Rid[maxSize](_ => Rid(0, 0));
      numKey := 0;
    }

    ghost predicate Valid()
      reads this
    {
      keys.Length == rids.Length && numKey <= keys.Length
    }

    function Keys(): seq<Key>
      requires Valid()
      reads this, keys
    {
      keys[..numKey]
    }

    function Rids(): seq<Rid>
      requires Valid()
      reads this, rids
    {
      rids[..numKey]
    }

    method InsertPairs(pos: nat, ks: seq<Key>, rs: seq<Rid>)
      requires Valid() && pos <= numKey && |ks| == |rs| && numKey + |ks| <= keys.Length
      modifies this`numKey, keys, rids
      ensures Valid()
      ensures Keys() == Splice(old(Keys()), pos, ks) && Rids() == Splice(old(Rids()), pos, rs)
    {
      ShiftIn(keys, numKey, pos, ks);
      ShiftIn(rids, numKey, pos, rs);
      numKey := numKey + |ks|;
    }

    method ErasePair(pos: nat)
      requires Valid() && pos < numKey
      modifies this`numKey, keys, rids
      ensures Valid()
      ensures Keys() == Cut(old(Keys()), pos) && Rids() == Cut(old(Rids()), pos)
      ensures numKey < rids.Length && rids[numKey] == old(rids[numKey - 1])
    {
      ShiftOut(keys, numKey, pos);
      ShiftOut(rids, numKey, pos);
      numKey := numKey - 1;
    }

    method Insert(key: Key, value: Rid) returns (size: nat)
      requires Valid() && Ascending(Keys()) && numKey < keys.Length
      modifies this`numKey, keys, rids
      ensures Valid() && Ascending(Keys()) && size == |Keys()|
      ensures key in old(Keys()) ==> Keys() == old(Keys()) && Rids() == old(Rids())
      ensures key !in old(Keys()) ==>
                exists pos: nat :: pos <= |old(Keys())|
                                   && Keys() == Splice(old(Keys()), pos, [key]) && Rids() == Splice(old(Rids()), pos, [value])
    {
      var pos := LowerBound(Keys(), key);
      if pos < numKey && keys[pos] == key {
        assert key == Keys()[pos];
        return numKey;
      }
      assert key !in Keys();
      InsertPairs(pos, [key], [value]);
      size := numKey;
    }

    method Remove(key: Key) returns (size: nat)
      requires Valid() && Ascending(Keys())
      modifies this`numKey, keys, rids
      ensures Valid() && Ascending(Keys()) && size == |Keys()|
      ensures key !in Keys()
      ensures key !in old(Keys()) ==> Keys() == old(Keys()) && Rids() == old(Rids())
      ensures key in old(Keys()) ==>
                exists pos: nat :: pos < |old(Keys())| && old(Keys())[pos] == key
                                   && Keys() == Cut(old(Keys()), pos) && Rids() == Cut(old(Rids()), pos)
    {
      var pos := LowerBound(Keys(), key);
      if pos < numKey && keys[pos] == key {
        assert key == Keys()[pos];
        ErasePair(pos);
      }
      size := numKey;
    }

    method RemoveAndReturnOnlyChild() returns (c: PageNo)
      requires Valid() && numKey == 1
      modifies this`numKey, keys, rids
      ensures Valid() && Keys() == [] && c == old(Rids())[0].pageNo
    {
      c := rids[0].pageNo;
      ErasePair(0);
    }
  }
}
