/** The replacement policy of the buffer pool: least recently released frame first. */
module LruReplacer {

  datatype Call = PinCall(frame: int) | UnpinCall(frame: int) | VictimCall

  /** Frame f has waited for eviction at least as long as every other evictable frame. */
  ghost predicate Oldest<F>(entered: map<F, nat>, f: F) {
    f in entered && forall g :: g in entered ==> entered[f] <= entered[g]
  }

  ghost predicate DistinctTimes<F>(entered: map<F, nat>, now: nat) {
    && (forall f :: f in entered ==> entered[f] < now)
    && (forall f, g :: f in entered && g in entered && entered[f] == entered[g] ==> f == g)
  }

  ghost function OldestOf<F>(entered: map<F, nat>, now: nat): (f: F)
    requires DistinctTimes(entered, now) && entered != map[]
    ensures Oldest(entered, f)
  {
    OldestExists(entered, now);
    var f :| Oldest(entered, f);
    f
  }

  lemma {:induction false} OldestExists<F>(entered: map<F, nat>, now: nat)
    requires DistinctTimes(entered, now) && entered != map[]
    ensures exists f :: Oldest(entered, f)
  {
    var f :| f in entered;
    var rest := entered - {f};
    if rest == map[] {
      forall g | g in entered ensures g == f {
        assert g != f ==> g in rest;
      }
      assert Oldest(entered, f);
    } else {
      OldestExists(rest, now);
      var g :| Oldest(rest, g);
      var o := if entered[f] <= entered[g] then f else g;
      forall h | h in entered ensures entered[o] <= entered[h] {
        assert h == f || (h in rest && rest[h] == entered[h]);
      }
      assert Oldest(entered, o);
    }
  }

  /**
   When each evictable frame entered the replacer, read off the history of calls: a frame enters
   at its first Unpin, unless the replacer is full; it leaves when it is pinned, or evicted, which
   happens to the frame that entered first.
   */
  ghost function Entered(history: seq<Call>, max: nat): (entered: map<int, nat>)
    ensures DistinctTimes(entered, |history|)
  {
    if history == [] then map[]
    else
      var now := |history| - 1;
      var before := Entered(history[..now], max);
      match history[now]
      case PinCall(f) => before - {f}
      case UnpinCall(f) => if f in before || |before| >= max then before else before[f := now]
      case VictimCall => if before == map[] then before else before - {OldestOf(before, now)}
  }

  /** The entry time of an evictable frame is its first Unpin since it was last pinned or evicted. */
  lemma {:induction false} EnteredAtUnpin(history: seq<Call>, max: nat, f: int)
    requires f in Entered(history, max)
    ensures Entered(history, max)[f] < |history|
    ensures WaitingSince(history, max, f, Entered(history, max)[f])
  {
    var now := |history| - 1;
    var prior := history[..now];
    LastCall(history, max, f);
    if f in Entered(prior, max) {
      EnteredAtUnpin(prior, max, f);
      StillWaiting(history, max, f, Entered(history, max)[f]);
    } else {
      assert history[..|history|] == history;
      assert EvictableAt(history, max, f, |history|);
    }
  }

  /** Frame f, not evictable before time t, was released at t, and neither pinned nor evicted since. */
  ghost predicate WaitingSince(history: seq<Call>, max: nat, f: int, t: nat) {
    && t < |history| && history[t] == UnpinCall(f) && f !in Entered(history[..t], max)
    && (forall i :: t < i < |history| ==> history[i] != PinCall(f))
    && (forall i: nat {:trigger EvictableAt(history, max, f, i)} :: t < i <= |history| ==> EvictableAt(history, max, f, i))
  }

  /** After the first n calls frame f is evictable. */
  ghost predicate EvictableAt(history: seq<Call>, max: nat, f: int, n: nat) {
    n <= |history| && f in Entered(history[..n], max)
  }

  lemma StillWaiting(history: seq<Call>, max: nat, f: int, t: nat)
    requires history != [] && WaitingSince(history[..|history| - 1], max, f, t) && history[|history| - 1] != PinCall(f)
    requires f in Entered(history, max)
    ensures WaitingSince(history, max, f, t)
  {
    var prior := history[..|history| - 1];
    assert prior[..t] == history[..t];
    forall i | t < i < |history| ensures history[i] != PinCall(f) {
      assert i < |prior| ==> history[i] == prior[i];
    }
    forall i: nat {:trigger EvictableAt(history, max, f, i)} | t < i <= |history| ensures EvictableAt(history, max, f, i) {
      if i == |history| {
        assert history[..i] == history;
      } else {
        assert EvictableAt(prior, max, f, i) && history[..i] == prior[..i];
      }
    }
  }

  lemma LastCall(history: seq<Call>, max: nat, f: int)
    requires f in Entered(history, max)
    ensures history != []
    ensures var now, before := |history| - 1, Entered(history[..|history| - 1], max);
            if f in before then Entered(history, max)[f] == before[f] && before[f] < now && history[now] != PinCall(f)
            else Entered(history, max)[f] == now && history[now] == UnpinCall(f)
  {
  }

  class LRUReplacer {
    const maxSize: nat
    var lruList: seq<int>
    var lruHash: set<int>
    ghost var history: seq<Call>

    constructor (numPages: nat)
      ensures Valid() && maxSize == numPages && Frames() == {} && history == []
    {
      maxSize := numPages;
      lruList, lruHash := [], {};
      history := [];
    }

    /** List and hash hold the same frames once each; the list runs from the youngest to the oldest. */
    ghost predicate Valid()
      reads this
    {
      var entered := Entered(history, maxSize);
      lruHash == entered.Keys && Ordered(lruList, entered)
    }

    ghost function Frames(): set<int>
      reads this
    {
      lruHash
    }

    /** Evicts the frame that has been evictable for the longest time. */
    method Victim() returns (ok: bool, frame: int)
      requires Valid()
      modifies this
      ensures Valid() && history == old(history) + [VictimCall]
      ensures ok <==> old(Frames()) != {}
      ensures ok ==> Oldest(Entered(old(history), maxSize), frame) && Frames() == old(Frames()) - {frame}
      ensures !ok ==> frame == -1 && Frames() == {}
    {
      ghost var entered := Entered(history, maxSize);
      HistoryStep(history, VictimCall);
      history := history + [VictimCall];
      if |lruList| == 0 {
        assert entered == map[];
        return false, -1;
      }
      var last := |lruList| - 1;
      ok, frame := true, lruList[last];
      LastIsOldest(lruList, entered, |history| - 1);
      DropFromList(lruList, last, entered);
      lruHash := lruHash - {frame};
      lruList := lruList[..last] + lruList[last + 1..];
    }

    /** A pinned frame is not evictable any more. */
    method Pin(frame: int)
      requires Valid()
      modifies this
      ensures Valid() && history == old(history) + [PinCall(frame)]
      ensures Frames() == old(Frames()) - {frame}
    {
      ghost var entered := Entered(history, maxSize);
      HistoryStep(history, PinCall(frame));
      history := history + [PinCall(frame)];
      if frame in lruHash {
        ghost var i := ErasePosition(lruList, frame);
        DropFromList(lruList, i, entered);
        lruList := Erase(lruList, frame);
        lruHash := lruHash - {frame};
      }
    }

    /** A frame that is released becomes the youngest evictable one, unless it is evictable already or the replacer is full. */
    method Unpin(frame: int)
      requires Valid()
      modifies this
      ensures Valid() && history == old(history) + [UnpinCall(frame)]
      ensures Frames() == if |old(Frames())| >= maxSize then old(Frames()) else old(Frames()) + {frame}
    {
      ghost var entered := Entered(history, maxSize);
      HistoryStep(history, UnpinCall(frame));
      assert |lruHash| == |entered|;
      history := history + [UnpinCall(frame)];
      if frame in lruHash || |lruList| >= maxSize {
        return;
      }
      AddToList(lruList, frame, entered, |history| - 1);
      lruList := [frame] + lruList;
      lruHash := lruHash + {frame};
    }
  }

  /** What a call does to the entry times. */
  lemma HistoryStep(history: seq<Call>, c: Call)
    ensures forall max: nat ::
              Entered(history + [c], max) ==
              var before := Entered(history, max);
              match c
              case PinCall(f) => before - {f}
              case UnpinCall(f) => if f in before || |before| >= max then before else before[f := |history|]
              case VictimCall => if before == map[] then before else before - {OldestOf(before, |history|)}
  {
    assert (history + [c])[..|history|] == history;
  }

  /** Erasing the list node of a frame. */
  function Erase(list: seq<int>, frame: int): seq<int> {
    if list == [] then [] else if list[0] == frame then list[1..] else [list[0]] + Erase(list[1..], frame)
  }

  lemma {:induction false} ErasePosition(list: seq<int>, frame: int) returns (i: nat)
    requires frame in list
    ensures i < |list| && list[i] == frame && Erase(list, frame) == list[..i] + list[i + 1..]
  {
    if list[0] == frame {
      i := 0;
    } else {
      var k := ErasePosition(list[1..], frame);
      i := k + 1;
      assert list[..i] == [list[0]] + list[1..][..k] && list[i + 1..] == list[1..][k + 1..];
    }
  }

  /** A list of the frames of entered, from the youngest to the oldest. */
  ghost predicate Ordered(list: seq<int>, entered: map<int, nat>) {
    && |list| == |entered|
    && (forall i :: 0 <= i < |list| ==> list[i] in entered)
    && (forall f :: f in entered ==> f in list)
    && (forall i, j :: 0 <= i < j < |list| ==> entered[list[i]] > entered[list[j]])
  }

  lemma LastIsOldest(list: seq<int>, entered: map<int, nat>, now: nat)
    requires Ordered(list, entered) && list != [] && DistinctTimes(entered, now)
    ensures entered != map[] && list[|list| - 1] == OldestOf(entered, now)
  {
    var last := list[|list| - 1];
    assert last in entered;
    forall g | g in entered ensures entered[last] <= entered[g] {
      var i :| 0 <= i < |list| && list[i] == g;
    }
    assert Oldest(entered, last);
  }

  lemma AddToList(list: seq<int>, frame: int, entered: map<int, nat>, now: nat)
    requires Ordered(list, entered) && frame !in entered && DistinctTimes(entered, now)
    ensures Ordered([frame] + list, entered[frame := now])
  {
    var w, more := [frame] + list, entered[frame := now];
    forall f | f in more ensures f in w {
      if f != frame {
        var i :| 0 <= i < |list| && list[i] == f;
        assert w[i + 1] == f;
      } else {
        assert w[0] == f;
      }
    }
    forall i, j | 0 <= i < j < |w| ensures more[w[i]] > more[w[j]] {
      assert w[j] == list[j - 1];
    }
  }

  /** Dropping one position of a list that is ordered by age drops one frame. */
  lemma DropFromList(list: seq<int>, i: nat, entered: map<int, nat>)
    requires i < |list| && Ordered(list, entered)
    ensures Ordered(list[..i] + list[i + 1..], entered - {list[i]})
  {
    var w, rest, x := list[..i] + list[i + 1..], entered - {list[i]}, list[i];
    assert rest.Keys == entered.Keys - {x} && |rest| == |entered| - 1;
    forall j | 0 <= j < |w| ensures w[j] in rest && w[j] == list[if j < i then j else j + 1] {
      var k := if j < i then j else j + 1;
      assert if k < i then entered[list[k]] > entered[x] else entered[x] > entered[list[k]];
    }
    StillListed(list, i, entered);
  }

  lemma StillListed(list: seq<int>, i: nat, entered: map<int, nat>)
    requires i < |list| && forall f :: f in entered ==> f in list
    ensures forall f :: f in entered - {list[i]} ==> f in list[..i] + list[i + 1..]
  {
    var w := list[..i] + list[i + 1..];
    forall f | f in entered - {list[i]} ensures f in w {
      var k :| 0 <= k < |list| && list[k] == f;
      assert w[if k < i then k else k - 1] == f;
    }
  }
}
