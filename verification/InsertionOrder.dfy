/**
 A sorted vector that was filled one structure after another, and what becomes
 of its order when another heap changes the keys of what it holds.
 */
module InsertionOrder {
  import opened IndexComparator
  import opened SingleIndex

  // The number of leading elements that precede fs.
  ghost function PlaceFor(o: Order, s: seq<nat>, fs: nat): (k: nat)
    ensures k <= |s|
  {
    if s == [] || !Precedes(o, s[0], fs) then 0 else 1 + PlaceFor(o, s[1..], fs)
  }

  // The vector with fs added.
  ghost function Inserted(o: Order, before: seq<nat>, fs: nat): seq<nat> {
    var k := if |before| > 0 && Precedes(o, fs, before[|before| - 1]) then PlaceFor(o, before, fs) else |before|;
    before[..k] + [fs] + before[k..]
  }

  /** The vector that starts empty and takes in the structures of the list, one after another. */
  ghost function Filled(o: Order, list: seq<nat>): seq<nat> {
    if list == [] then [] else Inserted(o, Filled(o, list[..|list| - 1]), list[|list| - 1])
  }

  lemma {:induction false} PlaceIsLowerBound(o: Order, s: seq<nat>, fs: nat, k: nat)
    requires IsLowerBound(o, s, fs, k)
    ensures PlaceFor(o, s, fs) == k
  {
    if k > 0 {
      assert Precedes(o, s[0], fs);
      PlaceIsLowerBound(o, s[1..], fs, k - 1);
    }
  }

  /** add is the only insertion. */
  lemma InsertionIsInserted(o: Order, before: seq<nat>, fs: nat, after: seq<nat>)
    requires IsInsertion(o, before, fs, after)
    ensures after == Inserted(o, before, fs)
  {
    hide Precedes;
    var k :| InsertedAt(o, before, fs, after, k);
    if |before| > 0 && Precedes(o, fs, before[|before| - 1]) {
      PlaceIsLowerBound(o, before, fs, k);
    }
  }

  lemma InsertedIsInsertion(o: Order, before: seq<nat>, fs: nat)
    requires Sorted(o, before)
    ensures exists k :: InsertedAt(o, before, fs, Inserted(o, before, fs), k)
  {
    hide Precedes;
    PlaceSplits(o, before, fs);
    var k := if |before| > 0 && Precedes(o, fs, before[|before| - 1]) then PlaceFor(o, before, fs) else |before|;
    assert InsertedAt(o, before, fs, Inserted(o, before, fs), k);
  }

  lemma {:induction false} PlaceSplits(o: Order, s: seq<nat>, fs: nat)
    requires Sorted(o, s)
    ensures IsLowerBound(o, s, fs, PlaceFor(o, s, fs))
  {
    hide Precedes;
    if s != [] {
      if Precedes(o, s[0], fs) {
        PlaceSplits(o, s[1..], fs);
        var k := PlaceFor(o, s[1..], fs);
        forall i | 0 <= i < |s| ensures Precedes(o, s[i], fs) <==> i < 1 + k {
          assert i > 0 ==> s[i] == s[1..][i - 1];
        }
      } else {
        forall i | 0 <= i < |s| ensures !Precedes(o, s[i], fs) {
          NoneBefore(o, s[0], s[i], fs);
        }
      }
    }
  }

  /** The vector is sorted, and holds the list. */
  lemma {:induction false} FilledIsSorted(o: Order, list: seq<nat>)
    ensures Sorted(o, Filled(o, list)) && multiset(Filled(o, list)) == multiset(list)
  {
    if list != [] {
      var last := |list| - 1;
      assert list == list[..last] + [list[last]];
      FilledIsSorted(o, list[..last]);
      hide Sorted, Inserted, IsInsertion;
      InsertedIsInsertion(o, Filled(o, list[..last]), list[last]);
      InsertionKeepsOrder(o, Filled(o, list[..last]), list[last], Filled(o, list));
    }
  }

  // --------------------------------------------------------- another order

  // When fs is added to the structures, x comes to stand behind it.
  ghost predicate StandsBehind(o: Order, before: seq<nat>, fs: nat, x: nat) {
    !Precedes(o, x, fs) && exists y :: y in before && Precedes(o, fs, y)
  }

  // The other order accepts the place of fs among the structures.
  ghost predicate Fits(o1: Order, o2: Order, before: seq<nat>, fs: nat) {
    forall x :: x in before ==>
      if StandsBehind(o1, before, fs, x) then !Precedes(o2, x, fs) else !Precedes(o2, fs, x)
  }

  /** Every structure of the list, when it is added to the ones before it, gets a place that the other order accepts. */
  ghost predicate AllFit(o1: Order, o2: Order, list: seq<nat>) {
    forall j :: 0 <= j < |list| ==> Fits(o1, o2, list[..j], list[j])
  }

  // What stands behind fs is exactly what was inserted behind it.
  lemma SideOf(o: Order, before: seq<nat>, fs: nat, after: seq<nat>, k: nat, i: nat)
    requires Sorted(o, before) && InsertedAt(o, before, fs, after, k) && i < |before|
    ensures StandsBehind(o, before, fs, before[i]) <==> i >= k
  {
    hide Precedes;
    var last := before[|before| - 1];
    if Precedes(o, fs, last) {
      assert last in before;
    } else if y :| y in before && Precedes(o, fs, y) {
      var j :| 0 <= j < |before| && before[j] == y;
      NotPast(o, fs, y, last);
    }
  }

  // What precedes one element precedes whatever does not precede that one.
  lemma NotPast(o: Order, fs: nat, y: nat, last: nat)
    requires Precedes(o, fs, y) && (y == last || !Precedes(o, last, y))
    ensures Precedes(o, fs, last)
  {
    IsTotalPreorder(o, y, last, fs);
    if Ties(o, y, last) {
      TiesShareOrder(o, y, last, fs);
    } else if y != last {
      PrecedesTransitive(o, fs, y, last);
    }
  }

  /** Adding one structure keeps the other order if and only if it held before and accepts the place. */
  lemma InsertedStaysSorted(o1: Order, o2: Order, before: seq<nat>, fs: nat, after: seq<nat>, k: nat)
    requires Sorted(o1, before) && InsertedAt(o1, before, fs, after, k)
    ensures Sorted(o2, after) <==> Sorted(o2, before) && Fits(o1, o2, before, fs)
  {
    hide Precedes, StandsBehind, IsLowerBound;
    forall i | 0 <= i < |before| ensures StandsBehind(o1, before, fs, before[i]) <==> i >= k {
      SideOf(o1, before, fs, after, k, i);
    }
    if Sorted(o2, after) {
      WithoutInserted(o2, before, fs, k);
      forall x | x in before
        ensures if StandsBehind(o1, before, fs, x) then !Precedes(o2, x, fs) else !Precedes(o2, fs, x)
      {
        var i :| 0 <= i < |before| && before[i] == x;
        assert i < k ==> after[i] == x && after[k] == fs;
        assert i >= k ==> after[i + 1] == x && after[k] == fs;
      }
    }
    if Sorted(o2, before) && Fits(o1, o2, before, fs) {
      SortedWith(o2, before, fs, k);
    }
  }

  lemma WithoutInserted(o: Order, before: seq<nat>, fs: nat, k: nat)
    requires k <= |before| && Sorted(o, before[..k] + [fs] + before[k..])
    ensures Sorted(o, before)
  {
    hide Precedes;
    var after := before[..k] + [fs] + before[k..];
    assert forall i :: 0 <= i < |before| ==> before[i] == after[if i < k then i else i + 1];
  }

  // Only the elements count.
  lemma FitsAmong(o1: Order, o2: Order, a: seq<nat>, b: seq<nat>, fs: nat)
    requires multiset(a) == multiset(b)
    ensures Fits(o1, o2, a, fs) <==> Fits(o1, o2, b, fs)
  {
    hide Precedes;
    forall x ensures x in a <==> x in b {
      assert x in a <==> x in multiset(a);
      assert x in b <==> x in multiset(b);
    }
    forall x ensures StandsBehind(o1, a, fs, x) <==> StandsBehind(o1, b, fs, x) {
    }
  }

  /** A vector filled in one order is sorted in another if and only if every structure got a place that fits. */
  lemma {:induction false} SortedAgain(o1: Order, o2: Order, list: seq<nat>)
    ensures Sorted(o2, Filled(o1, list)) <==> AllFit(o1, o2, list)
  {
    if list != [] {
      var n := |list| - 1;
      var rest, before := list[..n], Filled(o1, list[..n]);
      SortedAgain(o1, o2, rest);
      FilledIsSorted(o1, rest);
      InsertedIsInsertion(o1, before, list[n]);
      var k :| InsertedAt(o1, before, list[n], Filled(o1, list), k);
      InsertedStaysSorted(o1, o2, before, list[n], Filled(o1, list), k);
      FitsAmong(o1, o2, rest, before, list[n]);
      AllFitOneMore(o1, o2, list);
    }
  }

  lemma AllFitOneMore(o1: Order, o2: Order, list: seq<nat>)
    requires list != []
    ensures var n := |list| - 1; AllFit(o1, o2, list) <==> AllFit(o1, o2, list[..n]) && Fits(o1, o2, list[..n], list[n])
  {
    hide Fits;
    var n := |list| - 1;
    assert forall j :: 0 <= j < n ==> list[..n][..j] == list[..j] && list[..n][j] == list[j];
  }

  /** Where the old keys all tie, the vector is the list, and the new keys have to ascend along it. */
  lemma {:induction false} FilledByTies(o: Order, list: seq<nat>)
    requires forall a, b :: a in list && b in list ==> !Precedes(o, a, b)
    ensures Filled(o, list) == list
  {
    hide Precedes;
    if list != [] {
      var n := |list| - 1;
      assert list == list[..n] + [list[n]];
      FilledByTies(o, list[..n]);
    }
  }

  /** The same keys that read the same fit. */
  lemma SameKeysFit(o1: Order, o2: Order, list: seq<nat>)
    requires forall a, b :: a in list && b in list ==> (Precedes(o2, a, b) <==> Precedes(o1, a, b))
    ensures AllFit(o1, o2, list)
  {
    hide Precedes;
    forall j | 0 <= j < |list| ensures Fits(o1, o2, list[..j], list[j]) {
      forall x | x in list[..j]
        ensures if StandsBehind(o1, list[..j], list[j], x) then !Precedes(o2, x, list[j]) else !Precedes(o2, list[j], x)
      {
        assert list[j] in list && x in list;
        IsTotalPreorder(o1, x, list[j], x);
      }
    }
  }
}
