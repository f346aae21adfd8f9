/**
 The list of indexed structures in a binary CAS: the number of views, and for
 the base CAS and every view a count followed by the structures in ascending
 order without repeats.
 */
module IndexedFSs {
  import opened TypeTree
  import opened IndexRepository
  import opened SingleIndex
  import opened TopologicalSort
  import opened IndexComparator
  import opened IndexRebuild

  // ---------------------------------------------------- ascending sequences

  predicate StrictlyIncreasing(s: seq<nat>) {
    forall i, j :: 0 <= i < j < |s| ==> s[i] < s[j]
  }

  ghost predicate IsGreatest(s: set<nat>, x: nat) {
    x in s && forall y :: y in s ==> y <= x
  }

  lemma {:induction false} HasGreatest(s: set<nat>)
    requires s != {}
    ensures exists x :: IsGreatest(s, x)
    decreases |s|
  {
    var x :| x in s;
    var rest := s - {x};
    if rest == {} {
      assert s == {x} && IsGreatest(s, x);
    } else {
      HasGreatest(rest);
      var y :| IsGreatest(rest, y);
      assert forall z :: z in s ==> z == x || z in rest;
      assert IsGreatest(s, if x < y then y else x);
    }
  }

  // The elements of the set in ascending order.
  ghost function Ascending(s: set<nat>): (r: seq<nat>)
    ensures StrictlyIncreasing(r) && (forall x :: x in r <==> x in s)
  {
    if s == {} then []
    else
      HasGreatest(s);
      var x :| IsGreatest(s, x);
      var before := Ascending(s - {x});
      assert forall y :: y in before ==> y in s && y != x;
      before + [x]
  }

  ghost function Elements(s: seq<nat>): (r: set<nat>)
    ensures forall x :: x in r <==> x in s
  {
    set x | x in s
  }

  lemma WithoutLast(s: seq<nat>)
    requires StrictlyIncreasing(s) && s != []
    ensures StrictlyIncreasing(s[..|s| - 1]) && forall x :: x in s[..|s| - 1] <==> x in s && x != s[|s| - 1]
    ensures forall x :: x in s ==> x <= s[|s| - 1]
  {
    assert s == s[..|s| - 1] + [s[|s| - 1]];
  }

  /** There is only one ascending sequence of the elements of a set. */
  lemma {:induction false} AscendingIsUnique(a: seq<nat>, b: seq<nat>)
    requires StrictlyIncreasing(a) && StrictlyIncreasing(b) && (forall x :: x in a <==> x in b)
    ensures a == b
  {
    assert a != [] ==> a[0] in a && b != [];
    assert b != [] ==> b[0] in b && a != [];
    if a != [] {
      hide StrictlyIncreasing;
      WithoutLast(a);
      WithoutLast(b);
      var last, a', b' := a[|a| - 1], a[..|a| - 1], b[..|b| - 1];
      assert last in b && b[|b| - 1] in a;
      assert last == b[|b| - 1];
      forall x ensures x in a' <==> x in b' {
        assert x in a <==> x in b;
      }
      AscendingIsUnique(a', b');
      assert a == a' + [last] && b == b' + [last];
    }
  }

  predicate Nondecreasing(s: seq<nat>) {
    forall i, j :: 0 <= i < j < |s| ==> s[i] <= s[j]
  }

  // Where x belongs.
  method Position(s: seq<nat>, x: nat) returns (i: nat)
    requires Nondecreasing(s)
    ensures i <= |s| && (forall j :: 0 <= j < i ==> s[j] < x) && (forall j :: i <= j < |s| ==> x <= s[j])
  {
    i := 0;
    while i < |s| && s[i] < x
      invariant i <= |s| && forall j :: 0 <= j < i ==> s[j] < x
    {
      i := i + 1;
    }
  }

  // std::sort
  method Sort(s: seq<nat>) returns (r: seq<nat>)
    ensures Nondecreasing(r) && multiset(r) == multiset(s)
  {
    r := [];
    for k := 0 to |s|
      invariant Nondecreasing(r) && multiset(r) == multiset(s[..k])
    {
      var i := Position(r, s[k]);
      assert r == r[..i] + r[i..];
      r := r[..i] + [s[k]] + r[i..];
      assert s[..k + 1] == s[..k] + [s[k]];
    }
    assert s[..|s|] == s;
  }

  /** std::unique: the elements without repeats come to the front, and the length stays. */
  method Unique(s: seq<nat>) returns (r: seq<nat>, n: nat)
    requires Nondecreasing(s)
    ensures |r| == |s| && n <= |s| && r[..n] == Ascending(Elements(s))
    ensures n == |s| <==> Distinct(s)
  {
    r, n := s, 0;
    for i := 0 to |s|
      invariant n <= i && |r| == |s| && r[i..] == s[i..]
      invariant StrictlyIncreasing(r[..n]) && forall x :: x in r[..n] <==> x in s[..i]
      invariant if i == 0 then n == 0 else n > 0 && r[n - 1] == s[i - 1]
      invariant n == i <==> Distinct(s[..i])
    {
      assert s[..i + 1] == s[..i] + [s[i]] && r[i] == s[i];
      if n == 0 || r[n - 1] != r[i] {
        ghost var front := r[..n];
        NextIsNew(s, i);
        r := r[n := r[i]];
        n := n + 1;
        assert r[..n] == front + [s[i]];
      } else {
        assert s[..i + 1][i - 1] == s[..i + 1][i];
      }
    }
    assert s[..|s|] == s;
    AscendingIsUnique(r[..n], Ascending(Elements(s)));
  }

  // What is greater than the element before it is greater than all before it.
  lemma NextIsNew(s: seq<nat>, i: nat)
    requires Nondecreasing(s) && i < |s| && (i > 0 ==> s[i - 1] != s[i])
    ensures forall x :: x in s[..i] ==> x < s[i]
    ensures Distinct(s[..i + 1]) <==> Distinct(s[..i])
  {
    assert s[..i + 1] == s[..i] + [s[i]];
    assert Distinct(s[..i + 1]) ==> Distinct(s[..i + 1][..i]) && s[..i + 1][..i] == s[..i];
  }

  /** Sorting, and dropping repeats. */
  method SortUnique(s: seq<nat>) returns (r: seq<nat>)
    ensures r == Ascending(Elements(s))
  {
    var sorted := Sort(s);
    SameElements(sorted, s);
    var all, n := Unique(sorted);
    r := all[..n];
  }

  lemma SameElements(a: seq<nat>, b: seq<nat>)
    requires multiset(a) == multiset(b)
    ensures Elements(a) == Elements(b) && (Distinct(a) <==> Distinct(b))
  {
    forall x ensures x in Elements(a) <==> x in Elements(b) {
      assert x in a <==> x in multiset(a);
      assert x in b <==> x in multiset(b);
    }
    DistinctCounts(a);
    DistinctCounts(b);
    assert forall x :: x in a <==> x in b;
  }

  lemma {:induction false} DistinctCounts(s: seq<nat>)
    ensures Distinct(s) <==> forall x :: x in s ==> multiset(s)[x] == 1
  {
    if s != [] {
      var rest, last := s[..|s| - 1], s[|s| - 1];
      assert s == rest + [last];
      DistinctCounts(rest);
      if Distinct(s) {
        assert last !in rest;
      } else if Distinct(rest) {
        assert last in rest;
        assert multiset(s)[last] >= 2;
      } else {
        var x :| x in rest && multiset(rest)[x] != 1;
        assert multiset(rest)[x] >= 2 && multiset(s)[x] >= 2;
      }
    }
  }

  // ------------------------------------------- what a repository has indexed

  datatype ViewIndexes = NoIndexes | Indexes(repository: IndexRepository)

  ghost predicate HasSlots(s: Setup, fs: nat)
    requires ParentsOK(s.parents)
  {
    Slots(s, |s.definitions|, s.heap.TypeOf(fs)) != []
  }

  lemma {:induction false} UncoveredContains(s: Setup, added: seq<nat>, fs: nat)
    requires ParentsOK(s.parents)
    ensures fs in Uncovered(s, added) <==> fs in added && !HasSlots(s, fs)
  {
    if added != [] {
      assert added == added[..|added| - 1] + [added[|added| - 1]];
      UncoveredContains(s, added[..|added| - 1], fs);
    }
  }

  // Some of the first n vectors holds the structure.
  ghost predicate InRow(row: seq<seq<nat>>, n: nat, fs: nat)
    requires n <= |row|
  {
    exists i :: 0 <= i < n && fs in row[i]
  }

  // Some index of the first n used types holds the structure.
  ghost predicate InUsed(c: Contents, usedIndexes: seq<nat>, n: nat, fs: nat)
    requires n <= |usedIndexes|
  {
    exists k :: 0 <= k < n && usedIndexes[k] < |c| && InRow(c[usedIndexes[k]], |c[usedIndexes[k]]|, fs)
  }

  lemma InRowOneMore(row: seq<seq<nat>>, i: nat, fs: nat)
    requires i < |row|
    ensures InRow(row, i + 1, fs) <==> InRow(row, i, fs) || fs in row[i]
  {
  }

  lemma InUsedOneMore(c: Contents, usedIndexes: seq<nat>, k: nat, fs: nat)
    requires k < |usedIndexes| && usedIndexes[k] < |c|
    ensures InUsed(c, usedIndexes, k + 1, fs)
       <==> InUsed(c, usedIndexes, k, fs) || InRow(c[usedIndexes[k]], |c[usedIndexes[k]]|, fs)
  {
  }

  lemma NothingYet(c: Contents, usedIndexes: seq<nat>)
    ensures JoinedUsed(c, usedIndexes, 0) == []
    ensures forall fs :: !InUsed(c, usedIndexes, 0, fs)
    ensures forall row, fs :: !InRow(row, 0, fs)
  {
  }

  /** The indexes of the used types hold exactly what was added and some index covers. */
  lemma UsedHoldCovered(s: Setup, c: Contents, isUsed: seq<bool>, usedIndexes: seq<nat>, added: seq<nat>, fs: nat)
    requires SetupOK(s) && ContentsOK(s, c) && HoldsAdded(s, c, added) && UsedOK(s, c, isUsed, usedIndexes)
    ensures InUsed(c, usedIndexes, |usedIndexes|, fs) <==> fs in added && HasSlots(s, fs)
  {
    var t := s.heap.TypeOf(fs);
    OfTypeContains(s.heap, added, t, fs);
    if k :| 0 <= k < |usedIndexes| && usedIndexes[k] < |c| && InRow(c[usedIndexes[k]], |c[usedIndexes[k]]|, fs) {
      var u := usedIndexes[k];
      var i :| 0 <= i < |c[u]| && fs in c[u][i];
      assert u in usedIndexes;
      assert fs in multiset(c[u][i]);
      OfTypeContains(s.heap, added, u, fs);
    }
    if fs in added && HasSlots(s, fs) {
      assert RowOK(s, t, c[t]);
      assert fs in multiset(c[t][0]);
      assert isUsed[t];
      var k :| 0 <= k < |usedIndexes| && usedIndexes[k] == t;
      assert InRow(c[usedIndexes[k]], |c[usedIndexes[k]]|, fs);
    }
  }

  // The structures that were added and that some index covers.
  ghost function Covered(s: Setup, added: seq<nat>): set<nat>
    requires ParentsOK(s.parents)
  {
    set fs | fs in added && HasSlots(s, fs)
  }

  // The structures in the indexes of all used types.
  method UsedStructures(r: IndexRepository) returns (all: seq<nat>)
    requires r.Valid()
    ensures ParentsOK(r.setup.parents) && Elements(all) == Covered(r.setup, r.added)
    ensures forall fs :: multiset(all)[fs] == Covering(r.setup, fs) * multiset(r.added)[fs]
  {
    hide *;
    Disassemble(r);
    UsedTypes(r);
    ghost var c := AllHeld(r.indexes);
    all := [];
    NothingYet(c, r.usedIndexes);
    for k := 0 to |r.usedIndexes|
      invariant all == JoinedUsed(c, r.usedIndexes, k)
      invariant forall fs :: fs in all <==> InUsed(c, r.usedIndexes, k, fs)
    {
      JoinedUsedOneMore(c, r.usedIndexes, k);
      var row := r.indexes[r.usedIndexes[k]];
      ghost var before := all;
      JoinedNone(Held(row));
      for i := 0 to |row|
        invariant all == before + Joined(Held(row)[..i])
        invariant forall fs :: fs in all <==> fs in before || InRow(Held(row), i, fs)
      {
        forall fs ensures InRow(Held(row), i + 1, fs) <==> InRow(Held(row), i, fs) || fs in row[i].structures {
          InRowOneMore(Held(row), i, fs);
        }
        JoinedOneMore(Held(row), i);
        all := all + row[i].structures;
      }
      assert Held(row) == c[r.usedIndexes[k]] && Held(row)[..|row|] == Held(row);
      forall fs
        ensures InUsed(c, r.usedIndexes, k + 1, fs) <==> InUsed(c, r.usedIndexes, k, fs) || InRow(Held(row), |row|, fs)
      {
        InUsedOneMore(c, r.usedIndexes, k, fs);
      }
    }
    forall fs ensures fs in Elements(all) <==> fs in Covered(r.setup, r.added) {
      UsedHoldCovered(r.setup, c, r.isUsed, r.usedIndexes, r.added, fs);
      CoveredContains(r.setup, r.added, fs);
    }
    forall fs ensures multiset(all)[fs] == Covering(r.setup, fs) * multiset(r.added)[fs] {
      UsedHoldCopies(r.setup, c, r.isUsed, r.usedIndexes, r.added, fs);
    }
  }

  // The number of indexes that cover the type of the structure.
  ghost function Covering(s: Setup, fs: nat): (n: nat)
    requires ParentsOK(s.parents)
    ensures n == 0 <==> !HasSlots(s, fs)
  {
    |Slots(s, |s.definitions|, s.heap.TypeOf(fs))|
  }

  // The vectors of a row one after another.
  ghost function Joined(row: seq<seq<nat>>): seq<nat> {
    if row == [] then [] else Joined(row[..|row| - 1]) + row[|row| - 1]
  }

  // The vectors of the first n used types.
  ghost function JoinedUsed(c: Contents, usedIndexes: seq<nat>, n: nat): seq<nat>
    requires n <= |usedIndexes|
  {
    if n == 0 then []
    else JoinedUsed(c, usedIndexes, n - 1)
         + if usedIndexes[n - 1] < |c| then Joined(c[usedIndexes[n - 1]]) else []
  }

  lemma JoinedNone(row: seq<seq<nat>>)
    ensures Joined(row[..0]) == []
  {
  }

  lemma JoinedOneMore(row: seq<seq<nat>>, i: nat)
    requires i < |row|
    ensures Joined(row[..i + 1]) == Joined(row[..i]) + row[i]
  {
    assert row[..i + 1][..i] == row[..i];
  }

  lemma JoinedUsedOneMore(c: Contents, usedIndexes: seq<nat>, k: nat)
    requires k < |usedIndexes|
    ensures usedIndexes[k] < |c| ==>
              JoinedUsed(c, usedIndexes, k + 1) == JoinedUsed(c, usedIndexes, k) + Joined(c[usedIndexes[k]])
  {
  }

  lemma {:induction false} JoinedCount(row: seq<seq<nat>>, m: multiset<nat>, fs: nat)
    requires forall i :: 0 <= i < |row| ==> multiset(row[i]) == m
    ensures multiset(Joined(row))[fs] == |row| * m[fs]
  {
    if row != [] {
      JoinedCount(row[..|row| - 1], m, fs);
      assert multiset(row[|row| - 1]) == m;
      assert |row| * m[fs] == (|row| - 1) * m[fs] + m[fs];
    }
  }

  lemma {:induction false} OfTypeCount(h: HeapView, added: seq<nat>, t: nat, fs: nat)
    ensures OfType(h, added, t)[fs] == if h.TypeOf(fs) == t then multiset(added)[fs] else 0
  {
    if added != [] {
      assert added == added[..|added| - 1] + [added[|added| - 1]];
      OfTypeCount(h, added[..|added| - 1], t, fs);
    }
  }

  // The row of type u holds the structure count times if u is t.
  ghost predicate RowHas(c: Contents, u: nat, fs: nat, t: nat, count: nat) {
    u < |c| && multiset(Joined(c[u]))[fs] == if u == t then count else 0
  }

  // A row holds the structures of its type once for each of its vectors, and no others.
  lemma RowCount(s: Setup, c: Contents, added: seq<nat>, t: nat, fs: nat)
    requires SetupOK(s) && ContentsOK(s, c) && HoldsAdded(s, c, added) && IsType(s.parents, t)
    ensures RowHas(c, t, fs, s.heap.TypeOf(fs), Covering(s, fs) * multiset(added)[fs])
  {
    hide Joined, OfType, Slots, SlotOK;
    assert RowOK(s, t, c[t]);
    JoinedCount(c[t], OfType(s.heap, added, t), fs);
    OfTypeCount(s.heap, added, t, fs);
  }

  lemma {:induction false} JoinedUsedCount(c: Contents, usedIndexes: seq<nat>, fs: nat, t: nat, count: nat, n: nat)
    requires n <= |usedIndexes| && Distinct(usedIndexes)
    requires forall k :: 0 <= k < |usedIndexes| ==> RowHas(c, usedIndexes[k], fs, t, count)
    ensures multiset(JoinedUsed(c, usedIndexes, n))[fs] == if t in usedIndexes[..n] then count else 0
  {
    hide *;
    if n == 0 {
      NothingYet(c, usedIndexes);
    } else {
      assert RowHas(c, usedIndexes[n - 1], fs, t, count);
      RowHasMeans(c, usedIndexes[n - 1], fs, t, count);
      PrefixGrows(usedIndexes, n - 1, t);
      JoinedUsedOneMore(c, usedIndexes, n - 1);
      JoinedUsedCount(c, usedIndexes, fs, t, count, n - 1);
    }
  }

  lemma RowHasMeans(c: Contents, u: nat, fs: nat, t: nat, count: nat)
    requires RowHas(c, u, fs, t, count)
    ensures u < |c| && multiset(Joined(c[u]))[fs] == if u == t then count else 0
  {
  }

  lemma PrefixGrows(s: seq<nat>, n: nat, t: nat)
    requires Distinct(s) && n < |s|
    ensures t in s[..n + 1] <==> t in s[..n] || t == s[n]
    ensures !(t in s[..n] && t == s[n])
  {
    assert s[..n + 1] == s[..n] + [s[n]];
  }

  /** The indexes of the used types hold every added structure once for each index that covers its type. */
  lemma UsedHoldCopies(s: Setup, c: Contents, isUsed: seq<bool>, usedIndexes: seq<nat>, added: seq<nat>, fs: nat)
    requires SetupOK(s) && ContentsOK(s, c) && HoldsAdded(s, c, added) && UsedOK(s, c, isUsed, usedIndexes)
    ensures multiset(JoinedUsed(c, usedIndexes, |usedIndexes|))[fs] == Covering(s, fs) * multiset(added)[fs]
  {
    hide *;
    UsedAre(s, c, isUsed, usedIndexes);
    var count := Covering(s, fs) * multiset(added)[fs];
    forall k | 0 <= k < |usedIndexes| ensures RowHas(c, usedIndexes[k], fs, s.heap.TypeOf(fs), count) {
      assert usedIndexes[k] in usedIndexes;
      RowCount(s, c, added, usedIndexes[k], fs);
    }
    JoinedUsedCount(c, usedIndexes, fs, s.heap.TypeOf(fs), count, |usedIndexes|);
    assert usedIndexes[..|usedIndexes|] == usedIndexes;
    UsedHoldCovered(s, c, isUsed, usedIndexes, added, fs);
    if s.heap.TypeOf(fs) !in usedIndexes {
      NotHeld(s, c, usedIndexes, added, fs);
    }
  }

  lemma UsedAre(s: Setup, c: Contents, isUsed: seq<bool>, usedIndexes: seq<nat>)
    requires SetupOK(s) && UsedOK(s, c, isUsed, usedIndexes)
    ensures ParentsOK(s.parents) && Distinct(usedIndexes)
    ensures forall t :: t in usedIndexes ==> IsType(s.parents, t)
  {
  }

  lemma NotHeld(s: Setup, c: Contents, usedIndexes: seq<nat>, added: seq<nat>, fs: nat)
    requires SetupOK(s) && ContentsOK(s, c) && s.heap.TypeOf(fs) !in usedIndexes
    requires forall t :: t in usedIndexes ==> IsType(s.parents, t)
    requires InUsed(c, usedIndexes, |usedIndexes|, fs) <==> fs in added && HasSlots(s, fs)
    ensures Covering(s, fs) * multiset(added)[fs] == 0
  {
    if InUsed(c, usedIndexes, |usedIndexes|, fs) {
      UsedRow(s, c, usedIndexes, fs);
    } else if fs in added {
      assert Covering(s, fs) == 0;
    } else {
      assert multiset(added)[fs] == 0;
    }
  }

  // Only the row of its own type holds a structure.
  lemma UsedRow(s: Setup, c: Contents, usedIndexes: seq<nat>, fs: nat)
    requires SetupOK(s) && ContentsOK(s, c) && InUsed(c, usedIndexes, |usedIndexes|, fs)
    requires forall t :: t in usedIndexes ==> IsType(s.parents, t)
    ensures s.heap.TypeOf(fs) in usedIndexes
  {
    var k :| 0 <= k < |usedIndexes| && usedIndexes[k] < |c| && InRow(c[usedIndexes[k]], |c[usedIndexes[k]]|, fs);
    var u := usedIndexes[k];
    assert u in usedIndexes;
    var i :| 0 <= i < |c[u]| && fs in c[u][i];
    assert RowOK(s, u, c[u]);
    assert SlotOK(s, u, Slots(s, |s.definitions|, u), c[u], i);
  }

  lemma {:induction false} UncoveredCount(s: Setup, added: seq<nat>, fs: nat)
    requires ParentsOK(s.parents)
    ensures multiset(Uncovered(s, added))[fs] == if HasSlots(s, fs) then 0 else multiset(added)[fs]
  {
    if added != [] {
      assert added == added[..|added| - 1] + [added[|added| - 1]];
      UncoveredCount(s, added[..|added| - 1], fs);
    }
  }

  lemma CoveredContains(s: Setup, added: seq<nat>, fs: nat)
    requires ParentsOK(s.parents)
    ensures fs in Covered(s, added) <==> fs in added && HasSlots(s, fs)
  {
  }

  lemma UsedTypes(r: IndexRepository)
    requires r.Valid()
    ensures ParentsOK(r.setup.parents)
    ensures forall k :: 0 <= k < |r.usedIndexes| ==> r.usedIndexes[k] < |r.indexes|
  {
    forall k | 0 <= k < |r.usedIndexes| ensures r.usedIndexes[k] < |r.indexes| {
      assert r.usedIndexes[k] in r.usedIndexes;
    }
  }

  // The structures that no index covers, and those in the indexes of all used types.
  method IndexedStructures(r: IndexRepository) returns (all: seq<nat>)
    requires r.Valid()
    ensures ParentsOK(r.setup.parents) && Elements(all) == Elements(r.added)
    ensures Distinct(all) <==> CollectedOnce(r.setup, r.added)
  {
    hide *;
    var used := UsedStructures(r);
    Disassemble(r);
    all := r.undefinedIndex + used;
    forall fs ensures fs in Elements(all) <==> fs in Elements(r.added) {
      UncoveredContains(r.setup, r.added, fs);
      CoveredContains(r.setup, r.added, fs);
      assert fs in used <==> fs in Elements(used);
    }
    assert Elements(all) == Elements(r.added);
    forall fs ensures multiset(all)[fs] == Collected(r.setup, r.added, fs) {
      UncoveredCount(r.setup, r.added, fs);
      CollectedIs(r.setup, r.added, fs);
    }
    OnceIfDistinct(r.setup, r.added, all);
  }

  // How often the structure is collected.
  ghost function Collected(s: Setup, added: seq<nat>, fs: nat): nat
    requires ParentsOK(s.parents)
  {
    (if HasSlots(s, fs) then Covering(s, fs) else 1) * multiset(added)[fs]
  }

  // Every structure was added once, and no more than one index covers its type.
  ghost predicate CollectedOnce(s: Setup, added: seq<nat>)
    requires ParentsOK(s.parents)
  {
    Distinct(added) && forall fs :: fs in added ==> Covering(s, fs) <= 1
  }

  lemma CollectedIs(s: Setup, added: seq<nat>, fs: nat)
    requires ParentsOK(s.parents)
    ensures Collected(s, added, fs)
         == (if HasSlots(s, fs) then 0 else multiset(added)[fs]) + Covering(s, fs) * multiset(added)[fs]
  {
  }

  lemma OnceIfDistinct(s: Setup, added: seq<nat>, all: seq<nat>)
    requires ParentsOK(s.parents) && Elements(all) == Elements(added)
    requires forall fs :: multiset(all)[fs] == Collected(s, added, fs)
    ensures Distinct(all) <==> CollectedOnce(s, added)
  {
    DistinctCounts(all);
    DistinctCounts(added);
    assert forall fs :: fs in all <==> fs in added;
    forall fs | fs in added
      ensures multiset(all)[fs] == 1 <==> multiset(added)[fs] == 1 && Covering(s, fs) <= 1
    {
      ProductIsOne(if HasSlots(s, fs) then Covering(s, fs) else 1, multiset(added)[fs]);
    }
  }

  lemma ProductIsOne(a: nat, b: nat)
    ensures a * b == 1 <==> a == 1 && b == 1
  {
    if a >= 2 && b >= 1 {
      assert a * b >= 2 * b;
    }
  }

  // What serializeIndexedFSs writes for a view.
  method ViewList(r: IndexRepository) returns (fss: seq<nat>)
    requires r.Valid()
    ensures fss == Ascending(Elements(r.added))
  {
    hide *;
    var all := IndexedStructures(r);
    fss := SortUnique(all);
  }

  /**
   getIndexedFSs: in front stands what was added, in ascending order. What
   std::unique leaves behind it stays, so this is all if and only if no
   structure was added twice or is covered by two indexes.
   */
  method GetIndexedFSs(r: IndexRepository) returns (fss: seq<nat>)
    requires r.Valid()
    ensures ParentsOK(r.setup.parents) && Ascending(Elements(r.added)) <= fss
    ensures fss == Ascending(Elements(r.added)) <==> CollectedOnce(r.setup, r.added)
  {
    hide *;
    fss := IndexedStructures(r);
    ghost var all := fss;
    fss := Sort(fss);
    SameElements(fss, all);
    ghost var n;
    fss, n := Unique(fss);
    assert fss[..n] <= fss && (n == |fss| ==> fss[..n] == fss);
  }

  /** A structure that was added twice comes back behind the others. */
  method AddedTwice() returns (r: IndexRepository, fss: seq<nat>)
    ensures r.Valid() && r.added == [1, 1] && ParentsOK(r.setup.parents)
    ensures Ascending(Elements(r.added)) <= fss && fss != Ascending(Elements(r.added))
  {
    hide *;
    OneSubtypeOK();
    r := new IndexRepository(OneSubtype());
    OwnRow(r, 2);
    r.Add(1);
    OwnRow(r, 2);
    r.Add(1);
    assert [] + [1] + [1] == [1, 1];
    TwiceIsNotOnce(r.setup);
    fss := GetIndexedFSs(r);
  }

  lemma TwiceIsNotOnce(s: Setup)
    requires SetupOK(s)
    ensures ParentsOK(s.parents) && !CollectedOnce(s, [1, 1])
  {
    assert [1, 1][0] == [1, 1][1];
  }

  // --------------------------------------------------------- the written form

  // A count and the structures, for each list.
  function Encoded(lists: seq<seq<nat>>): seq<nat> {
    if lists == [] then [] else [|lists[0]|] + lists[0] + Encoded(lists[1..])
  }

  lemma {:induction false} EncodedAppend(lists: seq<seq<nat>>, l: seq<nat>)
    ensures Encoded(lists + [l]) == Encoded(lists) + [|l|] + l
  {
    var all := lists + [l];
    if lists == [] {
      assert all[1..] == [];
    } else {
      assert all[1..] == lists[1..] + [l];
      EncodedAppend(lists[1..], l);
    }
  }

  // The list of the base CAS, and of every view: what its repository has, or nothing without one.
  ghost function ListOf(v: ViewIndexes): seq<nat>
    reads if v.Indexes? then {v.repository} else {}
  {
    if v.Indexes? then Ascending(Elements(v.repository.added)) else []
  }

  ghost function ListsOf(views: seq<ViewIndexes>): (lists: seq<seq<nat>>)
    reads set v | v in views && v.Indexes? :: v.repository
    ensures |lists| == |views| && forall i :: 0 <= i < |views| ==> lists[i] == ListOf(views[i])
  {
    if views == [] then [] else ListsOf(views[..|views| - 1]) + [ListOf(views[|views| - 1])]
  }

  /**
   serializeIndexedFSs. Of the base CAS only the indexes count, of a view also
   the structures that no index covers.
   */
  method SerializeIndexedFSs(base: IndexRepository, views: seq<ViewIndexes>) returns (list: seq<nat>)
    requires base.Valid() && forall v :: v in views && v.Indexes? ==> v.repository.Valid()
    ensures ParentsOK(base.setup.parents)
    ensures list == [|views|] + Encoded([Ascending(Covered(base.setup, base.added))] + ListsOf(views))
  {
    hide *;
    var all := UsedStructures(base);
    var own := SortUnique(all);
    list := [|views|] + [|own|] + own;
    EncodedOne(own);
    for i := 0 to |views|
      invariant list == [|views|] + Encoded([own] + ListsOf(views[..i]))
    {
      var viewList := [];
      if views[i].Indexes? {
        viewList := ViewList(views[i].repository);
      }
      EncodedAppend([own] + ListsOf(views[..i]), viewList);
      ListsOfOneMore(views, i);
      assert [own] + ListsOf(views[..i + 1]) == [own] + ListsOf(views[..i]) + [viewList];
      list := list + [|viewList|] + viewList;
    }
    assert views[..|views|] == views;
  }

  lemma EncodedOne(own: seq<nat>)
    ensures Encoded([own] + ListsOf([])) == [|own|] + own
  {
    assert ListsOf([]) == [];
    assert [own] + ListsOf([]) == [own];
    assert [own][1..] == [];
  }

  lemma ListsOfOneMore(views: seq<ViewIndexes>, i: nat)
    requires i < |views|
    ensures ListsOf(views[..i + 1]) == ListsOf(views[..i]) + [ListOf(views[i])]
    ensures views[i].NoIndexes? ==> ListOf(views[i]) == []
    ensures views[i].Indexes? ==> ListOf(views[i]) == Ascending(Elements(views[i].repository.added))
  {
    assert views[..i + 1][..i] == views[..i];
  }

  // ---------------------------------------------------------------- reading

  // There are n lists from the position on.
  predicate HasLists(list: seq<nat>, at: nat, n: nat)
    decreases n
  {
    n == 0 || (at < |list| && at + 1 + list[at] <= |list| && HasLists(list, at + 1 + list[at], n - 1))
  }

  function ReadLists(list: seq<nat>, at: nat, n: nat): (lists: seq<seq<nat>>)
    requires HasLists(list, at, n)
    ensures |lists| == n
    decreases n
  {
    if n == 0 then [] else [list[at + 1..at + 1 + list[at]]] + ReadLists(list, at + 1 + list[at], n - 1)
  }

  // Where the lists of the views begin: behind that of the base CAS, or on its count if that is zero.
  function ViewsStart(list: seq<nat>): nat
    requires |list| >= 2
  {
    if list[1] > 0 then 2 + list[1] else 1
  }

  predicate Complete(list: seq<nat>) {
    |list| >= 2 && 2 + list[1] <= |list| && HasLists(list, ViewsStart(list), list[0])
  }

  lemma {:induction false} ReadEncoded(before: seq<nat>, lists: seq<seq<nat>>, n: nat, after: seq<nat>)
    requires n <= |lists|
    ensures var list := before + Encoded(lists) + after;
            HasLists(list, |before|, n) && ReadLists(list, |before|, n) == lists[..n]
    decreases n
  {
    if n > 0 {
      var list, l := before + Encoded(lists) + after, lists[0];
      assert list[|before|] == |l|;
      assert list[|before| + 1..|before| + 1 + |l|] == l;
      var before' := before + [|l|] + l;
      assert list == before' + Encoded(lists[1..]) + after;
      ReadEncoded(before', lists[1..], n - 1, after);
      assert lists[..n] == [l] + lists[1..][..n - 1];
    }
  }

  lemma ReturnWithBase(lists: seq<seq<nat>>)
    requires lists != [] && lists[0] != []
    ensures var list := [|lists| - 1] + Encoded(lists);
            && |list| >= 2 && ViewsStart(list) == 2 + |lists[0]| && HasLists(list, ViewsStart(list), |lists| - 1)
            && ReadLists(list, ViewsStart(list), |lists| - 1) == lists[1..]
  {
    var n, own, rest := |lists| - 1, lists[0], lists[1..];
    var code, start := Encoded(rest), [n, |own|] + own;
    assert Encoded(lists) == [|own|] + own + code;
    hide HasLists, ReadLists, Encoded;
    assert [n] + ([|own|] + own + code) == start + code;
    assert start + code == start + code + [];
    ReadEncoded(start, rest, n, []);
    assert rest[..n] == rest;
  }

  lemma ReturnWithoutBase(lists: seq<seq<nat>>)
    requires lists != [] && lists[0] == []
    ensures var list := [|lists| - 1] + Encoded(lists);
            && |list| >= 2 && ViewsStart(list) == 1 && HasLists(list, ViewsStart(list), |lists| - 1)
            && ReadLists(list, ViewsStart(list), |lists| - 1) == lists[..|lists| - 1]
  {
    hide HasLists, ReadLists;
    var n := |lists| - 1;
    assert [n] + Encoded(lists) == [n] + Encoded(lists) + [];
    ReadEncoded([n], lists, n, []);
  }

  /**
   The lists of the views are read back exactly when the list of the base CAS
   is not empty or there is nothing to read: without structures in the base
   CAS every view gets the list of the one before it.
   */
  lemma IndexListsReturn(lists: seq<seq<nat>>)
    requires lists != []
    ensures var list := [|lists| - 1] + Encoded(lists);
            && Complete(list) && list[0] == |lists| - 1 && list[2..2 + list[1]] == lists[0]
            && var views := ReadLists(list, ViewsStart(list), |lists| - 1);
            && (lists[0] != [] ==> views == lists[1..])
            && (lists[0] == [] ==> views == lists[..|lists| - 1])
            && (views == lists[1..] <==> lists[0] != [] || forall l :: l in lists ==> l == [])
  {
    hide HasLists, ReadLists;
    var list := [|lists| - 1] + Encoded(lists);
    assert list == [|lists| - 1, |lists[0]|] + lists[0] + Encoded(lists[1..]);
    if lists[0] != [] {
      ReturnWithBase(lists);
    } else {
      ReturnWithoutBase(lists);
      ShiftedIsConstant(lists);
    }
  }

  /** The only structure of the only view gets lost. */
  lemma ViewReadAsBase(fs: nat)
    ensures var list := [1] + Encoded([[], [fs]]);
            Complete(list) && list[0] == 1 && ReadLists(list, ViewsStart(list), 1) == [[]]
  {
    hide HasLists, ReadLists;
    IndexListsReturn([[], [fs]]);
    assert [[], [fs]][..1] == [[]];
  }

  lemma ShiftedIsConstant(lists: seq<seq<nat>>)
    requires lists != [] && lists[0] == []
    ensures lists[..|lists| - 1] == lists[1..] <==> forall l :: l in lists ==> l == []
  {
    if lists[..|lists| - 1] == lists[1..] {
      for i := 1 to |lists|
        invariant forall j :: 0 <= j < i ==> lists[j] == []
      {
        assert lists[..|lists| - 1][i - 1] == lists[1..][i - 1];
      }
    }
    if forall l :: l in lists ==> l == [] {
      forall i | 0 <= i < |lists| - 1 ensures lists[..|lists| - 1][i] == lists[1..][i] {
        assert lists[i] in lists && lists[i + 1] in lists;
      }
    }
  }

  // The repositories share no index.
  ghost predicate Separate(rs: seq<IndexRepository>)
    reads rs
  {
    forall i, j :: 0 <= i < j < |rs| ==>
      rs[i] != rs[j] && rs[i].singles !! rs[j].singles && rs[i].caches !! rs[j].caches
  }

  ghost predicate CanAdd(r: IndexRepository, l: seq<nat>)
    reads r`setup
  {
    forall fs :: fs in l ==> fs != 0 && IsType(r.setup.parents, r.setup.heap.TypeOf(fs))
  }

  // The view gets the list, or keeps what it has where the list is empty.
  ghost predicate TookList(before: seq<nat>, l: seq<nat>, after: seq<nat>) {
    after == if l == [] then before else l
  }

  // What the views have after reading the first n lists.
  ghost predicate ReadUpTo(list: seq<nat>, n: nat, before: seq<seq<nat>>, after: seq<seq<nat>>)
    requires Complete(list)
  {
    && n <= list[0] < |before| == |after| && after[0] == list[2..2 + list[1]]
    && (forall v :: 1 <= v <= n ==> TookList(before[v], ReadLists(list, ViewsStart(list), list[0])[v - 1], after[v]))
    && (forall v :: n < v < |before| ==> after[v] == before[v])
  }

  ghost function Added(rs: seq<IndexRepository>): (a: seq<seq<nat>>)
    reads rs`added
    ensures |a| == |rs| && forall i :: 0 <= i < |rs| ==> a[i] == rs[i].added
  {
    if rs == [] then [] else Added(rs[..|rs| - 1]) + [rs[|rs| - 1].added]
  }

  ghost function Setups(rs: seq<IndexRepository>): (s: seq<Setup>)
    reads rs`setup
    ensures |s| == |rs| && forall v :: 0 <= v < |rs| ==> s[v] == rs[v].setup
  {
    if rs == [] then [] else Setups(rs[..|rs| - 1]) + [rs[|rs| - 1].setup]
  }

  ghost predicate AllIntact(rs: seq<IndexRepository>)
    reads rs, AllSingles(rs), AllCaches(rs)
  {
    Separate(rs) && forall v :: 0 <= v < |rs| ==> rs[v].Intact()
  }

  // Refilling one repository leaves the others alone.
  method RefillOne(rs: seq<IndexRepository>, v: nat, list: seq<nat>)
    requires AllIntact(rs) && v < |rs| && CanAdd(rs[v], list)
    modifies rs`clean, rs`isUsed, rs`usedIndexes, rs`undefinedIndex, rs`added,
             AllSingles(rs)`structures
    ensures AllIntact(rs) && Added(rs) == old(Added(rs))[v := list] && JustFilled(rs[v])
    ensures forall i :: 0 <= i < |rs| && i != v && old(JustFilled(rs[i])) ==> JustFilled(rs[i])
  {
    hide *;
    Apart(rs, v);
    OwnObjects(rs, v);
    CanAddMeans(rs[v], list);
    Refill(rs[v], list);
    JustFilledMeans(rs[v]);
    ValidIsIntact(rs[v]);
    forall i | 0 <= i < |rs| && i != v
      ensures rs[i].Intact() && rs[i].added == old(rs[i].added) && (old(JustFilled(rs[i])) ==> JustFilled(rs[i]))
    {
    }
    Together(rs);
  }

  lemma CanAddMeans(r: IndexRepository, l: seq<nat>)
    requires CanAdd(r, l)
    ensures forall fs :: fs in l ==> fs != 0 && IsType(r.setup.parents, r.setup.heap.TypeOf(fs))
  {
  }

  lemma Apart(rs: seq<IndexRepository>, v: nat)
    requires AllIntact(rs) && v < |rs|
    ensures Separate(rs) && forall i :: 0 <= i < |rs| ==> rs[i].Intact()
    ensures rs[v] in rs
    ensures forall i :: 0 <= i < |rs| && i != v ==>
              rs[i] != rs[v] && rs[i].singles !! rs[v].singles && rs[i].caches !! rs[v].caches
  {
  }

  lemma Together(rs: seq<IndexRepository>)
    requires Separate(rs) && forall i :: 0 <= i < |rs| ==> rs[i].Intact()
    ensures AllIntact(rs)
  {
  }

  // Every list has structures of the heap.
  ghost predicate CanAddAll(rs: seq<IndexRepository>, list: seq<nat>)
    requires Complete(list)
    reads rs`setup
  {
    && list[0] < |rs| && CanAdd(rs[0], list[2..2 + list[1]])
    && forall v :: 1 <= v <= list[0] ==> CanAdd(rs[v], ReadLists(list, ViewsStart(list), list[0])[v - 1])
  }

  // The lists from the cursor on are those that are left to read.
  ghost predicate CursorAt(list: seq<nat>, at: nat, view: nat)
    requires Complete(list)
  {
    && view <= list[0] && HasLists(list, at, list[0] - view)
    && ReadLists(list, at, list[0] - view) == ReadLists(list, ViewsStart(list), list[0])[view..]
  }

  lemma Bounds(list: seq<nat>)
    requires Complete(list)
    ensures |list| >= 2 && 2 + list[1] <= |list| && ViewsStart(list) == if list[1] > 0 then 2 + list[1] else 1
  {
  }

  lemma CursorBegin(list: seq<nat>, before: seq<seq<nat>>)
    requires Complete(list) && list[0] < |before|
    ensures CursorAt(list, ViewsStart(list), 0) && ReadUpTo(list, 0, before, before[0 := list[2..2 + list[1]]])
  {
  }

  lemma CursorStep(list: seq<nat>, at: nat, view: nat, before: seq<seq<nat>>, now: seq<seq<nat>>)
    requires Complete(list) && CursorAt(list, at, view) && view < list[0] && ReadUpTo(list, view, before, now)
    ensures at < |list| && at + 1 + list[at] <= |list| && CursorAt(list, at + 1 + list[at], view + 1)
    ensures var l := list[at + 1..at + 1 + list[at]];
            ReadUpTo(list, view + 1, before, if l == [] then now else now[view + 1 := l])
  {
    var lists, rest := ReadLists(list, ViewsStart(list), list[0]), ReadLists(list, at, list[0] - view);
    assert rest[0] == lists[view] && rest[1..] == lists[view + 1..];
    hide HasLists, ReadLists;
    ReadOneMore(list, view, before, now, list[at + 1..at + 1 + list[at]]);
  }

  lemma ReadOneMore(list: seq<nat>, view: nat, before: seq<seq<nat>>, now: seq<seq<nat>>, l: seq<nat>)
    requires Complete(list) && view < list[0] && ReadUpTo(list, view, before, now)
    requires l == ReadLists(list, ViewsStart(list), list[0])[view]
    ensures ReadUpTo(list, view + 1, before, if l == [] then now else now[view + 1 := l])
  {
    hide HasLists, ReadLists;
  }

  // The first n views, and the base CAS, that got a list hold what it says.
  ghost predicate Refilled(list: seq<nat>, n: nat, rs: seq<IndexRepository>)
    requires Complete(list)
    reads rs, AllSingles(rs), AllCaches(rs)
  {
    n <= list[0] < |rs| && forall v :: 0 <= v <= n && GotList(list, v) ==> JustFilled(rs[v])
  }

  predicate GotList(list: seq<nat>, v: nat)
    requires Complete(list)
  {
    v == 0 || (v <= list[0] && ReadLists(list, ViewsStart(list), list[0])[v - 1] != [])
  }

  /**
   deserializeIndexedFSs. Nothing is asked of what the repositories held before,
   which belongs to the heap that was replaced. A view whose count is zero is
   not reset: it keeps whatever it has indexed.
   */
  method DeserializeIndexedFSs(list: seq<nat>, repositories: seq<IndexRepository>)
    requires Complete(list) && AllIntact(repositories) && CanAddAll(repositories, list)
    modifies repositories`clean, repositories`isUsed, repositories`usedIndexes, repositories`undefinedIndex,
             repositories`added, AllSingles(repositories)`structures
    ensures AllIntact(repositories) && ReadUpTo(list, list[0], old(Added(repositories)), Added(repositories))
    ensures Refilled(list, list[0], repositories)
  {
    hide *;
    ghost var before := Added(repositories);
    Bounds(list);
    BaseCanAdd(repositories, list);
    CursorBegin(list, before);
    FillBase(list, repositories);
    var at: nat := if list[1] > 0 then 2 + list[1] else 1;
    for view := 0 to list[0]
      invariant AllIntact(repositories) && CursorAt(list, at, view) && ReadUpTo(list, view, before, Added(repositories))
      invariant Refilled(list, view, repositories) && CanAddAll(repositories, list)
    {
      at := NextView(list, at, view, repositories, before);
    }
  }

  // One round of the loop over the views.
  method NextView(list: seq<nat>, at: nat, view: nat, rs: seq<IndexRepository>,
                  ghost before: seq<seq<nat>>) returns (next: nat)
    requires Complete(list) && view < list[0] && AllIntact(rs) && CanAddAll(rs, list)
    requires CursorAt(list, at, view) && ReadUpTo(list, view, before, Added(rs)) && Refilled(list, view, rs)
    modifies rs`clean, rs`isUsed, rs`usedIndexes, rs`undefinedIndex, rs`added, AllSingles(rs)`structures
    ensures AllIntact(rs) && CanAddAll(rs, list) && Refilled(list, view + 1, rs)
    ensures CursorAt(list, next, view + 1) && ReadUpTo(list, view + 1, before, Added(rs))
  {
    hide *;
    CursorStep(list, at, view, before, Added(rs));
    BaseCanAdd(rs, list);
    FillView(list, at, view, rs);
    next := at + 1 + list[at];
  }

  // The base CAS.
  method FillBase(list: seq<nat>, rs: seq<IndexRepository>)
    requires Complete(list) && AllIntact(rs) && CanAddAll(rs, list)
    modifies rs`clean, rs`isUsed, rs`usedIndexes, rs`undefinedIndex, rs`added,
             AllSingles(rs)`structures
    ensures AllIntact(rs) && Refilled(list, 0, rs) && ReadUpTo(list, 0, old(Added(rs)), Added(rs))
  {
    hide *;
    BaseCanAdd(rs, list);
    CursorBegin(list, Added(rs));
    RefillOne(rs, 0, list[2..2 + list[1]]);
    FilledBase(list, rs);
  }

  // One view of the loop.
  method FillView(list: seq<nat>, at: nat, view: nat, rs: seq<IndexRepository>)
    requires Complete(list) && view < list[0] < |rs| && AllIntact(rs) && CursorAt(list, at, view)
    requires Refilled(list, view, rs)
    requires at < |list| && at + 1 + list[at] <= |list| && CanAddAll(rs, list)
    modifies rs`clean, rs`isUsed, rs`usedIndexes, rs`undefinedIndex, rs`added,
             AllSingles(rs)`structures
    ensures AllIntact(rs) && Refilled(list, view + 1, rs)
    ensures var l := list[at + 1..at + 1 + list[at]];
            Added(rs) == if l == [] then old(Added(rs)) else old(Added(rs))[view + 1 := l]
  {
    hide *;
    ListAtCursor(rs, list, at, view);
    FilledSoFar(list, view, rs);
    if list[at] != 0 {
      assert list[at + 1..at + 1 + list[at]] != [];
      RefillOne(rs, view + 1, list[at + 1..at + 1 + list[at]]);
    }
    FilledNext(list, view, rs);
  }

  lemma BaseCanAdd(rs: seq<IndexRepository>, list: seq<nat>)
    requires Complete(list) && CanAddAll(rs, list)
    ensures list[0] < |Added(rs)|
    ensures |list| >= 2 && 2 + list[1] <= |list| && list[0] < |rs| && CanAdd(rs[0], list[2..2 + list[1]])
  {
  }

  lemma FilledBase(list: seq<nat>, rs: seq<IndexRepository>)
    requires Complete(list) && list[0] < |rs| && JustFilled(rs[0])
    ensures Refilled(list, 0, rs)
  {
  }

  lemma ListAtCursor(rs: seq<IndexRepository>, list: seq<nat>, at: nat, view: nat)
    requires Complete(list) && CursorAt(list, at, view) && view < list[0] && CanAddAll(rs, list)
    ensures at < |list| && at + 1 + list[at] <= |list| && (GotList(list, view + 1) <==> list[at] != 0)
    ensures view + 1 < |rs| && CanAdd(rs[view + 1], list[at + 1..at + 1 + list[at]])
  {
    assert ReadLists(list, at, list[0] - view)[0] == ReadLists(list, ViewsStart(list), list[0])[view];
  }

  lemma FilledSoFar(list: seq<nat>, n: nat, rs: seq<IndexRepository>)
    requires Complete(list) && Refilled(list, n, rs)
    ensures n <= list[0] < |rs| && forall v: nat :: v <= n && GotList(list, v) ==> JustFilled(rs[v])
  {
  }

  lemma FilledNext(list: seq<nat>, n: nat, rs: seq<IndexRepository>)
    requires Complete(list) && n < list[0] < |rs| && forall v: nat :: v <= n && GotList(list, v) ==> JustFilled(rs[v])
    requires GotList(list, n + 1) ==> JustFilled(rs[n + 1])
    ensures Refilled(list, n + 1, rs)
  {
  }

  /**
   Written by one CAS and read by another: each view has the same structures
   indexed, if the base CAS has some and the view has some or had none before.
   */
  lemma IndexedStructuresReturn(list: seq<nat>, own: seq<nat>, lists: seq<seq<nat>>, before: seq<seq<nat>>,
                                after: seq<seq<nat>>)
    requires list == [|lists|] + Encoded([own] + lists) && own != []
    requires Complete(list) && ReadUpTo(list, |lists|, before, after)
    ensures after[0] == own
    ensures forall v :: 1 <= v <= |lists| ==> (after[v] == lists[v - 1] <==> lists[v - 1] != [] || before[v] == [])
  {
    var all := [own] + lists;
    IndexListsReturn(all);
    assert all[1..] == lists;
    forall v | 1 <= v <= |lists| ensures after[v] == lists[v - 1] <==> lists[v - 1] != [] || before[v] == [] {
      assert TookList(before[v], lists[v - 1], after[v]);
    }
  }
}
