/**
 What the comparator does with one key, said of the cells, the heaps and the
 priority numbers themselves.
 */
module KeyMeaning {
  import opened SiblingOrder
  import opened IndexComparator
  import TopologicalSort

  // The comparator with the first n keys.
  function FirstKeys(o: Order, n: nat): Order
    requires n <= |o.keys|
  {
    Order(o.keys[..n], o.heap)
  }

  // Key i is the first one on which a and b may differ.
  ghost predicate Reaches(o: Order, a: nat, b: nat, i: nat) {
    i < |o.keys| && Ties(FirstKeys(o, i), a, b)
  }

  // Decided by key i, which may be reversed.
  ghost predicate GoesBefore(o: Order, i: nat, a: nat, b: nat)
    requires i < |o.keys|
  {
    if o.keys[i].reversed then Precedes(o, b, a) && !Precedes(o, a, b) else Precedes(o, a, b) && !Precedes(o, b, a)
  }

  lemma ReachesMeans(o: Order, a: nat, b: nat, i: nat)
    requires Reaches(o, a, b, i)
    ensures forall j {:trigger o.keys[j]} :: 0 <= j < i ==> ValueOf(o, o.keys[j], a) == ValueOf(o, o.keys[j], b)
  {
    forall j {:trigger o.keys[j]} | 0 <= j < i ensures ValueOf(o, o.keys[j], a) == ValueOf(o, o.keys[j], b) {
      var k := FirstKeys(o, i).keys[j];
      assert k in FirstKeys(o, i).keys;
      assert ValueOf(FirstKeys(o, i), k, a) == ValueOf(FirstKeys(o, i), k, b);
    }
  }

  lemma LessGoesBefore(o: Order, i: nat, a: nat, b: nat)
    requires Reaches(o, a, b, i) && ValueLess(ValueOf(o, o.keys[i], a), ValueOf(o, o.keys[i], b))
    ensures GoesBefore(o, i, a, b)
  {
    ReachesMeans(o, a, b, i);
    assert if o.keys[i].reversed then DecidedAt(o, b, a, i) else DecidedAt(o, a, b, i);
    PrecedesAsymmetric(o, a, b);
  }

  lemma EqualReachesNext(o: Order, i: nat, a: nat, b: nat)
    requires Reaches(o, a, b, i) && ValueOf(o, o.keys[i], a) == ValueOf(o, o.keys[i], b)
    ensures Ties(FirstKeys(o, i + 1), a, b)
  {
    ReachesMeans(o, a, b, i);
    var p := FirstKeys(o, i + 1);
    forall k | k in p.keys ensures ValueOf(p, k, a) == ValueOf(p, k, b) {
      var j :| 0 <= j < |p.keys| && p.keys[j] == k;
      assert o.keys[j] == k;
    }
  }

  // ------------------------------------------------------------ kinds of keys

  /** Type priority: the type with the smaller number comes first, or last if the key is reversed. */
  lemma PriorityDecides(o: Order, i: nat, a: nat, b: nat)
    requires Reaches(o, a, b, i) && o.keys[i].kind == TypePriority
    requires a < |o.heap.cells| && o.heap.cells[a] in o.heap.priority
    requires b < |o.heap.cells| && o.heap.cells[b] in o.heap.priority
    ensures o.heap.priority[o.heap.cells[a]] < o.heap.priority[o.heap.cells[b]] ==> GoesBefore(o, i, a, b)
    ensures o.heap.cells[a] == o.heap.cells[b] ==> Ties(FirstKeys(o, i + 1), a, b)
  {
    hide Precedes, Ties;
    if o.heap.priority[o.heap.cells[a]] < o.heap.priority[o.heap.cells[b]] {
      LessGoesBefore(o, i, a, b);
    }
    if o.heap.cells[a] == o.heap.cells[b] {
      EqualReachesNext(o, i, a, b);
    }
  }

  function Width(kind: Kind): (modulus: nat)
    requires kind == Integer || kind == Byte || kind == Short
  {
    match kind
    case Integer => 0x1_0000_0000
    case Byte => 0x100
    case Short => 0x1_0000
  }

  /** Integers, bytes and shorts: the smaller of the numbers that 32, 8 or 16 bits of the cells mean. */
  lemma NumbersDecide(o: Order, i: nat, a: nat, b: nat, m: int, n: int)
    requires Reaches(o, a, b, i) && o.keys[i].kind in {Integer, Byte, Short}
    requires var at := o.keys[i].offset;
             && a + at < |o.heap.cells| && Means(o.heap.cells[a + at], Width(o.keys[i].kind), m)
             && b + at < |o.heap.cells| && Means(o.heap.cells[b + at], Width(o.keys[i].kind), n)
    ensures m < n ==> GoesBefore(o, i, a, b)
    ensures m == n ==> Ties(FirstKeys(o, i + 1), a, b)
  {
    hide Precedes, Ties;
    var k := o.keys[i];
    SignedMeans(o.heap.cells[a + k.offset], Width(k.kind), m);
    SignedMeans(o.heap.cells[b + k.offset], Width(k.kind), n);
    if m < n {
      LessGoesBefore(o, i, a, b);
    }
    if m == n {
      EqualReachesNext(o, i, a, b);
    }
  }

  /** Booleans: one means true, and false comes first. */
  lemma BooleansDecide(o: Order, i: nat, a: nat, b: nat)
    requires Reaches(o, a, b, i) && o.keys[i].kind == Boolean
    requires a + o.keys[i].offset < |o.heap.cells| && b + o.keys[i].offset < |o.heap.cells|
    ensures var x, y := o.heap.cells[a + o.keys[i].offset] == 1, o.heap.cells[b + o.keys[i].offset] == 1;
            && (!x && y ==> GoesBefore(o, i, a, b))
            && (x == y ==> Ties(FirstKeys(o, i + 1), a, b))
  {
    hide Precedes, Ties;
    var x, y := o.heap.cells[a + o.keys[i].offset] == 1, o.heap.cells[b + o.keys[i].offset] == 1;
    if !x && y {
      LessGoesBefore(o, i, a, b);
    }
    if x == y {
      EqualReachesNext(o, i, a, b);
    }
  }

  // n stands in the 64-bit heap where the cell says; an unset one reads as 10.
  predicate IsLong(h: HeapView, c: nat, n: int) {
    if c == 0 then n == 10 else c < |h.longs| && h.longs[c] == n
  }

  /** Longs: the smaller of the numbers in the 64-bit heap. */
  lemma LongsDecide(o: Order, i: nat, a: nat, b: nat, m: int, n: int)
    requires Reaches(o, a, b, i) && o.keys[i].kind == Long
    requires var at := o.keys[i].offset;
             && a + at < |o.heap.cells| && IsLong(o.heap, o.heap.cells[a + at], m)
             && b + at < |o.heap.cells| && IsLong(o.heap, o.heap.cells[b + at], n)
    ensures m < n ==> GoesBefore(o, i, a, b)
    ensures m == n ==> Ties(FirstKeys(o, i + 1), a, b)
  {
    hide Precedes, Ties;
    if m < n {
      LessGoesBefore(o, i, a, b);
    }
    if m == n {
      EqualReachesNext(o, i, a, b);
    }
  }

  // The text that a string reference stands for: its two cells are a position and a length.
  predicate IsText(h: HeapView, ref: nat, text: seq<nat>) {
    if ref == 0 then text == []
    else
      && 2 * ref < |h.stringRefs| && h.stringRefs[2 * ref - 1] + h.stringRefs[2 * ref] <= |h.chars|
      && text == h.chars[h.stringRefs[2 * ref - 1]..h.stringRefs[2 * ref - 1] + h.stringRefs[2 * ref]]
  }

  lemma TextIs(h: HeapView, ref: nat, text: seq<nat>)
    requires IsText(h, ref, text)
    ensures h.Text(h.StringAt(ref)) == text
  {
    if ref != 0 {
      var pos, length := h.stringRefs[2 * ref - 1], h.stringRefs[2 * ref];
      assert h.StringAt(ref) == At(pos, length);
      var s := h.Text(At(pos, length));
      forall i | 0 <= i < |text| ensures s[i] == text[i] {
        assert s[i] == h.Char(pos + i);
        assert text[i] == h.chars[pos + i];
      }
    }
  }

  /** Strings: the lexicographically smaller text; an unset one is empty. */
  lemma TextsDecide(o: Order, i: nat, a: nat, b: nat, s: seq<nat>, t: seq<nat>)
    requires Reaches(o, a, b, i) && o.keys[i].kind == Text
    requires var at := o.keys[i].offset;
             && a + at < |o.heap.cells| && IsText(o.heap, o.heap.cells[a + at], s)
             && b + at < |o.heap.cells| && IsText(o.heap, o.heap.cells[b + at], t)
    ensures LexLess(s, t) ==> GoesBefore(o, i, a, b)
    ensures s == t ==> Ties(FirstKeys(o, i + 1), a, b)
  {
    hide Precedes, Ties, LexLess;
    TextIs(o.heap, o.heap.cells[a + o.keys[i].offset], s);
    TextIs(o.heap, o.heap.cells[b + o.keys[i].offset], t);
    if LexLess(s, t) {
      LessGoesBefore(o, i, a, b);
    }
    if s == t {
      EqualReachesNext(o, i, a, b);
    }
  }

  /** Lexicographic means: a proper prefix is less, and otherwise the first unit that differs decides. */
  lemma LexIsByUnits(common: seq<nat>, x: nat, s: seq<nat>, y: nat, t: seq<nat>)
    ensures LexLess(common, common + [y] + t) && !LexLess(common + [y] + t, common)
    ensures LexLess(common + [x] + s, common + [y] + t) <==> x < y || (x == y && LexLess(s, t))
  {
    var a, b := common + [x] + s, common + [y] + t;
    assert a[..|common|] == common == b[..|common|] && a[|common|] == x && b[|common|] == y;
    assert FirstDifference(common, b, |common|);
    LexAsymmetric(common, b);
    LexAsymmetric(a, b);
    if x < y {
      assert FirstDifference(a, b, |common|);
    } else if y < x {
      assert FirstDifference(b, a, |common|);
    } else {
      Shifted(common + [x], s, t);
    }
  }

  lemma Shifted(common: seq<nat>, s: seq<nat>, t: seq<nat>)
    ensures LexLess(common + s, common + t) <==> LexLess(s, t)
  {
    var n := |common|;
    if k: nat :| FirstDifference(s, t, k) {
      assert (common + s)[..n + k] == common + s[..k] == common + t[..k] == (common + t)[..n + k];
      assert FirstDifference(common + s, common + t, n + k);
    }
    if k: nat :| FirstDifference(common + s, common + t, k) {
      if k >= n {
        assert s[..k - n] == (common + s)[..k][n..] == (common + t)[..k][n..] == t[..k - n];
        assert FirstDifference(s, t, k - n);
      }
    }
  }

  // -------------------------------------------------------- accepted pairs

  /**
   With the numbers of commit and type priority as the first key, a structure
   of the first type of an accepted pair comes before one of the second.
   */
  lemma AcceptedPairDecides(o: Order, edges: TopologicalSort.Edges, a: nat, b: nat)
    requires NumbersForward(edges, o.heap.priority)
    requires |o.keys| >= 1 && o.keys[0] == Key(0, TypePriority, false)
    requires a < |o.heap.cells| && b < |o.heap.cells| && (o.heap.cells[a], o.heap.cells[b]) in edges
    ensures Precedes(o, a, b) && !Precedes(o, b, a)
  {
    PriorityDecides(o, 0, a, b);
  }
}
