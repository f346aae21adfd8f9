/**
 The comparator of an index: feature structures are ordered by a list of keys,
 each of which reads one value out of the heap and may be reversed.
 */
module IndexComparator {

  // The part of a heap that comparing reads, with the priority numbers of the types.
  // Strings are pairs of cells in stringRefs: a position in chars and a length.
  datatype HeapView =
    HeapView(cells: seq<nat>, stringRefs: seq<nat>, chars: seq<nat>, longs: seq<int>, priority: map<nat, nat>)
  {
    // Cells that do not exist read as zero, so that the laws need no side conditions.
    function Cell(a: nat): nat {
      if a < |cells| then cells[a] else 0
    }

    function Char(a: nat): nat {
      if a < |chars| then chars[a] else 0
    }

    function TypeOf(fs: nat): nat {
      Cell(fs)
    }

    // Types without a number come before all others.
    function Rank(t: nat): int {
      if t in priority then priority[t] else -1 - t
    }

    function RefCell(a: nat): nat {
      if a < |stringRefs| then stringRefs[a] else 0
    }

    function StringAt(ref: nat): StringRef {
      if ref == 0 then NoString else At(RefCell(2 * ref - 1), RefCell(2 * ref))
    }

    function Text(s: StringRef): (t: seq<nat>) {
      if s.NoString? then [] else seq<nat>(s.length, i requires 0 <= i => Char(s.pos + i))
    }

    // A long is a position in its own heap; an unset one reads as a line feed.
    function Long(c: nat): int {
      if c == 0 then 10 else if c < |longs| then longs[c] else 0
    }
  }

  datatype StringRef = NoString | At(pos: nat, length: nat)

  datatype Kind = TypePriority | Integer | Text | Boolean | Byte | Short | Long

  datatype Key = Key(offset: nat, kind: Kind, reversed: bool)

  datatype Order = Order(keys: seq<Key>, heap: HeapView)

  datatype Value = Number(n: int) | Units(text: seq<nat>)

  // Two's complement reading of the low bits of a cell.
  function Signed(c: nat, modulus: nat): int
    requires modulus > 0
  {
    var low := c % modulus;
    if 2 * low < modulus then low else low - modulus
  }

  // n is the number that the low bits of a cell mean.
  predicate Means(c: nat, modulus: int, n: int)
    requires modulus > 0
  {
    -modulus <= 2 * n < modulus && (n - c) % modulus == 0
  }

  lemma SignedMeans(c: nat, modulus: int, n: int)
    requires modulus > 0 && modulus % 2 == 0 && Means(c, modulus, n)
    ensures Signed(c, modulus) == n
  {
    var low := c % modulus;
    assert c == modulus * (c / modulus) + low;
    var q := (n - c) / modulus;
    assert n - c == modulus * q;
    assert n == modulus * (q + c / modulus) + low;
    OnlyMultiple(n - low, modulus, q + c / modulus);
  }

  lemma OnlyMultiple(d: int, modulus: int, q: int)
    requires modulus > 0 && d == modulus * q
    ensures -modulus < d < modulus ==> d == 0
    ensures -2 * modulus < d < 0 ==> d == -modulus
  {
    if q >= 1 {
      assert modulus * q >= modulus;
    } else if q <= -2 {
      assert modulus * q <= modulus * -2;
    }
  }

  lemma SignedIsMeant(c: nat, modulus: nat)
    requires modulus > 0
    ensures Means(c, modulus, Signed(c % modulus, modulus))
    ensures Means(c, modulus, Signed(c, modulus))
  {
    var low, q := c % modulus, c / modulus;
    assert c == modulus * q + low;
    LowBits(modulus, 0, low);
    Multiple(modulus, -q, low - c);
    assert low - modulus - c == modulus * (-q - 1);
    Multiple(modulus, -q - 1, low - modulus - c);
  }

  lemma LowBits(modulus: int, q: int, low: int)
    requires 0 <= low < modulus
    ensures (modulus * q + low) % modulus == low
  {
    var n := modulus * q + low;
    var d := n / modulus - q;
    assert modulus * d == low - n % modulus;
    assert d >= 1 ==> modulus * d >= modulus;
    assert d <= -1 ==> modulus * d <= -modulus;
  }

  lemma Multiple(modulus: int, q: int, n: int)
    requires modulus > 0 && n == modulus * q
    ensures n % modulus == 0
  {
    LowBits(modulus, q, 0);
  }

  lemma RemainderIsCongruent(n: int, modulus: int)
    requires modulus > 0
    ensures (n % modulus - n) % modulus == 0 && (n - n % modulus) % modulus == 0
    ensures (n % modulus - modulus - n) % modulus == 0
  {
    var q := n / modulus;
    assert n == modulus * q + n % modulus;
    Multiple(modulus, -q, n % modulus - n);
    Multiple(modulus, q, n - n % modulus);
    assert n % modulus - modulus - n == modulus * (-q - 1);
    Multiple(modulus, -q - 1, n % modulus - modulus - n);
  }

  // The value of a key of a feature structure.
  function ValueOf(o: Order, k: Key, fs: nat): Value {
    var c := o.heap.Cell(fs + k.offset);
    match k.kind
    case TypePriority => Number(o.heap.Rank(o.heap.TypeOf(fs)))
    case Integer => Number(Signed(c, 0x1_0000_0000))
    case Text => Units(o.heap.Text(o.heap.StringAt(c)))
    case Boolean => Number(if c == 1 then 1 else 0)
    case Byte => Number(Signed(c, 0x100))
    case Short => Number(Signed(c, 0x1_0000))
    case Long => Number(o.heap.Long(c))
  }

  // ------------------------------------------------ lexicographic order

  // s and t agree up to k, and there s ends or has the smaller unit.
  predicate FirstDifference(s: seq<nat>, t: seq<nat>, k: nat) {
    && k <= |s| && k <= |t| && s[..k] == t[..k]
    && k < |t| && (k < |s| ==> s[k] < t[k])
  }

  ghost predicate LexLess(s: seq<nat>, t: seq<nat>) {
    exists k: nat :: FirstDifference(s, t, k)
  }

  lemma LexAsymmetric(s: seq<nat>, t: seq<nat>)
    ensures !(LexLess(s, t) && LexLess(t, s))
  {
  }

  lemma LexTransitive(s: seq<nat>, t: seq<nat>, u: seq<nat>)
    requires LexLess(s, t) && LexLess(t, u)
    ensures LexLess(s, u)
  {
    var k: nat :| FirstDifference(s, t, k);
    var m: nat :| FirstDifference(t, u, m);
    var n := if k < m then k else m;
    assert s[..n] == s[..k][..n] == t[..k][..n] == t[..n] == t[..m][..n] == u[..m][..n] == u[..n];
    assert k < m ==> t[..m][k] == u[..m][k];
    assert m < k ==> s[..k][m] == t[..k][m];
    assert FirstDifference(s, u, n);
  }

  lemma {:induction false} LexTotal(s: seq<nat>, t: seq<nat>, k: nat)
    requires k <= |s| && k <= |t| && s[..k] == t[..k]
    ensures LexLess(s, t) || LexLess(t, s) || s == t
    decreases |s| - k
  {
    if k == |s| || k == |t| || s[k] != t[k] {
      if k < |t| && (k < |s| ==> s[k] < t[k]) {
        assert FirstDifference(s, t, k);
      } else if k < |s| {
        assert FirstDifference(t, s, k);
      }
    } else {
      LexTotal(s, t, k + 1);
    }
  }

  /** inline_strCompare: the sign is the lexicographic order, also when both strings start at the same place. */
  method StrCompare(h: HeapView, s: StringRef, t: StringRef) returns (r: int)
    ensures r < 0 <==> LexLess(h.Text(s), h.Text(t))
    ensures r > 0 <==> LexLess(h.Text(t), h.Text(s))
    ensures r == 0 <==> h.Text(s) == h.Text(t)
  {
    var a, b := h.Text(s), h.Text(t);
    LexAsymmetric(a, b);
    LexAsymmetric(a, a);
    var length1 := if s.NoString? then 0 else s.length;
    var length2 := if t.NoString? then 0 else t.length;
    var lengthResult := if length1 < length2 then -1 else if length1 == length2 then 0 else 1;
    var limit := if length1 < length2 then length1 else length2;
    if s.NoString? && t.NoString? {
      return lengthResult;
    }
    if s.At? && t.At? && s.pos == t.pos {
      Prefixes(a, b, limit);
      return lengthResult;
    }
    var i := 0;
    while i < limit
      invariant i <= limit && a[..i] == b[..i]
    {
      var c1: int, c2: int := h.Char(s.pos + i), h.Char(t.pos + i);
      if c1 != c2 {
        assert if c1 < c2 then FirstDifference(a, b, i) else FirstDifference(b, a, i);
        return c1 - c2;
      }
      i := i + 1;
    }
    Prefixes(a, b, limit);
    r := lengthResult;
  }

  // When one string is a prefix of the other, the lengths decide.
  lemma Prefixes(a: seq<nat>, b: seq<nat>, n: nat)
    requires n <= |a| && n <= |b| && (n == |a| || n == |b|) && a[..n] == b[..n]
    ensures |a| < |b| ==> LexLess(a, b) && !LexLess(b, a) && a != b
    ensures |b| < |a| ==> LexLess(b, a) && !LexLess(a, b) && a != b
    ensures |a| == |b| ==> a == b && !LexLess(a, b)
  {
    LexAsymmetric(a, b);
    LexAsymmetric(a, a);
    if |a| < |b| {
      assert FirstDifference(a, b, n);
    } else if |b| < |a| {
      assert FirstDifference(b, a, n);
    }
  }

  // --------------------------------------------------- order of one key

  ghost predicate ValueLess(v: Value, w: Value) {
    match (v, w)
    case (Number(m), Number(n)) => m < n
    case (Units(s), Units(t)) => LexLess(s, t)
    case _ => v.Number? && w.Units?
  }

  lemma ValueOrder(u: Value, v: Value, w: Value)
    ensures !(ValueLess(u, v) && ValueLess(v, u))
    ensures ValueLess(u, v) || ValueLess(v, u) || u == v
    ensures ValueLess(u, v) && ValueLess(v, w) ==> ValueLess(u, w)
  {
    if u.Units? && v.Units? {
      LexAsymmetric(u.text, v.text);
      LexTotal(u.text, v.text, 0);
      if w.Units? && ValueLess(u, v) && ValueLess(v, w) {
        LexTransitive(u.text, v.text, w.text);
      }
    }
  }

  // ------------------------------------------------- order of all keys

  // The keys before i agree and key i puts a before b.
  ghost predicate DecidedAt(o: Order, a: nat, b: nat, i: int) {
    && 0 <= i < |o.keys|
    && (forall j {:trigger o.keys[j]} :: 0 <= j < i ==> ValueOf(o, o.keys[j], a) == ValueOf(o, o.keys[j], b))
    && KeyLess(o, o.keys[i], a, b)
  }

  ghost predicate KeyLess(o: Order, k: Key, a: nat, b: nat) {
    if k.reversed then ValueLess(ValueOf(o, k, b), ValueOf(o, k, a)) else ValueLess(ValueOf(o, k, a), ValueOf(o, k, b))
  }

  /** a comes before b: the first key on which they differ decides. */
  ghost predicate Precedes(o: Order, a: nat, b: nat) {
    exists i :: DecidedAt(o, a, b, i)
  }

  // All keys agree.
  ghost predicate Ties(o: Order, a: nat, b: nat) {
    forall k :: k in o.keys ==> ValueOf(o, k, a) == ValueOf(o, k, b)
  }

  lemma KeyOrder(o: Order, k: Key, a: nat, b: nat, c: nat)
    ensures !(KeyLess(o, k, a, b) && KeyLess(o, k, b, a))
    ensures KeyLess(o, k, a, b) || KeyLess(o, k, b, a) || ValueOf(o, k, a) == ValueOf(o, k, b)
    ensures KeyLess(o, k, a, b) && KeyLess(o, k, b, c) ==> KeyLess(o, k, a, c)
  {
    var u, v, w := ValueOf(o, k, a), ValueOf(o, k, b), ValueOf(o, k, c);
    ValueOrder(u, v, w);
    ValueOrder(w, v, u);
  }

  /** No two feature structures precede each other. */
  lemma PrecedesAsymmetric(o: Order, a: nat, b: nat)
    ensures !(Precedes(o, a, b) && Precedes(o, b, a))
  {
    if Precedes(o, a, b) && Precedes(o, b, a) {
      var i :| DecidedAt(o, a, b, i);
      var j :| DecidedAt(o, b, a, j);
      KeyOrder(o, o.keys[i], a, b, a);
      KeyOrder(o, o.keys[j], a, b, a);
      KeyOrder(o, o.keys[i], a, a, a);
      assert false;
    }
  }

  /** Feature structures of which neither precedes the other agree on all keys. */
  lemma {:induction false} PrecedesTotal(o: Order, a: nat, b: nat, n: nat)
    requires n <= |o.keys|
    requires forall j {:trigger o.keys[j]} :: 0 <= j < n ==> ValueOf(o, o.keys[j], a) == ValueOf(o, o.keys[j], b)
    ensures Precedes(o, a, b) || Precedes(o, b, a) || Ties(o, a, b)
    decreases |o.keys| - n
  {
    if n < |o.keys| {
      KeyOrder(o, o.keys[n], a, b, a);
      if KeyLess(o, o.keys[n], a, b) {
        assert DecidedAt(o, a, b, n);
      } else if KeyLess(o, o.keys[n], b, a) {
        assert DecidedAt(o, b, a, n);
      } else {
        PrecedesTotal(o, a, b, n + 1);
      }
    }
  }

  lemma PrecedesTransitive(o: Order, a: nat, b: nat, c: nat)
    requires Precedes(o, a, b) && Precedes(o, b, c)
    ensures Precedes(o, a, c)
  {
    var i :| DecidedAt(o, a, b, i);
    var j :| DecidedAt(o, b, c, j);
    var m := if i < j then i else j;
    KeyOrder(o, o.keys[m], a, b, c);
    assert DecidedAt(o, a, c, m);
  }

  lemma TiesDoNotPrecede(o: Order, a: nat, b: nat)
    requires Ties(o, a, b)
    ensures !Precedes(o, a, b) && !Precedes(o, b, a)
  {
    if Precedes(o, a, b) || Precedes(o, b, a) {
      var i :| DecidedAt(o, a, b, i) || DecidedAt(o, b, a, i);
      KeyOrder(o, o.keys[i], a, b, a);
      KeyOrder(o, o.keys[i], a, a, a);
      assert false;
    }
  }

  lemma TiesShareOrder(o: Order, a: nat, b: nat, c: nat)
    requires Ties(o, a, b)
    ensures Precedes(o, a, c) <==> Precedes(o, b, c)
    ensures Precedes(o, c, a) <==> Precedes(o, c, b)
  {
    forall i ensures DecidedAt(o, a, c, i) <==> DecidedAt(o, b, c, i) {
    }
    forall i ensures DecidedAt(o, c, a, i) <==> DecidedAt(o, c, b, i) {
    }
    assert Precedes(o, a, c) ==> Precedes(o, b, c) by {
      if Precedes(o, a, c) {
        var i :| DecidedAt(o, a, c, i);
        assert DecidedAt(o, b, c, i);
      }
    }
    assert Precedes(o, c, a) ==> Precedes(o, c, b) by {
      if Precedes(o, c, a) {
        var i :| DecidedAt(o, c, a, i);
        assert DecidedAt(o, c, b, i);
      }
    }
  }

  /**
   The comparator is a total preorder with sign antisymmetry: of any two
   feature structures exactly one holds: the first precedes, the second
   precedes, or they tie; and "does not come after" is transitive.
   */
  lemma IsTotalPreorder(o: Order, a: nat, b: nat, c: nat)
    ensures Precedes(o, a, b) ==> !Precedes(o, b, a) && !Ties(o, a, b)
    ensures Ties(o, a, b) <==> !Precedes(o, a, b) && !Precedes(o, b, a)
    ensures !Precedes(o, b, a) && !Precedes(o, c, b) ==> !Precedes(o, c, a)
  {
    PrecedesAsymmetric(o, a, b);
    PrecedesTotal(o, a, b, 0);
    PrecedesTotal(o, b, c, 0);
    if Ties(o, a, b) {
      TiesDoNotPrecede(o, a, b);
      TiesShareOrder(o, a, b, c);
    }
    if Precedes(o, a, b) && !Precedes(o, c, b) {
      if Ties(o, b, c) {
        TiesShareOrder(o, b, c, a);
      } else {
        PrecedesTransitive(o, a, b, c);
      }
      PrecedesAsymmetric(o, a, c);
    }
  }

  // ------------------------------------------------------------ compare

  ghost predicate Injective(m: map<nat, nat>) {
    forall t, u :: t in m && u in m && m[t] == m[u] ==> t == u
  }

  // Different types have different priority numbers, and offset 0 stands for type priority.
  ghost predicate OrderOK(o: Order) {
    && Injective(o.heap.priority)
    && (forall k :: k in o.keys ==> (k.offset == 0 <==> k.kind == TypePriority))
  }

  // Compares the values of one key, not yet reversed.
  method CompareKey(o: Order, k: Key, fs1: nat, fs2: nat) returns (isLess: bool, isGreater: bool)
    requires OrderOK(o) && k in o.keys
    ensures isLess <==> ValueLess(ValueOf(o, k, fs1), ValueOf(o, k, fs2))
    ensures isGreater <==> ValueLess(ValueOf(o, k, fs2), ValueOf(o, k, fs1))
  {
    var h := o.heap;
    if k.offset == 0 {
      var t1, t2 := h.TypeOf(fs1), h.TypeOf(fs2);
      if t1 == t2 {
        return false, false;
      } else if h.Rank(t1) < h.Rank(t2) {
        return true, false;
      } else {
        return false, true;
      }
    }
    var val1, val2 := h.Cell(fs1 + k.offset), h.Cell(fs2 + k.offset);
    if k.kind == Text {
      var c := StrCompare(h, h.StringAt(val1), h.StringAt(val2));
      return c < 0, c > 0;
    }
    var n1, n2 := ValueOf(o, k, fs1).n, ValueOf(o, k, fs2).n;
    return n1 < n2, n1 > n2;
  }

  /** compare: 1 when the first comes before the second, -1 when it comes after, 0 when all keys agree. */
  method Compare(o: Order, fs1: nat, fs2: nat) returns (r: int)
    requires OrderOK(o)
    ensures -1 <= r <= 1
    ensures r == 1 <==> Precedes(o, fs1, fs2)
    ensures r == -1 <==> Precedes(o, fs2, fs1)
    ensures r == 0 <==> Ties(o, fs1, fs2)
  {
    IsTotalPreorder(o, fs1, fs2, fs1);
    if fs1 == fs2 {
      return 0;
    }
    for i := 0 to |o.keys|
      invariant forall j {:trigger o.keys[j]} :: 0 <= j < i ==> ValueOf(o, o.keys[j], fs1) == ValueOf(o, o.keys[j], fs2)
    {
      var k := o.keys[i];
      var isLess, isGreater := CompareKey(o, k, fs1, fs2);
      KeyOrder(o, k, fs1, fs2, fs1);
      if !k.reversed {
        if isLess {
          assert DecidedAt(o, fs1, fs2, i);
          return 1;
        } else if isGreater {
          assert DecidedAt(o, fs2, fs1, i);
          return -1;
        }
      } else {
        if isLess {
          assert DecidedAt(o, fs2, fs1, i);
          return -1;
        } else if isGreater {
          assert DecidedAt(o, fs1, fs2, i);
          return 1;
        }
      }
    }
    assert Ties(o, fs1, fs2);
    r := 0;
  }

  // ------------------------------------------- compareWithoutEquality

  /** Ties are broken by the address. */
  ghost predicate StrictlyBefore(o: Order, a: nat, b: nat) {
    Precedes(o, a, b) || (Ties(o, a, b) && a < b)
  }

  /** compareWithoutEquality: 0 only for the same feature structure. */
  method CompareWithoutEquality(o: Order, fs1: nat, fs2: nat) returns (r: int)
    requires OrderOK(o)
    ensures r > 0 <==> StrictlyBefore(o, fs1, fs2)
    ensures r < 0 <==> StrictlyBefore(o, fs2, fs1)
    ensures r == 0 <==> fs1 == fs2
  {
    IsTotalPreorder(o, fs1, fs2, fs1);
    IsTotalPreorder(o, fs2, fs1, fs1);
    r := Compare(o, fs1, fs2);
    if r == 0 && fs1 != fs2 {
      if fs1 < fs2 {
        return 1;
      }
      if fs1 > fs2 {
        return -1;
      }
    }
  }

  /** On distinct feature structures compareWithoutEquality is a strict total order that extends the comparator. */
  lemma StrictlyBeforeIsStrictTotalOrder(o: Order, a: nat, b: nat, c: nat)
    ensures !(StrictlyBefore(o, a, b) && StrictlyBefore(o, b, a))
    ensures a != b ==> StrictlyBefore(o, a, b) || StrictlyBefore(o, b, a)
    ensures StrictlyBefore(o, a, b) && StrictlyBefore(o, b, c) ==> StrictlyBefore(o, a, c)
    ensures StrictlyBefore(o, a, b) ==> !Precedes(o, b, a)
  {
    IsTotalPreorder(o, a, b, c);
    IsTotalPreorder(o, b, a, c);
    if StrictlyBefore(o, a, b) && StrictlyBefore(o, b, c) {
      if Ties(o, a, b) {
        TiesShareOrder(o, a, b, c);
        if Ties(o, b, c) {
          TiesShareOrder(o, b, c, a);
          IsTotalPreorder(o, a, c, a);
        }
      } else if Ties(o, b, c) {
        TiesShareOrder(o, b, c, a);
      } else {
        PrecedesTransitive(o, a, b, c);
      }
    }
  }
}
