/**
 Lists as text in XMI: writing the elements separated by blanks, splitting the
 text into words again, and rebuilding lists from the words.
 */
module XmiLists {
  import opened FSHeap
  import opened ListFS
  import ListWalk
  import IndexComparator
  import opened TypeTree
  import TopologicalSort

  // -------------------------------------------------------------- integers

  function Digit(d: nat): (c: char)
    requires d < 10
    ensures '0' <= c <= '9' && c as int - '0' as int == d
  {
    (d + '0' as int) as char
  }

  // A number in decimal notation, as an output stream writes it.
  function Decimal(n: int): (s: string)
    ensures s != [] && (n >= 0 ==> '0' <= s[0] <= '9')
    decreases if n < 0 then 1 else 0, n
  {
    if n < 0 then "-" + Decimal(-n)
    else if n < 10 then [Digit(n)]
    else Decimal(n / 10) + [Digit(n % 10)]
  }

  predicate IsDigit(c: char) {
    '0' <= c <= '9'
  }

  // atoi: an optional sign, and digits up to the first other character.
  function Atoi(s: string): int {
    if s == [] then 0
    else if s[0] == '-' then -Leading(s[1..], 0)
    else if s[0] == '+' then Leading(s[1..], 0)
    else Leading(s, 0)
  }

  function Leading(s: string, value: int): int {
    if s == [] || !IsDigit(s[0]) then value else Leading(s[1..], 10 * value + (s[0] as int - '0' as int))
  }

  lemma {:induction false} LeadingAppend(s: string, d: nat, value: int)
    requires (forall i :: 0 <= i < |s| ==> IsDigit(s[i])) && d < 10
    ensures Leading(s + [Digit(d)], value) == 10 * Leading(s, value) + d
  {
    var all := s + [Digit(d)];
    if s == [] {
      assert all[1..] == [];
    } else {
      assert all[1..] == s[1..] + [Digit(d)];
      LeadingAppend(s[1..], d, 10 * value + (s[0] as int - '0' as int));
    }
  }

  lemma {:induction false} DecimalDigits(n: nat)
    ensures forall i :: 0 <= i < |Decimal(n)| ==> IsDigit(Decimal(n)[i])
    ensures Leading(Decimal(n), 0) == n
  {
    if n < 10 {
      assert Decimal(n)[1..] == [];
    } else {
      DecimalDigits(n / 10);
      LeadingAppend(Decimal(n / 10), n % 10, 0);
    }
  }

  /** Reading a written number gives it back, and it has no blank in it. */
  lemma AtoiOfDecimal(n: int)
    ensures Atoi(Decimal(n)) == n && ' ' !in Decimal(n)
  {
    if n < 0 {
      DecimalDigits(-n);
      assert Decimal(n)[1..] == Decimal(-n);
    } else {
      DecimalDigits(n);
    }
  }

  /** Decimal notation: every digit counts ten times as much as the one behind it, and a minus sign negates. */
  lemma AtoiByDigits(s: string, c: char)
    requires '0' <= c <= '9' && s != [] && forall i :: 0 <= i < |s| ==> '0' <= s[i] <= '9'
    ensures Atoi([c]) == c as int - '0' as int
    ensures Atoi(s + [c]) == 10 * Atoi(s) + (c as int - '0' as int)
    ensures Atoi("-" + s) == -Atoi(s)
  {
    assert [c][1..] == [] && Leading([], c as int - '0' as int) == c as int - '0' as int;
    assert Leading([c], 0) == Leading([c][1..], 10 * 0 + (c as int - '0' as int));
    assert c == Digit((c as int - '0' as int) as nat);
    LeadingAppend(s, (c as int - '0' as int) as nat, 0);
    assert (s + [c])[0] == s[0];
    assert ("-" + s)[1..] == s;
  }

  // --------------------------------------------------------------- words

  predicate IsWord(w: string) {
    w != [] && ' ' !in w
  }

  // Words with one blank between them.
  function Join(words: seq<string>): string {
    if words == [] then "" else if |words| == 1 then words[0] else words[0] + " " + Join(words[1..])
  }

  // The length of the longest prefix without a blank.
  function WordLength(s: string): (n: nat)
    ensures n <= |s| && (forall i :: 0 <= i < n ==> s[i] != ' ') && (n < |s| ==> s[n] == ' ')
  {
    if s == [] || s[0] == ' ' then 0 else 1 + WordLength(s[1..])
  }

  /** The maximal runs of characters other than blanks. */
  function Words(s: string): seq<string>
    decreases |s|
  {
    if s == [] then []
    else if s[0] == ' ' then Words(s[1..])
    else [s[..WordLength(s)]] + Words(s[WordLength(s)..])
  }

  lemma WordLengthOf(w: string, rest: string)
    requires ' ' !in w && (rest == [] || rest[0] == ' ')
    ensures WordLength(w + rest) == |w|
  {
    var s := w + rest;
    forall i | 0 <= i < |w| ensures s[i] != ' ' {
      assert s[i] == w[i] && w[i] in w;
    }
    assert |w| < |s| ==> s[|w|] == rest[0];
  }

  /** Splitting joined words gives the words back. */
  lemma {:induction false} WordsOfJoin(words: seq<string>)
    requires forall w :: w in words ==> IsWord(w)
    ensures Words(Join(words)) == words
  {
    if words != [] {
      var w, rest := words[0], if |words| == 1 then "" else " " + Join(words[1..]);
      assert w in words;
      var s := Join(words);
      assert s == w + rest;
      WordLengthOf(w, rest);
      assert s[..|w|] == w && s[|w|..] == rest;
      assert s[0] == w[0] && w[0] in w;
      WordsOfJoin(words[1..]);
      assert rest != [] ==> rest[1..] == Join(words[1..]);
      assert words == [w] + words[1..];
    }
  }

  // find_first_not_of and find_first_of; the length of the string stands for "not found".
  method FindFirst(s: string, from: nat, blank: bool) returns (i: nat)
    requires from <= |s|
    ensures from <= i <= |s| && (forall j :: from <= j < i ==> (s[j] == ' ') != blank)
    ensures (i < |s| ==> (s[i] == ' ') == blank)
  {
    i := from;
    while i < |s| && (s[i] == ' ') != blank
      invariant from <= i <= |s| && forall j :: from <= j < i ==> (s[j] == ' ') != blank
    {
      i := i + 1;
    }
  }

  lemma {:induction false} SkipBlanks(s: string, from: nat, to: nat)
    requires from <= to <= |s| && forall j :: from <= j < to ==> s[j] == ' '
    ensures Words(s[from..]) == Words(s[to..])
    decreases |s| - from
  {
    if from < to {
      assert s[from..][1..] == s[from + 1..];
      SkipBlanks(s, from + 1, to);
    }
  }

  lemma TakeWord(s: string, from: nat, to: nat)
    requires from < to <= |s| && (forall j :: from <= j < to ==> s[j] != ' ') && (to < |s| ==> s[to] == ' ')
    ensures Words(s[from..]) == [s[from..to]] + Words(s[to..])
  {
    var t := s[from..];
    assert t == s[from..to] + s[to..];
    WordLengthOf(s[from..to], s[to..]);
    assert t[..to - from] == s[from..to] && t[to - from..] == s[to..];
  }

  /** tokenize */
  method Tokenize(s: string) returns (words: seq<string>)
    ensures words == Words(s)
  {
    words := [];
    var lastPos := FindFirst(s, 0, false);
    var pos := FindFirst(s, lastPos, true);
    SkipBlanks(s, 0, lastPos);
    assert s[0..] == s && s[|s|..] == "" && Words("") == [];
    hide Words;
    while pos != |s| || lastPos != |s|
      invariant lastPos <= pos <= |s| && (lastPos < |s| ==> lastPos < pos)
      invariant (forall j :: lastPos <= j < pos ==> s[j] != ' ') && (pos < |s| ==> s[pos] == ' ')
      invariant words + Words(s[lastPos..]) == Words(s)
      decreases |s| - lastPos
    {
      TakeWord(s, lastPos, pos);
      words := words + [s[lastPos..pos]];
      var next := FindFirst(s, pos, false);
      SkipBlanks(s, pos, next);
      lastPos := next;
      pos := FindFirst(s, lastPos, true);
    }
  }

  // ------------------------------------------------------------ integer lists

  // An integer as a 32-bit cell.
  function IntCell(n: int): nat {
    n % 0x1_0000_0000
  }

  function IntOf(c: nat): int {
    IndexComparator.Signed(c, 0x1_0000_0000)
  }

  lemma IntCellRoundTrip(c: nat)
    requires c < 0x1_0000_0000
    ensures IntCell(IntOf(c)) == c
  {
  }

  // The elements as words.
  function IntWords(elements: seq<nat>): (words: seq<string>)
    ensures |words| == |elements| && forall i :: 0 <= i < |words| ==> words[i] == Decimal(IntOf(elements[i]))
  {
    seq(|elements|, i requires 0 <= i < |elements| => Decimal(IntOf(elements[i])))
  }

  // The text of the first i words, followed by a blank when more words come.
  function Joined(words: seq<string>, i: nat): string
    requires i <= |words|
  {
    Join(words[..i]) + if 0 < i < |words| then " " else ""
  }

  lemma {:induction false} JoinAppend(words: seq<string>, w: string)
    ensures Join(words + [w]) == if words == [] then w else Join(words) + " " + w
  {
    if |words| > 1 {
      JoinAppend(words[1..], w);
      assert (words + [w])[1..] == words[1..] + [w];
      assert words[0] + " " + (Join(words[1..]) + " " + w) == (words[0] + " " + Join(words[1..])) + " " + w;
    } else if |words| == 1 {
      assert (words + [w])[1..] == [w];
    }
  }

  lemma JoinedNext(words: seq<string>, i: nat)
    requires i < |words|
    ensures Joined(words, i) + words[i] == Join(words[..i + 1])
  {
    JoinAppend(words[..i], words[i]);
    assert words[..i + 1] == words[..i] + [words[i]];
    assert Join([]) == "" && (i == 0 ==> words[..i] == []);
    hide Join;
    if i == 0 {
      assert Joined(words, i) == "";
    } else {
      assert Joined(words, i) == Join(words[..i]) + " ";
    }
  }

  // In the region every node leads to a node, so that a walk can go on until it meets an empty one.
  ghost predicate Closed(k: Kind, cells: seq<nat>, region: set<int>) {
    forall a {:trigger LeadsOn(k, cells, region, a)} :: a in region ==> LeadsOn(k, cells, region, a)
  }

  predicate LeadsOn(k: Kind, cells: seq<nat>, region: set<int>, a: int) {
    0 <= a < |cells| && (cells[a] == k.nonEmpty ==> a + TAIL < |cells| && cells[a + TAIL] in region)
  }

  /** A list is such a region. */
  lemma ListIsClosed(k: Kind, cells: seq<nat>, extents: map<nat, nat>, fs: nat, nodes: seq<nat>, e: nat)
    requires k.empty != k.nonEmpty && ListAt(k, cells, extents, fs, nodes, e)
    ensures Closed(k, cells, Places(nodes, e)) && fs in Places(nodes, e)
  {
    forall a | a in Places(nodes, e) ensures LeadsOn(k, cells, Places(nodes, e), a) {
      if a != e {
        var i :| 0 <= i < |nodes| && nodes[i] == a;
        assert LinkAt(k, cells, extents, nodes, e, i);
        assert i + 1 < |nodes| ==> nodes[i + 1] in nodes;
      }
    }
    assert nodes != [] ==> nodes[0] in nodes;
  }

  function Places(nodes: seq<nat>, e: nat): set<int> {
    (set n | n in nodes :: n as int) + {e}
  }

  lemma Onward(k: Kind, cells: seq<nat>, region: set<int>, a: nat)
    requires Closed(k, cells, region) && a in region && a < |cells| && cells[a] == k.nonEmpty
    ensures a + HEAD < |cells| && a + TAIL < |cells| && cells[a + TAIL] in region && cells[a + TAIL] < |cells|
  {
    assert LeadsOn(k, cells, region, a);
    assert LeadsOn(k, cells, region, cells[a + TAIL]);
  }

  function Below(n: nat): (all: set<int>)
    ensures |all| == n && forall a :: a in all <==> 0 <= a < n
  {
    if n == 0 then {} else Below(n - 1) + {n - 1}
  }

  // Addresses that were visited are few enough for the walk to end.
  lemma VisitedBound(visited: set<int>, n: nat)
    requires forall a :: a in visited ==> 0 <= a < n
    ensures |visited| <= n
  {
    TopologicalSort.SubsetSize(visited, Below(n));
  }

  lemma AtNode(k: Kind, cells: seq<nat>, extents: map<nat, nat>, a: nat, nodes: seq<nat>, e: nat, i: nat)
    requires k.empty != k.nonEmpty && ListAt(k, cells, extents, a, nodes, e) && i <= |nodes|
    requires Follower(nodes, e, i) < |cells| && cells[Follower(nodes, e, i)] == k.nonEmpty
    ensures i < |nodes| && nodes[i] + TAIL < |cells| && cells[nodes[i] + TAIL] == Follower(nodes, e, i + 1) < |cells|
    ensures cells[Follower(nodes, e, i + 1)] == k.nonEmpty <==> i + 1 < |nodes|
  {
    assert LinkAt(k, cells, extents, nodes, e, i);
    assert i + 1 < |nodes| ==> LinkAt(k, cells, extents, nodes, e, i + 1);
  }

  // Only the followers lo to lo + i - 1 were visited.
  ghost predicate Passed(nodes: seq<nat>, e: nat, lo: nat, i: nat, visited: set<int>) {
    forall a :: a in visited ==> IsPassed(nodes, e, lo, i, a)
  }

  ghost predicate IsPassed(nodes: seq<nat>, e: nat, lo: nat, i: nat, a: int) {
    exists j: nat :: lo <= j < lo + i && a == Follower(nodes, e, j)
  }

  // No place of a list comes again.
  lemma NotVisited(k: Kind, cells: seq<nat>, extents: map<nat, nat>, a: nat, nodes: seq<nat>, e: nat, lo: nat, i: nat,
                   visited: set<int>)
    requires k.empty != k.nonEmpty && ListAt(k, cells, extents, a, nodes, e) && Passed(nodes, e, lo, i, visited)
    requires lo + i <= |nodes|
    ensures Follower(nodes, e, lo + i) !in visited
    ensures Passed(nodes, e, lo, i + 1, visited + {Follower(nodes, e, lo + i)})
  {
    ListIsAcyclic(k, cells, extents, a, nodes, e);
    forall j: nat | lo <= j < lo + i ensures Follower(nodes, e, j) != Follower(nodes, e, lo + i) {
      assert LinkAt(k, cells, extents, nodes, e, j);
    }
    var more := visited + {Follower(nodes, e, lo + i)};
    forall b | b in more ensures IsPassed(nodes, e, lo, i + 1, b) {
      if b in visited {
        assert IsPassed(nodes, e, lo, i, b);
        var j: nat :| lo <= j < lo + i && b == Follower(nodes, e, j);
        assert lo <= j < lo + i + 1;
      }
    }
  }

  // The text after i nodes of a list, with the walk at cur.
  ghost predicate Written(k: Kind, cells: seq<nat>, extents: map<nat, nat>, fs: nat, nodes: seq<nat>, e: nat,
                          words: seq<string>, cur: nat, str: string, i: nat)
  {
    && ListAt(k, cells, extents, fs, nodes, e) && |words| == |nodes|
    && i <= |nodes| && cur == Follower(nodes, e, i) && str == Joined(words, i)
  }

  lemma NothingWritten(k: Kind, cells: seq<nat>, extents: map<nat, nat>, fs: nat, nodes: seq<nat>, e: nat,
                       words: seq<string>)
    requires ListAt(k, cells, extents, fs, nodes, e) && |words| == |nodes|
    ensures Written(k, cells, extents, fs, nodes, e, words, fs, "", 0)
  {
    assert words[..0] == [];
  }

  // One more word, and a blank when a node follows.
  lemma WriteNext(k: Kind, cells: seq<nat>, extents: map<nat, nat>, fs: nat, nodes: seq<nat>, e: nat,
                  words: seq<string>, cur: nat, str: string, i: nat, next: nat)
    requires k.empty != k.nonEmpty && Written(k, cells, extents, fs, nodes, e, words, cur, str, i)
    requires cur + TAIL < |cells| && cells[cur] == k.nonEmpty && next == cells[cur + TAIL] < |cells|
    ensures i < |nodes| && nodes[i] == cur
    ensures Written(k, cells, extents, fs, nodes, e, words, next,
                    str + words[i] + if cells[next] == k.nonEmpty then " " else "", i + 1)
  {
    AtNode(k, cells, extents, fs, nodes, e, i);
    JoinedNext(words, i);
    assert str + words[i] == Join(words[..i + 1]);
  }

  lemma AllWritten(k: Kind, cells: seq<nat>, extents: map<nat, nat>, fs: nat, nodes: seq<nat>, e: nat,
                   words: seq<string>, cur: nat, str: string, i: nat)
    requires Written(k, cells, extents, fs, nodes, e, words, cur, str, i)
    requires cur < |cells| && cells[cur] != k.nonEmpty
    ensures str == Join(words)
  {
    hide Join;
    assert i < |nodes| ==> LinkAt(k, cells, extents, nodes, e, i);
    assert i == |words|;
    assert words[..i] == words;
  }

  function WithInt(str: string, c: nat): string {
    str + Decimal(IntOf(c))
  }

  function WithBlank(str: string, more: bool): string {
    if more then str + " " else str
  }

  // The elements of the list as words.
  function ListWords(k: Kind, cells: seq<nat>, extents: map<nat, nat>, fs: nat, nodes: seq<nat>,
                     e: nat): (words: seq<string>)
    requires ListAt(k, cells, extents, fs, nodes, e)
    ensures |words| == |nodes|
  {
    ListFits(k, cells, extents, fs, nodes, e);
    IntWords(Elements(cells, nodes))
  }

  // A chain in a heap, with the words for its elements if it is a list.
  datatype Chain =
    Chain(k: Kind, cells: seq<nat>, extents: map<nat, nat>, fs: nat, nodes: seq<nat>, e: nat, words: seq<string>)

  ghost predicate IsList(c: Chain) {
    ListAt(c.k, c.cells, c.extents, c.fs, c.nodes, c.e)
  }

  // What the text so far is, if the chain is a list; lo says whether nodes or their followers are marked as visited.
  ghost predicate WrittenIfList(c: Chain, cur: nat, str: string, lo: nat, i: nat, visited: set<int>) {
    IsList(c) ==>
      Written(c.k, c.cells, c.extents, c.fs, c.nodes, c.e, c.words, cur, str, i) && Passed(c.nodes, c.e, lo, i, visited)
  }

  lemma WriteNothing(c: Chain, lo: nat)
    requires IsList(c) ==> |c.words| == |c.nodes|
    ensures WrittenIfList(c, c.fs, "", lo, 0, {})
  {
    if IsList(c) {
      NothingWritten(c.k, c.cells, c.extents, c.fs, c.nodes, c.e, c.words);
    }
  }

  lemma WriteNextIfList(c: Chain, cur: nat, str: string, lo: nat, i: nat, visited: set<int>, next: nat, str': string)
    requires c.k.empty != c.k.nonEmpty && WrittenIfList(c, cur, str, lo, i, visited)
    requires cur + TAIL < |c.cells| && c.cells[cur] == c.k.nonEmpty && next == c.cells[cur + TAIL] < |c.cells|
    requires lo <= 1
    requires IsList(c) && i < |c.words| ==> str' == str + c.words[i] + if c.cells[next] == c.k.nonEmpty then " " else ""
    ensures var place := if lo == 0 then cur else next;
            (IsList(c) ==> place !in visited) && WrittenIfList(c, next, str', lo, i + 1, visited + {place})
  {
    if IsList(c) {
      WriteNext(c.k, c.cells, c.extents, c.fs, c.nodes, c.e, c.words, cur, str, i, next);
      NotVisited(c.k, c.cells, c.extents, c.fs, c.nodes, c.e, lo, i, visited);
    }
  }

  lemma WriteAll(c: Chain, cur: nat, str: string, lo: nat, i: nat, visited: set<int>)
    requires WrittenIfList(c, cur, str, lo, i, visited) && cur < |c.cells| && c.cells[cur] != c.k.nonEmpty
    ensures IsList(c) ==> str == Join(c.words)
  {
    if IsList(c) {
      AllWritten(c.k, c.cells, c.extents, c.fs, c.nodes, c.e, c.words, cur, str, i);
    }
  }

  lemma IfInts(c: Chain)
    requires AreIntWords(c)
    ensures IsList(c) <==> ListAt(c.k, c.cells, c.extents, c.fs, c.nodes, c.e)
    ensures IsList(c) ==>
              && c.words == ListWords(c.k, c.cells, c.extents, c.fs, c.nodes, c.e)
              && NodesFit(c.cells, c.nodes) && IntsWritten(Elements(c.cells, c.nodes), Words(Join(c.words)))
  {
    if IsList(c) {
      ListFits(c.k, c.cells, c.extents, c.fs, c.nodes, c.e);
      IntWordsAreInts(Elements(c.cells, c.nodes));
    }
  }

  // The words are those of a list of integers, if there is one.
  ghost predicate AreIntWords(c: Chain) {
    IsList(c) ==> c.words == ListWords(c.k, c.cells, c.extents, c.fs, c.nodes, c.e)
  }

  lemma NextIntWord(c: Chain, cur: nat, str: string, i: nat, visited: set<int>, next: nat)
    requires c.k.empty != c.k.nonEmpty && WrittenIfList(c, cur, str, 1, i, visited) && AreIntWords(c)
    requires cur + TAIL < |c.cells| && c.cells[cur] == c.k.nonEmpty && next == c.cells[cur + TAIL] < |c.cells|
    ensures IsList(c) ==> next !in visited
    ensures WrittenIfList(c, next, WithBlank(WithInt(str, c.cells[cur + HEAD]), c.cells[next] == c.k.nonEmpty), 1,
                          i + 1, visited + {next})
  {
    var str' := WithBlank(WithInt(str, c.cells[cur + HEAD]), c.cells[next] == c.k.nonEmpty);
    if IsList(c) {
      WriteNext(c.k, c.cells, c.extents, c.fs, c.nodes, c.e, c.words, cur, str, i, next);
      assert c.words[i] == Decimal(IntOf(c.cells[cur + HEAD]));
      hide ListAt, Decimal, ListWords, Written;
      assert str' == str + c.words[i] + if c.cells[next] == c.k.nonEmpty then " " else "";
    }
    hide *;
    WriteNextIfList(c, cur, str, 1, i, visited, next, str');
  }

  // Each word is the signed number that the 32 bits of the element mean.
  predicate IntsWritten(elements: seq<nat>, words: seq<string>) {
    |words| == |elements|
    && forall i :: 0 <= i < |words| ==> IndexComparator.Means(elements[i], 0x1_0000_0000, Atoi(words[i]))
  }

  lemma IntWordsAreInts(elements: seq<nat>)
    ensures IntsWritten(elements, Words(Join(IntWords(elements))))
  {
    var words := IntWords(elements);
    forall i | 0 <= i < |words|
      ensures IsWord(words[i]) && IndexComparator.Means(elements[i], 0x1_0000_0000, Atoi(words[i]))
    {
      AtoiOfDecimal(IntOf(elements[i]));
      IndexComparator.SignedIsMeant(elements[i], 0x1_0000_0000);
    }
    forall w | w in words ensures IsWord(w) {
      var i :| 0 <= i < |words| && words[i] == w;
    }
    WordsOfJoin(words);
  }

  /** listToString for a list of integers; a ring is cut where it closes. */
  method IntListToString(heap: FSHeap, k: Kind, fs: nat, ghost region: set<int>, ghost nodes: seq<nat>,
                         ghost e: nat) returns (str: string)
    requires KindOK(heap.schema, k) && Closed(k, heap.cells, region) && fs in region && fs < |heap.cells|
    ensures ListAt(k, heap.cells, heap.extents, fs, nodes, e) ==>
              str == Join(ListWords(k, heap.cells, heap.extents, fs, nodes, e))
    ensures ListAt(k, heap.cells, heap.extents, fs, nodes, e) ==>
              NodesFit(heap.cells, nodes) && IntsWritten(Elements(heap.cells, nodes), Words(str))
  {
    ghost var words :=
      if ListAt(k, heap.cells, heap.extents, fs, nodes, e)
      then ListWords(k, heap.cells, heap.extents, fs, nodes, e) else [];
    ghost var c := Chain(k, heap.cells, heap.extents, fs, nodes, e, words);
    assert AreIntWords(c) && IsList(c) == ListAt(k, heap.cells, heap.extents, fs, nodes, e);
    WriteNothing(c, 1);
    IfInts(c);
    hide *;
    str := WriteInts(heap, c, k, fs, region);
  }

  // The loop of listToString.
  method WriteInts(heap: FSHeap, ghost c: Chain, k: Kind, fs: nat, ghost region: set<int>) returns (str: string)
    requires c.cells == heap.cells && c.k == k && c.k.empty != c.k.nonEmpty && Closed(k, c.cells, region)
    requires fs in region && fs < |c.cells| && AreIntWords(c) && WrittenIfList(c, fs, "", 1, 0, {})
    ensures IsList(c) ==> str == Join(c.words)
  {
    hide *;
    str := "";
    var visited: set<int> := {};
    var curNode: nat := fs;
    ghost var i: nat := 0;
    while heap.cells[curNode] == k.nonEmpty
      invariant curNode in region && curNode < |c.cells|
      invariant forall a :: a in visited ==> 0 <= a < |c.cells|
      invariant WrittenIfList(c, curNode, str, 1, i, visited)
      decreases |c.cells| - |visited|
    {
      Onward(k, c.cells, region, curNode);
      NextIntWord(c, curNode, str, i, visited, c.cells[curNode + TAIL]);
      i := i + 1;
      var head := heap.cells[curNode + HEAD];
      str := WithInt(str, head);
      curNode := heap.cells[curNode + TAIL];
      if curNode in visited {
        return;
      }
      VisitedBound(visited + {curNode}, |c.cells|);
      visited := visited + {curNode};
      str := WithBlank(str, heap.cells[curNode] == k.nonEmpty);
    }
    WriteAll(c, curNode, str, 1, i, visited);
  }

  // ---------------------------------------------------- rebuilding an integer list

  function IntCells(words: seq<string>): (cells: seq<nat>)
    ensures |cells| == |words|
    ensures forall i :: 0 <= i < |words| ==> cells[i] == IntCell(Atoi(words[i])) == Atoi(words[i]) % 0x1_0000_0000
  {
    seq(|words|, i requires 0 <= i < |words| => IntCell(Atoi(words[i])))
  }

  /** createIntList: appends the number that each word stands for. */
  method CreateIntList(heap: FSHeap, k: Kind, words: seq<string>) returns (fs: nat, ghost nodes: seq<nat>, ghost e: nat)
    requires heap.Valid() && KindOK(heap.schema, k)
    modifies heap`cells, heap`extents
    ensures heap.Valid() && Holds(k, heap.cells, heap.extents, fs, nodes, e, IntCells(words))
  {
    hide *;
    EmptyIsType(heap, k);
    fs := heap.CreateFS(k.empty);
    nodes, e := [], fs;
    var list := new ListFS(heap, k, fs);
    NewEmptyList(k, heap.cells, heap.extents, fs);
    assert IntCells(words)[..0] == [];
    ItIsList(list, [], e, IntCells(words)[..0]);
    for i := 0 to |words|
      invariant list.Is(nodes, e, IntCells(words)[..i])
      modifies list, heap`cells, heap`extents
    {
      var value := Atoi(words[i]);
      ghost var before := IntCells(words)[..i];
      var newEnd := list.AddLast(IntCell(value), nodes, e, before);
      nodes := nodes + [newEnd];
      assert IntCells(words)[..i + 1] == before + [IntCell(value)];
    }
    assert IntCells(words)[..|words|] == IntCells(words);
    fs := list.tyFS;
    ListIs(list, nodes, e, IntCells(words));
  }

  lemma EmptyIsType(heap: FSHeap, k: Kind)
    requires KindOK(heap.schema, k)
    ensures IsType(heap.schema.parents, k.empty) && k.empty < |heap.schema.featureNumber|
    ensures heap.schema.featureNumber[k.empty] == 0
  {
  }

  lemma NewEmptyList(k: Kind, cells: seq<nat>, extents: map<nat, nat>, fs: nat)
    requires fs < |cells| && cells[fs] == k.empty && fs in extents
    ensures Holds(k, cells, extents, fs, [], fs, [])
  {
  }

  lemma ItIsList(list: ListFS, nodes: seq<nat>, e: nat, elements: seq<nat>)
    requires list.heap.Valid() && KindOK(list.heap.schema, list.kind)
    requires Holds(list.kind, list.heap.cells, list.heap.extents, list.tyFS, nodes, e, elements)
    ensures list.Is(nodes, e, elements)
  {
  }

  lemma ListIs(list: ListFS, nodes: seq<nat>, e: nat, elements: seq<nat>)
    requires list.Is(nodes, e, elements)
    ensures list.heap.Valid() && Holds(list.kind, list.heap.cells, list.heap.extents, list.tyFS, nodes, e, elements)
  {
  }

  lemma WordsOfInts(elements: seq<nat>)
    requires forall i :: 0 <= i < |elements| ==> elements[i] < 0x1_0000_0000
    ensures Words(Join(IntWords(elements))) == IntWords(elements) && IntCells(IntWords(elements)) == elements
  {
    var words := IntWords(elements);
    forall i | 0 <= i < |words| ensures IsWord(words[i]) && IntCell(Atoi(words[i])) == elements[i] {
      AtoiOfDecimal(IntOf(elements[i]));
      IntCellRoundTrip(elements[i]);
    }
    forall w | w in words ensures IsWord(w) {
      var i :| 0 <= i < |words| && words[i] == w;
    }
    WordsOfJoin(words);
  }

  /** Writing a list of integers, splitting the text and rebuilding a list gives the same elements. */
  method IntListRoundTrip(heap: FSHeap, k: Kind, fs: nat, ghost nodes: seq<nat>, ghost e: nat, ghost elements: seq<nat>)
    returns (copy: nat, ghost nodes': seq<nat>, ghost e': nat)
    requires heap.Valid() && KindOK(heap.schema, k)
    requires Holds(k, heap.cells, heap.extents, fs, nodes, e, elements) && nodes != []
    requires forall i :: 0 <= i < |elements| ==> elements[i] < 0x1_0000_0000
    modifies heap`cells, heap`extents
    ensures heap.Valid() && Holds(k, heap.cells, heap.extents, copy, nodes', e', elements)
  {
    assert LinkAt(k, heap.cells, heap.extents, nodes, e, 0);
    ListIsClosed(k, heap.cells, heap.extents, fs, nodes, e);
    var str := IntListToString(heap, k, fs, Places(nodes, e), nodes, e);
    assert str == Join(IntWords(elements));
    WordsOfInts(elements);
    hide *;
    var words := Tokenize(str);
    copy, nodes', e' := CreateIntList(heap, k, words);
  }

  // ------------------------------------------------------------ lists of structures

  // Without data of an earlier document a null head stands as 0.
  function IdOf(xmiId: nat -> nat, head: nat): nat {
    if head == 0 then 0 else xmiId(head)
  }

  // The ids of the heads as words.
  function IdWords(elements: seq<nat>, xmiId: nat -> nat): (words: seq<string>)
    ensures |words| == |elements| && forall i :: 0 <= i < |words| ==> words[i] == Decimal(IdOf(xmiId, elements[i]))
  {
    seq(|elements|, i requires 0 <= i < |elements| => Decimal(IdOf(xmiId, elements[i])))
  }

  function Ids(elements: seq<nat>, xmiId: nat -> nat): (ids: seq<nat>)
    ensures |ids| == |elements|
    ensures forall i :: 0 <= i < |ids| ==> ids[i] == if elements[i] == 0 then 0 else xmiId(elements[i])
  {
    seq<nat>(|elements|, i requires 0 <= i < |elements| => IdOf(xmiId, elements[i]))
  }

  function WithId(str: string, id: nat): string {
    str + Decimal(id)
  }

  // Each word is the id of the element, and 0 for a null one.
  predicate IdsWritten(elements: seq<nat>, xmiId: nat -> nat, words: seq<string>) {
    |words| == |elements|
    && forall i :: 0 <= i < |words| ==> Atoi(words[i]) == if elements[i] == 0 then 0 else xmiId(elements[i])
  }

  // The text after n steps along the tails.
  function TextAfter(k: Kind, cells: seq<nat>, fs: nat, xmiId: nat -> nat, n: nat): string {
    if n == 0 then ""
    else
      var a, next := ListWalk.At(cells, fs, n - 1), ListWalk.At(cells, fs, n);
      var head := if a + HEAD < |cells| then cells[a + HEAD] else 0;
      WithBlank(WithId(TextAfter(k, cells, fs, xmiId, n - 1), IdOf(xmiId, head)),
                next < |cells| && cells[next] == k.nonEmpty)
  }

  // The places with a head among the first i.
  ghost predicate Remembers(cells: seq<nat>, fs: nat, i: nat, visited: set<int>) {
    forall a: nat ::
      a in visited <==> !ListWalk.IsNull(cells, a) && exists m :: 0 <= m < i && ListWalk.At(cells, fs, m) == a
  }

  /**
   listToString for a list of structures: their ids, and 0 for a null head. It
   ends unless it enters a ring of nodes without heads; any other ring is cut
   where a node with a head comes again.
   */
  method FSListToString(heap: FSHeap, k: Kind, fs: nat, xmiId: nat -> nat, ghost region: set<int>,
                        ghost nodes: seq<nat>, ghost e: nat) returns (str: string)
    requires k.empty != k.nonEmpty && Closed(k, heap.cells, region) && fs in region && fs < |heap.cells|
    requires ListWalk.Ends(k, heap.cells, fs)
    ensures exists n :: ListWalk.StopsAt(k, heap.cells, fs, n) && str == TextAfter(k, heap.cells, fs, xmiId, n)
    ensures ListAt(k, heap.cells, heap.extents, fs, nodes, e) ==>
              NodesFit(heap.cells, nodes) && str == Join(IdWords(Elements(heap.cells, nodes), xmiId))
    ensures ListAt(k, heap.cells, heap.extents, fs, nodes, e) ==>
              IdsWritten(Elements(heap.cells, nodes), xmiId, Words(str))
  {
    hide *;
    ghost var cells := heap.cells;
    ghost var n := ListWalk.EndOf(k, cells, fs);
    ListText(k, cells, heap.extents, fs, nodes, e, xmiId, n);
    WalkStarts(k, cells, fs, xmiId);
    str := "";
    var visited: set<int> := {};
    var curNode: nat := fs;
    ghost var i: nat := 0;
    while heap.cells[curNode] == k.nonEmpty
      invariant i <= n && curNode in region && curNode < |cells|
      invariant curNode == ListWalk.At(cells, fs, i) && str == TextAfter(k, cells, fs, xmiId, i)
      invariant Remembers(cells, fs, i, visited)
      decreases n - i
    {
      Onward(k, cells, region, curNode);
      StepTaken(k, cells, fs, xmiId, n, i, visited);
      var head := heap.cells[curNode + HEAD];
      if head != 0 {
        if curNode in visited {
          assert i == n;
          return;
        }
        visited := visited + {curNode};
      }
      i := i + 1;
      str := WithId(str, IdOf(xmiId, head));
      curNode := heap.cells[curNode + TAIL];
      str := WithBlank(str, heap.cells[curNode] == k.nonEmpty);
    }
    WalkStops(k, cells, fs, n, i);
  }

  // The text of a list is that of its heads.
  lemma ListText(k: Kind, cells: seq<nat>, extents: map<nat, nat>, fs: nat, nodes: seq<nat>, e: nat, xmiId: nat -> nat,
                 n: nat)
    requires k.empty != k.nonEmpty && ListWalk.StopsAt(k, cells, fs, n)
    ensures ListAt(k, cells, extents, fs, nodes, e) ==>
              && NodesFit(cells, nodes)
              && TextAfter(k, cells, fs, xmiId, n) == Join(IdWords(Elements(cells, nodes), xmiId))
              && IdsWritten(Elements(cells, nodes), xmiId, Words(TextAfter(k, cells, fs, xmiId, n)))
  {
    if ListAt(k, cells, extents, fs, nodes, e) {
      ListFits(k, cells, extents, fs, nodes, e);
      ListWalk.ListStops(k, cells, extents, fs, nodes, e, n);
      TextOfNodes(k, cells, extents, fs, nodes, e, xmiId, n);
      var words := IdWords(Elements(cells, nodes), xmiId);
      assert words[..|nodes|] == words;
      WordsOfIds(Elements(cells, nodes), xmiId);
    }
  }

  lemma {:induction false} TextOfNodes(k: Kind, cells: seq<nat>, extents: map<nat, nat>, fs: nat, nodes: seq<nat>,
                                       e: nat, xmiId: nat -> nat, n: nat)
    requires k.empty != k.nonEmpty && ListAt(k, cells, extents, fs, nodes, e) && n <= |nodes| && NodesFit(cells, nodes)
    ensures TextAfter(k, cells, fs, xmiId, n) == Joined(IdWords(Elements(cells, nodes), xmiId), n)
  {
    var words := IdWords(Elements(cells, nodes), xmiId);
    if n > 0 {
      hide ListAt, Decimal, Join, Joined, TextAfter, IdWords;
      TextOfNodes(k, cells, extents, fs, nodes, e, xmiId, n - 1);
      NodeText(k, cells, extents, fs, nodes, e, xmiId, n);
      JoinedNext(words, n - 1);
      assert words[n - 1] == Decimal(IdOf(xmiId, cells[nodes[n - 1] + HEAD]));
      JoinedIs(words, n);
      hide *;
      assert TextAfter(k, cells, fs, xmiId, n - 1) + words[n - 1] == Join(words[..n]);
    } else {
      JoinedIs(words, 0);
      assert words[..0] == [] && Join([]) == "";
    }
  }

  lemma JoinedIs(words: seq<string>, i: nat)
    requires i <= |words|
    ensures Joined(words, i) == Join(words[..i]) + if 0 < i < |words| then " " else ""
  {
  }

  // The step from one node to the next.
  lemma NodeText(k: Kind, cells: seq<nat>, extents: map<nat, nat>, fs: nat, nodes: seq<nat>, e: nat, xmiId: nat -> nat,
                 n: nat)
    requires k.empty != k.nonEmpty && ListAt(k, cells, extents, fs, nodes, e) && 0 < n <= |nodes|
    requires NodesFit(cells, nodes)
    ensures TextAfter(k, cells, fs, xmiId, n)
         == TextAfter(k, cells, fs, xmiId, n - 1) + Decimal(IdOf(xmiId, cells[nodes[n - 1] + HEAD]))
            + if n < |nodes| then " " else ""
  {
    ListWalk.WalksNodes(k, cells, extents, fs, nodes, e, n - 1);
    ListWalk.WalksNodes(k, cells, extents, fs, nodes, e, n);
    assert LinkAt(k, cells, extents, nodes, e, n - 1);
    assert n < |nodes| ==> LinkAt(k, cells, extents, nodes, e, n);
    hide ListAt, Decimal;
  }

  lemma WalkStarts(k: Kind, cells: seq<nat>, fs: nat, xmiId: nat -> nat)
    ensures ListWalk.At(cells, fs, 0) == fs && TextAfter(k, cells, fs, xmiId, 0) == "" && Remembers(cells, fs, 0, {})
  {
  }

  // A node that is not known leads one step on.
  lemma StepTaken(k: Kind, cells: seq<nat>, fs: nat, xmiId: nat -> nat, n: nat, i: nat, visited: set<int>)
    requires ListWalk.StopsAt(k, cells, fs, n) && i <= n && Remembers(cells, fs, i, visited)
    requires var cur := ListWalk.At(cells, fs, i);
             cur + TAIL < |cells| && cells[cur] == k.nonEmpty && cells[cur + TAIL] < |cells| && cur + HEAD < |cells|
    ensures var cur := ListWalk.At(cells, fs, i);
            var head := cells[cur + HEAD];
            && ListWalk.At(cells, fs, i + 1) == cells[cur + TAIL]
            && TextAfter(k, cells, fs, xmiId, i + 1)
            == WithBlank(WithId(TextAfter(k, cells, fs, xmiId, i), IdOf(xmiId, head)),
                         cells[cells[cur + TAIL]] == k.nonEmpty)
            && (head != 0 && cur in visited ==> i == n)
            && (head == 0 || cur !in visited ==> i < n)
            && Remembers(cells, fs, i + 1, if head == 0 then visited else visited + {cur})
  {
    var cur := ListWalk.At(cells, fs, i);
    assert ListWalk.IsKnown(cells, fs, i) <==> cells[cur + HEAD] != 0 && cur in visited;
    assert i < n ==> ListWalk.GoesOn(k, cells, fs, i);
  }

  lemma WalkStops(k: Kind, cells: seq<nat>, fs: nat, n: nat, i: nat)
    requires ListWalk.StopsAt(k, cells, fs, n) && i <= n
    requires var cur := ListWalk.At(cells, fs, i); cur < |cells| && cells[cur] != k.nonEmpty
    ensures i == n
  {
    assert i < n ==> ListWalk.GoesOn(k, cells, fs, i);
  }

  lemma ValidExtents(heap: FSHeap)
    requires heap.Valid()
    ensures ExtentsOK(heap.extents, |heap.cells|)
  {
  }

  method NewListNode(heap: FSHeap, k: Kind, head: nat, tail: nat) returns (node: nat)
    requires heap.Valid() && KindOK(heap.schema, k)
    modifies heap`cells, heap`extents
    ensures heap.Valid() && node == |old(heap.cells)| && heap.cells == old(heap.cells) + [k.nonEmpty, head, tail]
    ensures heap.extents == old(heap.extents)[node := 3]
  {
    node := heap.CreateFS(k.nonEmpty);
    heap.SetFSValue(node, HEAD, head);
    heap.SetFSValue(node, TAIL, tail);
  }

  /** createFSList: one node for each word, from the last to the first. */
  method CreateFSList(heap: FSHeap, k: Kind,
                      words: seq<string>) returns (first: nat, ghost nodes: seq<nat>, ghost e: nat)
    requires heap.Valid() && KindOK(heap.schema, k) && forall i :: 0 <= i < |words| ==> Atoi(words[i]) >= 0
    modifies heap`cells, heap`extents
    ensures heap.Valid() && Holds(k, heap.cells, heap.extents, first, nodes, e, IdCells(words))
  {
    hide *;
    EmptyIsType(heap, k);
    first := heap.CreateFS(k.empty);
    nodes, e := [], first;
    NewEmptyList(k, heap.cells, heap.extents, first);
    assert IdCells(words)[|words|..] == [];
    var i: nat := |words|;
    while i > 0
      invariant i <= |words| && heap.Valid()
      invariant Holds(k, heap.cells, heap.extents, first, nodes, e, IdCells(words)[i..])
    {
      var value := Atoi(words[i - 1]);
      ValidExtents(heap);
      NodeInFront(k, heap.cells, heap.extents, first, nodes, e, IdCells(words)[i..], value);
      var node := NewListNode(heap, k, value, first);
      assert IdCells(words)[i - 1..] == [value] + IdCells(words)[i..];
      first, nodes, i := node, [node] + nodes, i - 1;
    }
    assert IdCells(words)[0..] == IdCells(words);
  }

  function IdCells(words: seq<string>): (cells: seq<nat>)
    requires forall i :: 0 <= i < |words| ==> Atoi(words[i]) >= 0
    ensures |cells| == |words| && forall i :: 0 <= i < |words| ==> cells[i] == Atoi(words[i])
  {
    seq<nat>(|words|, i requires 0 <= i < |words| => Atoi(words[i]))
  }

  lemma WordsOfIds(elements: seq<nat>, xmiId: nat -> nat)
    ensures var words := IdWords(elements, xmiId);
            && Words(Join(words)) == words && (forall i :: 0 <= i < |words| ==> Atoi(words[i]) >= 0)
            && IdCells(words) == Ids(elements, xmiId) && IdsWritten(elements, xmiId, Words(Join(words)))
  {
    var words := IdWords(elements, xmiId);
    forall i | 0 <= i < |words| ensures IsWord(words[i]) && Atoi(words[i]) == IdOf(xmiId, elements[i]) {
      AtoiOfDecimal(IdOf(xmiId, elements[i]));
    }
    forall w | w in words ensures IsWord(w) {
      var i :| 0 <= i < |words| && words[i] == w;
    }
    WordsOfJoin(words);
  }

  /** The rebuilt list holds the ids of the heads, in order, and 0 for each null head. */
  method FSListRoundTrip(heap: FSHeap, k: Kind, fs: nat, xmiId: nat -> nat, ghost nodes: seq<nat>, ghost e: nat,
                         ghost elements: seq<nat>)
    returns (copy: nat, ghost nodes': seq<nat>, ghost e': nat)
    requires heap.Valid() && KindOK(heap.schema, k)
    requires Holds(k, heap.cells, heap.extents, fs, nodes, e, elements)
    modifies heap`cells, heap`extents
    ensures heap.Valid() && Holds(k, heap.cells, heap.extents, copy, nodes', e', Ids(elements, xmiId))
  {
    ListIsClosed(k, heap.cells, heap.extents, fs, nodes, e);
    ListWalk.ListEnds(k, heap.cells, heap.extents, fs, nodes, e);
    assert nodes != [] ==> LinkAt(k, heap.cells, heap.extents, nodes, e, 0);
    var str := FSListToString(heap, k, fs, xmiId, Places(nodes, e), nodes, e);
    WordsOfIds(elements, xmiId);
    hide *;
    var words := Tokenize(str);
    copy, nodes', e' := CreateFSList(heap, k, words);
  }

  // -------------------------------------------------- enqueueFSListElements

  // The places of the walk from a: each node leads to the next one, and none comes twice.
  predicate IsWalk(k: Kind, cells: seq<nat>, a: nat, walk: seq<nat>) {
    && (|walk| > 0 ==> walk[0] == a)
    && (forall i :: 0 <= i < |walk| ==> walk[i] + TAIL < |cells| && cells[walk[i]] == k.nonEmpty)
    && (forall i {:trigger StepAt(cells, walk, i)} :: 0 < i < |walk| ==> StepAt(cells, walk, i))
    && (forall i, j :: 0 <= i < j < |walk| ==> walk[i] != walk[j])
  }

  predicate StepAt(cells: seq<nat>, walk: seq<nat>, i: int) {
    0 < i < |walk| && walk[i - 1] + TAIL < |cells| && walk[i] == cells[walk[i - 1] + TAIL]
  }

  // Where a walk goes on.
  function WalkEnd(k: Kind, cells: seq<nat>, a: nat, walk: seq<nat>): nat
    requires IsWalk(k, cells, a, walk)
  {
    if walk == [] then a else cells[walk[|walk| - 1] + TAIL]
  }

  // The heads that are not null, in order.
  function SetHeads(cells: seq<nat>, walk: seq<nat>): seq<nat>
    requires NodesFit(cells, walk)
  {
    if walk == [] then []
    else SetHeads(cells, walk[..|walk| - 1])
         + if cells[walk[|walk| - 1] + HEAD] != 0 then [cells[walk[|walk| - 1] + HEAD]] else []
  }

  /**
   The walk of enqueueFSListElements ends on every heap: at an empty node, or,
   in a ring, at the first node that comes again. Until then every node is
   visited once, and every head that is set is passed on.
   */
  method EnqueueFSListElements(heap: FSHeap, k: Kind, fs: nat,
                               ghost region: set<int>) returns (heads: seq<nat>, ghost walk: seq<nat>)
    requires Closed(k, heap.cells, region) && fs in region && fs < |heap.cells|
    ensures IsWalk(k, heap.cells, fs, walk) && NodesFit(heap.cells, walk) && heads == SetHeads(heap.cells, walk)
    ensures var end := WalkEnd(k, heap.cells, fs, walk);
            end in walk || (end < |heap.cells| && heap.cells[end] != k.nonEmpty)
  {
    heads, walk := [], [];
    var visited: set<int> := {};
    var curNode: nat := fs;
    ghost var cells := heap.cells;
    WalkNowhere(k, cells, fs);
    assert AreVisited({}, [], |cells|);
    hide *;
    while heap.cells[curNode] == k.nonEmpty
      invariant curNode in region && curNode < |cells|
      invariant Walked(k, cells, fs, walk, curNode, heads) && AreVisited(visited, walk, |cells|)
      decreases |cells| - |visited|
    {
      VisitNext(visited, walk, curNode, |cells|);
      if curNode in visited {
        break;
      }
      Onward(k, cells, region, curNode);
      WalkOn(k, cells, fs, walk, curNode, heads);
      visited := visited + {curNode};
      var head := heap.cells[curNode + HEAD];
      heads := if head != 0 then heads + [head] else heads;
      walk := walk + [curNode];
      curNode := heap.cells[curNode + TAIL];
    }
    WalkDone(k, cells, fs, walk, curNode, heads);
  }

  ghost predicate AreVisited(visited: set<int>, walk: seq<nat>, n: nat) {
    (forall a :: a in visited <==> a in walk) && forall a :: a in visited ==> 0 <= a < n
  }

  lemma VisitNext(visited: set<int>, walk: seq<nat>, cur: nat, n: nat)
    requires AreVisited(visited, walk, n) && cur < n
    ensures (cur in visited <==> cur in walk) && AreVisited(visited + {cur}, walk + [cur], n)
    ensures cur !in visited ==> |visited + {cur}| <= n && |visited + {cur}| == |visited| + 1
  {
    VisitedBound(visited + {cur}, n);
  }

  ghost predicate Walked(k: Kind, cells: seq<nat>, fs: nat, walk: seq<nat>, cur: nat, heads: seq<nat>) {
    && IsWalk(k, cells, fs, walk) && cur == WalkEnd(k, cells, fs, walk)
    && NodesFit(cells, walk) && heads == SetHeads(cells, walk)
  }

  lemma WalkNowhere(k: Kind, cells: seq<nat>, fs: nat)
    ensures Walked(k, cells, fs, [], fs, [])
  {
  }

  lemma WalkOn(k: Kind, cells: seq<nat>, fs: nat, walk: seq<nat>, cur: nat, heads: seq<nat>)
    requires Walked(k, cells, fs, walk, cur, heads) && cur !in walk && cur + TAIL < |cells| && cells[cur] == k.nonEmpty
    ensures Walked(k, cells, fs, walk + [cur], cells[cur + TAIL],
                   if cells[cur + HEAD] != 0 then heads + [cells[cur + HEAD]] else heads)
  {
    var more := walk + [cur];
    assert more[..|walk|] == walk;
    forall i | 0 < i < |more| ensures StepAt(cells, more, i) {
      assert i < |walk| ==> StepAt(cells, walk, i);
    }
  }

  lemma WalkDone(k: Kind, cells: seq<nat>, fs: nat, walk: seq<nat>, cur: nat, heads: seq<nat>)
    requires Walked(k, cells, fs, walk, cur, heads)
    ensures IsWalk(k, cells, fs, walk) && cur == WalkEnd(k, cells, fs, walk)
    ensures NodesFit(cells, walk) && heads == SetHeads(cells, walk)
  {
  }

  /** On a list the walk visits exactly the nodes. */
  lemma {:induction false} WalkOfList(k: Kind, cells: seq<nat>, extents: map<nat, nat>, fs: nat, nodes: seq<nat>,
                                      e: nat, walk: seq<nat>)
    requires k.empty != k.nonEmpty && ListAt(k, cells, extents, fs, nodes, e) && IsWalk(k, cells, fs, walk)
    requires var end := WalkEnd(k, cells, fs, walk); end in walk || (end < |cells| && cells[end] != k.nonEmpty)
    ensures walk == nodes
  {
    WalkFollows(k, cells, extents, fs, nodes, e, walk, |walk|);
    var end := WalkEnd(k, cells, fs, walk);
    assert |walk| > 0 ==> LinkAt(k, cells, extents, nodes, e, |walk| - 1);
    assert end == Follower(nodes, e, |walk|);
    ListFits(k, cells, extents, fs, nodes, e);
    if |walk| < |nodes| {
      assert nodes[|walk|] in nodes;
      ListIsAcyclic(k, cells, extents, fs, nodes, e);
    }
  }

  lemma {:induction false} WalkFollows(k: Kind, cells: seq<nat>, extents: map<nat, nat>, fs: nat, nodes: seq<nat>,
                                       e: nat, walk: seq<nat>, n: nat)
    requires k.empty != k.nonEmpty && ListAt(k, cells, extents, fs, nodes, e) && IsWalk(k, cells, fs, walk)
    requires n <= |walk|
    ensures n <= |nodes| && walk[..n] == nodes[..n]
  {
    if n > 0 {
      WalkFollows(k, cells, extents, fs, nodes, e, walk, n - 1);
      assert n > 1 ==> walk[..n - 1][n - 2] == walk[n - 2] && nodes[..n - 1][n - 2] == nodes[n - 2];
      assert n > 1 ==> LinkAt(k, cells, extents, nodes, e, n - 2);
      assert n > 1 ==> StepAt(cells, walk, n - 1);
      assert walk[n - 1] == Follower(nodes, e, n - 1);
      assert walk[..n] == walk[..n - 1] + [walk[n - 1]];
    }
  }
}
