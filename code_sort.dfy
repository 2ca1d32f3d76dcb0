/** Inferring a symbol order from a sorted sample list and sorting words by it. */
module CodeSort {
  import opened Graph
  import opened Words

  datatype Option<T> = None | Some(value: T)

  // ---------------------------------------------------------------------
  // Precedence extraction

  /** Position of the first difference between two words, or the length of
      the shorter one when it is a prefix of the other. */
  function FirstDiff(prev: string, curr: string): (k: nat)
    ensures k <= |prev| && k <= |curr|
  {
    if prev == [] || curr == [] || prev[0] != curr[0] then 0
    else 1 + FirstDiff(prev[1..], curr[1..])
  }

  /** The words agree below FirstDiff and, where both go on, differ at it. */
  lemma {:induction false} FirstDiffMeaning(prev: string, curr: string)
    ensures var k := FirstDiff(prev, curr);
            && (forall j :: 0 <= j < k ==> prev[j] == curr[j])
            && (k < |prev| && k < |curr| ==> prev[k] != curr[k])
  {
    if prev != [] && curr != [] && prev[0] == curr[0] {
      FirstDiffMeaning(prev[1..], curr[1..]);
    }
  }

  predicate IsPrefix(a: string, b: string) {
    |a| <= |b| && a == b[..|a|]
  }

  /** The edge one adjacent pair contributes: curr[k] -> prev[k] at the first
      difference k, or none when one word is a prefix of the other. */
  function EdgeOf(prev: string, curr: string): (e: Option<(char, char)>)
    ensures e.Some? ==> e.value.0 in curr && e.value.1 in prev
  {
    var k := FirstDiff(prev, curr);
    if k < |prev| && k < |curr| then Some((curr[k], prev[k])) else None
  }

  /** No edge exactly when one word is a prefix of the other; otherwise the
      edge joins the two different symbols at the first difference. */
  lemma EdgeOfMeaning(prev: string, curr: string)
    ensures var e := EdgeOf(prev, curr);
            && (e.None? <==> IsPrefix(prev, curr) || IsPrefix(curr, prev))
            && (e.Some? ==> e.value.0 != e.value.1)
            && (e.Some? ==> var k := FirstDiff(prev, curr);
                            prev[..k] == curr[..k] && e.value == (curr[k], prev[k]))
  {
    var k := FirstDiff(prev, curr);
    FirstDiffMeaning(prev, curr);
    assert prev[..k] == curr[..k];
    if k < |prev| && k < |curr| {
      assert prev[..k + 1] != curr[..k + 1] by { assert prev[..k + 1][k] != curr[..k + 1][k]; }
    } else if k == |prev| {
      assert prev == curr[..|prev|];
    } else {
      assert curr == prev[..|curr|];
    }
  }

  /** The symbols of one word. */
  function Chars(w: string): set<char> {
    set c | c in w
  }

  /** All symbols of the first n words of a list. */
  function SymbolsUpTo(words: seq<string>, n: nat): set<char>
    requires n <= |words|
  {
    if n == 0 then {} else SymbolsUpTo(words, n - 1) + Chars(words[n - 1])
  }

  /** A symbol is among the first n words' symbols exactly when one of those
      words contains it. */
  lemma {:induction false} SymbolsMeaning(words: seq<string>, n: nat, c: char)
    requires n <= |words|
    ensures c in SymbolsUpTo(words, n) <==> exists i :: 0 <= i < n && c in words[i]
  {
    if n > 0 {
      SymbolsMeaning(words, n - 1, c);
      if c in words[n - 1] {
        assert c in Chars(words[n - 1]);
      }
    }
  }

  /** All symbols of a list of words. */
  function Symbols(words: seq<string>): set<char> {
    SymbolsUpTo(words, |words|)
  }

  /** The graph after inserting every symbol of `word` as a vertex, in order. */
  function WithVertices(g: map<char, seq<char>>, word: string): (r: map<char, seq<char>>)
    ensures r.Keys == g.Keys + Chars(word)
    ensures forall u :: u in g ==> r[u] == g[u]
    ensures forall u :: u in r && u !in g ==> r[u] == []
  {
    if word == [] then g
    else WithVertex(WithVertices(g, word[..|word| - 1]), word[|word| - 1])
  }

  /** The graph after relating two adjacent words. */
  function Related(g: map<char, seq<char>>, prev: string, curr: string): (r: map<char, seq<char>>)
    requires EdgeOf(prev, curr).Some? ==> EdgeOf(prev, curr).value.0 in g
    ensures r.Keys == g.Keys
  {
    match EdgeOf(prev, curr)
    case None => g
    case Some((from, to)) => WithEdge(g, from, to)
  }

  /** The graph buildFollowsGraph has built from g after the first n words:
      each word's symbols are inserted, then the word is related to the one
      before it. */
  function BuildUpTo(g: map<char, seq<char>>, words: seq<string>, n: nat): map<char, seq<char>>
    requires 1 <= n <= |words|
  {
    if n == 1 then WithVertices(g, words[0])
    else
      var h := WithVertices(BuildUpTo(g, words, n - 1), words[n - 1]);
      assert EdgeOf(words[n - 2], words[n - 1]).Some? ==> EdgeOf(words[n - 2], words[n - 1]).value.0 in h;
      Related(h, words[n - 2], words[n - 1])
  }

  /** One more word: its symbols are inserted, which makes the source of its
      edge a vertex, and it is related to its predecessor. */
  lemma BuildUpToStep(g: map<char, seq<char>>, words: seq<string>, n: nat)
    requires 1 <= n < |words|
    ensures var h := WithVertices(BuildUpTo(g, words, n), words[n]);
            && (EdgeOf(words[n - 1], words[n]).Some? ==> EdgeOf(words[n - 1], words[n]).value.0 in h)
            && BuildUpTo(g, words, n + 1) == Related(h, words[n - 1], words[n])
  {
  }

  /** The graph buildFollowsGraph leaves behind when started from g. */
  function BuildFrom(g: map<char, seq<char>>, words: seq<string>): map<char, seq<char>>
    requires |words| > 0
  {
    BuildUpTo(g, words, |words|)
  }

  /** Some adjacent pair among the first n words contributes the edge from -> to. */
  ghost predicate EvidenceUpTo(words: seq<string>, n: nat, from: char, to: char)
    requires n <= |words|
  {
    exists i :: 1 <= i < n && EdgeOf(words[i - 1], words[i]) == Some((from, to))
  }

  /** Some adjacent pair of the sample contributes the edge from -> to. */
  ghost predicate Evidence(words: seq<string>, from: char, to: char) {
    EvidenceUpTo(words, |words|, from, to)
  }

  /** The vertices are exactly the symbols of the words read plus those already there. */
  lemma {:induction false} BuildUpToKeys(g: map<char, seq<char>>, words: seq<string>, n: nat)
    requires 1 <= n <= |words|
    ensures BuildUpTo(g, words, n).Keys == g.Keys + SymbolsUpTo(words, n)
  {
    if n > 1 {
      BuildUpToKeys(g, words, n - 1);
    }
  }

  /** Building keeps every edge endpoint a vertex. */
  lemma {:induction false} BuildUpToClosed(g: map<char, seq<char>>, words: seq<string>, n: nat)
    requires 1 <= n <= |words| && Closed(g)
    ensures Closed(BuildUpTo(g, words, n))
  {
    if n > 1 {
      var prev, curr := words[n - 2], words[n - 1];
      BuildUpToClosed(g, words, n - 1);
      BuildUpToKeys(g, words, n - 1);
      var h := WithVertices(BuildUpTo(g, words, n - 1), curr);
      assert Closed(h);
      var e := EdgeOf(prev, curr);
      if e.Some? {
        assert e.value.1 in Chars(prev);
      }
    }
  }

  lemma EvidenceSnoc(words: seq<string>, n: nat, from: char, to: char)
    requires 1 <= n < |words|
    ensures EvidenceUpTo(words, n + 1, from, to) <==>
            EvidenceUpTo(words, n, from, to) || EdgeOf(words[n - 1], words[n]) == Some((from, to))
  {
    if EdgeOf(words[n - 1], words[n]) == Some((from, to)) {
      assert EvidenceUpTo(words, n + 1, from, to);
    }
  }

  /** Inserting vertices adds no edge. */
  lemma WithVerticesEdges(g: map<char, seq<char>>, word: string, from: char, to: char)
    ensures var h := WithVertices(g, word);
            (from in h && to in h[from]) <==> (from in g && to in g[from])
  {
  }

  /** Relating two words adds exactly the edge they contribute. */
  lemma RelatedEdges(g: map<char, seq<char>>, prev: string, curr: string, from: char, to: char)
    requires EdgeOf(prev, curr).Some? ==> EdgeOf(prev, curr).value.0 in g
    ensures var r := Related(g, prev, curr);
            (from in r && to in r[from]) <==> (from in g && to in g[from]) || EdgeOf(prev, curr) == Some((from, to))
  {
  }

  /** An edge is in the built graph exactly when it was already in g or some
      adjacent pair of the words read contributes it. */
  lemma {:induction false} BuildUpToEdges(g: map<char, seq<char>>, words: seq<string>, n: nat, from: char, to: char)
    requires 1 <= n <= |words|
    ensures var r := BuildUpTo(g, words, n);
            (from in r && to in r[from]) <==> (from in g && to in g[from]) || EvidenceUpTo(words, n, from, to)
  {
    if n > 1 {
      BuildUpToEdges(g, words, n - 1, from, to);
      EvidenceSnoc(words, n - 1, from, to);
      BuildUpToStep(g, words, n - 1);
      var h := WithVertices(BuildUpTo(g, words, n - 1), words[n - 1]);
      WithVerticesEdges(BuildUpTo(g, words, n - 1), words[n - 1], from, to);
      RelatedEdges(h, words[n - 2], words[n - 1], from, to);
    } else {
      assert !EvidenceUpTo(words, n, from, to);
      WithVerticesEdges(g, words[0], from, to);
    }
  }

  // ---------------------------------------------------------------------
  // Building the follows graph

  /** Adds every symbol of `word` as a vertex. */
  method InsertVertices(followsGraph: Graph<char>, word: string)
    modifies followsGraph
    ensures followsGraph.edgeMap == WithVertices(old(followsGraph.edgeMap), word)
  {
    var i := 0;
    while i < |word|
      invariant 0 <= i <= |word|
      invariant followsGraph.edgeMap == WithVertices(old(followsGraph.edgeMap), word[..i])
    {
      assert word[..i + 1][..i] == word[..i];
      followsGraph.AddVertex(word[i]);
      i := i + 1;
    }
    assert word[..i] == word;
  }

  /** Scans two adjacent words to their first difference and adds at most one
      edge, curr[k] -> prev[k]; the source vertex must already be present. */
  method GenerateRelationship(followsGraph: Graph<char>, prev: string, curr: string)
    requires EdgeOf(prev, curr).Some? ==> EdgeOf(prev, curr).value.0 in followsGraph.edgeMap
    modifies followsGraph
    ensures followsGraph.edgeMap == Related(old(followsGraph.edgeMap), prev, curr)
  {
    FirstDiffMeaning(prev, curr);
    var i := 0;
    var j := 0;
    while i < |prev| && j < |curr| && prev[i] == curr[j]
      invariant i == j && i <= FirstDiff(prev, curr)
    {
      i := i + 1;
      j := j + 1;
    }
    if i < |prev| && j < |curr| {
      followsGraph.AddEdge(curr[j], prev[i]);
    }
  }

  /** Inserts the vertices of each word and relates it to its predecessor. */
  method BuildFollowsGraph(followsGraph: Graph<char>, words: seq<string>)
    requires |words| > 0
    modifies followsGraph
    ensures followsGraph.edgeMap == BuildFrom(old(followsGraph.edgeMap), words)
  {
    var prev := words[0];
    InsertVertices(followsGraph, prev);
    var i := 1;
    while i < |words|
      invariant 1 <= i <= |words|
      invariant prev == words[i - 1]
      invariant followsGraph.edgeMap == BuildUpTo(old(followsGraph.edgeMap), words, i)
    {
      BuildUpToStep(old(followsGraph.edgeMap), words, i);
      InsertVertices(followsGraph, words[i]);
      GenerateRelationship(followsGraph, prev, words[i]);
      prev := words[i];
      i := i + 1;
    }
  }

  /** The follows graph of a sample list. */
  function FollowsGraph(words: seq<string>): map<char, seq<char>>
    requires |words| > 0
  {
    BuildFrom(map[], words)
  }

  /** The inferred alphabet: every symbol of the sample exactly once, and, when
      the follows graph has no cycle, every symbol after all symbols it follows. */
  method FindAlphaOrdering(words: seq<string>) returns (order: seq<char>)
    requires |words| > 0
    ensures Distinct(order)
    ensures forall c :: c in order <==> c in Symbols(words)
    ensures Acyclic(FollowsGraph(words)) ==> Respects(FollowsGraph(words), order)
  {
    var followsGraph := new Graph<char>();
    BuildFollowsGraph(followsGraph, words);
    BuildUpToKeys(map[], words, |words|);
    BuildUpToClosed(map[], words, |words|);
    order := followsGraph.TopoSort();
  }

  // ---------------------------------------------------------------------
  // Rank table

  /** The rank each symbol gets from a list: its (last) position. */
  function Ranks(order: seq<char>): (rank: map<char, int>)
    ensures forall c :: c in rank <==> c in order
    ensures forall c :: c in rank ==> 0 <= rank[c] < |order| && order[rank[c]] == c
    ensures Injective(rank)
  {
    if order == [] then map[]
    else Ranks(order[..|order| - 1])[order[|order| - 1] := |order| - 1]
  }

  /** A later occurrence overrides an earlier one: no symbol's rank is below
      any of its positions. */
  lemma {:induction false} RanksLatest(order: seq<char>, k: nat)
    requires k < |order|
    ensures k <= Ranks(order)[order[k]]
  {
    var prior := order[..|order| - 1];
    if k < |prior| && order[k] != order[|order| - 1] {
      RanksLatest(prior, k);
      assert prior[k] == order[k];
    }
  }

  /** On a duplicate-free list the ranks are exactly the positions 0 .. |order| - 1. */
  lemma RanksOfDistinct(order: seq<char>)
    requires Distinct(order)
    ensures forall k :: 0 <= k < |order| ==> Ranks(order)[order[k]] == k
  {
    forall k | 0 <= k < |order| ensures Ranks(order)[order[k]] == k {
      assert order[Ranks(order)[order[k]]] == order[k];
    }
  }

  lemma RanksSnoc(order: seq<char>, k: nat)
    requires k < |order|
    ensures Ranks(order[..k + 1]) == Ranks(order[..k])[order[k] := k]
  {
    assert order[..k + 1][..k] == order[..k];
  }

  /** Gives each symbol of the topological order its position as rank. */
  method RankTable(order: seq<char>) returns (rank: map<char, int>)
    ensures rank == Ranks(order)
  {
    rank := map[];
    var k := 0;
    while k < |order|
      invariant 0 <= k <= |order|
      invariant rank == Ranks(order[..k])
    {
      RanksSnoc(order, k);
      rank := rank[order[k] := k];
      k := k + 1;
    }
    assert order[..k] == order;
  }

  // ---------------------------------------------------------------------
  // Selection sort

  /** After pass i: s[..i] is in order and goes first of everything in s[i..]. */
  ghost predicate SelectedPrefix(s: seq<Word>, i: nat, rank: map<char, int>)
    requires Comparable(s, rank)
  {
    && i <= |s|
    && (forall p, q :: 0 <= p < q < i ==> Cmp(s[p].text, s[q].text, rank) == -1)
    && (forall p, q :: 0 <= p < i <= q < |s| ==> Cmp(s[p].text, s[q].text, rank) == -1)
  }

  /** s[m] goes first of every other word in s[lo..hi]. */
  ghost predicate MinAt(s: seq<Word>, lo: nat, hi: nat, m: nat, rank: map<char, int>)
    requires Comparable(s, rank) && m < |s| && hi <= |s|
  {
    forall k :: lo <= k < hi && k != m ==> Cmp(s[m].text, s[k].text, rank) == -1
  }

  lemma MinStep(s: seq<Word>, lo: nat, j: nat, m: nat, rank: map<char, int>)
    requires Comparable(s, rank) && lo <= m < j < |s| && MinAt(s, lo, j, m, rank)
    ensures Cmp(s[j].text, s[m].text, rank) < 0 ==> MinAt(s, lo, j + 1, j, rank)
    ensures Cmp(s[j].text, s[m].text, rank) >= 0 ==> MinAt(s, lo, j + 1, m, rank)
  {
    if Cmp(s[j].text, s[m].text, rank) < 0 {
      forall k | lo <= k < j + 1 && k != j ensures Cmp(s[j].text, s[k].text, rank) == -1 {
        if k != m {
          CmpTransitive(s[j].text, s[m].text, s[k].text, rank);
        }
      }
    } else {
      CmpTotal(s[j].text, s[m].text, rank);
    }
  }

  /** Exchanging two entries keeps the words and their comparability. */
  lemma SwapComparable(s: seq<Word>, i: nat, m: nat, rank: map<char, int>)
    requires Comparable(s, rank) && i <= m < |s|
    ensures var t := s[i := s[m]][m := s[i]];
            multiset(t) == multiset(s) && Comparable(t, rank)
  {
    var t := s[i := s[m]][m := s[i]];
    forall p, q | 0 <= p < |t| && 0 <= q < |t| && p != q
      ensures Lookups(t[p].text, t[q].text, rank)
    {
      var p' := if p == i then m else if p == m then i else p;
      var q' := if q == i then m else if q == m then i else q;
      assert t[p] == s[p'] && t[q] == s[q'] && p' != q';
    }
  }

  /** Bringing the selected word s[m] to position i extends the sorted prefix. */
  lemma SwapStep(s: seq<Word>, i: nat, m: nat, rank: map<char, int>)
    requires Comparable(s, rank) && i <= m < |s| && SelectedPrefix(s, i, rank) && MinAt(s, i, |s|, m, rank)
    ensures var t := s[i := s[m]][m := s[i]];
            && multiset(t) == multiset(s)
            && Comparable(t, rank)
            && SelectedPrefix(t, i + 1, rank)
  {
    var t := s[i := s[m]][m := s[i]];
    SwapComparable(s, i, m, rank);
    forall p, q | 0 <= p < q < i + 1
      ensures Cmp(t[p].text, t[q].text, rank) == -1
    {
      assert t[p] == s[p];
      if q == i {
        assert t[q] == s[m];
      } else {
        assert t[q] == s[q];
      }
    }
    forall p, q | 0 <= p < i + 1 <= q < |t|
      ensures Cmp(t[p].text, t[q].text, rank) == -1
    {
      var q' := if q == m then i else q;
      assert t[q] == s[q'];
      if p < i {
        assert t[p] == s[p];
      } else {
        assert t[p] == s[m] && q' != m;
      }
    }
  }

  /** In-place selection sort: each pass moves a word that goes first of all
      remaining ones to the front of the unsorted part. */
  method SelectionSort(arr: array<Word>, rank: map<char, int>)
    requires Comparable(arr[..], rank)
    modifies arr
    ensures multiset(arr[..]) == multiset(old(arr[..]))
    ensures Comparable(arr[..], rank) && Sorted(arr[..], rank)
    ensures arr.Length <= 1 ==> arr[..] == old(arr[..])
  {
    var i := 0;
    while i < arr.Length - 1
      invariant 0 <= i <= if arr.Length == 0 then 0 else arr.Length - 1
      invariant multiset(arr[..]) == multiset(old(arr[..]))
      invariant Comparable(arr[..], rank) && SelectedPrefix(arr[..], i, rank)
      invariant arr.Length <= 1 ==> arr[..] == old(arr[..])
    {
      var minIndex := i;
      var j := i + 1;
      ghost var s := arr[..];
      while j < arr.Length
        invariant arr[..] == s
        invariant i <= minIndex < j <= arr.Length
        invariant MinAt(s, i, j, minIndex, rank)
      {
        MinStep(arr[..], i, j, minIndex, rank);
        var c := arr[j].Compare(arr[minIndex], rank);
        if c < 0 {
          minIndex := j;
        }
        j := j + 1;
      }
      SwapStep(arr[..], i, minIndex, rank);
      var temp := arr[i];
      arr[i] := arr[minIndex];
      arr[minIndex] := temp;
      i := i + 1;
    }
  }

  // ---------------------------------------------------------------------
  // Using the inferred order

  /** The sample list as words. */
  function Wrap(words: seq<string>): (r: seq<Word>)
    ensures |r| == |words| && forall i :: 0 <= i < |words| ==> r[i].text == words[i]
  {
    seq(|words|, i requires 0 <= i < |words| => Word(words[i]))
  }

  /** No word is immediately followed by one of its proper prefixes, which a
      list sorted under any order with shorter-prefix-first never does. */
  ghost predicate PrefixesFirst(words: seq<string>) {
    forall i :: 1 <= i < |words| ==> !(IsPrefix(words[i], words[i - 1]) && |words[i]| < |words[i - 1]|)
  }

  lemma {:induction false} KnownLookups(a: string, b: string, rank: map<char, int>)
    requires forall c :: c in a ==> c in rank
    requires forall c :: c in b ==> c in rank
    ensures Lookups(a, b, rank)
  {
    if a != [] && b != [] {
      assert a[0] in a && b[0] in b;
      KnownLookups(a[1..], b[1..], rank);
    }
  }

  /** The evidence of one adjacent pair, read back through its ranks: when the
      ranks put the edge's target first, prev goes first of curr. */
  lemma AdjacentInOrder(prev: string, curr: string, rank: map<char, int>)
    requires forall c :: c in prev ==> c in rank
    requires forall c :: c in curr ==> c in rank
    requires !(IsPrefix(curr, prev) && |curr| < |prev|)
    requires EdgeOf(prev, curr).Some? ==> rank[EdgeOf(prev, curr).value.1] < rank[EdgeOf(prev, curr).value.0]
    ensures Lookups(prev, curr, rank) && Cmp(prev, curr, rank) == -1
  {
    var k := FirstDiff(prev, curr);
    FirstDiffMeaning(prev, curr);
    EdgeOfMeaning(prev, curr);
    assert forall j :: 0 <= j < |prev| ==> prev[j] in prev;
    assert forall j :: 0 <= j < |curr| ==> curr[j] in curr;
    if k < |prev| && k < |curr| {
      CmpDecidedAt(prev, curr, rank, k);
    } else {
      CmpTie(prev, curr, rank);
      if IsPrefix(curr, prev) {
        assert |curr| == |prev|;
      }
    }
  }

  /** `order` lists each sample symbol once and respects the follows graph,
      as the traversal's output does when that graph is acyclic. */
  ghost predicate RespectingOrder(words: seq<string>, order: seq<char>)
    requires |words| > 0
  {
    && Distinct(order)
    && (forall c :: c in order <==> c in Symbols(words))
    && Respects(FollowsGraph(words), order)
  }

  /** Premises under which the sample list agrees with the order inferred
      from it: `order` respects the follows graph, and no word is followed by
      one of its proper prefixes. */
  ghost predicate ConsistentSample(words: seq<string>, order: seq<char>)
    requires |words| > 0
  {
    RespectingOrder(words, order) && PrefixesFirst(words)
  }

  /** Each extracted edge from -> to is reflected in the ranks: rank(to) < rank(from). */
  lemma {:induction false} RanksRespectEvidence(words: seq<string>, order: seq<char>, i: nat)
    requires |words| > 0 && RespectingOrder(words, order)
    requires 1 <= i < |words| && EdgeOf(words[i - 1], words[i]).Some?
    ensures var e := EdgeOf(words[i - 1], words[i]).value;
            e.0 in Ranks(order) && e.1 in Ranks(order) && Ranks(order)[e.1] < Ranks(order)[e.0]
  {
    var e := EdgeOf(words[i - 1], words[i]).value;
    var g := FollowsGraph(words);
    assert Evidence(words, e.0, e.1);
    BuildUpToEdges(map[], words, |words|, e.0, e.1);
    BuildUpToKeys(map[], words, |words|);
    BuildUpToClosed(map[], words, |words|);
    var rank := Ranks(order);
    RanksOfDistinct(order);
    var iu := rank[e.0];
    var iv := rank[e.1];
    assert order[iu] == e.0 && order[iv] == e.1;
  }

  /** Every symbol of a sample word has a rank. */
  lemma SampleRanked(words: seq<string>, order: seq<char>, i: nat)
    requires |words| > 0 && RespectingOrder(words, order) && i < |words|
    ensures forall c :: c in words[i] ==> c in Ranks(order)
  {
    forall c | c in words[i] ensures c in Ranks(order) {
      SymbolsMeaning(words, |words|, c);
    }
  }

  lemma SampleLookups(words: seq<string>, order: seq<char>)
    requires |words| > 0 && RespectingOrder(words, order)
    ensures forall i, j :: 0 <= i < |words| && 0 <= j < |words| ==> Lookups(words[i], words[j], Ranks(order))
  {
    var rank := Ranks(order);
    forall i, j | 0 <= i < |words| && 0 <= j < |words| ensures Lookups(words[i], words[j], rank) {
      SampleRanked(words, order, i);
      SampleRanked(words, order, j);
      KnownLookups(words[i], words[j], rank);
    }
  }

  /** Each adjacent pair of a consistent sample is in order under its ranks. */
  lemma SamplePairInOrder(words: seq<string>, order: seq<char>, i: nat)
    requires |words| > 0 && ConsistentSample(words, order) && 1 <= i < |words|
    ensures Lookups(words[i - 1], words[i], Ranks(order)) && Cmp(words[i - 1], words[i], Ranks(order)) == -1
  {
    var prev, curr, rank := words[i - 1], words[i], Ranks(order);
    SampleRanked(words, order, i - 1);
    SampleRanked(words, order, i);
    assert forall c :: c in prev ==> c in rank;
    assert forall c :: c in curr ==> c in rank;
    assert !(IsPrefix(curr, prev) && |curr| < |prev|);
    if EdgeOf(prev, curr).Some? {
      RanksRespectEvidence(words, order, i);
    }
    assert EdgeOf(prev, curr).Some? ==> rank[EdgeOf(prev, curr).value.1] < rank[EdgeOf(prev, curr).value.0];
    AdjacentInOrder(prev, curr, rank);
  }

  lemma SampleAdjacent(words: seq<string>, order: seq<char>)
    requires |words| > 0 && ConsistentSample(words, order)
    ensures forall i :: 1 <= i < |words| ==>
              Lookups(words[i - 1], words[i], Ranks(order)) && Cmp(words[i - 1], words[i], Ranks(order)) == -1
  {
    forall i | 1 <= i < |words|
      ensures Lookups(words[i - 1], words[i], Ranks(order)) && Cmp(words[i - 1], words[i], Ranks(order)) == -1
    {
      SamplePairInOrder(words, order, i);
    }
  }

  /** Every word of a consistent sample goes first of every later word under
      the ranks inferred from it. */
  lemma {:induction false} SampleSorted(words: seq<string>, order: seq<char>)
    requires |words| > 0 && ConsistentSample(words, order)
    ensures Comparable(Wrap(words), Ranks(order)) && Sorted(Wrap(words), Ranks(order))
  {
    var rank := Ranks(order);
    var ws := Wrap(words);
    SampleLookups(words, order);
    SampleAdjacent(words, order);
    forall i, j | 0 <= i < j < |ws| ensures Cmp(ws[i].text, ws[j].text, rank) == -1 {
      ChainInOrder(words, rank, i, j);
    }
  }

  lemma {:induction false} ChainInOrder(words: seq<string>, rank: map<char, int>, i: nat, j: nat)
    requires forall p, q :: 0 <= p < |words| && 0 <= q < |words| ==> Lookups(words[p], words[q], rank)
    requires forall p :: 1 <= p < |words| ==> Cmp(words[p - 1], words[p], rank) == -1
    requires i < j < |words|
    ensures Cmp(words[i], words[j], rank) == -1
    decreases j - i
  {
    if i + 1 < j {
      ChainInOrder(words, rank, i, j - 1);
      CmpTransitive(words[i], words[j - 1], words[j], rank);
    }
  }

  /** Round trip: any sorted rearrangement of a consistent sample under its
      own ranks is the sample itself. */
  lemma SortedSampleUnchanged(words: seq<string>, order: seq<char>, result: seq<Word>)
    requires |words| > 0 && ConsistentSample(words, order)
    requires multiset(result) == multiset(Wrap(words))
    requires Comparable(result, Ranks(order)) && Sorted(result, Ranks(order))
    ensures result == Wrap(words)
  {
    SampleSorted(words, order);
    SortedUnique(result, Wrap(words), Ranks(order));
  }

  /** The core of the program: infer the alphabet from the sample, rank it,
      and sort the target words in place. */
  method OrderWords(sample: seq<string>, target: array<Word>) returns (order: seq<char>, rank: map<char, int>)
    requires |sample| > 0
    requires forall i, c :: 0 <= i < target.Length && c in target[i].text ==> c in Symbols(sample)
    modifies target
    ensures Distinct(order) && (forall c :: c in order <==> c in Symbols(sample))
    ensures Acyclic(FollowsGraph(sample)) ==> Respects(FollowsGraph(sample), order)
    ensures rank == Ranks(order)
    ensures multiset(target[..]) == multiset(old(target[..]))
    ensures Comparable(target[..], rank) && Sorted(target[..], rank)
    ensures old(target[..]) == Wrap(sample) && Acyclic(FollowsGraph(sample)) && PrefixesFirst(sample)
            ==> target[..] == old(target[..])
  {
    order := FindAlphaOrdering(sample);
    rank := RankTable(order);
    forall i, j | 0 <= i < target.Length && 0 <= j < target.Length
      ensures Lookups(target[..][i].text, target[..][j].text, rank)
    {
      KnownLookups(target[i].text, target[j].text, rank);
    }
    SelectionSort(target, rank);
    if old(target[..]) == Wrap(sample) && Acyclic(FollowsGraph(sample)) && PrefixesFirst(sample) {
      SortedSampleUnchanged(sample, order, target[..]);
    }
  }
}
