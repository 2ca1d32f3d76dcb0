/** Words and the rank-lexicographic comparator that orders them. */
module Words {

  /** A word of the target list; the text is carried through sorting unchanged. */
  datatype Word = Word(text: string) {

    /** Compares this word with b under `rank`: -1 when this word goes first,
        1 when it goes after b.  Never 0. */
    method Compare(b: Word, rank: map<char, int>) returns (r: int)
      requires Lookups(text, b.text, rank)
      ensures r == Cmp(text, b.text, rank)
    {
      var length1 := |text|;
      var length2 := |b.text|;
      var smaller := 0;
      var greater := false;
      if length1 > length2 {
        greater := true;
        smaller := length2;
      } else {
        smaller := length1;
      }
      var i := 0;
      while i < smaller
        invariant 0 <= i <= smaller
        invariant Lookups(text[i..], b.text[i..], rank)
        invariant Cmp(text, b.text, rank) == Cmp(text[i..], b.text[i..], rank)
      {
        assert text[i..][1..] == text[i + 1..] && b.text[i..][1..] == b.text[i + 1..];
        if rank[text[i]] < rank[b.text[i]] {
          return -1;
        } else if rank[text[i]] > rank[b.text[i]] {
          return 1;
        }
        i := i + 1;
      }
      if greater {
        return 1;
      }
      return -1;
    }
  }

  /** Every rank lookup that comparing a with b performs finds its symbol:
      positions are looked up from the left until the ranks differ or the
      shorter word ends. */
  predicate Lookups(a: string, b: string, rank: map<char, int>) {
    a == [] || b == [] ||
    (a[0] in rank && b[0] in rank && (rank[a[0]] == rank[b[0]] ==> Lookups(a[1..], b[1..], rank)))
  }

  /** Reference definition of the comparison: the first position whose ranks
      differ decides; with no such position the longer word goes after, and
      words of equal length give -1. */
  function Cmp(a: string, b: string, rank: map<char, int>): (r: int)
    requires Lookups(a, b, rank)
    ensures r == -1 || r == 1
  {
    if a == [] || b == [] then (if |a| > |b| then 1 else -1)
    else if rank[a[0]] < rank[b[0]] then -1
    else if rank[a[0]] > rank[b[0]] then 1
    else Cmp(a[1..], b[1..], rank)
  }

  /** The first position below both lengths whose ranks differ decides. */
  lemma {:induction false} CmpDecidedAt(a: string, b: string, rank: map<char, int>, k: nat)
    requires k < |a| && k < |b|
    requires forall j :: 0 <= j <= k ==> a[j] in rank && b[j] in rank
    requires forall j :: 0 <= j < k ==> rank[a[j]] == rank[b[j]]
    requires rank[a[k]] != rank[b[k]]
    ensures Lookups(a, b, rank)
    ensures Cmp(a, b, rank) == if rank[a[k]] < rank[b[k]] then -1 else 1
  {
    if k > 0 {
      CmpDecidedAt(a[1..], b[1..], rank, k - 1);
    }
  }

  /** With equal ranks on the whole common prefix, the result is 1 exactly
      when a is strictly longer, so identical words give -1. */
  lemma {:induction false} CmpTie(a: string, b: string, rank: map<char, int>)
    requires forall j :: 0 <= j < |a| && j < |b| ==> a[j] in rank && b[j] in rank && rank[a[j]] == rank[b[j]]
    ensures Lookups(a, b, rank)
    ensures Cmp(a, b, rank) == if |a| > |b| then 1 else -1
  {
    if a != [] && b != [] {
      CmpTie(a[1..], b[1..], rank);
    }
  }

  lemma {:induction false} LookupsSymmetric(a: string, b: string, rank: map<char, int>)
    requires Lookups(a, b, rank)
    ensures Lookups(b, a, rank)
  {
    if a != [] && b != [] && rank[a[0]] == rank[b[0]] {
      LookupsSymmetric(a[1..], b[1..], rank);
    }
  }

  /** Of two words, at least one is reported as going first. */
  lemma {:induction false} CmpTotal(a: string, b: string, rank: map<char, int>)
    requires Lookups(a, b, rank)
    ensures Lookups(b, a, rank)
    ensures Cmp(a, b, rank) == 1 ==> Cmp(b, a, rank) == -1
  {
    LookupsSymmetric(a, b, rank);
    if a != [] && b != [] && rank[a[0]] == rank[b[0]] {
      CmpTotal(a[1..], b[1..], rank);
    }
  }

  /** "Goes first" (a result of -1) is transitive. */
  lemma {:induction false} CmpTransitive(a: string, b: string, c: string, rank: map<char, int>)
    requires Lookups(a, b, rank) && Lookups(b, c, rank) && Lookups(a, c, rank)
    requires Cmp(a, b, rank) == -1 && Cmp(b, c, rank) == -1
    ensures Cmp(a, c, rank) == -1
  {
    if a != [] && b != [] && c != [] && rank[a[0]] == rank[b[0]] == rank[c[0]] {
      CmpTransitive(a[1..], b[1..], c[1..], rank);
    }
  }

  /** No two symbols share a rank. */
  ghost predicate Injective(rank: map<char, int>) {
    forall c, d :: c in rank && d in rank && rank[c] == rank[d] ==> c == d
  }

  /** Under an injective rank, words that each go first of the other are equal. */
  lemma {:induction false} CmpAntisymmetric(a: string, b: string, rank: map<char, int>)
    requires Injective(rank)
    requires Lookups(a, b, rank) && Lookups(b, a, rank)
    requires Cmp(a, b, rank) == -1 && Cmp(b, a, rank) == -1
    ensures a == b
  {
    if a != [] && b != [] {
      CmpAntisymmetric(a[1..], b[1..], rank);
    }
  }

  /** Every pair of words at different positions can be compared. */
  ghost predicate Comparable(s: seq<Word>, rank: map<char, int>) {
    forall i, j :: 0 <= i < |s| && 0 <= j < |s| && i != j ==> Lookups(s[i].text, s[j].text, rank)
  }

  /** Every word goes first of every later word. */
  ghost predicate Sorted(s: seq<Word>, rank: map<char, int>)
    requires Comparable(s, rank)
  {
    forall i, j :: 0 <= i < j < |s| ==> Cmp(s[i].text, s[j].text, rank) == -1
  }

  /** Under an injective rank there is only one sorted arrangement of a
      multiset of words. */
  lemma {:induction false} SortedUnique(s: seq<Word>, t: seq<Word>, rank: map<char, int>)
    requires Injective(rank)
    requires Comparable(s, rank) && Comparable(t, rank)
    requires Sorted(s, rank) && Sorted(t, rank)
    requires multiset(s) == multiset(t)
    ensures s == t
  {
    if s != [] {
      assert t != [] by { assert |multiset(t)| == |multiset(s)| == |s|; }
      if s[0] != t[0] {
        assert t[0] in multiset(s) && s[0] in multiset(t) by {
          assert s[0] in multiset(s) && t[0] in multiset(t);
        }
        var p :| 0 <= p < |s| && s[p] == t[0];
        var q :| 0 <= q < |t| && t[q] == s[0];
        assert p != 0 && q != 0;
        assert Cmp(s[0].text, t[0].text, rank) == -1;
        assert Cmp(t[0].text, s[0].text, rank) == -1;
        CmpAntisymmetric(s[0].text, t[0].text, rank);
      }
      TailMultiset(s, t);
      TailSorted(s, rank);
      TailSorted(t, rank);
      SortedUnique(s[1..], t[1..], rank);
    }
  }

  lemma TailMultiset<T>(s: seq<T>, t: seq<T>)
    requires s != [] && t != [] && s[0] == t[0] && multiset(s) == multiset(t)
    ensures multiset(s[1..]) == multiset(t[1..])
  {
    assert s == [s[0]] + s[1..] && t == [t[0]] + t[1..];
    assert multiset(s) == multiset{s[0]} + multiset(s[1..]);
    assert multiset(t) == multiset{s[0]} + multiset(t[1..]);
    forall x ensures multiset(s[1..])[x] == multiset(t[1..])[x] {
      assert multiset(s)[x] == multiset{s[0]}[x] + multiset(s[1..])[x];
      assert multiset(t)[x] == multiset{s[0]}[x] + multiset(t[1..])[x];
    }
  }

  lemma TailSorted(s: seq<Word>, rank: map<char, int>)
    requires s != [] && Comparable(s, rank) && Sorted(s, rank)
    ensures Comparable(s[1..], rank) && Sorted(s[1..], rank)
  {
    forall i, j | 0 <= i < |s| - 1 && 0 <= j < |s| - 1 && i != j
      ensures Lookups(s[1..][i].text, s[1..][j].text, rank)
    {
      assert s[1..][i] == s[i + 1] && s[1..][j] == s[j + 1];
    }
    forall i, j | 0 <= i < j < |s| - 1
      ensures Cmp(s[1..][i].text, s[1..][j].text, rank) == -1
    {
      assert s[1..][i] == s[i + 1] && s[1..][j] == s[j + 1];
    }
  }
}
