/** Content-assist proposals and their display order: `proposalCmp` and
    `proposals.sort(proposalCmp)` of the manifest editor. */
module Proposals {
  import opened Wrappers
  import opened Positions

  /** A content-assist proposal: the text inserted at the cursor, the label shown
      for it, and, for the manifest skeleton only, its placeholder positions. */
  datatype Proposal = Proposal(proposal: string, description: string, positions: Option<seq<Position>>)

  /** Lexicographic order on character codes. It stands for `localeCompare`, whose
      collation depends on the host's locale. */
  predicate LexLe(a: string, b: string)
    decreases |a|
  {
    |a| == 0 || (|b| > 0 && (a[0] < b[0] || (a[0] == b[0] && LexLe(a[1..], b[1..]))))
  }

  lemma {:induction false} LexLeTotal(a: string, b: string)
    ensures LexLe(a, b) || LexLe(b, a)
    decreases |a|
  {
    if |a| > 0 && |b| > 0 && a[0] == b[0] {
      LexLeTotal(a[1..], b[1..]);
    }
  }

  lemma {:induction false} LexLeTransitive(a: string, b: string, c: string)
    requires LexLe(a, b) && LexLe(b, c)
    ensures LexLe(a, c)
    decreases |a|
  {
    if |a| > 0 && a[0] == b[0] && b[0] == c[0] {
      LexLeTransitive(a[1..], b[1..], c[1..]);
    }
  }

  lemma {:induction false} LexLeAntisymmetric(a: string, b: string)
    requires LexLe(a, b) && LexLe(b, a)
    ensures a == b
    decreases |a|
  {
    if |a| > 0 {
      LexLeAntisymmetric(a[1..], b[1..]);
      assert a == [a[0]] + a[1..];
      assert b == [b[0]] + b[1..];
    }
  }

  /** `proposalCmp(p, q) <= 0`: proposals compare by their `proposal` text. */
  predicate ProposalLe(p: Proposal, q: Proposal) {
    LexLe(p.proposal, q.proposal)
  }

  /** Every proposal is ordered before each one that follows it. */
  predicate Sorted(ps: seq<Proposal>) {
    forall i, j :: 0 <= i < j < |ps| ==> ProposalLe(ps[i], ps[j])
  }

  /** Inserts `x` into sorted `ps` before the first proposal it is ordered before. */
  function Insert(x: Proposal, ps: seq<Proposal>): (r: seq<Proposal>)
    requires Sorted(ps)
    ensures Sorted(r)
    ensures multiset(r) == multiset(ps) + multiset{x}
    decreases |ps|
  {
    if |ps| == 0 || ProposalLe(x, ps[0]) then
      forall j | 0 <= j < |ps|
        ensures ProposalLe(x, ps[j])
      {
        if j > 0 {
          LexLeTransitive(x.proposal, ps[0].proposal, ps[j].proposal);
        }
      }
      [x] + ps
    else
      LexLeTotal(x.proposal, ps[0].proposal);
      var rest := Insert(x, ps[1..]);
      assert ps == [ps[0]] + ps[1..];
      forall j | 0 <= j < |rest|
        ensures ProposalLe(ps[0], rest[j])
      {
        assert rest[j] in multiset(rest);
        if rest[j] != x {
          assert rest[j] in multiset(ps[1..]);
          var k :| 0 <= k < |ps[1..]| && ps[1..][k] == rest[j];
          assert ps[k + 1] == rest[j];
        }
      }
      [ps[0]] + rest
  }

  /** `proposals.sort(proposalCmp)`: a stable insertion sort. */
  function Sort(ps: seq<Proposal>): (r: seq<Proposal>)
    ensures Sorted(r)
    ensures multiset(r) == multiset(ps)
    decreases |ps|
  {
    if |ps| == 0 then []
    else
      assert ps == [ps[0]] + ps[1..];
      Insert(ps[0], Sort(ps[1..]))
  }

  /** Sorting a list that is already in order leaves it as it is. */
  lemma {:induction false} SortSortedIdentity(ps: seq<Proposal>)
    requires Sorted(ps)
    ensures Sort(ps) == ps
    decreases |ps|
  {
    if |ps| > 0 {
      SortSortedIdentity(ps[1..]);
      assert ps == [ps[0]] + ps[1..];
    }
  }

  /** Sorting neither adds nor drops a proposal. */
  lemma {:induction false} SortSameElements(ps: seq<Proposal>)
    ensures forall p :: p in Sort(ps) <==> p in ps
  {
    var r := Sort(ps);
    forall p | p in r
      ensures p in ps
    {
      assert p in multiset(r);
    }
    forall p | p in ps
      ensures p in r
    {
      assert p in multiset(ps);
    }
  }
}
