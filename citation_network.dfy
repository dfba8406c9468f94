/** The citation agent's small graph routines: keyword-sharing edges between
    pairs of papers, the central papers, and counting statistics over the edges. */
module CitationNetwork {
  import opened Text
  import opened Sorting
  import opened CitationFormat

  /** An edge from an earlier paper to a later one; `weight` counts shared keywords. */
  datatype Edge = Edge(source: string, target: string, weight: nat)

  /** A network node: the paper's `id` and `title` are what the statistics read. */
  datatype Node = Node(id: string, title: string)

  function NodeOf(p: Paper): Node {
    Node(p.id, p.title)
  }

  function KeywordSet(p: Paper): set<string> {
    set k | k in p.keywords
  }

  function SharedKeywords(p: Paper, q: Paper): nat {
    |KeywordSet(p) * KeywordSet(q)|
  }

  /** The relation the agent draws edges for: two papers sharing at least two keywords. */
  function SharesKeywords(papers: seq<Paper>): (nat, nat) -> bool {
    (i: nat, j: nat) => i < |papers| && j < |papers| && SharedKeywords(papers[i], papers[j]) >= 2
  }

  predicate Connected(papers: seq<Paper>, i: int, j: int) {
    0 <= i < j < |papers| && SharedKeywords(papers[i], papers[j]) >= 2
  }

  // ---------------------------------------------------------------------------
  // Edges
  //
  // The pair enumeration is stated over `n` indices and any relation `linked`,
  // and then applied to the papers and `SharesKeywords`.

  /** The linked pairs `(i, j)` with `i < j < hi`, in order of `j`. */
  function RowPairs(n: nat, linked: (nat, nat) -> bool, i: nat, hi: nat): seq<(nat, nat)>
    requires hi <= n
    decreases hi
  {
    if hi <= i + 1 then []
    else RowPairs(n, linked, i, hi - 1) + (if linked(i, hi - 1) then [(i, hi - 1)] else [])
  }

  /** The linked pairs whose first index is below `i`, row by row. */
  function PairsBefore(n: nat, linked: (nat, nat) -> bool, i: nat): seq<(nat, nat)>
    requires i <= n
    decreases i
  {
    if i == 0 then [] else PairsBefore(n, linked, i - 1) + RowPairs(n, linked, i - 1, n)
  }

  predicate ValidPairs(n: nat, ps: seq<(nat, nat)>) {
    forall k :: 0 <= k < |ps| ==> ps[k].0 < n && ps[k].1 < n
  }

  /** Pairs are ordered by first index, then by second. */
  predicate PairLess(a: (nat, nat), b: (nat, nat)) {
    a.0 < b.0 || (a.0 == b.0 && a.1 < b.1)
  }

  lemma {:induction false} RowPairsSpec(n: nat, linked: (nat, nat) -> bool, i: nat, hi: nat)
    requires hi <= n
    ensures forall k :: 0 <= k < |RowPairs(n, linked, i, hi)| ==>
      RowPairs(n, linked, i, hi)[k].0 == i && i < RowPairs(n, linked, i, hi)[k].1 < hi
    ensures forall a, b :: 0 <= a < b < |RowPairs(n, linked, i, hi)| ==>
      RowPairs(n, linked, i, hi)[a].1 < RowPairs(n, linked, i, hi)[b].1
    decreases hi
  {
    if hi > i + 1 {
      RowPairsSpec(n, linked, i, hi - 1);
      var front := RowPairs(n, linked, i, hi - 1);
      var tail: seq<(nat, nat)> := if linked(i, hi - 1) then [(i, hi - 1)] else [];
      var all := front + tail;
      assert RowPairs(n, linked, i, hi) == all;
      forall k | 0 <= k < |all| ensures all[k].0 == i && i < all[k].1 < hi {
        if k < |front| {
          assert all[k] == front[k];
        }
      }
      forall a, b | 0 <= a < b < |all| ensures all[a].1 < all[b].1 {
        if b < |front| {
          assert all[a] == front[a] && all[b] == front[b];
        } else {
          assert all[a] == front[a];
        }
      }
    }
  }

  lemma {:induction false} RowPairsMembers(n: nat, linked: (nat, nat) -> bool, i: nat, hi: nat)
    requires hi <= n
    ensures forall j :: (i, j) in RowPairs(n, linked, i, hi) <==> (i < j < hi && linked(i, j))
    decreases hi
  {
    if hi > i + 1 {
      RowPairsMembers(n, linked, i, hi - 1);
      var front := RowPairs(n, linked, i, hi - 1);
      var tail: seq<(nat, nat)> := if linked(i, hi - 1) then [(i, hi - 1)] else [];
      assert RowPairs(n, linked, i, hi) == front + tail;
      forall j ensures (i, j) in front + tail <==> (i < j < hi && linked(i, j)) {
        assert (i, j) in front + tail <==> (i, j) in front || (i, j) in tail;
      }
    }
  }

  lemma {:induction false} PairsBeforeSpec(n: nat, linked: (nat, nat) -> bool, i: nat)
    requires i <= n
    ensures ValidPairs(n, PairsBefore(n, linked, i))
    ensures forall k :: 0 <= k < |PairsBefore(n, linked, i)| ==> PairsBefore(n, linked, i)[k].0 < i
    ensures forall a, b :: 0 <= a < b < |PairsBefore(n, linked, i)| ==>
      PairLess(PairsBefore(n, linked, i)[a], PairsBefore(n, linked, i)[b])
    decreases i
  {
    if i > 0 {
      PairsBeforeSpec(n, linked, i - 1);
      RowPairsSpec(n, linked, i - 1, n);
      var front, row := PairsBefore(n, linked, i - 1), RowPairs(n, linked, i - 1, n);
      var all := front + row;
      assert PairsBefore(n, linked, i) == all;
      forall k | 0 <= k < |all| ensures all[k].0 < i && all[k].1 < n {
        if k < |front| {
          assert all[k] == front[k];
        } else {
          assert all[k] == row[k - |front|];
        }
      }
      forall a, b | 0 <= a < b < |all| ensures PairLess(all[a], all[b]) {
        if b < |front| {
          assert all[a] == front[a] && all[b] == front[b];
        } else if a < |front| {
          assert all[a] == front[a] && all[b] == row[b - |front|];
        } else {
          assert all[a] == row[a - |front|] && all[b] == row[b - |front|];
        }
      }
    }
  }

  lemma {:induction false} PairsBeforeMembers(n: nat, linked: (nat, nat) -> bool, i: nat)
    requires i <= n
    ensures forall a: nat, b: nat :: (a, b) in PairsBefore(n, linked, i) <==> (a < i && a < b < n && linked(a, b))
    decreases i
  {
    if i > 0 {
      var front, row := PairsBefore(n, linked, i - 1), RowPairs(n, linked, i - 1, n);
      assert PairsBefore(n, linked, i) == front + row;
      forall a: nat, b: nat ensures (a, b) in front + row <==> (a < i && a < b < n && linked(a, b)) {
        PairsBeforeMember(n, linked, i, a, b);
      }
    }
  }

  lemma PairsBeforeMember(n: nat, linked: (nat, nat) -> bool, i: nat, a: nat, b: nat)
    requires 0 < i <= n
    ensures (a, b) in PairsBefore(n, linked, i - 1) + RowPairs(n, linked, i - 1, n) <==> (a < i && a < b < n && linked(a, b))
    decreases i, 0
  {
    var front, row := PairsBefore(n, linked, i - 1), RowPairs(n, linked, i - 1, n);
    assert (a, b) in front <==> (a < i - 1 && a < b < n && linked(a, b)) by {
      PairsBeforeMembers(n, linked, i - 1);
    }
    var r: nat := i - 1;
    assert (a, b) in row <==> (a == r && r < b < n && linked(a, b)) by {
      RowMember(n, linked, r, a, b);
    }
    assert (a, b) in front + row <==> (a, b) in front || (a, b) in row;
  }

  /** A pair in row `i` starts with `i`, and row `i` holds every linked `(i, b)`. */
  lemma RowMember(n: nat, linked: (nat, nat) -> bool, i: nat, a: nat, b: nat)
    ensures (a, b) in RowPairs(n, linked, i, n) <==> (a == i && i < b < n && linked(a, b))
  {
    var row := RowPairs(n, linked, i, n);
    RowPairsMembers(n, linked, i, n);
    if (a, b) in row {
      RowPairsSpec(n, linked, i, n);
      var k :| 0 <= k < |row| && row[k] == (a, b);
      assert row[k].0 == i;
    }
  }

  /** The pairs that share at least two keywords, row by row. */
  function ConnectedPairs(papers: seq<Paper>): seq<(nat, nat)> {
    PairsBefore(|papers|, SharesKeywords(papers), |papers|)
  }

  /** The pairs listed are exactly the index pairs `i < j` whose keyword sets share
      at least two elements, each once, in order of `i` and then `j`. */
  lemma ConnectedPairsSpec(papers: seq<Paper>)
    ensures ValidPairs(|papers|, ConnectedPairs(papers))
    ensures forall i, j :: (i, j) in ConnectedPairs(papers) <==> Connected(papers, i, j)
    ensures forall a, b :: 0 <= a < b < |ConnectedPairs(papers)| ==>
      PairLess(ConnectedPairs(papers)[a], ConnectedPairs(papers)[b])
  {
    PairsBeforeSpec(|papers|, SharesKeywords(papers), |papers|);
    PairsBeforeMembers(|papers|, SharesKeywords(papers), |papers|);
  }

  function EdgeOf(papers: seq<Paper>, i: nat, j: nat): Edge
    requires i < |papers| && j < |papers|
  {
    Edge(papers[i].id, papers[j].id, SharedKeywords(papers[i], papers[j]))
  }

  /** The edge for a pair of indices; pairs outside the list, which the
      enumeration never produces, give an empty edge. */
  function EdgeAt(papers: seq<Paper>, pair: (nat, nat)): Edge {
    if pair.0 < |papers| && pair.1 < |papers| then EdgeOf(papers, pair.0, pair.1) else Edge("", "", 0)
  }

  function EdgesOf(papers: seq<Paper>, ps: seq<(nat, nat)>): (edges: seq<Edge>)
    ensures |edges| == |ps|
  {
    seq(|ps|, k requires 0 <= k < |ps| => EdgeAt(papers, ps[k]))
  }

  lemma EdgesOfAppend(papers: seq<Paper>, ps: seq<(nat, nat)>, i: nat, j: nat)
    requires i < |papers| && j < |papers|
    ensures EdgesOf(papers, ps + [(i, j)]) == EdgesOf(papers, ps) + [EdgeOf(papers, i, j)]
  {
    var qs := ps + [(i, j)];
    assert forall k :: 0 <= k < |ps| ==> qs[k] == ps[k];
  }

  /** The edges the loops have produced before row `i`. */
  function EdgesBefore(papers: seq<Paper>, i: nat): seq<Edge>
    requires i <= |papers|
  {
    EdgesOf(papers, PairsBefore(|papers|, SharesKeywords(papers), i))
  }

  /** The edges produced before row `i` and in row `i` below column `j`. */
  function EdgesUpTo(papers: seq<Paper>, i: nat, j: nat): seq<Edge>
    requires i <= |papers| && j <= |papers|
  {
    var linked := SharesKeywords(papers);
    EdgesOf(papers, PairsBefore(|papers|, linked, i) + RowPairs(|papers|, linked, i, j))
  }

  /** A row starts where the previous rows ended. */
  lemma RowStart(papers: seq<Paper>, i: nat)
    requires i < |papers|
    ensures EdgesUpTo(papers, i, i + 1) == EdgesBefore(papers, i)
  {
    var linked := SharesKeywords(papers);
    var done := PairsBefore(|papers|, linked, i);
    assert done + RowPairs(|papers|, linked, i, i + 1) == done;
  }

  /** A finished row is the start of the next one. */
  lemma RowEnd(papers: seq<Paper>, i: nat)
    requires i < |papers|
    ensures EdgesUpTo(papers, i, |papers|) == EdgesBefore(papers, i + 1)
  {
  }

  /** One step of the inner loop: the edge for `(i, j)` is added exactly when the
      papers share two keywords. */
  lemma RowStep(papers: seq<Paper>, i: nat, j: nat)
    requires i < j < |papers|
    ensures SharedKeywords(papers[i], papers[j]) >= 2 ==>
      EdgesUpTo(papers, i, j + 1) == EdgesUpTo(papers, i, j) + [EdgeOf(papers, i, j)]
    ensures SharedKeywords(papers[i], papers[j]) < 2 ==>
      EdgesUpTo(papers, i, j + 1) == EdgesUpTo(papers, i, j)
  {
    var linked := SharesKeywords(papers);
    var before := PairsBefore(|papers|, linked, i) + RowPairs(|papers|, linked, i, j);
    assert linked(i, j) <==> SharedKeywords(papers[i], papers[j]) >= 2;
    if linked(i, j) {
      assert PairsBefore(|papers|, linked, i) + RowPairs(|papers|, linked, i, j + 1) == before + [(i, j)];
      EdgesOfAppend(papers, before, i, j);
    }
  }

  method FindPaperConnections(papers: seq<Paper>) returns (edges: seq<Edge>)
    ensures edges == EdgesOf(papers, ConnectedPairs(papers))
  {
    edges := [];
    for i := 0 to |papers|
      invariant edges == EdgesBefore(papers, i)
    {
      RowStart(papers, i);
      for j := i + 1 to |papers|
        invariant edges == EdgesUpTo(papers, i, j)
      {
        RowStep(papers, i, j);
        var shared := |KeywordSet(papers[i]) * KeywordSet(papers[j])|;
        if shared >= 2 {
          edges := edges + [Edge(papers[i].id, papers[j].id, shared)];
        }
      }
      RowEnd(papers, i);
    }
  }

  /** Exactly one edge per connected pair, leading from the earlier paper to the later. */
  lemma EdgesExactlyConnected(papers: seq<Paper>)
    ensures var ps := ConnectedPairs(papers);
      && ValidPairs(|papers|, ps)
      && (forall i, j :: Connected(papers, i, j) ==>
            exists k :: 0 <= k < |ps| && ps[k] == (i, j) && EdgesOf(papers, ps)[k] == EdgeOf(papers, i, j))
      && (forall k :: 0 <= k < |ps| ==> Connected(papers, ps[k].0, ps[k].1))
      && (forall a, b :: 0 <= a < b < |ps| ==> ps[a] != ps[b])
  {
    var ps := ConnectedPairs(papers);
    ConnectedPairsSpec(papers);
    forall i, j | Connected(papers, i, j)
      ensures exists k :: 0 <= k < |ps| && ps[k] == (i, j) && EdgesOf(papers, ps)[k] == EdgeOf(papers, i, j)
    {
      assert (i, j) in ps;
      var k :| 0 <= k < |ps| && ps[k] == (i, j);
      assert EdgesOf(papers, ps)[k] == EdgeOf(papers, i, j);
    }
    forall k | 0 <= k < |ps|
      ensures Connected(papers, ps[k].0, ps[k].1)
    {
      assert ps[k] in ps;
    }
    forall a, b | 0 <= a < b < |ps| ensures ps[a] != ps[b] {
      assert PairLess(ps[a], ps[b]);
    }
  }

  // ---------------------------------------------------------------------------
  // Central papers

  function CentralKey(p: Paper): seq<int> {
    [p.relevanceScore, p.citationsCount]
  }

  /** `sorted(papers, key=(relevance_score, citations_count), reverse=True)[:5]`. */
  function CentralPapers(papers: seq<Paper>): seq<Paper> {
    TopDesc(papers, CentralKey, 5)
  }

  lemma LexLessPair(a: int, b: int, c: int, d: int)
    ensures LexLess([a, b], [c, d]) <==> a < c || (a == c && b < d)
  {
    assert [a, b][1..] == [b] && [c, d][1..] == [d];
    assert LexLess([a, b], [c, d]) == (a < c || (a == c && LexLess([b], [d])));
    LexLessSingleton(b, d);
  }

  /** Paper `x` ranks at least as high as `y`: by relevance, then by citations. */
  predicate RanksAtLeast(x: Paper, y: Paper) {
    x.relevanceScore > y.relevanceScore ||
    (x.relevanceScore == y.relevanceScore && x.citationsCount >= y.citationsCount)
  }

  lemma RanksAtLeastKey(x: Paper, y: Paper)
    ensures RanksAtLeast(x, y) <==> !LexLess(CentralKey(x), CentralKey(y))
  {
    LexLessPair(x.relevanceScore, x.citationsCount, y.relevanceScore, y.citationsCount);
  }

  /** At most five papers, taken from the input, in order of rank. */
  lemma CentralPapersOrdered(papers: seq<Paper>)
    ensures |CentralPapers(papers)| == (if |papers| < 5 then |papers| else 5)
    ensures multiset(CentralPapers(papers)) <= multiset(papers)
    ensures forall i, j :: 0 <= i < j < |CentralPapers(papers)| ==>
      RanksAtLeast(CentralPapers(papers)[i], CentralPapers(papers)[j])
  {
    var r := CentralPapers(papers);
    TopDescProperties(papers, CentralKey, 5);
    forall i, j | 0 <= i < j < |r| ensures RanksAtLeast(r[i], r[j]) {
      assert !LexLess(CentralKey(r[i]), CentralKey(r[j]));
      RanksAtLeastKey(r[i], r[j]);
    }
  }

  /** No paper left out ranks above one kept. */
  lemma CentralPapersMaximal(papers: seq<Paper>)
    ensures forall x, y :: x in CentralPapers(papers) && y in multiset(papers) - multiset(CentralPapers(papers)) ==>
      RanksAtLeast(x, y)
  {
    var r := CentralPapers(papers);
    TopDescProperties(papers, CentralKey, 5);
    forall x, y | x in r && y in multiset(papers) - multiset(r) ensures RanksAtLeast(x, y) {
      assert !LexLess(CentralKey(x), CentralKey(y));
      RanksAtLeastKey(x, y);
    }
  }

  // ---------------------------------------------------------------------------
  // Statistics

  datatype NetworkStats = NetworkStats(
    totalPapers: nat,
    totalConnections: nat,
    averageConnectionsPerPaper: real,
    mostConnectedPaper: string,
    networkDensity: real)

  /** The edge endpoints in the order the counting loop visits them. */
  function Endpoints(edges: seq<Edge>): (r: seq<string>)
    ensures |r| == 2 * |edges|
    decreases |edges|
  {
    if edges == [] then []
    else Endpoints(edges[..|edges| - 1]) + [edges[|edges| - 1].source, edges[|edges| - 1].target]
  }

  /** The number of edges an id is an endpoint of (a self-loop counts twice). */
  function Degree(edges: seq<Edge>, id: string): nat {
    multiset(Endpoints(edges))[id]
  }

  /** `counts[k] = counts.get(k, 0) + 1`. */
  function Bump(counts: map<string, nat>, k: string): (r: map<string, nat>)
    ensures r.Keys == counts.Keys + {k}
  {
    counts[k := if k in counts then counts[k] + 1 else 1]
  }

  /** A dict's key order after storing `k`: a new key goes to the end. */
  function AddKey(order: seq<string>, k: string): (r: seq<string>)
    ensures forall x :: x in r <==> x in order || x == k
  {
    if k in order then order else order + [k]
  }

  /** `connection_counts` after the loop has visited `edges`. */
  function Tally(edges: seq<Edge>): map<string, nat>
    decreases |edges|
  {
    if edges == [] then map[]
    else
      var e := edges[|edges| - 1];
      Bump(Bump(Tally(edges[..|edges| - 1]), e.source), e.target)
  }

  /** The key order of `connection_counts` after the loop has visited `edges`. */
  function KeyOrder(edges: seq<Edge>): seq<string>
    decreases |edges|
  {
    if edges == [] then []
    else
      var e := edges[|edges| - 1];
      AddKey(AddKey(KeyOrder(edges[..|edges| - 1]), e.source), e.target)
  }

  /** The tally holds exactly the endpoints, each with its degree. */
  lemma {:induction false} TallyIsDegree(edges: seq<Edge>)
    ensures forall x :: x in Tally(edges) <==> x in Endpoints(edges)
    ensures forall x :: x in Tally(edges) ==> Tally(edges)[x] == Degree(edges, x)
    decreases |edges|
  {
    if edges != [] {
      var pre, e := edges[..|edges| - 1], edges[|edges| - 1];
      TallyIsDegree(pre);
      var m := multiset(Endpoints(pre));
      EndpointsSnoc(edges);
      BumpTracks(Tally(pre), m, e.source);
      BumpTracks(Bump(Tally(pre), e.source), m + multiset{e.source}, e.target);
    }
  }

  lemma EndpointsSnoc(edges: seq<Edge>)
    requires edges != []
    ensures var e := edges[|edges| - 1];
      multiset(Endpoints(edges)) == multiset(Endpoints(edges[..|edges| - 1])) + multiset{e.source} + multiset{e.target}
  {
    var e := edges[|edges| - 1];
    assert Endpoints(edges) == Endpoints(edges[..|edges| - 1]) + [e.source, e.target];
  }

  /** A tally that counts the multiset `m` counts `m` plus `k` after bumping `k`. */
  lemma BumpTracks(counts: map<string, nat>, m: multiset<string>, k: string)
    requires forall x :: x in counts <==> x in m
    requires forall x :: x in counts ==> counts[x] == m[x]
    ensures forall x :: x in Bump(counts, k) <==> x in m + multiset{k}
    ensures forall x :: x in Bump(counts, k) ==> Bump(counts, k)[x] == (m + multiset{k})[x]
  {
  }

  /** The key order lists every endpoint exactly once. */
  lemma {:induction false} KeyOrderSpec(edges: seq<Edge>)
    ensures forall x :: x in KeyOrder(edges) <==> x in Endpoints(edges)
    ensures forall i, j :: 0 <= i < j < |KeyOrder(edges)| ==> KeyOrder(edges)[i] != KeyOrder(edges)[j]
    decreases |edges|
  {
    if edges != [] {
      var pre, e := edges[..|edges| - 1], edges[|edges| - 1];
      KeyOrderSpec(pre);
      EndpointsLast(edges);
      AddKeyDistinct(KeyOrder(pre), e.source);
      AddKeyDistinct(AddKey(KeyOrder(pre), e.source), e.target);
    }
  }

  lemma EndpointsLast(edges: seq<Edge>)
    requires edges != []
    ensures var e := edges[|edges| - 1];
      forall x :: x in Endpoints(edges) <==> x in Endpoints(edges[..|edges| - 1]) || x == e.source || x == e.target
  {
    var e := edges[|edges| - 1];
    assert Endpoints(edges) == Endpoints(edges[..|edges| - 1]) + [e.source, e.target];
  }

  /** Storing a key keeps the key order free of repeats. */
  lemma AddKeyDistinct(order: seq<string>, k: string)
    requires forall i, j :: 0 <= i < j < |order| ==> order[i] != order[j]
    ensures forall i, j :: 0 <= i < j < |AddKey(order, k)| ==> AddKey(order, k)[i] != AddKey(order, k)[j]
  {
    if k !in order {
      var r := order + [k];
      forall i, j | 0 <= i < j < |r| ensures r[i] != r[j] {
        assert r[i] == order[i];
        if j == |order| {
          assert order[i] in order;
        } else {
          assert r[j] == order[j];
        }
      }
    }
  }

  /** Python's `max(keys, key=counts.get)`: the first key with the largest count. */
  function FirstMax(keys: seq<string>, counts: map<string, nat>): (r: string)
    requires |keys| > 0
    requires forall k :: k in keys ==> k in counts
    ensures r in keys
    ensures forall k :: k in keys ==> counts[k] <= counts[r]
    decreases |keys|
  {
    if |keys| == 1 then keys[0]
    else
      var rest := FirstMax(keys[1..], counts);
      assert forall k :: k in keys ==> k == keys[0] || k in keys[1..];
      if counts[keys[0]] >= counts[rest] then keys[0] else rest
  }

  /** Ties go to the key met first. */
  lemma {:induction false} FirstMaxIsFirst(keys: seq<string>, counts: map<string, nat>, j: nat)
    requires |keys| > 0
    requires forall k :: k in keys ==> k in counts
    requires j < |keys| && counts[keys[j]] == counts[FirstMax(keys, counts)]
    ensures FirstMax(keys, counts) in keys[..j + 1]
    decreases |keys|
  {
    var r := FirstMax(keys, counts);
    if |keys| > 1 && j > 0 {
      var rest := FirstMax(keys[1..], counts);
      if counts[keys[0]] < counts[rest] {
        assert keys[1..][j - 1] == keys[j];
        assert forall k :: k in keys[1..] ==> k in keys;
        FirstMaxIsFirst(keys[1..], counts, j - 1);
        assert keys[1..][..j] == keys[1..j + 1];
      }
    }
  }

  function MostConnectedId(edges: seq<Edge>): string
    requires |edges| > 0
  {
    assert edges[0].source in KeyOrder(edges) by {
      EndpointsOfEdge(edges, 0);
      KeyOrderSpec(edges);
    }
    TallyIsDegree(edges);
    KeyOrderSpec(edges);
    FirstMax(KeyOrder(edges), Tally(edges))
  }

  /** The title of the first node with `id`, or `""` when there is none. */
  function NodeTitle(nodes: seq<Node>, id: string): string
    decreases |nodes|
  {
    if nodes == [] then ""
    else if nodes[0].id == id then nodes[0].title
    else NodeTitle(nodes[1..], id)
  }

  lemma {:induction false} EndpointsOfEdge(edges: seq<Edge>, k: nat)
    requires k < |edges|
    ensures edges[k].source in Endpoints(edges) && edges[k].target in Endpoints(edges)
    decreases |edges|
  {
    if k < |edges| - 1 {
      EndpointsOfEdge(edges[..|edges| - 1], k);
    }
  }

  /** The most connected id is an endpoint with a maximal degree, and the first
      such in the order the loop meets the endpoints. */
  lemma MostConnectedIsMaximal(edges: seq<Edge>)
    requires |edges| > 0
    ensures MostConnectedId(edges) in Endpoints(edges)
    ensures forall x :: x in Endpoints(edges) ==> Degree(edges, x) <= Degree(edges, MostConnectedId(edges))
    ensures forall j :: 0 <= j < |KeyOrder(edges)| ==>
      Degree(edges, KeyOrder(edges)[j]) == Degree(edges, MostConnectedId(edges)) ==>
        MostConnectedId(edges) in KeyOrder(edges)[..j + 1]
  {
    TallyIsDegree(edges);
    KeyOrderSpec(edges);
    var order := KeyOrder(edges);
    forall j | 0 <= j < |order| && Degree(edges, order[j]) == Degree(edges, MostConnectedId(edges))
      ensures MostConnectedId(edges) in order[..j + 1]
    {
      FirstMaxIsFirst(order, Tally(edges), j);
    }
  }

  method CalculateNetworkStats(nodes: seq<Node>, edges: seq<Edge>) returns (stats: NetworkStats)
    ensures stats.totalPapers == |nodes| && stats.totalConnections == |edges|
    ensures stats.averageConnectionsPerPaper == if |nodes| > 0 then |edges| as real / |nodes| as real else 0.0
    ensures stats.mostConnectedPaper == if |nodes| == 0 || |edges| == 0 then "" else NodeTitle(nodes, MostConnectedId(edges))
    ensures stats.networkDensity ==
      if |nodes| >= 2 then |edges| as real / MaxPossibleEdges(|nodes|) else 0.0
  {
    var average := if |nodes| > 0 then |edges| as real / |nodes| as real else 0.0;
    stats := NetworkStats(|nodes|, |edges|, average, "", 0.0);
    if |nodes| > 0 {
      var counts, order := CountConnections(edges);
      TallyKeys(edges);
      if counts != map[] {
        var mostConnectedId := FirstMax(order, counts);
        stats := stats.(mostConnectedPaper := NodeTitle(nodes, mostConnectedId));
      }
      var maxPossibleEdges := MaxPossibleEdges(|nodes|);
      var density := if maxPossibleEdges > 0.0 then |edges| as real / maxPossibleEdges else 0.0;
      stats := stats.(networkDensity := density);
    }
  }

  /** The counting loop: `connection_counts` and the order in which its keys
      were first stored. */
  method CountConnections(edges: seq<Edge>) returns (counts: map<string, nat>, order: seq<string>)
    ensures counts == Tally(edges) && order == KeyOrder(edges)
  {
    counts, order := map[], [];
    for i := 0 to |edges|
      invariant counts == Tally(edges[..i])
      invariant order == KeyOrder(edges[..i])
    {
      TallyStep(edges, i);
      var source, target := edges[i].source, edges[i].target;
      counts, order := Bump(counts, source), AddKey(order, source);
      counts, order := Bump(counts, target), AddKey(order, target);
    }
    assert edges[..|edges|] == edges;
  }

  /** One pass of the counting loop. */
  lemma TallyStep(edges: seq<Edge>, i: nat)
    requires i < |edges|
    ensures Tally(edges[..i + 1]) == Bump(Bump(Tally(edges[..i]), edges[i].source), edges[i].target)
    ensures KeyOrder(edges[..i + 1]) == AddKey(AddKey(KeyOrder(edges[..i]), edges[i].source), edges[i].target)
  {
    assert edges[..i + 1][..i] == edges[..i];
  }

  /** The counts are empty exactly when there are no edges, and the key order
      names only counted keys. */
  lemma TallyKeys(edges: seq<Edge>)
    ensures Tally(edges) == map[] <==> |edges| == 0
    ensures forall k :: k in KeyOrder(edges) ==> k in Tally(edges)
    ensures |edges| > 0 ==> |KeyOrder(edges)| > 0
  {
    TallyIsDegree(edges);
    KeyOrderSpec(edges);
    if |edges| > 0 {
      EndpointsOfEdge(edges, 0);
      assert edges[0].source in Tally(edges);
    }
  }

  /** `max_possible_edges`, the number of unordered pairs of `n` nodes, is
      positive exactly when there are at least two nodes. */
  function MaxPossibleEdges(n: nat): (m: real)
    ensures m > 0.0 <==> n >= 2
    ensures m == (n * (n - 1)) as real / 2.0
  {
    var pairs := n * (n - 1);
    assert n >= 2 ==> pairs >= n;
    assert n < 2 ==> pairs == 0;
    pairs as real / 2.0
  }

  // ---------------------------------------------------------------------------
  // The whole network

  datatype Network = Network(nodes: seq<Node>, edges: seq<Edge>, centralPapers: seq<Paper>, stats: NetworkStats)

  function NodesOf(papers: seq<Paper>): (r: seq<Node>)
    ensures |r| == |papers|
    ensures forall k :: 0 <= k < |r| ==> r[k] == NodeOf(papers[k])
  {
    seq(|papers|, k requires 0 <= k < |papers| => NodeOf(papers[k]))
  }

  /** A node title looked up by id is the title of the first paper with that id. */
  lemma {:induction false} NodeTitleOfPapers(papers: seq<Paper>, id: string, k: nat)
    requires k < |papers| && papers[k].id == id
    requires forall m :: 0 <= m < k ==> papers[m].id != id
    ensures NodeTitle(NodesOf(papers), id) == papers[k].title
    decreases k
  {
    if k > 0 {
      assert NodesOf(papers)[1..] == NodesOf(papers[1..]);
      NodeTitleOfPapers(papers[1..], id, k - 1);
    }
  }

  /** One node per paper, the keyword edges, the five central papers and the
      statistics over those nodes and edges. */
  method BuildCitationNetwork(papers: seq<Paper>) returns (network: Network)
    ensures network.nodes == NodesOf(papers)
    ensures network.edges == EdgesOf(papers, ConnectedPairs(papers))
    ensures network.centralPapers == CentralPapers(papers)
    ensures network.stats.totalPapers == |papers|
    ensures network.stats.totalConnections == |ConnectedPairs(papers)|
    ensures network.stats.averageConnectionsPerPaper ==
      if |papers| > 0 then |network.edges| as real / |papers| as real else 0.0
    ensures network.stats.networkDensity ==
      if |papers| >= 2 then |network.edges| as real / MaxPossibleEdges(|papers|) else 0.0
    ensures network.stats.mostConnectedPaper ==
      if |papers| == 0 || |network.edges| == 0 then "" else NodeTitle(network.nodes, MostConnectedId(network.edges))
  {
    var nodes: seq<Node> := [];
    for k := 0 to |papers|
      invariant nodes == NodesOf(papers[..k])
    {
      assert NodesOf(papers[..k + 1]) == NodesOf(papers[..k]) + [NodeOf(papers[k])];
      nodes := nodes + [Node(papers[k].id, papers[k].title)];
    }
    assert papers[..|papers|] == papers;
    var edges := FindPaperConnections(papers);
    var central := CentralPapers(papers);
    assert |nodes| == |papers|;
    var stats := CalculateNetworkStats(nodes, edges);
    network := Network(nodes, edges, central, stats);
  }
}
