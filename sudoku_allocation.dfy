/** The value-level steps of SudokuGenerator.allocate_replacements_to_stops:
    splitting the markers of one digit into heaps, balancing the heaps
    over the stops, listing each stop in sorted order and indexing the
    stop of every clue. */
module SudokuAllocation {
  import opened Common
  import opened Sorting

  /** One heap of markers, the digit they stand for and the clue that
      replaces them: the (heap, value, clue) tuples of the source. */
  datatype Ticket = Ticket(heap: seq<int>, value: int, clue: string)

  /** The concatenation of a list of lists. */
  function Flatten<T>(ss: seq<seq<T>>): seq<T>
  {
    if ss == [] then [] else Flatten(ss[..|ss| - 1]) + ss[|ss| - 1]
  }

  lemma {:induction false} FlattenConcat<T>(a: seq<seq<T>>, b: seq<seq<T>>)
    ensures Flatten(a + b) == Flatten(a) + Flatten(b)
    decreases |b|
  {
    if b == [] {
      assert a + b == a;
    } else {
      var n := |b| - 1;
      assert (a + b)[..|a + b| - 1] == a + b[..n];
      assert (a + b)[|a + b| - 1] == b[n];
      FlattenConcat(a, b[..n]);
      calc {
        Flatten(a + b);
        Flatten(a + b[..n]) + b[n];
        Flatten(a) + Flatten(b[..n]) + b[n];
        Flatten(a) + Flatten(b);
      }
    }
  }

  lemma {:induction false} FlattenMember<T>(ss: seq<seq<T>>, x: T)
    ensures x in Flatten(ss) <==> exists n :: 0 <= n < |ss| && x in ss[n]
  {
    if ss != [] {
      var m := |ss| - 1;
      FlattenMember(ss[..m], x);
      if x in Flatten(ss[..m]) {
        var n :| 0 <= n < m && x in ss[..m][n];
        assert x in ss[n];
      }
      forall n | 0 <= n < m && x in ss[n] ensures x in Flatten(ss[..m]) {
        assert x in ss[..m][n];
      }
    }
  }

  /** Reordering the lists reorders their concatenation. */
  lemma {:induction false} FlattenPermutation<T>(a: seq<seq<T>>, b: seq<seq<T>>)
    requires multiset(a) == multiset(b)
    ensures multiset(Flatten(a)) == multiset(Flatten(b))
    decreases |a|
  {
    if a == [] {
      assert |b| == |multiset(b)| == 0;
    } else {
      var n := |a| - 1;
      var x := a[n];
      assert a == a[..n] + [x];
      assert x in multiset(b);
      var j :| 0 <= j < |b| && b[j] == x;
      var rest := b[..j] + b[j + 1..];
      assert b == b[..j] + [x] + b[j + 1..];
      assert multiset(b) == multiset(b[..j]) + multiset{x} + multiset(b[j + 1..]);
      assert multiset(a) == multiset(a[..n]) + multiset{x};
      assert multiset(rest) == multiset(b[..j]) + multiset(b[j + 1..]);
      assert multiset(rest) == multiset(b) - multiset{x};
      assert multiset(a[..n]) == multiset(a) - multiset{x};
      FlattenPermutation(a[..n], rest);
      FlattenConcat(b[..j], b[j + 1..]);
      FlattenConcat(b[..j] + [x], b[j + 1..]);
      FlattenConcat(b[..j], [x]);
      assert Flatten([x]) == x by {
        assert [x][..0] == [];
      }
    }
  }

  /** Appending x to list i adds x to the concatenation. */
  lemma FlattenAppend<T>(ss: seq<seq<T>>, i: int, x: T)
    requires 0 <= i < |ss|
    ensures multiset(Flatten(ss[i := ss[i] + [x]])) == multiset(Flatten(ss)) + multiset{x}
  {
    var ts := ss[i := ss[i] + [x]];
    assert ss == ss[..i] + [ss[i]] + ss[i + 1..];
    assert ts == ss[..i] + [ss[i] + [x]] + ss[i + 1..];
    FlattenConcat(ss[..i] + [ss[i]], ss[i + 1..]);
    FlattenConcat(ss[..i], [ss[i]]);
    FlattenConcat(ss[..i] + [ss[i] + [x]], ss[i + 1..]);
    FlattenConcat(ss[..i], [ss[i] + [x]]);
    assert [ss[i]][..0] == [] && [ss[i] + [x]][..0] == [];
  }

  lemma {:induction false} FlattenOfEmpties<T>(ss: seq<seq<T>>)
    requires forall k :: 0 <= k < |ss| ==> ss[k] == []
    ensures Flatten(ss) == []
  {
    if ss != [] {
      FlattenOfEmpties(ss[..|ss| - 1]);
    }
  }

  /** An element that occurs at most once in the concatenation of the
      lists is held by at most one of them. */
  lemma FlattenOnce<T>(ss: seq<seq<T>>, i: int, j: int, x: T)
    requires 0 <= i < j < |ss| && x in ss[i] && multiset(Flatten(ss))[x] <= 1
    ensures x !in ss[j]
  {
    assert ss == ss[..j] + [ss[j]] + ss[j + 1..];
    FlattenConcat(ss[..j] + [ss[j]], ss[j + 1..]);
    FlattenConcat(ss[..j], [ss[j]]);
    assert [ss[j]][..0] == [];
    assert x in ss[..j][i];
    FlattenMember(ss[..j], x);
    assert multiset(Flatten(ss[..j]))[x] >= 1;
    assert multiset(ss[j])[x] == 0;
  }

  /** A list of non-empty lists is no longer than its concatenation. */
  lemma {:induction false} FewerListsThanElements<T>(ss: seq<seq<T>>)
    requires forall k :: 0 <= k < |ss| ==> ss[k] != []
    ensures |ss| <= |Flatten(ss)|
  {
    if ss != [] {
      FewerListsThanElements(ss[..|ss| - 1]);
    }
  }

  /** The heaps that received at least one marker, in their order. */
  function NonEmpty<T>(hs: seq<seq<T>>): (r: seq<seq<T>>)
    ensures |r| <= |hs|
    ensures forall k :: 0 <= k < |r| ==> r[k] != []
    ensures forall h :: h in r ==> h in hs
    ensures Flatten(r) == Flatten(hs)
  {
    if hs == [] then []
    else
      var n := |hs| - 1;
      var front := NonEmpty(hs[..n]);
      if hs[n] == [] then front
      else
        assert (front + [hs[n]])[..|front|] == front;
        front + [hs[n]]
  }

  /** Sorting heaps by length, longest first. */
  predicate LongerOrEqual(a: seq<int>, b: seq<int>)
  {
    |a| >= |b|
  }

  lemma LongerOrEqualIsPreorder()
    ensures TotalPreorder(LongerOrEqual)
  {
  }

  /** The greatest h with h * h <= n. */
  function Isqrt(n: nat): (r: nat)
    ensures r * r <= n < (r + 1) * (r + 1)
  {
    if n == 0 then 0
    else
      var s := Isqrt(n - 1);
      if (s + 1) * (s + 1) <= n then
        assert (s + 2) * (s + 2) == (s + 1) * (s + 1) + 2 * s + 3;
        s + 1
      else s
  }

  /** int(stops * 7 ** 0.5), the number of heaps per digit, computed
      exactly as the floor of the square root of 7 * stops * stops. */
  function HeapCount(stops: nat): (r: nat)
    ensures r * r <= 7 * stops * stops < (r + 1) * (r + 1)
    ensures stops >= 1 ==> r >= 2
  {
    var n := 7 * stops * stops;
    assert stops >= 1 ==> n >= 7 by {
      if stops >= 1 {
        assert stops * stops >= stops;
      }
    }
    Isqrt(n)
  }

  /** The first loop of the allocation for one digit: shuffle its markers
      in place, drop each into one of heapCount heaps chosen at random,
      discard the empty heaps and order the rest longest first. */
  method SplitIntoHeaps(markers: seq<int>, heapCount: nat) returns (shuffled: seq<int>, heaps: seq<seq<int>>)
    requires heapCount >= 1 || markers == []
    ensures multiset(shuffled) == multiset(markers)
    ensures forall k :: 0 <= k < |heaps| ==> heaps[k] != []
    ensures multiset(Flatten(heaps)) == multiset(markers)
    ensures SortedBy(heaps, LongerOrEqual)
    ensures |heaps| <= heapCount
    ensures |heaps| <= |markers|
  {
    shuffled := Shuffle(markers);
    var hs := Distribute(shuffled, heapCount);
    var kept := NonEmpty(hs);
    LongerOrEqualIsPreorder();
    heaps := Sort(kept, LongerOrEqual);
    SortedHeaps(kept, heaps, markers);
  }

  lemma SortedHeaps(kept: seq<seq<int>>, heaps: seq<seq<int>>, markers: seq<int>)
    requires multiset(heaps) == multiset(kept)
    requires forall k :: 0 <= k < |kept| ==> kept[k] != []
    requires multiset(Flatten(kept)) == multiset(markers)
    ensures forall k :: 0 <= k < |heaps| ==> heaps[k] != []
    ensures multiset(Flatten(heaps)) == multiset(markers)
    ensures |heaps| <= |markers|
  {
    FlattenPermutation(kept, heaps);
    forall k | 0 <= k < |heaps| ensures heaps[k] != [] {
      assert heaps[k] in multiset(kept);
    }
    FewerListsThanElements(heaps);
    assert |Flatten(heaps)| == |multiset(Flatten(heaps))| == |markers|;
  }

  /** Every marker in turn is appended to one of heapCount initially
      empty heaps, chosen at random. */
  method Distribute(markers: seq<int>, heapCount: nat) returns (hs: seq<seq<int>>)
    requires heapCount >= 1 || markers == []
    ensures |hs| == heapCount
    ensures multiset(Flatten(hs)) == multiset(markers)
  {
    hs := seq(heapCount, _ => []);
    FlattenOfEmpties(hs);
    for k := 0 to |markers|
      invariant |hs| == heapCount
      invariant multiset(Flatten(hs)) == multiset(markers[..k])
    {
      var i := RandInt(0, heapCount - 1);
      DistributeStep(hs, i, markers, k);
      hs := hs[i := hs[i] + [markers[k]]];
    }
    assert markers[..|markers|] == markers;
  }

  lemma DistributeStep(hs: seq<seq<int>>, i: int, markers: seq<int>, k: int)
    requires 0 <= i < |hs| && 0 <= k < |markers|
    requires multiset(Flatten(hs)) == multiset(markers[..k])
    ensures multiset(Flatten(hs[i := hs[i] + [markers[k]]])) == multiset(markers[..k + 1])
  {
    FlattenAppend(hs, i, markers[k]);
    assert markers[..k + 1] == markers[..k] + [markers[k]];
  }

  /** Sorting tickets by the length of their heap, biggest first. */
  predicate BiggerHeap(a: Ticket, b: Ticket)
  {
    |a.heap| >= |b.heap|
  }

  lemma BiggerHeapIsPreorder()
    ensures TotalPreorder(BiggerHeap)
  {
  }

  /** The number of markers a stop replaces: sum of the heap lengths. */
  function Load(stop: seq<Ticket>): nat
  {
    if stop == [] then 0 else Load(stop[..|stop| - 1]) + |stop[|stop| - 1].heap|
  }

  /** The sort key of the placement loop: the lighter stop first. */
  predicate Lighter(a: seq<Ticket>, b: seq<Ticket>)
  {
    Load(a) <= Load(b)
  }

  lemma LighterIsPreorder()
    ensures TotalPreorder(Lighter)
  {
  }

  /** No two stops differ in load by more than bound. */
  ghost predicate Balanced(stops: seq<seq<Ticket>>, bound: int)
  {
    forall a, b :: a in stops && b in stops ==> Load(a) <= Load(b) + bound
  }

  /** One round of the placement loop: the stops sorted by load, the
      ticket is appended to the first, which is a least loaded stop; that
      adds the ticket, and keeps the loads within any bound on the heap
      lengths. */
  lemma PlaceStep(before: seq<seq<Ticket>>, sorted: seq<seq<Ticket>>, t: Ticket, bound: int)
    requires |sorted| >= 1 && multiset(sorted) == multiset(before)
    requires SortedBy(sorted, Lighter) && Balanced(before, bound) && |t.heap| <= bound
    ensures forall s :: s in before ==> Load(sorted[0]) <= Load(s)
    ensures multiset(Flatten(sorted[0 := sorted[0] + [t]])) == multiset(Flatten(before)) + multiset{t}
    ensures Balanced(sorted[0 := sorted[0] + [t]], bound)
  {
    var m := sorted[0];
    var after := sorted[0 := m + [t]];
    assert forall s :: s in sorted <==> s in before by {
      forall s ensures s in sorted <==> s in before {
        assert s in multiset(sorted) <==> s in multiset(before);
      }
    }
    forall s | s in before ensures Load(m) <= Load(s) {
      var j :| 0 <= j < |sorted| && sorted[j] == s;
      if j > 0 {
        assert Lighter(sorted[0], sorted[j]);
      }
    }
    assert Load(m + [t]) == Load(m) + |t.heap| by {
      assert (m + [t])[..|m|] == m;
    }
    forall a, b | a in after && b in after ensures Load(a) <= Load(b) + bound {
      var i :| 0 <= i < |after| && after[i] == a;
      var j :| 0 <= j < |after| && after[j] == b;
      assert i > 0 ==> a in sorted;
      assert j > 0 ==> b in sorted;
    }
    FlattenAppend(sorted, 0, t);
    FlattenPermutation(sorted, before);
  }

  /** One greedy step: the ticket is appended to a stop that was a least
      loaded one, which comes first, and the other stops are the stops
      before the step, in some order. */
  ghost predicate PlacedOnLightest(before: seq<seq<Ticket>>, after: seq<seq<Ticket>>, t: Ticket)
  {
    && |after| == |before| >= 1 && |after[0]| >= 1
    && after[0][|after[0]| - 1] == t
    && (forall s :: s in before ==> Load(after[0][..|after[0]| - 1]) <= Load(s))
    && multiset(after[1..]) + multiset{after[0][..|after[0]| - 1]} == multiset(before)
  }

  /** trace records the stops before each placement: numberOfStops empty
      stops first, stops last, and ticket k placed greedily at step k, in
      the order of tickets. */
  ghost predicate GreedyPlacement(tickets: seq<Ticket>, numberOfStops: nat,
                                  trace: seq<seq<seq<Ticket>>>, stops: seq<seq<Ticket>>)
  {
    && |trace| == |tickets| + 1
    && trace[0] == seq(numberOfStops, _ => [])
    && trace[|tickets|] == stops
    && forall k :: 0 <= k < |tickets| ==> PlacedOnLightest(trace[k], trace[k + 1], tickets[k])
  }

  /** The placement loop: while tickets remain, the stops are sorted by
      load and the first ticket goes to the least loaded stop. Every
      ticket lands on exactly one stop, and no two stops differ in load
      by more than the longest heap. */
  method PlaceTickets(tickets: seq<Ticket>, numberOfStops: nat, ghost bound: nat)
    returns (stops: seq<seq<Ticket>>, ghost trace: seq<seq<seq<Ticket>>>)
    requires numberOfStops >= 1 || tickets == []
    requires forall k :: 0 <= k < |tickets| ==> |tickets[k].heap| <= bound
    ensures |stops| == numberOfStops
    ensures multiset(Flatten(stops)) == multiset(tickets)
    ensures Balanced(stops, bound)
    ensures GreedyPlacement(tickets, numberOfStops, trace, stops)
  {
    stops := seq(numberOfStops, _ => []);
    trace := [stops];
    FlattenOfEmpties(stops);
    for k := 0 to |tickets|
      invariant |stops| == numberOfStops
      invariant multiset(Flatten(stops)) == multiset(tickets[..k])
      invariant Balanced(stops, bound)
      invariant GreedyPlacement(tickets[..k], numberOfStops, trace, stops)
    {
      ghost var before := stops;
      stops := PlaceOne(stops, tickets[k], bound);
      TraceStep(tickets, k, numberOfStops, trace, before, stops);
      trace := trace + [stops];
    }
    assert tickets[..|tickets|] == tickets;
  }

  lemma TraceStep(tickets: seq<Ticket>, k: int, numberOfStops: nat, trace: seq<seq<seq<Ticket>>>,
                  before: seq<seq<Ticket>>, after: seq<seq<Ticket>>)
    requires 0 <= k < |tickets| && GreedyPlacement(tickets[..k], numberOfStops, trace, before)
    requires PlacedOnLightest(before, after, tickets[k])
    ensures GreedyPlacement(tickets[..k + 1], numberOfStops, trace + [after], after)
    ensures multiset(tickets[..k + 1]) == multiset(tickets[..k]) + multiset{tickets[k]}
  {
    assert tickets[..k + 1] == tickets[..k] + [tickets[k]];
    var ts := tickets[..k + 1];
    var tr := trace + [after];
    forall j | 0 <= j < |ts| ensures PlacedOnLightest(tr[j], tr[j + 1], ts[j]) {
      if j < k {
        assert tickets[..k][j] == ts[j];
      }
    }
  }

  /** The loop body: sort the stops by load, then append the ticket to
      the first stop, which is a least loaded one. */
  method PlaceOne(stops: seq<seq<Ticket>>, t: Ticket, ghost bound: int) returns (after: seq<seq<Ticket>>)
    requires |stops| >= 1 && Balanced(stops, bound) && |t.heap| <= bound
    ensures PlacedOnLightest(stops, after, t)
    ensures multiset(Flatten(after)) == multiset(Flatten(stops)) + multiset{t}
    ensures Balanced(after, bound)
  {
    LighterIsPreorder();
    var sorted := Sort(stops, Lighter);
    PlaceStep(stops, sorted, t, bound);
    after := sorted[0 := sorted[0] + [t]];
    PlacedFirst(stops, sorted, t);
  }

  /** Appending to the first of the sorted stops, a least loaded one, is
      a greedy step. */
  lemma PlacedFirst(stops: seq<seq<Ticket>>, sorted: seq<seq<Ticket>>, t: Ticket)
    requires |sorted| >= 1 && multiset(sorted) == multiset(stops)
    requires forall s :: s in stops ==> Load(sorted[0]) <= Load(s)
    ensures PlacedOnLightest(stops, sorted[0 := sorted[0] + [t]], t)
  {
    var after := sorted[0 := sorted[0] + [t]];
    assert |sorted| == |multiset(stops)| == |stops|;
    assert after[0][..|after[0]| - 1] == sorted[0];
    assert after[1..] == sorted[1..];
    assert sorted == [sorted[0]] + sorted[1..];
  }

  /** Python's ordering of strings: lexicographic by character. */
  predicate StringLe(a: string, b: string)
    decreases |a|
  {
    a == [] || (b != [] && (a[0] < b[0] || (a[0] == b[0] && StringLe(a[1..], b[1..]))))
  }

  lemma {:induction false} StringLeTotal(a: string, b: string)
    ensures StringLe(a, b) || StringLe(b, a)
    decreases |a|
  {
    if a != [] && b != [] && a[0] == b[0] {
      StringLeTotal(a[1..], b[1..]);
    }
  }

  lemma {:induction false} StringLeTransitive(a: string, b: string, c: string)
    requires StringLe(a, b) && StringLe(b, c)
    ensures StringLe(a, c)
    decreases |a|
  {
    if a != [] && a[0] == b[0] && b[0] == c[0] {
      StringLeTransitive(a[1..], b[1..], c[1..]);
    }
  }

  lemma {:induction false} StringLeAntisymmetric(a: string, b: string)
    requires StringLe(a, b) && StringLe(b, a)
    ensures a == b
    decreases |a|
  {
    if a != [] {
      StringLeAntisymmetric(a[1..], b[1..]);
      assert a == [a[0]] + a[1..] && b == [b[0]] + b[1..];
    }
  }

  /** Python's ordering of (clue, value) tuples: by clue, then by value. */
  predicate PairLe(p: (string, int), q: (string, int))
  {
    if p.0 == q.0 then p.1 <= q.1 else StringLe(p.0, q.0)
  }

  lemma PairLeIsPreorder()
    ensures TotalPreorder(PairLe)
  {
    forall p: (string, int), q: (string, int) ensures PairLe(p, q) || PairLe(q, p) {
      StringLeTotal(p.0, q.0);
    }
    forall p: (string, int), q: (string, int), r: (string, int) | PairLe(p, q) && PairLe(q, r)
      ensures PairLe(p, r)
    {
      if p.0 != q.0 && q.0 != r.0 {
        StringLeTransitive(p.0, q.0, r.0);
        if p.0 == r.0 {
          StringLeAntisymmetric(p.0, q.0);
        }
      }
    }
  }

  /** The (clue, value) pair of every ticket of a stop, in order. */
  function Pairs(stop: seq<Ticket>): (r: seq<(string, int)>)
    ensures |r| == |stop|
    ensures forall k :: 0 <= k < |stop| ==> r[k] == (stop[k].clue, stop[k].value)
  {
    seq(|stop|, k requires 0 <= k < |stop| => (stop[k].clue, stop[k].value))
  }

  /** listing holds the (clue, value) pairs of the stop's tickets, in
      sorted order. */
  ghost predicate Lists(listing: seq<(string, int)>, stop: seq<Ticket>)
  {
    multiset(listing) == multiset(Pairs(stop)) && SortedBy(listing, PairLe)
  }

  /** The pairs of a stop's tickets, sorted. */
  function Listing(stop: seq<Ticket>): (r: seq<(string, int)>)
    ensures Lists(r, stop)
  {
    PairLeIsPreorder();
    Sort(Pairs(stop), PairLe)
  }

  /** The loop building the stop listings: one sorted listing per stop. */
  method ListStops(stopsTuples: seq<seq<Ticket>>) returns (stops: seq<seq<(string, int)>>)
    ensures |stops| == |stopsTuples|
    ensures forall n :: 0 <= n < |stops| ==> Lists(stops[n], stopsTuples[n])
  {
    stops := [];
    for n := 0 to |stopsTuples|
      invariant |stops| == n
      invariant forall j :: 0 <= j < n ==> Lists(stops[j], stopsTuples[j])
    {
      stops := stops + [Listing(stopsTuples[n])];
    }
  }

  /** Stop n carries a pair for clue c. */
  ghost predicate Carries(stops: seq<seq<(string, int)>>, n: int, c: string)
  {
    0 <= n < |stops| && exists k :: 0 <= k < |stops[n]| && stops[n][k].0 == c
  }

  /** The final loop: every pair of every stop, in order, maps its clue
      to that stop's number. Every listed clue gets an entry, each entry names a
      stop carrying that clue, and the last such stop. */
  method IndexStops(stops: seq<seq<(string, int)>>) returns (stopForClue: map<string, int>)
    ensures forall n, k :: 0 <= n < |stops| && 0 <= k < |stops[n]| ==>
      stops[n][k].0 in stopForClue && stopForClue[stops[n][k].0] >= n
    ensures forall c :: c in stopForClue ==> Carries(stops, stopForClue[c], c)
  {
    stopForClue := map[];
    for n := 0 to |stops|
      invariant forall j, k :: 0 <= j < n && 0 <= k < |stops[j]| ==>
        stops[j][k].0 in stopForClue && stopForClue[stops[j][k].0] >= j
      invariant forall c :: c in stopForClue ==> Carries(stops, stopForClue[c], c) && stopForClue[c] < n
    {
      stopForClue := IndexStop(stops, n, stopForClue);
    }
  }

  /** The inner loop of IndexStops for stop n. */
  method IndexStop(stops: seq<seq<(string, int)>>, n: int, before: map<string, int>) returns (after: map<string, int>)
    requires 0 <= n < |stops|
    requires forall c :: c in before ==> Carries(stops, before[c], c) && before[c] < n
    ensures forall c :: c in before ==> c in after && after[c] >= before[c]
    ensures forall k :: 0 <= k < |stops[n]| ==> stops[n][k].0 in after && after[stops[n][k].0] == n
    ensures forall c :: c in after ==> Carries(stops, after[c], c) && after[c] <= n
  {
    after := before;
    for k := 0 to |stops[n]|
      invariant forall c :: c in before ==> c in after && after[c] >= before[c]
      invariant forall i :: 0 <= i < k ==> stops[n][i].0 in after && after[stops[n][i].0] == n
      invariant forall c :: c in after ==> Carries(stops, after[c], c) && after[c] <= n
    {
      after := after[stops[n][k].0 := n];
    }
  }

  /** heaps is a split of markers into non-empty heaps. */
  ghost predicate HeapsOf(heaps: seq<seq<int>>, markers: seq<int>)
  {
    && (forall k :: 0 <= k < |heaps| ==> heaps[k] != [])
    && multiset(Flatten(heaps)) == multiset(markers)
    && |heaps| <= |markers|
  }

  /** What the last steps of the allocation make of the tickets:
      stopsTuples holds every ticket once, listed[n] lists stopsTuples[n],
      and stops holds the listings in some order, each as often as it
      was listed. */
  ghost predicate Delivered(tickets: seq<Ticket>, stopsTuples: seq<seq<Ticket>>,
                            listed: seq<seq<(string, int)>>, stops: seq<seq<(string, int)>>)
  {
    && multiset(Flatten(stopsTuples)) == multiset(tickets)
    && |listed| == |stopsTuples|
    && (forall n :: 0 <= n < |listed| ==> Lists(listed[n], stopsTuples[n]))
    && multiset(stops) == multiset(listed)
  }

  /** No two tickets share a clue. */
  ghost predicate CluesDistinct(tickets: seq<Ticket>)
  {
    forall i, j :: 0 <= i < j < |tickets| ==> tickets[i].clue != tickets[j].clue
  }

  /** An element found only at index j occurs once. */
  lemma CountOne<T>(s: seq<T>, j: int)
    requires 0 <= j < |s| && forall i :: 0 <= i < |s| && s[i] == s[j] ==> i == j
    ensures multiset(s)[s[j]] == 1
  {
    assert s == s[..j] + [s[j]] + s[j + 1..];
    forall i | 0 <= i < j ensures s[..j][i] != s[j] {
      assert s[..j][i] == s[i];
    }
    var rest := s[j + 1..];
    forall i | 0 <= i < |rest| ensures rest[i] != s[j] {
      assert rest[i] == s[j + 1 + i];
    }
    assert s[j] !in s[..j] && s[j] !in rest;
  }

  /** An element equal at two different indices occurs at least twice. */
  lemma CountTwo<T>(s: seq<T>, i: int, j: int)
    requires 0 <= i < j < |s| && s[i] == s[j]
    ensures multiset(s)[s[i]] >= 2
  {
    assert s == s[..j] + [s[j]] + s[j + 1..];
    assert s[..j][i] == s[i];
    assert multiset(s[..j])[s[i]] >= 1;
  }

  /** With distinct clues, two listings that carry clue c are the listing
      of the same stop. */
  lemma ListedOnce(tickets: seq<Ticket>, stopsTuples: seq<seq<Ticket>>,
                   listed: seq<seq<(string, int)>>, stops: seq<seq<(string, int)>>, c: string, j1: int, j2: int)
    requires Delivered(tickets, stopsTuples, listed, stops) && CluesDistinct(tickets)
    requires Carries(listed, j1, c) && Carries(listed, j2, c)
    ensures j1 == j2
  {
    var t1 := CarrierTicket(tickets, stopsTuples, listed, stops, c, j1);
    var t2 := CarrierTicket(tickets, stopsTuples, listed, stops, c, j2);
    var a :| 0 <= a < |tickets| && tickets[a] == t1;
    var b :| 0 <= b < |tickets| && tickets[b] == t2;
    assert a == b;
    CountOne(tickets, a);
    if j1 < j2 {
      FlattenOnce(stopsTuples, j1, j2, t1);
    } else if j2 < j1 {
      FlattenOnce(stopsTuples, j2, j1, t1);
    }
  }

  /** A ticket of stop j with clue c, for a listing j that carries c. */
  lemma CarrierTicket(tickets: seq<Ticket>, stopsTuples: seq<seq<Ticket>>,
                      listed: seq<seq<(string, int)>>, stops: seq<seq<(string, int)>>, c: string, j: int)
    returns (t: Ticket)
    requires Delivered(tickets, stopsTuples, listed, stops) && Carries(listed, j, c)
    ensures t in tickets && t in stopsTuples[j] && t.clue == c
  {
    var k :| 0 <= k < |listed[j]| && listed[j][k].0 == c;
    assert listed[j][k] in multiset(Pairs(stopsTuples[j]));
    var i :| 0 <= i < |stopsTuples[j]| && Pairs(stopsTuples[j])[i] == listed[j][k];
    t := stopsTuples[j][i];
    FlattenMember(stopsTuples, t);
    assert t in multiset(tickets);
  }

  /** With distinct clues, only one of the shuffled stops carries clue c. */
  lemma CarriedOnce(tickets: seq<Ticket>, stopsTuples: seq<seq<Ticket>>,
                    listed: seq<seq<(string, int)>>, stops: seq<seq<(string, int)>>, c: string, n1: int, n2: int)
    requires Delivered(tickets, stopsTuples, listed, stops) && CluesDistinct(tickets)
    requires Carries(stops, n1, c) && Carries(stops, n2, c)
    ensures n1 == n2
  {
    assert stops[n1] in multiset(listed) && stops[n2] in multiset(listed);
    var j1 :| 0 <= j1 < |listed| && listed[j1] == stops[n1];
    var j2 :| 0 <= j2 < |listed| && listed[j2] == stops[n2];
    ListedOnce(tickets, stopsTuples, listed, stops, c, j1, j2);
    forall i | 0 <= i < |listed| && listed[i] == listed[j1] ensures i == j1 {
      ListedOnce(tickets, stopsTuples, listed, stops, c, i, j1);
    }
    CountOne(listed, j1);
    if n1 < n2 {
      CountTwo(stops, n1, n2);
    } else if n2 < n1 {
      CountTwo(stops, n2, n1);
    }
  }

  /** Every ticket's (clue, value) pair is on some stop. */
  lemma TicketListed(tickets: seq<Ticket>, stopsTuples: seq<seq<Ticket>>,
                     listed: seq<seq<(string, int)>>, stops: seq<seq<(string, int)>>, t: Ticket)
    requires Delivered(tickets, stopsTuples, listed, stops) && t in tickets
    ensures exists n, k :: 0 <= n < |stops| && 0 <= k < |stops[n]| && stops[n][k] == (t.clue, t.value)
  {
    assert t in multiset(Flatten(stopsTuples));
    FlattenMember(stopsTuples, t);
    var j :| 0 <= j < |stopsTuples| && t in stopsTuples[j];
    var i :| 0 <= i < |stopsTuples[j]| && stopsTuples[j][i] == t;
    var p := (t.clue, t.value);
    assert Pairs(stopsTuples[j])[i] == p;
    assert p in multiset(listed[j]);
    assert listed[j] in multiset(stops);
    var n :| 0 <= n < |stops| && stops[n] == listed[j];
    var k :| 0 <= k < |stops[n]| && stops[n][k] == p;
  }

  /** Every pair on a stop is the (clue, value) pair of a ticket. */
  lemma ListedTicket(tickets: seq<Ticket>, stopsTuples: seq<seq<Ticket>>,
                     listed: seq<seq<(string, int)>>, stops: seq<seq<(string, int)>>, n: int, k: int)
    requires Delivered(tickets, stopsTuples, listed, stops)
    requires 0 <= n < |stops| && 0 <= k < |stops[n]|
    ensures exists t :: t in tickets && (t.clue, t.value) == stops[n][k]
  {
    var p := stops[n][k];
    assert stops[n] in multiset(listed);
    var j :| 0 <= j < |listed| && listed[j] == stops[n];
    assert p in multiset(Pairs(stopsTuples[j]));
    var i :| 0 <= i < |stopsTuples[j]| && Pairs(stopsTuples[j])[i] == p;
    var t := stopsTuples[j][i];
    FlattenMember(stopsTuples, t);
    assert t in multiset(tickets);
  }

  /** The rest of the allocation once the tickets exist: tickets sorted
      by heap length, longest first (ordered), placed one by one on a least
      loaded stop (trace), each stop listed in sorted order, the stops
      shuffled and the clues indexed. */
  method Deliver(tickets: seq<Ticket>, numberOfStops: nat)
    returns (stopsTuples: seq<seq<Ticket>>, listed: seq<seq<(string, int)>>,
             stops: seq<seq<(string, int)>>, stopForClue: map<string, int>,
             ordered: seq<Ticket>, ghost trace: seq<seq<seq<Ticket>>>)
    requires numberOfStops >= 1 || tickets == []
    ensures multiset(ordered) == multiset(tickets) && SortedBy(ordered, BiggerHeap)
    ensures GreedyPlacement(ordered, numberOfStops, trace, stopsTuples)
    ensures |stops| == numberOfStops
    ensures Delivered(tickets, stopsTuples, listed, stops)
    ensures forall s :: s in stops ==> SortedBy(s, PairLe)
    ensures Balanced(stopsTuples, Longest(tickets))
    ensures forall n, k :: 0 <= n < |stops| && 0 <= k < |stops[n]| ==> stops[n][k].0 in stopForClue
    ensures forall c :: c in stopForClue ==> Carries(stops, stopForClue[c], c)
    ensures CluesDistinct(tickets) ==>
      forall c, n :: c in stopForClue && Carries(stops, n, c) ==> n == stopForClue[c]
  {
    BiggerHeapIsPreorder();
    ordered := Sort(tickets, BiggerHeap);
    forall k | 0 <= k < |ordered| ensures |ordered[k].heap| <= Longest(tickets) {
      assert ordered[k] in multiset(tickets);
    }
    stopsTuples, trace := PlaceTickets(ordered, numberOfStops, Longest(tickets));
    listed := ListStops(stopsTuples);
    stops := Shuffle(listed);
    stopForClue := IndexStops(stops);
    forall s | s in stops ensures SortedBy(s, PairLe) {
      assert s in multiset(listed);
      var n :| 0 <= n < |listed| && listed[n] == s;
    }
    if CluesDistinct(tickets) {
      forall c, n | c in stopForClue && Carries(stops, n, c) ensures n == stopForClue[c] {
        CarriedOnce(tickets, stopsTuples, listed, stops, c, n, stopForClue[c]);
      }
    }
  }

  /** The length of the longest heap, 0 without tickets. */
  function Longest(tickets: seq<Ticket>): (r: nat)
    ensures forall t :: t in tickets ==> |t.heap| <= r
    ensures tickets != [] ==> exists t :: t in tickets && |t.heap| == r
  {
    if tickets == [] then 0
    else
      var n := |tickets| - 1;
      var front := Longest(tickets[..n]);
      assert tickets == tickets[..n] + [tickets[n]];
      if |tickets[n].heap| > front then |tickets[n].heap| else front
  }
}
