/** SudokuGenerator: makes the sheets, replaces cells by numbered markers,
    groups the markers of each digit into clues and spreads the clues
    over the stops, so that every marker on a sheet can be looked up,
    through its clue and its stop, as the digit it replaced. */
module SudokuGenerator {
  import opened Common
  import opened Sorting
  import opened SudokuReplacement
  import opened SudokuBoard
  import opened SudokuLabels
  import opened SudokuAllocation

  /** EMPTIED_CELLS: cells set to 0 on every sheet. */
  const EmptiedCells := 10

  /** The number of markers listed under the keys. */
  ghost function Total(reps: map<int, seq<int>>, keys: seq<int>): nat
  {
    if keys == [] then 0
    else
      var k := keys[|keys| - 1];
      Total(reps, keys[..|keys| - 1]) + (if k in reps then |reps[k]| else 0)
  }

  lemma TotalPrefix(reps: map<int, seq<int>>, keys: seq<int>, i: int)
    requires 0 <= i < |keys|
    ensures Total(reps, keys[..i + 1]) ==
      Total(reps, keys[..i]) + (if keys[i] in reps then |reps[keys[i]]| else 0)
  {
    assert keys[..i + 1][..i] == keys[..i];
  }

  lemma {:induction false} TotalPrefixBound(reps: map<int, seq<int>>, keys: seq<int>, i: int)
    requires 0 <= i <= |keys|
    ensures Total(reps, keys[..i]) <= Total(reps, keys)
    decreases |keys| - i
  {
    if i < |keys| {
      TotalPrefix(reps, keys, i);
      TotalPrefixBound(reps, keys, i + 1);
    } else {
      assert keys[..i] == keys;
    }
  }

  /** The list of one key is part of the total. */
  lemma {:induction false} TotalCovers(reps: map<int, seq<int>>, keys: seq<int>, k: int)
    requires k in keys && k in reps
    ensures |reps[k]| <= Total(reps, keys)
  {
    var n := |keys| - 1;
    if keys[n] != k {
      var j :| 0 <= j < |keys| && keys[j] == k;
      assert keys[..n][j] == k;
      TotalCovers(reps, keys[..n], k);
    }
  }

  /** A key outside the list does not count. */
  lemma {:induction false} TotalOther(reps: map<int, seq<int>>, keys: seq<int>, k: int, x: seq<int>)
    requires k !in keys
    ensures Total(reps[k := x], keys) == Total(reps, keys)
  {
    if keys != [] {
      assert keys[|keys| - 1] != k;
      assert k !in keys[..|keys| - 1] by {
        assert forall y :: y in keys[..|keys| - 1] ==> y in keys;
      }
      TotalOther(reps, keys[..|keys| - 1], k, x);
    }
  }

  /** Appending one marker to the list of a listed key adds one. */
  lemma {:induction false} TotalAppend(reps: map<int, seq<int>>, keys: seq<int>, k: int, m: int)
    requires k in reps && k in keys && Distinct(keys)
    ensures Total(reps[k := reps[k] + [m]], keys) == Total(reps, keys) + 1
  {
    var n := |keys| - 1;
    var front := keys[..n];
    assert forall y :: y in front ==> y in keys;
    if keys[n] == k {
      assert k !in front by {
        forall j | 0 <= j < n ensures front[j] != k {
          assert keys[j] != keys[n];
        }
      }
      TotalOther(reps, front, k, reps[k] + [m]);
    } else {
      var j :| 0 <= j < |keys| && keys[j] == k;
      assert front[j] == k;
      TotalAppend(reps, front, k, m);
    }
  }

  /** Lists of the same lengths have the same total. */
  lemma {:induction false} TotalSame(r1: map<int, seq<int>>, r2: map<int, seq<int>>, keys: seq<int>)
    requires forall k :: k in r1 <==> k in r2
    requires forall k :: k in r1 ==> |r1[k]| == |r2[k]|
    ensures Total(r1, keys) == Total(r2, keys)
  {
    if keys != [] {
      TotalSame(r1, r2, keys[..|keys| - 1]);
    }
  }

  /** The key order lists exactly the keys of the map, once each (the
      insertion order of a Python dict). */
  ghost predicate KeysListed(reps: map<int, seq<int>>, keys: seq<int>)
  {
    (forall k :: k in reps <==> k in keys) && Distinct(keys)
  }

  /** No marker is listed twice, whether under two digits or twice
      under one. */
  ghost predicate Separate(reps: map<int, seq<int>>)
  {
    && (forall k1, k2, m :: k1 in reps && k2 in reps && m in reps[k1] && m in reps[k2] ==> k1 == k2)
    && (forall k, m :: k in reps ==> multiset(reps[k])[m] <= 1)
  }

  /** Every marker lies in 101..clue. */
  ghost predicate MarkersUpTo(reps: map<int, seq<int>>, clue: int)
  {
    forall k, m :: k in reps && m in reps[k] ==> 100 < m <= clue
  }

  /** reps2 keeps every marker of reps1 under the same digit. */
  ghost predicate Keeps(reps1: map<int, seq<int>>, reps2: map<int, seq<int>>)
  {
    forall k :: k in reps1 ==> k in reps2 && forall m :: m in reps1[k] ==> m in reps2[k]
  }

  /** A cell of a prepared sheet: emptied, still its digit, or a marker
      listed under its digit. */
  ghost predicate CellOk(reps: map<int, seq<int>>, clue: int, x: int, v: int)
  {
    x == 0 || x == v || (100 < x <= clue && v in reps && x in reps[v])
  }

  ghost predicate Layout(reps: map<int, seq<int>>, clue: int, board: seq<int>, full: seq<int>)
  {
    && |board| == 81 && |full| == 81 && Solved(full)
    && forall i :: 0 <= i < 81 ==> CellOk(reps, clue, board[i], full[i])
  }

  lemma LayoutGrows(reps1: map<int, seq<int>>, reps2: map<int, seq<int>>, clue1: int, clue2: int,
                    board: seq<int>, full: seq<int>)
    requires Layout(reps1, clue1, board, full) && Keeps(reps1, reps2) && clue1 <= clue2
    ensures Layout(reps2, clue2, board, full)
  {
    forall i | 0 <= i < 81 ensures CellOk(reps2, clue2, board[i], full[i]) {
      assert CellOk(reps1, clue1, board[i], full[i]);
    }
  }

  /** A solved board with some cells emptied is laid out under any
      replacement. */
  lemma BlankLayout(reps: map<int, seq<int>>, clue: int, board: seq<int>, full: seq<int>)
    requires |board| == 81 && |full| == 81 && Solved(full)
    requires forall i :: 0 <= i < 81 ==> board[i] == 0 || board[i] == full[i]
    ensures Layout(reps, clue, board, full)
  {
  }

  /** The sheets made so far, given by their boards and fully filled
      boards: each laid out, with ten zeros and its quota of markers, and
      no fully filled board twice. */
  ghost predicate Ready(reps: map<int, seq<int>>, clue: int, quota: nat,
                        boards: seq<seq<int>>, fulls: seq<seq<int>>)
  {
    && |boards| == |fulls|
    && (forall k :: 0 <= k < |boards| ==>
          && Layout(reps, clue, boards[k], fulls[k])
          && |ZeroCells(boards[k])| == EmptiedCells
          && |PlainCells(boards[k])| == 81 - EmptiedCells - quota)
    && (forall a, b :: 0 <= a < b < |fulls| ==> fulls[a] != fulls[b])
  }

  lemma ReadyStep(reps1: map<int, seq<int>>, reps2: map<int, seq<int>>, clue1: int, clue2: int,
                  quota: nat, boards: seq<seq<int>>, fulls: seq<seq<int>>, b: seq<int>, f: seq<int>)
    requires Ready(reps1, clue1, quota, boards, fulls) && Keeps(reps1, reps2) && clue1 <= clue2
    requires Layout(reps2, clue2, b, f) && f !in fulls
    requires |ZeroCells(b)| == EmptiedCells && |PlainCells(b)| == 81 - EmptiedCells - quota
    ensures Ready(reps2, clue2, quota, boards + [b], fulls + [f])
  {
    forall k | 0 <= k < |boards| ensures Layout(reps2, clue2, boards[k], fulls[k]) {
      LayoutGrows(reps1, reps2, clue1, clue2, boards[k], fulls[k]);
    }
  }

  /** The cells holding 0. */
  ghost function ZeroCells(b: seq<int>): set<int>
  {
    set i | 0 <= i < |b| && b[i] == 0
  }

  lemma ZeroCellsStep(b: seq<int>, p: int)
    requires 0 <= p < |b| && b[p] != 0
    ensures ZeroCells(b[p := 0]) == ZeroCells(b) + {p}
    ensures |ZeroCells(b[p := 0])| == |ZeroCells(b)| + 1
  {
    assert ZeroCells(b[p := 0]) == ZeroCells(b) + {p};
  }

  lemma ZeroCellsKeep(b: seq<int>, p: int, x: int)
    requires 0 <= p < |b| && b[p] != 0 && x != 0
    ensures ZeroCells(b[p := x]) == ZeroCells(b)
  {
    assert ZeroCells(b[p := x]) == ZeroCells(b);
  }

  lemma NoZeroCells(b: seq<int>)
    requires Solved(b)
    ensures ZeroCells(b) == {}
  {
    SolvedAllPlain(b);
    forall i | 0 <= i < |b| ensures b[i] != 0 {
      assert i in PlainCells(b);
    }
  }

  /** EmptiedCells random cells of a freshly filled sheet are emptied:
      ten different cells become 0 and every other cell keeps its digit. */
  method Blank(sheet: Sheet)
    modifies sheet
    requires |sheet.board| == 81 && Solved(sheet.board)
    ensures sheet.fullyFilledBoard == old(sheet.fullyFilledBoard)
    ensures |sheet.board| == 81
    ensures forall i :: 0 <= i < 81 ==> sheet.board[i] == 0 || sheet.board[i] == old(sheet.board)[i]
    ensures |ZeroCells(sheet.board)| == EmptiedCells
    ensures |PlainCells(sheet.board)| == 81 - EmptiedCells
  {
    ghost var full := sheet.board;
    SolvedAllPlain(full);
    NoZeroCells(full);
    for c := 0 to EmptiedCells
      invariant |sheet.board| == 81
      invariant sheet.fullyFilledBoard == old(sheet.fullyFilledBoard)
      invariant forall i :: 0 <= i < 81 ==> sheet.board[i] == 0 || sheet.board[i] == full[i]
      invariant |ZeroCells(sheet.board)| == c && |PlainCells(sheet.board)| == 81 - c
    {
      PlainCellExists(sheet.board);
      ghost var b := sheet.board;
      ghost var p := sheet.EmptyRandomCell();
      assert 1 <= b[p] <= 9 by {
        assert p in PlainCells(full);
      }
      PlainCellsStep(b, p, 0);
      ZeroCellsStep(b, p);
    }
  }

  /** The tickets' clues are the used labels, in order, and all differ. */
  ghost predicate Issued(tickets: seq<Ticket>, used: seq<string>, letters: string, n: nat)
  {
    && |used| == |tickets| && Distinct(used)
    && forall j :: 0 <= j < |tickets| ==> tickets[j].clue == used[j] && IsLabel(used[j], letters, n)
  }

  /** Every marked entry carries the clue of a ticket whose heap holds it,
      and every entry of every ticket is marked with that ticket's clue. */
  ghost predicate Marked(tickets: seq<Ticket>, clues: map<int, string>)
  {
    && (forall m :: m in clues ==> exists t :: t in tickets && m in t.heap && t.clue == clues[m])
    && (forall t, m :: t in tickets && m in t.heap ==> m in clues && clues[m] == t.clue)
  }

  /** Marked tickets with distinct clues share no entry. */
  lemma MarkedApart(tickets: seq<Ticket>, used: seq<string>, letters: string, n: nat,
                    clues: map<int, string>)
    requires Issued(tickets, used, letters, n) && Marked(tickets, clues)
    ensures forall i, j, m :: 0 <= i < j < |tickets| && m in tickets[i].heap ==> m !in tickets[j].heap
  {
    forall i, j, m | 0 <= i < j < |tickets| && m in tickets[i].heap ensures m !in tickets[j].heap {
      assert tickets[i] in tickets && tickets[j] in tickets;
      assert clues[m] == used[i] != used[j];
    }
  }

  /** No ticket shares an entry with heap. */
  ghost predicate Apart(tickets: seq<Ticket>, heap: seq<int>)
  {
    forall t, m :: t in tickets && m in t.heap ==> m !in heap
  }

  /** No two heaps share an entry. */
  ghost predicate Disjoint(heaps: seq<seq<int>>)
  {
    forall i, j, m :: 0 <= i < j < |heaps| && m in heaps[i] ==> m !in heaps[j]
  }

  /** Every ticket is for one of the digits in keys. */
  ghost predicate ValuesIn(tickets: seq<Ticket>, keys: seq<int>)
  {
    forall t :: t in tickets ==> t.value in keys
  }

  lemma IssuedStep(tickets: seq<Ticket>, used: seq<string>, letters: string, n: nat, t: Ticket)
    requires Issued(tickets, used, letters, n) && t.clue !in used && IsLabel(t.clue, letters, n)
    ensures Issued(tickets + [t], used + [t.clue], letters, n)
  {
    var used' := used + [t.clue];
    forall i, j | 0 <= i < j < |used'| ensures used'[i] != used'[j] {
      if j == |used| {
        assert used'[i] in used;
      }
    }
  }

  lemma MarkedStep(tickets: seq<Ticket>, clues: map<int, string>, t: Ticket, clues': map<int, string>)
    requires Marked(tickets, clues) && Apart(tickets, t.heap)
    requires forall m :: m in clues' <==> m in clues || m in t.heap
    requires forall m :: m in clues' ==> clues'[m] == if m in t.heap then t.clue else clues[m]
    ensures Marked(tickets + [t], clues')
  {
    var ts := tickets + [t];
    forall m | m in clues' ensures exists u :: u in ts && m in u.heap && u.clue == clues'[m] {
      if m in t.heap {
        assert t in ts;
      } else {
        var u :| u in tickets && m in u.heap && u.clue == clues[m];
        assert u in ts;
      }
    }
  }

  /** After splitting the digits of done: the same digits with the same
      markers, and for each digit done a heap split of at most heapCount
      heaps, longest first. */
  ghost predicate SplitSoFar(reps0: map<int, seq<int>>, reps: map<int, seq<int>>,
                             saved: map<int, seq<seq<int>>>, done: seq<int>, heapCount: nat)
  {
    && (forall k :: k in reps <==> k in reps0)
    && (forall k :: k in reps ==> multiset(reps[k]) == multiset(reps0[k]))
    && (forall k :: k in saved <==> k in done)
    && (forall k :: k in saved ==>
          && k in reps && HeapsOf(saved[k], reps[k])
          && SortedBy(saved[k], LongerOrEqual) && |saved[k]| <= heapCount)
  }

  lemma SplitStep(reps0: map<int, seq<int>>, reps: map<int, seq<int>>, saved: map<int, seq<seq<int>>>,
                  done: seq<int>, heapCount: nat, key: int, shuffled: seq<int>, heaps: seq<seq<int>>)
    requires SplitSoFar(reps0, reps, saved, done, heapCount) && key in reps
    requires multiset(shuffled) == multiset(reps[key])
    requires HeapsOf(heaps, reps[key]) && SortedBy(heaps, LongerOrEqual) && |heaps| <= heapCount
    ensures SplitSoFar(reps0, reps[key := shuffled], saved[key := heaps], done + [key], heapCount)
  {
    assert |shuffled| == |multiset(reps[key])|;
  }

  /** Each ticket's heap holds markers listed under the ticket's digit. */
  ghost predicate TicketsFrom(tickets: seq<Ticket>, reps: map<int, seq<int>>)
  {
    forall t, m :: t in tickets && m in t.heap ==> t.value in reps && m in reps[t.value]
  }

  /** Every marker listed under a digit is in a ticket for that digit. */
  ghost predicate Covers(tickets: seq<Ticket>, reps: map<int, seq<int>>, keys: seq<int>)
  {
    forall k, m :: k in keys && k in reps && m in reps[k] ==> exists t :: t in tickets && t.value == k && m in t.heap
  }

  /** issued holds one ticket per heap, in order, each for digit key. */
  ghost predicate PerHeap(issued: seq<Ticket>, heaps: seq<seq<int>>, key: int)
  {
    && |issued| == |heaps|
    && forall j :: 0 <= j < |heaps| ==> issued[j].heap == heaps[j] && issued[j].value == key
  }

  lemma PerHeapStep(added: seq<Ticket>, heaps: seq<seq<int>>, h: int, key: int, t: Ticket)
    requires 0 <= h < |heaps| && PerHeap(added, heaps[..h], key)
    requires t.heap == heaps[h] && t.value == key
    ensures PerHeap(added + [t], heaps[..h + 1], key)
  {
  }

  /** A heap apart from the earlier tickets and from the earlier heaps is
      apart from the tickets issued for those heaps too. */
  lemma ApartStep(tickets0: seq<Ticket>, added: seq<Ticket>, heaps: seq<seq<int>>, h: int, key: int)
    requires 0 <= h < |heaps| && PerHeap(added, heaps[..h], key) && Disjoint(heaps)
    requires Apart(tickets0, heaps[h])
    ensures Apart(tickets0 + added, heaps[h])
  {
    forall u, m | u in tickets0 + added && m in u.heap ensures m !in heaps[h] {
      if u !in tickets0 {
        var j :| 0 <= j < |added| && added[j] == u;
        assert heaps[..h][j] == heaps[j];
      }
    }
  }

  /** The heaps of a digit not yet issued share no marker with each other
      or with the tickets of the digits before it. */
  lemma TicketsApart(reps: map<int, seq<int>>, keys: seq<int>, i: int, tickets: seq<Ticket>,
                     heaps: seq<seq<int>>)
    requires KeysListed(reps, keys) && Separate(reps) && 0 <= i < |keys|
    requires keys[i] in reps && HeapsOf(heaps, reps[keys[i]])
    requires TicketsFrom(tickets, reps) && ValuesIn(tickets, keys[..i])
    ensures Disjoint(heaps)
    ensures forall j :: 0 <= j < |heaps| ==> Apart(tickets, heaps[j])
  {
    var key := keys[i];
    forall a, b, m | 0 <= a < b < |heaps| && m in heaps[a] ensures m !in heaps[b] {
      assert multiset(reps[key])[m] <= 1;
      FlattenOnce(heaps, a, b, m);
    }
    forall j, u, m | 0 <= j < |heaps| && u in tickets && m in u.heap ensures m !in heaps[j] {
      var p :| 0 <= p < i && keys[p] == u.value;
      assert u.value != key;
      assert m !in multiset(reps[key]);
      FlattenMember(heaps, m);
    }
  }

  /** The tickets issued for one key's heaps come from that key's list
      and cover it. */
  lemma HeapTickets(heaps: seq<seq<int>>, markers: seq<int>, issued: seq<Ticket>, key: int)
    requires HeapsOf(heaps, markers) && PerHeap(issued, heaps, key)
    ensures forall t, m :: t in issued && m in t.heap ==> t.value == key && m in markers
    ensures forall m :: m in markers ==> exists t :: t in issued && t.value == key && m in t.heap
  {
    forall t, m | t in issued && m in t.heap ensures t.value == key && m in markers {
      var j :| 0 <= j < |issued| && issued[j] == t;
      FlattenMember(heaps, m);
      assert m in multiset(Flatten(heaps));
    }
    forall m | m in markers ensures exists t :: t in issued && t.value == key && m in t.heap {
      assert m in multiset(Flatten(heaps));
      FlattenMember(heaps, m);
      var j :| 0 <= j < |heaps| && m in heaps[j];
      assert issued[j] in issued;
    }
  }

  /** The tickets of key i extend the coverage to the first i + 1 keys. */
  lemma CoverStep(reps: map<int, seq<int>>, keys: seq<int>, i: int, before: seq<Ticket>,
                  issued: seq<Ticket>, heaps: seq<seq<int>>)
    requires 0 <= i < |keys| && keys[i] in reps && HeapsOf(heaps, reps[keys[i]])
    requires PerHeap(issued, heaps, keys[i])
    requires TicketsFrom(before, reps) && Covers(before, reps, keys[..i])
    requires ValuesIn(before, keys[..i])
    ensures TicketsFrom(before + issued, reps) && Covers(before + issued, reps, keys[..i + 1])
    ensures ValuesIn(before + issued, keys[..i + 1])
  {
    var tickets := before + issued;
    HeapTickets(heaps, reps[keys[i]], issued, keys[i]);
    assert keys[..i + 1] == keys[..i] + [keys[i]];
    forall t, m | t in tickets && m in t.heap ensures t.value in reps && m in reps[t.value] {
      if t !in before {
        assert t in issued;
      }
    }
    forall k, m | k in keys[..i + 1] && k in reps && m in reps[k]
      ensures exists t :: t in tickets && t.value == k && m in t.heap
    {
      if k in keys[..i] {
        var t :| t in before && t.value == k && m in t.heap;
        assert t in tickets;
      } else {
        var t :| t in issued && t.value == k && m in t.heap;
        assert t in tickets;
      }
    }
  }

  /** Marker m on a sheet for digit v leads through its clue and the
      clue's stop to the pair (clue, v). */
  ghost predicate Locates(clues: map<int, string>, index: map<string, int>,
                          stops: seq<seq<(string, int)>>, m: int, v: int)
  {
    && m in clues && clues[m] != "" && clues[m] in index
    && 0 <= index[clues[m]] < |stops| && (clues[m], v) in stops[index[clues[m]]]
  }

  /** The chain from a marker to its stop, given what each step of the
      allocation guarantees. */
  lemma Resolve(reps: map<int, seq<int>>, keys: seq<int>, tickets: seq<Ticket>, used: seq<string>,
                letters: string, n: nat, clues: map<int, string>, stopsTuples: seq<seq<Ticket>>,
                listed: seq<seq<(string, int)>>, stops: seq<seq<(string, int)>>,
                index: map<string, int>, v: int, m: int)
    requires n >= 1 && Separate(reps) && v in reps && v in keys && m in reps[v]
    requires Issued(tickets, used, letters, n) && Marked(tickets, clues)
    requires TicketsFrom(tickets, reps) && Covers(tickets, reps, keys)
    requires Delivered(tickets, stopsTuples, listed, stops)
    requires forall s, k :: 0 <= s < |stops| && 0 <= k < |stops[s]| ==> stops[s][k].0 in index
    requires forall c :: c in index ==> Carries(stops, index[c], c)
    ensures Locates(clues, index, stops, m, v)
  {
    var t :| t in tickets && t.value == v && m in t.heap;
    var c := clues[m];
    var t1 :| t1 in tickets && m in t1.heap && t1.clue == c;
    assert t1.value == v;
    var j1 :| 0 <= j1 < |tickets| && tickets[j1] == t1;
    assert IsLabel(c, letters, n);
    TicketListed(tickets, stopsTuples, listed, stops, t1);
    var n1, k1 :| 0 <= n1 < |stops| && 0 <= k1 < |stops[n1]| && stops[n1][k1] == (c, v);
    assert c in index;
    var s := index[c];
    var k :| 0 <= k < |stops[s]| && stops[s][k].0 == c;
    ListedTicket(tickets, stopsTuples, listed, stops, s, k);
    var t2 :| t2 in tickets && (t2.clue, t2.value) == stops[s][k];
    var j2 :| 0 <= j2 < |tickets| && tickets[j2] == t2;
    assert used[j1] == used[j2];
    assert j1 == j2;
    assert stops[s][k] == (c, v);
  }

  /** The shuffle keeps the members of every list. */
  lemma SameMembers(r1: map<int, seq<int>>, r2: map<int, seq<int>>)
    requires forall k :: k in r2 <==> k in r1
    requires forall k :: k in r2 ==> multiset(r2[k]) == multiset(r1[k])
    ensures forall k :: k in r1 ==> |r1[k]| == |r2[k]|
    ensures forall k, m :: k in r1 ==> (m in r1[k] <==> m in r2[k])
  {
    forall k | k in r1 ensures |r1[k]| == |r2[k]| {
      assert |multiset(r1[k])| == |multiset(r2[k])|;
    }
    forall k, m | k in r1 ensures m in r1[k] <==> m in r2[k] {
      assert m in multiset(r1[k]) <==> m in multiset(r2[k]);
    }
  }

  lemma NewKeyListed(keys: seq<int>, k: int)
    requires Distinct(keys) && k !in keys
    ensures Distinct(keys + [k])
  {
    var ks := keys + [k];
    forall i, j | 0 <= i < j < |ks| ensures ks[i] != ks[j] {
      if j == |keys| {
        assert ks[i] in keys;
      }
    }
  }

  lemma KeepsTransitive(r1: map<int, seq<int>>, r2: map<int, seq<int>>, r3: map<int, seq<int>>)
    requires Keeps(r1, r2) && Keeps(r2, r3)
    ensures Keeps(r1, r3)
  {
  }

  /** Recording a marker above all others keeps the markers apart and
      every earlier marker in place. */
  lemma FreshMarker(reps: map<int, seq<int>>, reps': map<int, seq<int>>, value: int, clue: int)
    requires Separate(reps) && MarkersUpTo(reps, clue - 1) && clue > 100
    requires reps' == reps[value := (if value in reps then reps[value] else []) + [clue]]
    ensures Separate(reps') && MarkersUpTo(reps', clue) && Keeps(reps, reps')
    ensures clue in reps'[value]
  {
    var old_ := if value in reps then reps[value] else [];
    forall k, m | k in reps' && m in reps'[k] ensures 100 < m <= clue && (m == clue ==> k == value) {
      if k != value {
        assert m in reps[k];
      } else if m != clue {
        assert m in old_ by {
          assert reps'[value] == old_ + [clue];
        }
      }
    }
    forall k1, k2, m | k1 in reps' && k2 in reps' && m in reps'[k1] && m in reps'[k2] ensures k1 == k2 {
      if m != clue {
        assert k1 != value ==> m in reps[k1];
        assert k2 != value ==> m in reps[k2];
        assert k1 == value ==> m in old_ by {
          assert reps'[value] == old_ + [clue];
        }
        assert k2 == value ==> m in old_ by {
          assert reps'[value] == old_ + [clue];
        }
      }
    }
    assert clue in reps'[value] by {
      assert reps'[value] == old_ + [clue];
    }
    forall k, m | k in reps' ensures multiset(reps'[k])[m] <= 1 {
      if k == value {
        assert reps'[value] == old_ + [clue];
        assert clue !in old_;
      }
    }
  }

  /** Replacing a digit cell by a new marker recorded under that digit
      keeps the layout. */
  lemma LayoutReplace(reps: map<int, seq<int>>, reps': map<int, seq<int>>, clue: int,
                      b: seq<int>, full: seq<int>, p: int)
    requires Layout(reps, clue - 1, b, full) && Keeps(reps, reps')
    requires 0 <= p < 81 && 1 <= b[p] <= 9 && b[p] in reps' && clue in reps'[b[p]] && clue > 100
    ensures Layout(reps', clue, b[p := clue], full)
  {
    assert CellOk(reps, clue - 1, b[p], full[p]);
    forall i | 0 <= i < 81 ensures CellOk(reps', clue, b[p := clue][i], full[i]) {
      if i != p {
        assert CellOk(reps, clue - 1, b[i], full[i]);
      }
    }
  }

  /** Resolve for every marker of every digit. */
  lemma AllResolve(reps: map<int, seq<int>>, keys: seq<int>, tickets: seq<Ticket>, used: seq<string>,
                   letters: string, n: nat, clues: map<int, string>, stopsTuples: seq<seq<Ticket>>,
                   listed: seq<seq<(string, int)>>, stops: seq<seq<(string, int)>>,
                   index: map<string, int>)
    requires Total(reps, keys) > 0 ==> n >= 1
    requires KeysListed(reps, keys) && Separate(reps)
    requires Issued(tickets, used, letters, n) && Marked(tickets, clues)
    requires TicketsFrom(tickets, reps) && Covers(tickets, reps, keys)
    requires Delivered(tickets, stopsTuples, listed, stops)
    requires forall s, k :: 0 <= s < |stops| && 0 <= k < |stops[s]| ==> stops[s][k].0 in index
    requires forall c :: c in index ==> Carries(stops, index[c], c)
    ensures forall v, m :: v in reps && m in reps[v] ==> Locates(clues, index, stops, m, v)
  {
    forall v, m | v in reps && m in reps[v] ensures Locates(clues, index, stops, m, v) {
      TotalCovers(reps, keys, v);
      Resolve(reps, keys, tickets, used, letters, n, clues, stopsTuples, listed, stops, index, v, m);
    }
  }

  lemma MulSucc(n: int, q: int)
    ensures (n + 1) * q == n * q + q
  {
  }

  lemma MulLe(a: int, b: int, c: int)
    requires 0 <= a <= b && c >= 0
    ensures a * c <= b * c
  {
  }

  class Generator {
    const numberOfSheets: int
    const numberOfCluesPerSheet: int
    const numberOfStops: nat
    const clueLetters: string
    const clueLength: Option<nat>
    var usedClues: seq<string>
    var sheets: seq<Sheet>
    /** value => [entry, ...], with its keys in insertion order. */
    var replacements: map<int, seq<int>>
    var replacementKeys: seq<int>
    /** entry => clue */
    var replacementClues: map<int, string>
    /** stop => [(clue, value), ...] */
    var stops: seq<seq<(string, int)>>
    /** clue => stop */
    var stopForClue: map<string, int>
    var replacement: Option<Replacement>

    /** The markers a sheet receives: range() of a negative count is empty. */
    function Quota(): nat
    {
      if numberOfCluesPerSheet > 0 then numberOfCluesPerSheet else 0
    }

    /** The label length, 0 when there is none. */
    function LabelLength(): nat
    {
      if clueLength.Some? then clueLength.value else 0
    }

    /** Nothing calculated yet. */
    ghost predicate Unstarted()
      reads this
    {
      && usedClues == [] && sheets == [] && replacements == map[] && replacementKeys == []
      && replacementClues == map[] && stops == [] && stopForClue == map[] && replacement == None
    }

    /** __init__: the clues per sheet are the cells neither emptied nor
        given; the label length is the least length in 1..9 with more
        labels than clues on all sheets, or none ("Too many clues"). */
    constructor (numberOfSheets: int, initialValues: int, numberOfStops: nat, clueLetters: string)
      ensures this.numberOfSheets == numberOfSheets
      ensures numberOfCluesPerSheet == 9 * 9 - EmptiedCells - initialValues
      ensures this.numberOfStops == numberOfStops && this.clueLetters == clueLetters
      ensures clueLength.Some? ==>
        1 <= clueLength.value <= 9 && Pow(|clueLetters|, clueLength.value) > numberOfSheets * numberOfCluesPerSheet
      ensures clueLength.Some? ==>
        forall j :: 1 <= j < clueLength.value ==> Pow(|clueLetters|, j) <= numberOfSheets * numberOfCluesPerSheet
      ensures clueLength.None? ==>
        forall j :: 1 <= j <= 9 ==> Pow(|clueLetters|, j) <= numberOfSheets * numberOfCluesPerSheet
      ensures Unstarted()
    {
      this.numberOfSheets := numberOfSheets;
      numberOfCluesPerSheet := 9 * 9 - EmptiedCells - initialValues;
      this.numberOfStops := numberOfStops;
      this.clueLetters := clueLetters;
      var length := ClueLengthFor(|clueLetters|, numberOfSheets * (9 * 9 - EmptiedCells - initialValues));
      clueLength := length;
      usedClues := [];
      sheets := [];
      replacements := map[];
      replacementKeys := [];
      replacementClues := map[];
      stops := [];
      stopForClue := map[];
      replacement := None;
    }

    /** generate_clue: clue_length random letters; a label already used
        is drawn again (modelled as a choice among the unused labels), and
        the new label is recorded as used. */
    method GenerateClue() returns (clue: string)
      modifies this`usedClues
      requires clueLength.Some?
      requires exists w :: IsLabel(w, clueLetters, clueLength.value) && w !in usedClues
      ensures IsLabel(clue, clueLetters, clueLength.value)
      ensures clue !in old(usedClues)
      ensures usedClues == old(usedClues) + [clue]
    {
      var n := clueLength.value;
      ghost var w :| IsLabel(w, clueLetters, n) && w !in usedClues;
      clue := "";
      for i := 0 to n
        invariant |clue| == i
        invariant forall k :: 0 <= k < i ==> clue[k] in clueLetters
        invariant usedClues == old(usedClues)
      {
        assert w[0] in clueLetters;
        var r := RandInt(0, |clueLetters| - 1);
        clue := clue + [clueLetters[r]];
      }
      if clue in usedClues {
        var all := AllLabels(clueLetters, n);
        AllLabelsComplete(clueLetters, n);
        ghost var j :| 0 <= j < |all| && all[j] == w;
        assert all[j] !in usedClues;
        var k :| 0 <= k < |all| && all[k] !in usedClues;
        clue := all[k];
      }
      usedClues := usedClues + [clue];
    }

    /** Every entry of the heap is marked with the clue; other marks stay. */
    method MarkHeap(heap: seq<int>, clue: string)
      modifies this`replacementClues
      ensures forall m :: m in replacementClues <==> m in old(replacementClues) || m in heap
      ensures forall m :: m in replacementClues ==>
        replacementClues[m] == if m in heap then clue else old(replacementClues)[m]
    {
      for e := 0 to |heap|
        invariant forall m :: m in replacementClues <==> m in old(replacementClues) || m in heap[..e]
        invariant forall m :: m in replacementClues ==>
          replacementClues[m] == if m in heap[..e] then clue else old(replacementClues)[m]
      {
        assert heap[..e + 1] == heap[..e] + [heap[e]];
        replacementClues := replacementClues[heap[e] := clue];
      }
      assert heap[..|heap|] == heap;
    }

    /** The tickets of one digit: a ticket per heap, in order, appended
        to the tickets0 issued before. */
    method AddTickets(key: int, heaps: seq<seq<int>>, tickets0: seq<Ticket>) returns (added: seq<Ticket>)
      modifies this`usedClues, this`replacementClues
      requires heaps != [] ==> clueLength.Some? && DistinctLetters(clueLetters)
      requires heaps != [] ==> |usedClues| + |heaps| <= Pow(|clueLetters|, LabelLength())
      requires Issued(tickets0, usedClues, clueLetters, LabelLength())
      requires Marked(tickets0, replacementClues)
      requires Disjoint(heaps) && forall j :: 0 <= j < |heaps| ==> Apart(tickets0, heaps[j])
      ensures PerHeap(added, heaps, key)
      ensures Issued(tickets0 + added, usedClues, clueLetters, LabelLength())
      ensures Marked(tickets0 + added, replacementClues)
    {
      added := [];
      for h := 0 to |heaps|
        invariant PerHeap(added, heaps[..h], key)
        invariant Issued(tickets0 + added, usedClues, clueLetters, LabelLength())
        invariant Marked(tickets0 + added, replacementClues)
      {
        ApartStep(tickets0, added, heaps, h, key);
        var t := AddTicket(key, heaps[h], tickets0 + added);
        PerHeapStep(added, heaps, h, key, t);
        assert tickets0 + added + [t] == tickets0 + (added + [t]);
        added := added + [t];
      }
      assert heaps[..|heaps|] == heaps;
    }

    /** One ticket: a fresh label for the heap, and every entry of the
        heap marked with it. */
    method AddTicket(key: int, heap: seq<int>, tickets0: seq<Ticket>) returns (t: Ticket)
      modifies this`usedClues, this`replacementClues
      requires clueLength.Some? && DistinctLetters(clueLetters)
      requires |usedClues| < Pow(|clueLetters|, clueLength.value)
      requires Issued(tickets0, usedClues, clueLetters, LabelLength())
      requires Marked(tickets0, replacementClues) && Apart(tickets0, heap)
      ensures t.heap == heap && t.value == key
      ensures Issued(tickets0 + [t], usedClues, clueLetters, LabelLength())
      ensures Marked(tickets0 + [t], replacementClues)
      ensures forall m :: m in replacementClues <==> m in old(replacementClues) || m in heap
      ensures forall m :: m in replacementClues ==>
        replacementClues[m] == if m in heap then t.clue else old(replacementClues)[m]
    {
      FreshLabelExists(clueLetters, clueLength.value, usedClues);
      ghost var used := usedClues;
      var clue := GenerateClue();
      t := Ticket(heap, key, clue);
      IssuedStep(tickets0, used, clueLetters, clueLength.value, t);
      ghost var marks := replacementClues;
      MarkHeap(heap, clue);
      MarkedStep(tickets0, marks, t, replacementClues);
    }

    /** The first loop of allocate_replacements_to_stops: every digit's
        list of markers is shuffled in place and split into heaps. */
    method SplitAll() returns (savedHeaps: map<int, seq<seq<int>>>)
      modifies this`replacements
      requires KeysListed(replacements, replacementKeys)
      requires numberOfStops >= 1 || Total(replacements, replacementKeys) == 0
      ensures forall k :: k in replacements <==> k in old(replacements)
      ensures forall k :: k in replacements ==> multiset(replacements[k]) == multiset(old(replacements)[k])
      ensures forall k :: k in replacements ==> k in savedHeaps && HeapsOf(savedHeaps[k], replacements[k])
      ensures forall k :: k in savedHeaps ==>
        SortedBy(savedHeaps[k], LongerOrEqual) && |savedHeaps[k]| <= HeapCount(numberOfStops)
    {
      var heapCount := HeapCount(numberOfStops);
      savedHeaps := map[];
      for i := 0 to |replacementKeys|
        invariant SplitSoFar(old(replacements), replacements, savedHeaps, replacementKeys[..i], heapCount)
      {
        var key := replacementKeys[i];
        TotalCovers(old(replacements), replacementKeys, key);
        assert |replacements[key]| == |multiset(old(replacements)[key])|;
        ghost var before := replacements;
        var shuffled, heaps := SplitIntoHeaps(replacements[key], heapCount);
        SplitStep(old(replacements), before, savedHeaps, replacementKeys[..i], heapCount, key, shuffled, heaps);
        replacements := replacements[key := shuffled];
        savedHeaps := savedHeaps[key := heaps];
        assert replacementKeys[..i + 1] == replacementKeys[..i] + [key];
      }
      assert replacementKeys[..|replacementKeys|] == replacementKeys;
    }

    /** The second loop: one ticket per heap, digit by digit in key order. */
    method IssueTickets(savedHeaps: map<int, seq<seq<int>>>) returns (tickets: seq<Ticket>)
      modifies this`usedClues, this`replacementClues
      requires KeysListed(replacements, replacementKeys) && Separate(replacements)
      requires forall k :: k in replacements ==> k in savedHeaps && HeapsOf(savedHeaps[k], replacements[k])
      requires usedClues == [] && replacementClues == map[]
      requires Total(replacements, replacementKeys) == 0 ||
        (clueLength.Some? && DistinctLetters(clueLetters) &&
         Total(replacements, replacementKeys) <= Pow(|clueLetters|, LabelLength()))
      ensures |tickets| <= Total(replacements, replacementKeys)
      ensures Issued(tickets, usedClues, clueLetters, LabelLength())
      ensures Marked(tickets, replacementClues)
      ensures TicketsFrom(tickets, replacements)
      ensures Covers(tickets, replacements, replacementKeys)
      ensures forall i, j, m :: 0 <= i < j < |tickets| && m in tickets[i].heap ==> m !in tickets[j].heap
    {
      tickets := [];
      for i := 0 to |replacementKeys|
        invariant |tickets| <= Total(replacements, replacementKeys[..i])
        invariant Issued(tickets, usedClues, clueLetters, LabelLength())
        invariant Marked(tickets, replacementClues)
        invariant TicketsFrom(tickets, replacements)
        invariant Covers(tickets, replacements, replacementKeys[..i])
        invariant ValuesIn(tickets, replacementKeys[..i])
      {
        var key := replacementKeys[i];
        var heaps := savedHeaps[key];
        TotalPrefix(replacements, replacementKeys, i);
        TotalPrefixBound(replacements, replacementKeys, i + 1);
        TicketsApart(replacements, replacementKeys, i, tickets, heaps);
        var added := AddTickets(key, heaps, tickets);
        CoverStep(replacements, replacementKeys, i, tickets, added, heaps);
        tickets := tickets + added;
      }
      assert replacementKeys[..|replacementKeys|] == replacementKeys;
      MarkedApart(tickets, usedClues, clueLetters, LabelLength(), replacementClues);
    }

    /** allocate_replacements_to_stops: heaps, tickets, placement by load,
        sorted listings, shuffled stops and the clue index. Every marker
        of every digit then leads to its digit on its clue's stop. */
    method Allocate()
      modifies this`replacements, this`usedClues, this`replacementClues, this`stops, this`stopForClue
      requires KeysListed(replacements, replacementKeys) && Separate(replacements)
      requires usedClues == [] && replacementClues == map[] && stopForClue == map[]
      requires Total(replacements, replacementKeys) == 0 ||
        (numberOfStops >= 1 && clueLength.Some? && clueLength.value >= 1 && DistinctLetters(clueLetters) &&
         Total(replacements, replacementKeys) <= Pow(|clueLetters|, clueLength.value))
      ensures forall k :: k in replacements <==> k in old(replacements)
      ensures forall k :: k in replacements ==> multiset(replacements[k]) == multiset(old(replacements)[k])
      ensures |stops| == numberOfStops
      ensures forall s :: s in stops ==> SortedBy(s, PairLe)
      ensures forall v, m :: v in replacements && m in replacements[v] ==>
        Locates(replacementClues, stopForClue, stops, m, v)
      ensures forall c, n :: c in stopForClue && Carries(stops, n, c) ==> n == stopForClue[c]
    {
      ghost var reps0 := replacements;
      var savedHeaps := SplitAll();
      SameMembers(reps0, replacements);
      TotalSame(reps0, replacements, replacementKeys);
      var tickets := IssueTickets(savedHeaps);
      assert CluesDistinct(tickets) by {
        forall i, j | 0 <= i < j < |tickets| ensures tickets[i].clue != tickets[j].clue {
          assert tickets[i].clue == usedClues[i] && tickets[j].clue == usedClues[j];
        }
      }
      var stopsTuples, listed, ordered;
      ghost var trace;
      stopsTuples, listed, stops, stopForClue, ordered, trace := Deliver(tickets, numberOfStops);
      AllResolve(replacements, replacementKeys, tickets, usedClues, clueLetters, LabelLength(),
                 replacementClues, stopsTuples, listed, stops, stopForClue);
    }

    /** Whether a sheet equal to this one (by SameSheet) was kept before. */
    method AlreadySeen(sheet: Sheet) returns (seen: bool)
      ensures seen <==> exists k :: 0 <= k < |sheets| && sheets[k].SameSheet(sheet)
    {
      seen := false;
      for k := 0 to |sheets|
        invariant seen <==> exists j :: 0 <= j < k && sheets[j].SameSheet(sheet)
      {
        if sheets[k].SameSheet(sheet) {
          seen := true;
        }
      }
    }

    /** Appends the marker to the digit's list, starting an empty list (and
        a new key at the end of the key order) for a digit not seen yet. */
    method Record(value: int, clue: int)
      modifies this`replacements, this`replacementKeys
      requires KeysListed(replacements, replacementKeys)
      ensures replacements == old(replacements)[value :=
        (if value in old(replacements) then old(replacements)[value] else []) + [clue]]
      ensures replacementKeys ==
        if value in old(replacements) then old(replacementKeys) else old(replacementKeys) + [value]
      ensures KeysListed(replacements, replacementKeys)
      ensures Total(replacements, replacementKeys) == old(Total(replacements, replacementKeys)) + 1
    {
      if value !in replacements {
        TotalOther(replacements, replacementKeys, value, []);
        replacements := replacements[value := []];
        replacementKeys := replacementKeys + [value];
        assert replacementKeys[..|replacementKeys| - 1] == old(replacementKeys);
        NewKeyListed(old(replacementKeys), value);
      }
      TotalAppend(replacements, replacementKeys, value, clue);
      replacements := replacements[value := replacements[value] + [clue]];
    }

    /** The replacement loop of calculate for one sheet: a new marker per
        clue, each recorded under the digit it replaced. */
    method ReplaceCells(sheet: Sheet, clue0: int) returns (clue: int)
      modifies sheet, this`replacements, this`replacementKeys
      requires numberOfCluesPerSheet <= 81 - EmptiedCells && clue0 >= 100
      requires |ZeroCells(sheet.board)| == EmptiedCells && |PlainCells(sheet.board)| == 81 - EmptiedCells
      requires Layout(replacements, clue0, sheet.board, sheet.fullyFilledBoard)
      requires KeysListed(replacements, replacementKeys) && Separate(replacements)
      requires MarkersUpTo(replacements, clue0)
      ensures clue == clue0 + Quota()
      ensures sheet.fullyFilledBoard == old(sheet.fullyFilledBoard)
      ensures Layout(replacements, clue, sheet.board, sheet.fullyFilledBoard)
      ensures |ZeroCells(sheet.board)| == EmptiedCells
      ensures |PlainCells(sheet.board)| == 81 - EmptiedCells - Quota()
      ensures KeysListed(replacements, replacementKeys) && Separate(replacements)
      ensures MarkersUpTo(replacements, clue)
      ensures Keeps(old(replacements), replacements)
      ensures Total(replacements, replacementKeys) == old(Total(replacements, replacementKeys)) + Quota()
    {
      clue := clue0;
      var c := 0;
      while c < numberOfCluesPerSheet
        invariant 0 <= c <= Quota() && clue == clue0 + c
        invariant sheet.fullyFilledBoard == old(sheet.fullyFilledBoard)
        invariant Layout(replacements, clue, sheet.board, sheet.fullyFilledBoard)
        invariant |ZeroCells(sheet.board)| == EmptiedCells
        invariant |PlainCells(sheet.board)| == 81 - EmptiedCells - c
        invariant KeysListed(replacements, replacementKeys) && Separate(replacements)
        invariant MarkersUpTo(replacements, clue)
        invariant Keeps(old(replacements), replacements)
        invariant Total(replacements, replacementKeys) == old(Total(replacements, replacementKeys)) + c
      {
        clue := clue + 1;
        PlainCellExists(sheet.board);
        ghost var b := sheet.board;
        ghost var reps := replacements;
        var value;
        ghost var p;
        value, p := sheet.ReplaceBy(clue);
        PlainCellsStep(b, p, clue);
        ZeroCellsKeep(b, p, clue);
        Record(value, clue);
        FreshMarker(reps, replacements, value, clue);
        KeepsTransitive(old(replacements), reps, replacements);
        LayoutReplace(reps, replacements, clue, b, sheet.fullyFilledBoard, p);
        c := c + 1;
      }
    }

    /** Marker m on a sheet resolves, through the replacement of the
        generator, to the pair (its clue, v) on its clue's stop. */
    ghost predicate Resolves(m: int, v: int)
      reads this
    {
      && replacement.Some?
      && var rep := replacement.value;
      && rep.GetClue(m).Some? && rep.GetStop(m).Some?
      && 0 <= rep.GetStop(m).value < |stops|
      && (rep.GetClue(m).value, v) in stops[rep.GetStop(m).value]
    }

    /** The boards and the fully filled boards of the sheets made so far. */
    ghost function Boards(): (r: seq<seq<int>>)
      reads this`sheets, sheets
      ensures |r| == |sheets| && forall k :: 0 <= k < |sheets| ==> r[k] == sheets[k].board
    {
      var ss := sheets;
      seq(|ss|, k reads ss requires 0 <= k < |ss| => ss[k].board)
    }

    ghost function Fulls(): (r: seq<seq<int>>)
      reads this`sheets, sheets
      ensures |r| == |sheets| && forall k :: 0 <= k < |sheets| ==> r[k] == sheets[k].fullyFilledBoard
    {
      var ss := sheets;
      seq(|ss|, k reads ss requires 0 <= k < |ss| => ss[k].fullyFilledBoard)
    }

    /** What calculate keeps while it makes sheets, clue being the last
        marker handed out. */
    ghost predicate Prepared(clue: int)
      reads this, sheets
    {
      && clue >= 100
      && KeysListed(replacements, replacementKeys) && Separate(replacements)
      && MarkersUpTo(replacements, clue)
      && Total(replacements, replacementKeys) == |sheets| * Quota()
      && Ready(replacements, clue, Quota(), Boards(), Fulls())
    }

    /** The body of calculate's loop for a sheet not seen before: it is
        appended, ten of its cells are emptied and its markers placed. */
    method Accept(sheet: Sheet, clue0: int) returns (clue: int)
      modifies sheet, this`sheets, this`replacements, this`replacementKeys
      requires sheet !in sheets && Solved(sheet.board) && sheet.fullyFilledBoard == sheet.board
      requires sheet.fullyFilledBoard !in Fulls()
      requires numberOfCluesPerSheet <= 81 - EmptiedCells
      requires Prepared(clue0)
      ensures sheets == old(sheets) + [sheet]
      ensures clue == clue0 + Quota()
      ensures Prepared(clue)
    {
      ghost var boards, fulls := Boards(), Fulls();
      ghost var reps := replacements;
      sheets := sheets + [sheet];
      Blank(sheet);
      BlankLayout(replacements, clue0, sheet.board, sheet.fullyFilledBoard);
      clue := ReplaceCells(sheet, clue0);
      ReadyStep(reps, replacements, clue0, clue, Quota(), boards, fulls, sheet.board, sheet.fullyFilledBoard);
      forall k | 0 <= k < |boards| ensures sheets[k].board == boards[k] {
        assert sheets[k] == old(sheets)[k];
        assert sheets[k] != sheet;
      }
      forall k | 0 <= k < |boards| ensures sheets[k].fullyFilledBoard == fulls[k] {
        assert sheets[k] == old(sheets)[k];
        assert sheets[k] != sheet;
      }
      assert Boards() == boards + [sheet.board];
      assert Fulls() == fulls + [sheet.fullyFilledBoard];
      MulSucc(|boards|, Quota());
    }

    /** calculate: new sheets, each unseen one emptied in ten cells and
        given its markers, then the allocation and the replacement. The
        sheets differ, each has ten zeros and its quota of markers, every
        other cell keeps its digit, and every marker resolves to the digit
        it replaced. */
    method Calculate()
      modifies this
      requires Unstarted()
      requires numberOfCluesPerSheet <= 81 - EmptiedCells
      requires clueLength.Some? ==>
        1 <= clueLength.value && Pow(|clueLetters|, clueLength.value) > numberOfSheets * numberOfCluesPerSheet
      requires numberOfSheets <= 0 || numberOfCluesPerSheet <= 0 ||
        (numberOfStops >= 1 && clueLength.Some? && DistinctLetters(clueLetters))
      ensures |sheets| <= if numberOfSheets > 0 then numberOfSheets else 0
      ensures numberOfSheets >= 1 ==> |sheets| >= 1
      ensures forall a, b :: 0 <= a < b < |sheets| ==> !sheets[a].SameSheet(sheets[b])
      ensures forall s :: s in sheets ==>
        && |s.board| == 81 && |s.fullyFilledBoard| == 81 && Solved(s.fullyFilledBoard)
        && |ZeroCells(s.board)| == EmptiedCells
        && |PlainCells(s.board)| == 81 - EmptiedCells - Quota()
        && forall i :: 0 <= i < 81 && s.board[i] != 0 ==>
             s.board[i] == s.fullyFilledBoard[i] ||
             (s.board[i] > 100 && Resolves(s.board[i], s.fullyFilledBoard[i]))
      ensures replacement == Some(Replacement(replacementClues, stopForClue))
      ensures |stops| == numberOfStops
    {
      var clue := MakeSheets();
      ghost var reps := replacements;
      ghost var total := Total(replacements, replacementKeys);
      if total > 0 {
        assert Quota() == numberOfCluesPerSheet && 1 <= |sheets| <= numberOfSheets;
        MulLe(|sheets|, numberOfSheets, Quota());
        assert total <= numberOfSheets * numberOfCluesPerSheet;
      }
      Allocate();
      replacement := Some(Replacement(replacementClues, stopForClue));
      SheetsResolve(reps, clue);
    }

    /** The loop of calculate: number_of_sheets new sheets, each kept
        only when its fully filled board is new. */
    method MakeSheets() returns (clue: int)
      modifies this`sheets, this`replacements, this`replacementKeys
      requires Unstarted()
      requires numberOfCluesPerSheet <= 81 - EmptiedCells
      ensures |sheets| <= if numberOfSheets > 0 then numberOfSheets else 0
      ensures numberOfSheets >= 1 ==> |sheets| >= 1
      ensures Prepared(clue)
    {
      clue := 100;
      var i := 0;
      while i < numberOfSheets
        invariant 0 <= i && |sheets| <= i
        invariant i == 0 ==> sheets == []
        invariant i >= 1 ==> |sheets| >= 1
        invariant numberOfSheets > 0 ==> i <= numberOfSheets
        invariant numberOfSheets <= 0 ==> i == 0
        invariant Prepared(clue)
      {
        var sheet := new Sheet();
        var seen := AlreadySeen(sheet);
        if !seen {
          forall k | 0 <= k < |sheets| ensures Fulls()[k] != sheet.fullyFilledBoard {
            assert !sheets[k].SameSheet(sheet);
          }
          clue := Accept(sheet, clue);
        }
        i := i + 1;
      }
    }

    /** The sheets after the allocation: the ensures of calculate. */
    lemma SheetsResolve(reps: map<int, seq<int>>, clue: int)
      requires replacement == Some(Replacement(replacementClues, stopForClue))
      requires forall k :: k in replacements <==> k in reps
      requires forall k :: k in replacements ==> multiset(replacements[k]) == multiset(reps[k])
      requires forall v, m :: v in replacements && m in replacements[v] ==>
        Locates(replacementClues, stopForClue, stops, m, v)
      requires Ready(reps, clue, Quota(), Boards(), Fulls())
      ensures forall a, b :: 0 <= a < b < |sheets| ==> !sheets[a].SameSheet(sheets[b])
      ensures forall s :: s in sheets ==>
        && |s.board| == 81 && |s.fullyFilledBoard| == 81 && Solved(s.fullyFilledBoard)
        && |ZeroCells(s.board)| == EmptiedCells
        && |PlainCells(s.board)| == 81 - EmptiedCells - Quota()
        && forall i :: 0 <= i < 81 && s.board[i] != 0 ==>
             s.board[i] == s.fullyFilledBoard[i] ||
             (s.board[i] > 100 && Resolves(s.board[i], s.fullyFilledBoard[i]))
    {
      var boards, fulls := Boards(), Fulls();
      CellsResolve(reps, clue, boards, fulls);
      forall a, b | 0 <= a < b < |sheets| ensures !sheets[a].SameSheet(sheets[b]) {
        assert fulls[a] != fulls[b];
      }
      forall s | s in sheets
        ensures && |s.board| == 81 && |s.fullyFilledBoard| == 81 && Solved(s.fullyFilledBoard)
                && |ZeroCells(s.board)| == EmptiedCells
                && |PlainCells(s.board)| == 81 - EmptiedCells - Quota()
                && forall i :: 0 <= i < 81 && s.board[i] != 0 ==>
                     s.board[i] == s.fullyFilledBoard[i] ||
                     (s.board[i] > 100 && Resolves(s.board[i], s.fullyFilledBoard[i]))
      {
        var k :| 0 <= k < |sheets| && sheets[k] == s;
        assert s.board == boards[k] && s.fullyFilledBoard == fulls[k];
        assert Layout(reps, clue, boards[k], fulls[k]);
      }
    }

    /** After the allocation, every marker cell of a prepared board
        resolves to the digit it replaced. */
    lemma CellsResolve(reps: map<int, seq<int>>, clue: int, boards: seq<seq<int>>, fulls: seq<seq<int>>)
      requires replacement == Some(Replacement(replacementClues, stopForClue))
      requires forall k :: k in replacements <==> k in reps
      requires forall k :: k in replacements ==> multiset(replacements[k]) == multiset(reps[k])
      requires forall v, m :: v in replacements && m in replacements[v] ==>
        Locates(replacementClues, stopForClue, stops, m, v)
      requires Ready(reps, clue, Quota(), boards, fulls)
      ensures forall k, j :: 0 <= k < |boards| && 0 <= j < 81 && boards[k][j] != 0 ==>
        boards[k][j] == fulls[k][j] || (boards[k][j] > 100 && Resolves(boards[k][j], fulls[k][j]))
    {
      forall k, j | 0 <= k < |boards| && 0 <= j < 81 && boards[k][j] != 0
        ensures boards[k][j] == fulls[k][j] || (boards[k][j] > 100 && Resolves(boards[k][j], fulls[k][j]))
      {
        assert Layout(reps, clue, boards[k], fulls[k]);
        assert CellOk(reps, clue, boards[k][j], fulls[k][j]);
        if boards[k][j] != fulls[k][j] {
          var v, m := fulls[k][j], boards[k][j];
          assert m in multiset(reps[v]);
          assert m in replacements[v];
          assert Locates(replacementClues, stopForClue, stops, m, v);
        }
      }
    }
  }
}
