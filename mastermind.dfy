/** The Mastermind engine: scoring a clue line against the secret line,
    counting the candidate lines left by a list of clue lines, and
    building a sheet by greedily adding random clue lines until one
    candidate remains. The model follows the code as written: the white
    count is not multiset-consuming, and the exact filter keeps every
    candidate (see the lemmas at the end of the module). */
module Mastermind {
  import opened Common

  /** The parameters the engine reads: --columns, --colors and --stops. */
  datatype Config = Config(columns: nat, colors: nat, stops: nat)

  /** A line of colours; entry i is the colour of column i. */
  type Code = seq<int>

  /** (number of blacks, number of whites). */
  datatype Score = Score(black: nat, white: nat)

  /** What `combinations` returns: the count, or the NoCombinationsLeft exception. */
  datatype Counted = Count(n: nat) | NoCombinationsLeft

  /** A sheet: the secret line and the clue lines shown at the stops. */
  datatype Sheet = Sheet(correct: Code, clueLines: seq<Code>)

  /** What building a sheet ends in. DrawsExhausted stands for the source
      still drawing random lines when the model's draw budget ends. */
  datatype Outcome = Built(sheet: Sheet, solvedAt: nat) | TooManyClues | DrawsExhausted

  ghost predicate IsCode(cfg: Config, c: Code)
  {
    |c| == cfg.columns && forall i :: 0 <= i < |c| ==> 1 <= c[i] <= cfg.colors
  }

  /** Every clue line has at least the configured number of columns. */
  ghost predicate WellFormed(cfg: Config, clues: seq<Code>)
  {
    forall k :: 0 <= k < |clues| ==> |clues[k]| >= cfg.columns
  }

  // ---------------------------------------------------------------------
  // random_line

  /** random_line: one random colour in 1..colors per column. */
  method RandomLine(cfg: Config) returns (line: Code)
    requires cfg.columns > 0 ==> cfg.colors >= 1
    ensures IsCode(cfg, line)
  {
    line := [];
    for c := 0 to cfg.columns
      invariant |line| == c
      invariant forall i :: 0 <= i < c ==> 1 <= line[i] <= cfg.colors
    {
      var x := RandInt(1, cfg.colors);
      line := line + [x];
    }
  }

  // ---------------------------------------------------------------------
  // answer

  /** The columns where the clue line has the secret's colour. */
  ghost function BlackPositions(n: nat, correct: Code, clue: Code): set<int>
    requires n <= |correct| && n <= |clue|
  {
    set i | 0 <= i < n && correct[i] == clue[i]
  }

  /** Colour x appears in the clue line at some index other than i. */
  ghost predicate OccursElsewhere(clue: Code, i: int, x: int)
  {
    exists j :: 0 <= j < |clue| && j != i && clue[j] == x
  }

  /** The columns whose secret colour appears anywhere else in the clue line. */
  ghost function WhitePositions(n: nat, correct: Code, clue: Code): set<int>
    requires n <= |correct| && n <= |clue|
  {
    set i | 0 <= i < n && OccursElsewhere(clue, i, correct[i])
  }

  ghost function ScoreOf(n: nat, correct: Code, clue: Code): Score
    requires n <= |correct| && n <= |clue|
  {
    Score(|BlackPositions(n, correct, clue)|, |WhitePositions(n, correct, clue)|)
  }

  lemma ElsewhereIff(clue: Code, i: int, x: int)
    requires 0 <= i < |clue|
    ensures x in clue[..i] + clue[i + 1..] <==> OccursElsewhere(clue, i, x)
  {
    if x in clue[..i] + clue[i + 1..] {
      var k :| 0 <= k < |clue[..i] + clue[i + 1..]| && (clue[..i] + clue[i + 1..])[k] == x;
      if k < i {
        assert clue[k] == x;
      } else {
        assert clue[k + 1] == x;
      }
    }
    if OccursElsewhere(clue, i, x) {
      var j :| 0 <= j < |clue| && j != i && clue[j] == x;
      if j < i {
        assert (clue[..i] + clue[i + 1..])[j] == x;
      } else {
        assert (clue[..i] + clue[i + 1..])[j - 1] == x;
      }
    }
  }

  lemma BlackStep(i: nat, correct: Code, clue: Code)
    requires i < |correct| && i < |clue|
    ensures |BlackPositions(i + 1, correct, clue)|
         == |BlackPositions(i, correct, clue)| + (if correct[i] == clue[i] then 1 else 0)
  {
    var before, after := BlackPositions(i, correct, clue), BlackPositions(i + 1, correct, clue);
    assert i !in before;
    if correct[i] == clue[i] {
      assert after == before + {i};
    } else {
      assert after == before;
    }
  }

  lemma WhiteStep(i: nat, correct: Code, clue: Code)
    requires i < |correct| && i < |clue|
    ensures |WhitePositions(i + 1, correct, clue)|
         == |WhitePositions(i, correct, clue)| + (if OccursElsewhere(clue, i, correct[i]) then 1 else 0)
  {
    var before, after := WhitePositions(i, correct, clue), WhitePositions(i + 1, correct, clue);
    var extra := if OccursElsewhere(clue, i, correct[i]) then {i} else {};
    assert i !in before;
    forall j ensures j in after <==> j in before + extra {
      if 0 <= j < i + 1 {
        assert j in after <==> OccursElsewhere(clue, j, correct[j]);
      }
    }
    assert after == before + extra;
  }

  /** Sheet.answer(clue_line, correct): the score of the clue line against
      the given secret, over the first `columns` columns. */
  method Answer(cfg: Config, clueLine: Code, correct: Code) returns (s: Score)
    requires cfg.columns <= |correct| && cfg.columns <= |clueLine|
    ensures s == ScoreOf(cfg.columns, correct, clueLine)
  {
    var countBlack := 0;
    for i := 0 to cfg.columns
      invariant countBlack == |BlackPositions(i, correct, clueLine)|
    {
      BlackStep(i, correct, clueLine);
      if correct[i] == clueLine[i] {
        countBlack := countBlack + 1;
      }
    }
    var countWhite := 0;
    for i := 0 to cfg.columns
      invariant countWhite == |WhitePositions(i, correct, clueLine)|
    {
      WhiteStep(i, correct, clueLine);
      ElsewhereIff(clueLine, i, correct[i]);
      if correct[i] in clueLine[..i] + clueLine[i + 1..] {
        countWhite := countWhite + 1;
      }
    }
    s := Score(countBlack, countWhite);
  }

  // ---------------------------------------------------------------------
  // combinations: domain reduction

  /** The colours of the first j columns of a line. */
  ghost function ColoursUpTo(clue: Code, j: nat): set<int>
    requires j <= |clue|
  {
    set k | 0 <= k < j :: clue[k]
  }

  /** Every column starts with every colour 1..colors. */
  ghost function InitialDomains(cfg: Config): (d: seq<set<int>>)
    ensures |d| == cfg.columns
  {
    seq(cfg.columns, _ => Range(1, cfg.colors))
  }

  /** The effect of one clue line on the per-column domains: a (0, 0)
      clue removes all its colours from every column, a (0, w) clue with
      w > 0 removes the colour of each column from that column only, and
      a clue with a black changes nothing. */
  ghost function Reduce(cfg: Config, correct: Code, doms: seq<set<int>>, clue: Code): (r: seq<set<int>>)
    requires |doms| == cfg.columns <= |correct| && cfg.columns <= |clue|
    ensures |r| == |doms|
  {
    var s := ScoreOf(cfg.columns, correct, clue);
    if s.black == 0 && s.white == 0 then
      seq(|doms|, i requires 0 <= i < |doms| => doms[i] - ColoursUpTo(clue, cfg.columns))
    else if s.black == 0 then
      seq(|doms|, i requires 0 <= i < |doms| => doms[i] - {clue[i]})
    else
      doms
  }

  /** The domains after all clue lines, applied in order. */
  ghost function Domains(cfg: Config, correct: Code, clues: seq<Code>): (d: seq<set<int>>)
    requires |correct| >= cfg.columns && WellFormed(cfg, clues)
    ensures |d| == cfg.columns
    decreases |clues|
  {
    if clues == [] then InitialDomains(cfg)
    else
      var front := clues[..|clues| - 1];
      assert WellFormed(cfg, front);
      Reduce(cfg, correct, Domains(cfg, correct, front), clues[|clues| - 1])
  }

  /** The number of lines whose entry c lies in domain c. */
  ghost function ProductSize(ds: seq<set<int>>): nat
  {
    if ds == [] then 1 else ProductSize(ds[..|ds| - 1]) * |ds[|ds| - 1]|
  }

  /** The value `combinations` returns (when it does not raise). */
  ghost function CandidateCount(cfg: Config, correct: Code, clues: seq<Code>): nat
    requires |correct| >= cfg.columns && WellFormed(cfg, clues)
  {
    ProductSize(Domains(cfg, correct, clues))
  }

  lemma DomainsStep(cfg: Config, correct: Code, clues: seq<Code>, k: nat)
    requires |correct| >= cfg.columns && WellFormed(cfg, clues) && k < |clues|
    ensures WellFormed(cfg, clues[..k]) && WellFormed(cfg, clues[..k + 1])
    ensures Domains(cfg, correct, clues[..k + 1])
         == Reduce(cfg, correct, Domains(cfg, correct, clues[..k]), clues[k])
  {
    assert clues[..k + 1][..k] == clues[..k];
  }

  /** The domain-reduction loop of `combinations`, removing colours from
      the per-column sets one at a time. */
  method ReduceDomains(cfg: Config, correct: Code, clueLines: seq<Code>) returns (reduced: seq<set<int>>)
    requires |correct| >= cfg.columns && WellFormed(cfg, clueLines)
    ensures reduced == Domains(cfg, correct, clueLines)
  {
    reduced := seq(cfg.columns, _ => Range(1, cfg.colors));
    assert clueLines[..0] == [];
    for k := 0 to |clueLines|
      invariant WellFormed(cfg, clueLines[..k])
      invariant reduced == Domains(cfg, correct, clueLines[..k])
    {
      DomainsStep(cfg, correct, clueLines, k);
      ghost var d := reduced;
      var clue := clueLines[k];
      var s := Answer(cfg, clue, correct);
      if s.black == 0 && s.white == 0 {
        for i := 0 to cfg.columns
          invariant |reduced| == cfg.columns
          invariant forall i' :: 0 <= i' < i ==> reduced[i'] == d[i'] - ColoursUpTo(clue, cfg.columns)
          invariant forall i' :: i <= i' < cfg.columns ==> reduced[i'] == d[i']
        {
          ghost var before := reduced;
          for j := 0 to cfg.columns
            invariant |reduced| == cfg.columns
            invariant reduced[i] == d[i] - ColoursUpTo(clue, j)
            invariant forall i' :: 0 <= i' < cfg.columns && i' != i ==> reduced[i'] == before[i']
          {
            assert ColoursUpTo(clue, j + 1) == ColoursUpTo(clue, j) + {clue[j]};
            if clue[j] in reduced[i] {
              reduced := reduced[i := reduced[i] - {clue[j]}];
            }
          }
        }
      } else if s.black == 0 {
        for i := 0 to cfg.columns
          invariant |reduced| == cfg.columns
          invariant forall i' :: 0 <= i' < i ==> reduced[i'] == d[i'] - {clue[i']}
          invariant forall i' :: i <= i' < cfg.columns ==> reduced[i'] == d[i']
        {
          if clue[i] in reduced[i] {
            reduced := reduced[i := reduced[i] - {clue[i]}];
          }
        }
      }
    }
    assert clueLines[..|clueLines|] == clueLines;
  }

  // ---------------------------------------------------------------------
  // combinations: the Cartesian product and the filter

  /** Line q has one entry per domain, each inside its domain. */
  ghost predicate InProduct(q: Code, ds: seq<set<int>>)
  {
    |q| == |ds| && forall k :: 0 <= k < |q| ==> q[k] in ds[k]
  }

  ghost predicate Distinct<T>(s: seq<T>)
  {
    forall i, j :: 0 <= i < j < |s| ==> s[i] != s[j]
  }

  /** Every earlier combination, extended by colour x. */
  ghost function Extended(olds: seq<Code>, x: int): (r: seq<Code>)
    ensures |r| == |olds|
  {
    seq(|olds|, i requires 0 <= i < |olds| => olds[i] + [x])
  }

  /** Appends every earlier combination, extended by colour x, to combs. */
  method AppendExtended(combs: seq<Code>, olds: seq<Code>, x: int) returns (r: seq<Code>)
    ensures r == combs + Extended(olds, x)
  {
    r := combs;
    for j := 0 to |olds|
      invariant r == combs + Extended(olds[..j], x)
    {
      assert olds[..j + 1][..j] == olds[..j];
      r := r + [olds[j] + [x]];
    }
    assert olds[..|olds|] == olds;
  }

  /** After the colours in `done` have been added to column c, `combs`
      holds exactly the earlier combinations extended by those colours,
      each once. */
  ghost predicate ColumnSoFar(combs: seq<Code>, olds: seq<Code>, done: set<int>, c: nat)
  {
    && (forall q :: q in combs ==> |q| == c + 1 && q[..c] in olds && q[c] in done)
    && (forall p, y :: p in olds && y in done ==> p + [y] in combs)
    && Distinct(combs)
  }

  lemma ExtendStep(combs: seq<Code>, olds: seq<Code>, x: int, c: nat, done: set<int>)
    requires ColumnSoFar(combs, olds, done, c) && x !in done
    requires Distinct(olds) && forall p :: p in olds ==> |p| == c
    ensures ColumnSoFar(combs + Extended(olds, x), olds, done + {x}, c)
  {
    ExtendSound(combs, olds, x, c, done);
    ExtendComplete(combs, olds, x, c, done);
    ExtendDistinct(combs, olds, x, c, done);
  }

  lemma ExtendSound(combs: seq<Code>, olds: seq<Code>, x: int, c: nat, done: set<int>)
    requires forall q :: q in combs ==> |q| == c + 1 && q[..c] in olds && q[c] in done
    requires forall p :: p in olds ==> |p| == c
    ensures forall q :: q in combs + Extended(olds, x) ==> |q| == c + 1 && q[..c] in olds && q[c] in done + {x}
  {
    var r := combs + Extended(olds, x);
    forall q | q in r ensures |q| == c + 1 && q[..c] in olds && q[c] in done + {x} {
      var k :| 0 <= k < |r| && r[k] == q;
      if k >= |combs| {
        assert q == olds[k - |combs|] + [x];
        assert q[..c] == olds[k - |combs|];
      } else {
        assert q in combs;
      }
    }
  }

  lemma ExtendComplete(combs: seq<Code>, olds: seq<Code>, x: int, c: nat, done: set<int>)
    requires forall p, y :: p in olds && y in done ==> p + [y] in combs
    ensures forall p, y :: p in olds && y in done + {x} ==> p + [y] in combs + Extended(olds, x)
  {
    var r := combs + Extended(olds, x);
    forall p, y | p in olds && y in done + {x} ensures p + [y] in r {
      if y == x {
        var k :| 0 <= k < |olds| && olds[k] == p;
        assert r[|combs| + k] == p + [x];
      } else {
        assert p + [y] in combs;
      }
    }
  }

  lemma ExtendDistinct(combs: seq<Code>, olds: seq<Code>, x: int, c: nat, done: set<int>)
    requires forall q :: q in combs ==> |q| == c + 1 && q[c] in done
    requires Distinct(combs) && x !in done
    requires Distinct(olds) && forall p :: p in olds ==> |p| == c
    ensures Distinct(combs + Extended(olds, x))
  {
    var r := combs + Extended(olds, x);
    forall i, j | 0 <= i < j < |r| ensures r[i] != r[j] {
      if j >= |combs| {
        var j' := j - |combs|;
        assert r[j] == olds[j'] + [x] && r[j][c] == x;
        if i < |combs| {
          assert r[i] in combs;
        } else {
          var i' := i - |combs|;
          assert r[i] == olds[i'] + [x];
          assert r[i][..c] == olds[i'] && r[j][..c] == olds[j'];
        }
      }
    }
  }

  lemma ProductSizeStep(ds: seq<set<int>>, c: nat)
    requires c < |ds|
    ensures ProductSize(ds[..c + 1]) == ProductSize(ds[..c]) * |ds[c]|
  {
    assert ds[..c + 1][..c] == ds[..c];
  }

  /** One single-colour combination per colour left in the first column. */
  method FirstColumn(d: set<int>) returns (combs: seq<Code>)
    ensures |combs| == |d|
    ensures ColumnSoFar(combs, [[]], d, 0)
  {
    combs := [];
    var rest := d;
    ghost var done: set<int> := {};
    while rest != {}
      invariant rest + done == d && rest !! done
      invariant |combs| == |done|
      invariant ColumnSoFar(combs, [[]], done, 0)
      decreases rest
    {
      var x := Pick(rest);
      assert x !in done && |done + {x}| == |done| + 1;
      ExtendStep(combs, [[]], x, 0, done);
      assert Extended([[]], x) == [[x]];
      combs := combs + [[x]];
      rest := rest - {x};
      done := done + {x};
    }
  }

  lemma MulSucc(a: nat, b: nat)
    ensures a * (b + 1) == a * b + a
  {
  }

  /** One round of the column loop: every earlier combination extended by
      every colour of the next domain. */
  method AddColumn(olds: seq<Code>, d: set<int>, ghost c: nat) returns (combs: seq<Code>)
    requires forall p :: p in olds ==> |p| == c
    requires Distinct(olds)
    ensures |combs| == |olds| * |d|
    ensures ColumnSoFar(combs, olds, d, c)
  {
    combs := [];
    var rest := d;
    ghost var done: set<int> := {};
    while rest != {}
      invariant rest + done == d && rest !! done
      invariant |combs| == |olds| * |done|
      invariant ColumnSoFar(combs, olds, done, c)
      decreases rest
    {
      var x := Pick(rest);
      assert x !in done && |done + {x}| == |done| + 1;
      ExtendStep(combs, olds, x, c, done);
      combs := AppendExtended(combs, olds, x);
      MulSucc(|olds|, |done|);
      rest := rest - {x};
      done := done + {x};
    }
  }

  lemma ProductStart(combs: seq<Code>, domains: seq<set<int>>)
    requires |domains| >= 1 && ColumnSoFar(combs, [[]], domains[0], 0)
    ensures forall q :: q in combs ==> InProduct(q, domains[..1])
    ensures forall q :: InProduct(q, domains[..1]) ==> q in combs
  {
    forall q | q in combs ensures InProduct(q, domains[..1]) {
      assert q[0] in domains[0];
    }
    forall q | InProduct(q, domains[..1]) ensures q in combs {
      var e: Code, y := [], q[0];
      assert e in [[]] && y in domains[0];
      assert e + [y] in combs;
      assert q == e + [y];
    }
  }

  lemma ProductStep(olds: seq<Code>, combs: seq<Code>, domains: seq<set<int>>, c: nat)
    requires c < |domains| && ColumnSoFar(combs, olds, domains[c], c)
    requires forall q :: q in olds ==> InProduct(q, domains[..c])
    requires forall q :: InProduct(q, domains[..c]) ==> q in olds
    ensures forall q :: q in combs ==> InProduct(q, domains[..c + 1])
    ensures forall q :: InProduct(q, domains[..c + 1]) ==> q in combs
  {
    forall q | q in combs ensures InProduct(q, domains[..c + 1]) {
      assert InProduct(q[..c], domains[..c]);
      forall k | 0 <= k < c ensures q[k] in domains[k] {
        assert q[..c][k] == q[k];
      }
    }
    forall q | InProduct(q, domains[..c + 1]) ensures q in combs {
      var p, y := q[..c], q[c];
      assert InProduct(p, domains[..c]);
      assert p in olds && y in domains[c];
      assert p + [y] in combs;
      assert q == p + [y];
    }
  }

  /** The product loop of `combinations`: the Cartesian product of the
      per-column domains, built column by column. Iterating over a set
      visits its elements in an unspecified order. */
  method CartesianProduct(domains: seq<set<int>>) returns (combs: seq<Code>)
    requires |domains| >= 1
    ensures |combs| == ProductSize(domains)
    ensures forall q :: q in combs ==> InProduct(q, domains)
    ensures forall q :: InProduct(q, domains) ==> q in combs
    ensures Distinct(combs)
  {
    combs := FirstColumn(domains[0]);
    ProductStart(combs, domains);
    for c := 1 to |domains|
      invariant |combs| == ProductSize(domains[..c])
      invariant forall q :: q in combs ==> InProduct(q, domains[..c])
      invariant forall q :: InProduct(q, domains[..c]) ==> q in combs
      invariant Distinct(combs)
    {
      var olds := combs;
      combs := AddColumn(olds, domains[c], c);
      ProductSizeStep(domains, c);
      ProductStep(olds, combs, domains, c);
    }
    assert domains[..|domains|] == domains;
  }

  /** Sheet.combinations(clue_lines): reduces the domains, builds their
      Cartesian product and then filters it. The `continue` in the filter
      only leaves the inner loop, so every candidate is kept; the count
      is the product of the domain sizes, or NoCombinationsLeft when that
      product is 0. An empty column list makes the source fail with an
      IndexError, hence columns >= 1. */
  method Combinations(cfg: Config, correct: Code, clueLines: seq<Code>) returns (r: Counted)
    requires cfg.columns >= 1 && |correct| >= cfg.columns && WellFormed(cfg, clueLines)
    ensures r == if CandidateCount(cfg, correct, clueLines) == 0 then NoCombinationsLeft
                 else Count(CandidateCount(cfg, correct, clueLines))
  {
    var reduced := ReduceDomains(cfg, correct, clueLines);
    var combinations := CartesianProduct(reduced);
    var validCombinations := [];
    for k := 0 to |combinations|
      invariant validCombinations == combinations[..k]
    {
      var comb := combinations[k];
      assert comb in combinations;
      for l := 0 to |clueLines| {
        var mine := Answer(cfg, clueLines[l], comb);
        var theirs := Answer(cfg, clueLines[l], correct);
        if mine != theirs {
          continue;
        }
      }
      validCombinations := validCombinations + [comb];
    }
    assert combinations[..|combinations|] == combinations;
    if |validCombinations| == 0 {
      return NoCombinationsLeft;
    }
    return Count(|validCombinations|);
  }

  // ---------------------------------------------------------------------
  // Properties of the score

  /** The blacks and whites, counted column by column; the form the
      concrete examples below are evaluated with. */
  ghost function BlackTally(n: nat, correct: Code, clue: Code): nat
    requires n <= |correct| && n <= |clue|
  {
    if n == 0 then 0
    else BlackTally(n - 1, correct, clue) + (if correct[n - 1] == clue[n - 1] then 1 else 0)
  }

  ghost function WhiteTally(n: nat, correct: Code, clue: Code): nat
    requires n <= |correct| && n <= |clue|
  {
    if n == 0 then 0
    else
      WhiteTally(n - 1, correct, clue)
      + (if ElsewhereBefore(clue, n - 1, correct[n - 1], |clue|) then 1 else 0)
  }

  /** Colour x is at some index below j other than i. */
  ghost function ElsewhereBefore(clue: Code, i: int, x: int, j: nat): bool
    requires j <= |clue|
  {
    j > 0 && ((j - 1 != i && clue[j - 1] == x) || ElsewhereBefore(clue, i, x, j - 1))
  }

  lemma {:induction false} ElsewhereBeforeIff(clue: Code, i: int, x: int, j: nat)
    requires j <= |clue|
    ensures ElsewhereBefore(clue, i, x, j) <==> exists k :: 0 <= k < j && k != i && clue[k] == x
  {
    if j > 0 {
      ElsewhereBeforeIff(clue, i, x, j - 1);
    }
  }

  lemma {:induction false} ScoreByTally(n: nat, correct: Code, clue: Code)
    requires n <= |correct| && n <= |clue|
    ensures ScoreOf(n, correct, clue) == Score(BlackTally(n, correct, clue), WhiteTally(n, correct, clue))
  {
    if n == 0 {
      assert BlackPositions(0, correct, clue) == {};
      assert WhitePositions(0, correct, clue) == {};
    } else {
      ScoreByTally(n - 1, correct, clue);
      BlackStep(n - 1, correct, clue);
      WhiteStep(n - 1, correct, clue);
      ElsewhereBeforeIff(clue, n - 1, correct[n - 1], |clue|);
    }
  }

  /** Both counts lie in 0..columns. */
  lemma ScoreBounds(n: nat, correct: Code, clue: Code)
    requires n <= |correct| && n <= |clue|
    ensures ScoreOf(n, correct, clue).black <= n && ScoreOf(n, correct, clue).white <= n
  {
    SubsetSize(BlackPositions(n, correct, clue), Range(0, n - 1));
    SubsetSize(WhitePositions(n, correct, clue), Range(0, n - 1));
    RangeSize(0, n - 1);
  }

  /** The black count does not depend on which line is the secret. */
  lemma BlackSymmetric(n: nat, a: Code, b: Code)
    requires n <= |a| && n <= |b|
    ensures ScoreOf(n, a, b).black == ScoreOf(n, b, a).black
  {
    assert BlackPositions(n, a, b) == BlackPositions(n, b, a);
  }

  /** The black-count examples of the test file for the secret
      [1, 2, 3, 4]. */
  lemma {:induction false} AnswerBlackExamples()
    ensures ScoreOf(4, [1, 2, 3, 4], [1, 2, 3, 4]) == Score(4, 0)
    ensures ScoreOf(4, [1, 2, 3, 4], [1, 2, 3, 5]) == Score(3, 0)
    ensures ScoreOf(4, [1, 2, 3, 4], [1, 2, 5, 5]) == Score(2, 0)
    ensures ScoreOf(4, [1, 2, 3, 4], [1, 5, 5, 5]) == Score(1, 0)
    ensures ScoreOf(4, [1, 2, 3, 4], [5, 6, 7, 8]) == Score(0, 0)
    ensures ScoreOf(4, [1, 2, 3, 4], [5, 6, 7, 4]) == Score(1, 0)
  {
    var secret := [1, 2, 3, 4];
    ScoreByTally(4, secret, [1, 2, 3, 4]);
    ScoreByTally(4, secret, [1, 2, 3, 5]);
    ScoreByTally(4, secret, [1, 2, 5, 5]);
    ScoreByTally(4, secret, [1, 5, 5, 5]);
    ScoreByTally(4, secret, [5, 6, 7, 8]);
    ScoreByTally(4, secret, [5, 6, 7, 4]);
  }

  /** The white-count examples of the test file for the secret
      [1, 2, 3, 4]. */
  lemma {:induction false} AnswerWhiteExamples()
    ensures ScoreOf(4, [1, 2, 3, 4], [4, 1, 2, 3]) == Score(0, 4)
    ensures ScoreOf(4, [1, 2, 3, 4], [5, 1, 2, 3]) == Score(0, 3)
    ensures ScoreOf(4, [1, 2, 3, 4], [5, 1, 2, 5]) == Score(0, 2)
    ensures ScoreOf(4, [1, 2, 3, 4], [5, 5, 5, 1]) == Score(0, 1)
  {
    var secret := [1, 2, 3, 4];
    ScoreByTally(4, secret, [4, 1, 2, 3]);
    ScoreByTally(4, secret, [5, 1, 2, 3]);
    ScoreByTally(4, secret, [5, 1, 2, 5]);
    ScoreByTally(4, secret, [5, 5, 5, 1]);
  }

  ghost predicate DistinctColours(c: Code)
  {
    forall i, j :: 0 <= i < j < |c| ==> c[i] != c[j]
  }

  /** A line whose colours are pairwise distinct scores all blacks and no
      whites against itself. */
  lemma SelfScoreDistinct(c: Code)
    requires DistinctColours(c)
    ensures ScoreOf(|c|, c, c) == Score(|c|, 0)
  {
    assert BlackPositions(|c|, c, c) == Range(0, |c| - 1);
    RangeSize(0, |c| - 1);
    forall i, j | 0 <= i < |c| && 0 <= j < |c| && j != i ensures c[j] != c[i] {
      if i < j {
        assert c[i] != c[j];
      } else {
        assert c[j] != c[i];
      }
    }
    assert WhitePositions(|c|, c, c) == {};
  }

  /** The white count is not multiset-consuming: a colour of the secret
      counts as white whenever it appears in any other column of the clue
      line, even one already matched. So a line with a repeated colour
      scored against itself gets a white for every column, and black +
      white can exceed the column count. The test file expects (4, 0),
      (3, 0), (3, 0), (0, 2) and (2, 0) for these five. */
  lemma {:induction false} AnswerRepeatedExamples()
    ensures ScoreOf(4, [1, 1, 1, 1], [1, 1, 1, 1]) == Score(4, 4)
    ensures ScoreOf(4, [1, 1, 1, 1], [1, 1, 1, 2]) == Score(3, 4)
    ensures ScoreOf(4, [1, 1, 1, 2], [1, 1, 1, 1]) == Score(3, 3)
    ensures ScoreOf(4, [1, 1, 2, 2], [2, 3, 4, 1]) == Score(0, 4)
    ensures ScoreOf(4, [1, 1, 2, 2], [1, 1, 1, 1]) == Score(2, 2)
  {
    ScoreByTally(4, [1, 1, 1, 1], [1, 1, 1, 1]);
    ScoreByTally(4, [1, 1, 1, 1], [1, 1, 1, 2]);
    ScoreByTally(4, [1, 1, 1, 2], [1, 1, 1, 1]);
    ScoreByTally(4, [1, 1, 2, 2], [2, 3, 4, 1]);
    ScoreByTally(4, [1, 1, 2, 2], [1, 1, 1, 1]);
  }

  // ---------------------------------------------------------------------
  // Properties of the domains and of the count

  /** Domains start as 1..colors and never grow. */
  lemma {:induction false} DomainsWithinColours(cfg: Config, correct: Code, clues: seq<Code>)
    requires |correct| >= cfg.columns && WellFormed(cfg, clues)
    ensures forall i :: 0 <= i < cfg.columns ==> Domains(cfg, correct, clues)[i] <= Range(1, cfg.colors)
    decreases |clues|
  {
    if clues != [] {
      var front := clues[..|clues| - 1];
      assert WellFormed(cfg, front);
      DomainsWithinColours(cfg, correct, front);
    }
  }

  /** A further clue line only removes colours. */
  lemma DomainsShrink(cfg: Config, correct: Code, clues: seq<Code>, clue: Code)
    requires |correct| >= cfg.columns && WellFormed(cfg, clues) && |clue| >= cfg.columns
    ensures WellFormed(cfg, clues + [clue])
    ensures forall i :: 0 <= i < cfg.columns ==>
      Domains(cfg, correct, clues + [clue])[i] <= Domains(cfg, correct, clues)[i]
  {
    assert (clues + [clue])[..|clues|] == clues;
  }

  /** The secret's colour at column i is never removed from domain i by a
      clue line scored against that secret: a (0, 0) clue cannot hold any
      of the secret's colours, and a clue with no black differs from the
      secret in every column. */
  lemma {:induction false} SecretSurvives(cfg: Config, correct: Code, clues: seq<Code>)
    requires |correct| >= cfg.columns && WellFormed(cfg, clues)
    requires forall i :: 0 <= i < cfg.columns ==> 1 <= correct[i] <= cfg.colors
    ensures forall i :: 0 <= i < cfg.columns ==> correct[i] in Domains(cfg, correct, clues)[i]
    decreases |clues|
  {
    if clues != [] {
      var front, clue := clues[..|clues| - 1], clues[|clues| - 1];
      assert WellFormed(cfg, front);
      SecretSurvives(cfg, correct, front);
      var s := ScoreOf(cfg.columns, correct, clue);
      if s.black == 0 {
        assert BlackPositions(cfg.columns, correct, clue) == {};
        forall i | 0 <= i < cfg.columns ensures correct[i] != clue[i] {
          assert i !in BlackPositions(cfg.columns, correct, clue);
        }
        if s.white == 0 {
          assert WhitePositions(cfg.columns, correct, clue) == {};
          forall i, j | 0 <= i < cfg.columns && 0 <= j < cfg.columns
            ensures clue[j] != correct[i]
          {
            assert i !in WhitePositions(cfg.columns, correct, clue);
            assert j != i ==> clue[j] != correct[i];
          }
          forall i | 0 <= i < cfg.columns ensures correct[i] !in ColoursUpTo(clue, cfg.columns) {
            assert forall k :: 0 <= k < cfg.columns ==> clue[k] != correct[i];
          }
        }
      }
    }
  }

  lemma {:induction false} ProductPositive(ds: seq<set<int>>)
    requires forall i :: 0 <= i < |ds| ==> ds[i] != {}
    ensures ProductSize(ds) >= 1
  {
    if ds != [] {
      ProductPositive(ds[..|ds| - 1]);
    }
  }

  /** For clue lines scored against a secret whose colours lie in
      1..colors, the count is at least 1, so `combinations` never raises
      NoCombinationsLeft. */
  lemma CountPositive(cfg: Config, correct: Code, clues: seq<Code>)
    requires |correct| >= cfg.columns && WellFormed(cfg, clues)
    requires forall i :: 0 <= i < cfg.columns ==> 1 <= correct[i] <= cfg.colors
    ensures CandidateCount(cfg, correct, clues) >= 1
  {
    SecretSurvives(cfg, correct, clues);
    ProductPositive(Domains(cfg, correct, clues));
  }

  lemma {:induction false} ProductOfEqualSizes(ds: seq<set<int>>, k: nat)
    requires forall i :: 0 <= i < |ds| ==> |ds[i]| == k
    ensures ProductSize(ds) == Pow(k, |ds|)
  {
    if ds != [] {
      ProductOfEqualSizes(ds[..|ds| - 1], k);
    }
  }

  /** With no clue lines the count is colors ^ columns. */
  lemma CountWithoutClues(cfg: Config, correct: Code)
    requires |correct| >= cfg.columns
    ensures CandidateCount(cfg, correct, []) == Pow(cfg.colors, cfg.columns)
  {
    RangeSize(1, cfg.colors);
    ProductOfEqualSizes(InitialDomains(cfg), cfg.colors);
  }

  lemma {:induction false} ProductMonotone(ds: seq<set<int>>, es: seq<set<int>>)
    requires |ds| == |es| && forall i :: 0 <= i < |ds| ==> ds[i] <= es[i]
    ensures ProductSize(ds) <= ProductSize(es)
  {
    if ds != [] {
      var n := |ds| - 1;
      ProductMonotone(ds[..n], es[..n]);
      SubsetSize(ds[n], es[n]);
      MulMonotone(ProductSize(ds[..n]), |ds[n]|, ProductSize(es[..n]), |es[n]|);
    }
  }

  lemma MulMonotone(a: nat, b: nat, c: nat, d: nat)
    requires a <= c && b <= d
    ensures a * b <= c * d
  {
    assert a * b <= c * b;
    assert c * b <= c * d;
  }

  /** Adding a clue line never raises the count: the candidate space only
      shrinks. */
  lemma CountNeverGrows(cfg: Config, correct: Code, clues: seq<Code>, clue: Code)
    requires |correct| >= cfg.columns && WellFormed(cfg, clues) && |clue| >= cfg.columns
    ensures WellFormed(cfg, clues + [clue])
    ensures CandidateCount(cfg, correct, clues + [clue]) <= CandidateCount(cfg, correct, clues)
  {
    DomainsShrink(cfg, correct, clues, clue);
    ProductMonotone(Domains(cfg, correct, clues + [clue]), Domains(cfg, correct, clues));
  }

  /** The examples of the test file with two columns and two colours:
      4 candidates without clues, and still 4 (not the 2 the test file
      expects) after the clue line [1, 3], since that clue has a black and
      the filter keeps every candidate. The candidate [2, 1] is counted
      although its score against [1, 3] differs from the secret's. */
  lemma CountExamples()
    ensures CandidateCount(Config(2, 2, 0), [1, 2], []) == 4
    ensures WellFormed(Config(2, 2, 0), [[1, 3]])
    ensures CandidateCount(Config(2, 2, 0), [1, 2], [[1, 3]]) == 4
    ensures InProduct([2, 1], Domains(Config(2, 2, 0), [1, 2], [[1, 3]]))
    ensures ScoreOf(2, [2, 1], [1, 3]) != ScoreOf(2, [1, 2], [1, 3])
  {
    var cfg := Config(2, 2, 0);
    CountWithoutClues(cfg, [1, 2]);
    ScoreByTally(2, [1, 2], [1, 3]);
    ScoreByTally(2, [2, 1], [1, 3]);
    assert [[1, 3]][..0] == [];
    assert Domains(cfg, [1, 2], [[1, 3]]) == Domains(cfg, [1, 2], []);
  }

  // ---------------------------------------------------------------------
  // Sheet.__init__: building a sheet

  ghost predicate AllCodes(cfg: Config, lines: seq<Code>)
  {
    forall k :: 0 <= k < |lines| ==> IsCode(cfg, lines[k])
  }

  /** The clue lines the greedy loop accepted: each one was drawn while
      more than one candidate was left, and each one strictly lowered the
      count. */
  ghost predicate GreedyChain(cfg: Config, correct: Code, accepted: seq<Code>)
    requires |correct| >= cfg.columns && AllCodes(cfg, accepted)
  {
    forall k :: 0 <= k < |accepted| ==>
      CandidateCount(cfg, correct, accepted[..k]) > 1
      && CandidateCount(cfg, correct, accepted[..k + 1]) < CandidateCount(cfg, correct, accepted[..k])
  }

  lemma ChainExtend(cfg: Config, correct: Code, accepted: seq<Code>, line: Code)
    requires |correct| >= cfg.columns && AllCodes(cfg, accepted) && IsCode(cfg, line)
    requires GreedyChain(cfg, correct, accepted)
    requires CandidateCount(cfg, correct, accepted) > 1
    requires CandidateCount(cfg, correct, accepted + [line]) < CandidateCount(cfg, correct, accepted)
    ensures AllCodes(cfg, accepted + [line]) && GreedyChain(cfg, correct, accepted + [line])
  {
    var next := accepted + [line];
    assert next[..|accepted|] == accepted;
    assert next[..|accepted| + 1] == next;
    forall k | 0 <= k <= |accepted| ensures next[..k] == accepted[..k] {
    }
  }

  /** Every accepted clue line removes at least one candidate, so a chain
      of accepted lines is never longer than colors ^ columns - 1 and the
      count after it is at most colors ^ columns minus its length. */
  lemma {:induction false} ChainLength(cfg: Config, correct: Code, accepted: seq<Code>)
    requires |correct| >= cfg.columns && AllCodes(cfg, accepted)
    requires GreedyChain(cfg, correct, accepted)
    ensures CandidateCount(cfg, correct, accepted) + |accepted| <= Pow(cfg.colors, cfg.columns)
    decreases |accepted|
  {
    if accepted == [] {
      CountWithoutClues(cfg, correct);
    } else {
      var k := |accepted| - 1;
      var front := accepted[..k];
      assert accepted[..k + 1] == accepted;
      forall j | 0 <= j <= |front| ensures front[..j] == accepted[..j] {
      }
      ChainLength(cfg, correct, front);
    }
  }

  /** Sheet(): draws a random secret, then draws random clue lines and
      keeps each one that lowers the candidate count, until one candidate
      is left; raises TooManyClues when that takes more clue lines than
      stops; finally pads the clue lines with random lines up to the number
      of stops. The source may draw forever; `maxDraws` bounds the number
      of clue lines drawn. `correct` and `accepted` name the secret and the
      clue lines accepted by the greedy loop. */
  method NewSheet(cfg: Config, maxDraws: nat) returns (r: Outcome, correct: Code, accepted: seq<Code>)
    requires cfg.columns >= 1 && cfg.colors >= 1
    ensures IsCode(cfg, correct) && AllCodes(cfg, accepted) && GreedyChain(cfg, correct, accepted)
    ensures |accepted| <= cfg.stops
    ensures r.Built? ==>
      && r.sheet.correct == correct
      && r.solvedAt == |accepted|
      && CandidateCount(cfg, correct, accepted) == 1
      && |r.sheet.clueLines| == cfg.stops
      && r.sheet.clueLines[..|accepted|] == accepted
      && AllCodes(cfg, r.sheet.clueLines)
    ensures r.TooManyClues? ==> |accepted| == cfg.stops && CandidateCount(cfg, correct, accepted) > 1
    ensures r.DrawsExhausted? ==> CandidateCount(cfg, correct, accepted) > 1 && |accepted| < cfg.stops
    ensures |accepted| == cfg.stops && CandidateCount(cfg, correct, accepted) > 1 ==> r.TooManyClues?
  {
    var secret := RandomLine(cfg);
    correct := secret;
    var clueLines: seq<Code> := [];
    CountPositive(cfg, correct, clueLines);
    var counted := Combinations(cfg, secret, clueLines);
    var combs := counted.n;
    var draws := 0;
    while combs > 1
      invariant AllCodes(cfg, clueLines) && GreedyChain(cfg, correct, clueLines)
      invariant combs == CandidateCount(cfg, correct, clueLines) >= 1
      invariant |clueLines| <= cfg.stops && draws <= maxDraws
      decreases maxDraws - draws
    {
      if |clueLines| >= cfg.stops {
        return TooManyClues, correct, clueLines;
      }
      if draws == maxDraws {
        return DrawsExhausted, correct, clueLines;
      }
      draws := draws + 1;
      var newLine := RandomLine(cfg);
      var newClueLines := clueLines + [newLine];
      CountPositive(cfg, correct, newClueLines);
      var newCounted := Combinations(cfg, secret, newClueLines);
      var newCombs := newCounted.n;
      if newCombs < combs {
        ChainExtend(cfg, correct, clueLines, newLine);
        clueLines := newClueLines;
        combs := newCombs;
      }
    }
    accepted := clueLines;
    var solvedAt := |clueLines|;
    while |clueLines| < cfg.stops
      invariant AllCodes(cfg, clueLines) && |accepted| <= |clueLines| <= cfg.stops
      invariant solvedAt == |accepted| && clueLines[..|accepted|] == accepted
      decreases cfg.stops - |clueLines|
    {
      var padding := RandomLine(cfg);
      clueLines := clueLines + [padding];
    }
    r := Built(Sheet(secret, clueLines), solvedAt);
  }
}
