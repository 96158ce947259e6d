/** Clue labels: strings of a fixed length over the clue letters. */
module SudokuLabels {
  import opened Common

  /** The loop in SudokuGenerator.__init__: the least length i in 1..9
      for which there are more labels of length i than clues needed, or
      None when no such length exists ("Too many clues"). */
  method ClueLengthFor(alphabet: nat, needed: int) returns (r: Option<nat>)
    ensures r.Some? ==> 1 <= r.value <= 9 && Pow(alphabet, r.value) > needed
    ensures r.Some? ==> forall j :: 1 <= j < r.value ==> Pow(alphabet, j) <= needed
    ensures r.None? ==> forall j :: 1 <= j <= 9 ==> Pow(alphabet, j) <= needed
  {
    for i := 1 to 10
      invariant forall j :: 1 <= j < i ==> Pow(alphabet, j) <= needed
    {
      if Pow(alphabet, i) > needed {
        return Some(i);
      }
    }
    return None;
  }

  /** w is a label of length n over the letters. */
  ghost predicate IsLabel(w: string, letters: string, n: nat)
  {
    |w| == n && forall k :: 0 <= k < |w| ==> w[k] in letters
  }

  predicate DistinctLetters(letters: string)
  {
    forall i, j :: 0 <= i < j < |letters| ==> letters[i] != letters[j]
  }

  ghost predicate Distinct<T>(s: seq<T>)
  {
    forall i, j :: 0 <= i < j < |s| ==> s[i] != s[j]
  }

  /** Every label in ws extended by every letter, label by label. */
  function Extend(ws: seq<string>, letters: string): (r: seq<string>)
    ensures |r| == |ws| * |letters|
  {
    if ws == [] then []
    else
      var n := |ws| - 1;
      assert |ws| * |letters| == n * |letters| + |letters|;
      Extend(ws[..n], letters) + seq(|letters|, i requires 0 <= i < |letters| => ws[n] + [letters[i]])
  }

  /** All labels of length n, in base-|letters| counting order. */
  function AllLabels(letters: string, n: nat): (r: seq<string>)
    ensures |r| == Pow(|letters|, n)
  {
    if n == 0 then [[]] else Extend(AllLabels(letters, n - 1), letters)
  }

  lemma {:induction false} ExtendComplete(ws: seq<string>, letters: string, p: string, x: char)
    requires p in ws && x in letters
    ensures p + [x] in Extend(ws, letters)
  {
    var n := |ws| - 1;
    if ws[n] == p {
      var i :| 0 <= i < |letters| && letters[i] == x;
      var row := seq(|letters|, i requires 0 <= i < |letters| => ws[n] + [letters[i]]);
      assert row[i] == p + [x];
    } else {
      var j :| 0 <= j < |ws| && ws[j] == p;
      assert p in ws[..n] by {
        assert ws[..n][j] == p;
      }
      ExtendComplete(ws[..n], letters, p, x);
    }
  }

  lemma {:induction false} ExtendDistinct(ws: seq<string>, letters: string, m: nat)
    requires forall w :: w in ws ==> |w| == m
    requires Distinct(ws) && DistinctLetters(letters)
    ensures Distinct(Extend(ws, letters))
  {
    if ws != [] {
      var n := |ws| - 1;
      var front := Extend(ws[..n], letters);
      var row := seq(|letters|, i requires 0 <= i < |letters| => ws[n] + [letters[i]]);
      ExtendDistinct(ws[..n], letters, m);
      ExtendPrefixes(ws[..n], letters, m);
      forall i, j | 0 <= i < j < |row| ensures row[i] != row[j] {
        assert row[i][m] == letters[i] && row[j][m] == letters[j];
      }
      forall i | 0 <= i < |row| ensures row[i][..m] == ws[n] {
        assert |ws[n]| == m;
      }
      forall x | x in front ensures x !in row {
        var j :| 0 <= j < n && ws[..n][j] == x[..m];
        assert x[..m] != ws[n] by {
          assert ws[j] == x[..m];
        }
      }
      DistinctConcat(front, row);
    }
  }

  lemma DistinctConcat<T>(a: seq<T>, b: seq<T>)
    requires Distinct(a) && Distinct(b)
    requires forall x :: x in a ==> x !in b
    ensures Distinct(a + b)
  {
    forall i, j | 0 <= i < j < |a + b| ensures (a + b)[i] != (a + b)[j] {
      if i < |a| && j >= |a| {
        assert (a + b)[i] in a && (a + b)[j] in b;
      }
    }
  }

  lemma {:induction false} ExtendPrefixes(ws: seq<string>, letters: string, m: nat)
    requires forall w :: w in ws ==> |w| == m
    ensures forall w :: w in Extend(ws, letters) ==> |w| == m + 1 && w[..m] in ws && w[m] in letters
  {
    if ws != [] {
      var n := |ws| - 1;
      var front := Extend(ws[..n], letters);
      ExtendPrefixes(ws[..n], letters, m);
      forall w | w in Extend(ws, letters) ensures |w| == m + 1 && w[..m] in ws && w[m] in letters {
        if w in front {
          var j :| 0 <= j < n && ws[..n][j] == w[..m];
          assert ws[j] == w[..m];
        } else {
          var i :| 0 <= i < |letters| && w == ws[n] + [letters[i]];
          assert w[..m] == ws[n];
        }
      }
    }
  }

  /** AllLabels lists every label of length n and nothing else. */
  lemma {:induction false} AllLabelsComplete(letters: string, n: nat)
    ensures forall w :: w in AllLabels(letters, n) <==> IsLabel(w, letters, n)
  {
    if n > 0 {
      AllLabelsComplete(letters, n - 1);
      ExtendExact(AllLabels(letters, n - 1), letters, n);
    } else {
      forall w | IsLabel(w, letters, 0) ensures w in AllLabels(letters, 0) {
        assert w == [];
      }
    }
  }

  /** With pairwise different letters, AllLabels lists no label twice. */
  lemma {:induction false} AllLabelsDistinct(letters: string, n: nat)
    requires DistinctLetters(letters)
    ensures Distinct(AllLabels(letters, n))
  {
    if n > 0 {
      AllLabelsComplete(letters, n - 1);
      AllLabelsDistinct(letters, n - 1);
      ExtendDistinct(AllLabels(letters, n - 1), letters, n - 1);
    }
  }

  lemma ExtendExact(prev: seq<string>, letters: string, n: nat)
    requires n > 0
    requires forall w :: w in prev <==> IsLabel(w, letters, n - 1)
    ensures forall w :: w in Extend(prev, letters) <==> IsLabel(w, letters, n)
  {
    ExtendPrefixes(prev, letters, n - 1);
    forall w | w in Extend(prev, letters) ensures IsLabel(w, letters, n) {
      LabelStep(w, letters, n);
    }
    forall w | IsLabel(w, letters, n) ensures w in Extend(prev, letters) {
      LabelStep(w, letters, n);
      ExtendComplete(prev, letters, w[..n - 1], w[n - 1]);
      assert w == w[..n - 1] + [w[n - 1]];
    }
  }

  /** A label of length n is a label of length n - 1 and one more letter. */
  lemma LabelStep(w: string, letters: string, n: nat)
    requires n > 0 && |w| == n
    ensures IsLabel(w, letters, n) <==> IsLabel(w[..n - 1], letters, n - 1) && w[n - 1] in letters
  {
    assert forall k :: 0 <= k < n - 1 ==> w[..n - 1][k] == w[k];
  }

  /** Pigeonhole: a list of distinct elements longer than `used` has an
      element not in `used`. */
  lemma {:induction false} Pigeonhole<T>(s: seq<T>, used: seq<T>)
    requires Distinct(s) && |used| < |s|
    ensures exists k :: 0 <= k < |s| && s[k] !in used
  {
    var n := |s| - 1;
    if s[n] in used {
      var j :| 0 <= j < |used| && used[j] == s[n];
      var rest := used[..j] + used[j + 1..];
      assert forall x :: x in used ==> x == s[n] || x in rest by {
        assert used == used[..j] + [used[j]] + used[j + 1..];
      }
      Pigeonhole(s[..n], rest);
      var k :| 0 <= k < n && s[..n][k] !in rest;
      assert s[k] != s[n];
    }
  }

  /** With pairwise different letters, fewer used labels than labels of
      length n leave a fresh one. */
  lemma FreshLabelExists(letters: string, n: nat, used: seq<string>)
    requires DistinctLetters(letters) && |used| < Pow(|letters|, n)
    ensures exists w :: IsLabel(w, letters, n) && w !in used
  {
    var all := AllLabels(letters, n);
    AllLabelsComplete(letters, n);
    AllLabelsDistinct(letters, n);
    Pigeonhole(all, used);
    var k :| 0 <= k < |all| && all[k] !in used;
    assert all[k] in all;
  }
}
