/** Small shared definitions: an optional value, integer powers, and the
    two random primitives the generators use (a bounded integer draw and
    an in-place shuffle), modelled as nondeterministic choices. */
module Common {

  datatype Option<+T> = None | Some(value: T)

  /** b raised to the power e. */
  function Pow(b: int, e: nat): int
  {
    if e == 0 then 1 else b * Pow(b, e - 1)
  }

  lemma {:induction false} PowPositive(b: int, e: nat)
    requires b >= 1
    ensures Pow(b, e) >= 1
  {
    if e > 0 {
      PowPositive(b, e - 1);
    }
  }

  lemma {:induction false} PowMonotone(b: int, e: nat)
    requires b >= 2
    ensures Pow(b, e + 1) > Pow(b, e)
  {
    PowPositive(b, e);
  }

  /** The integers lo..hi, as a set. */
  function Range(lo: int, hi: int): (r: set<int>)
    ensures forall x :: x in r <==> lo <= x <= hi
    decreases hi - lo
  {
    if hi < lo then {} else Range(lo, hi - 1) + {hi}
  }

  lemma {:induction false} RangeSize(lo: int, hi: int)
    ensures |Range(lo, hi)| == if hi < lo then 0 else hi - lo + 1
    decreases hi - lo
  {
    if hi >= lo {
      RangeSize(lo, hi - 1);
    }
  }

  lemma SubsetSize<T>(a: set<T>, b: set<T>)
    requires a <= b
    ensures |a| <= |b|
  {
    assert b == a + (b - a);
    assert a * (b - a) == {};
  }

  /** random.randint(lo, hi): any integer of the closed range. */
  method RandInt(lo: int, hi: int) returns (x: int)
    requires lo <= hi
    ensures lo <= x <= hi
  {
    assert lo <= lo <= hi;
    x :| lo <= x <= hi;
  }

  /** Iterating over a set: the next element is any element not yet visited. */
  method Pick<T>(s: set<T>) returns (x: T)
    requires s != {}
    ensures x in s
  {
    NonEmptyHasElement(s);
    x :| x in s;
  }

  lemma NonEmptyHasElement<T>(s: set<T>)
    requires s != {}
    ensures exists y :: y in s
  {
  }

  /** random.shuffle: the list comes back in some order, with the same
      elements and multiplicities. Each step moves one element, chosen
      among those not yet placed, to the result. */
  method Shuffle<T>(s: seq<T>) returns (r: seq<T>)
    ensures |r| == |s|
    ensures multiset(r) == multiset(s)
    ensures forall x :: x in r <==> x in s
  {
    r := [];
    var rest := s;
    while rest != []
      invariant multiset(r) + multiset(rest) == multiset(s)
      invariant |r| + |rest| == |s|
      decreases |rest|
    {
      var k := RandInt(0, |rest| - 1);
      r := r + [rest[k]];
      assert rest == rest[..k] + [rest[k]] + rest[k + 1..];
      rest := rest[..k] + rest[k + 1..];
    }
    forall x ensures x in r <==> x in s {
      assert x in multiset(r) <==> x in multiset(s);
    }
  }
}
