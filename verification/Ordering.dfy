/** Sorted listings, as `std::sort` leaves the keys, fields and members that the store reports. */
module Ordering {

  /** `std::string` order: byte by byte, a proper prefix first. */
  predicate Leq(a: string, b: string) {
    a == "" || (b != "" && (a[0] < b[0] || (a[0] == b[0] && Leq(a[1..], b[1..]))))
  }

  /** The order is decided at the first place where the two differ, or by one being a prefix of the other. */
  lemma {:induction false} LeqAtFirstDifference(a: string, b: string, i: nat)
    requires i <= |a| && i <= |b| && a[..i] == b[..i]
    ensures i == |a| ==> Leq(a, b)
    ensures i == |b| && i < |a| ==> !Leq(a, b)
    ensures i < |a| && i < |b| && a[i] != b[i] ==> (Leq(a, b) <==> a[i] < b[i])
    decreases i
  {
    if i > 0 {
      assert a[..i][0] == b[..i][0] && a[1..][..i - 1] == a[..i][1..] && b[1..][..i - 1] == b[..i][1..];
      LeqAtFirstDifference(a[1..], b[1..], i - 1);
    }
  }

  lemma {:induction false} LeqTotal(a: string, b: string)
    ensures Leq(a, b) || Leq(b, a)
  {
    if a != "" && b != "" && a[0] == b[0] {
      LeqTotal(a[1..], b[1..]);
    }
  }

  lemma {:induction false} LeqAntisymmetric(a: string, b: string)
    requires Leq(a, b) && Leq(b, a)
    ensures a == b
  {
    if a != "" && b != "" {
      LeqAntisymmetric(a[1..], b[1..]);
      assert a == [a[0]] + a[1..] && b == [b[0]] + b[1..];
    }
  }

  lemma {:induction false} LeqTransitive(a: string, b: string, c: string)
    requires Leq(a, b) && Leq(b, c)
    ensures Leq(a, c)
  {
    if a != "" && b != "" && c != "" && a[0] == b[0] == c[0] {
      LeqTransitive(a[1..], b[1..], c[1..]);
    }
  }

  ghost predicate IsLeast(m: string, s: set<string>) {
    m in s && forall x :: x in s ==> Leq(m, x)
  }

  lemma LeastExists(s: set<string>) returns (m: string)
    requires s != {}
    ensures IsLeast(m, s)
  {
    var x :| x in s;
    if s == {x} {
      m := x;
      LeqTotal(x, x);
    } else {
      var n := LeastExists(s - {x});
      LeqTotal(n, x);
      LeqTotal(x, x);
      m := if Leq(n, x) then n else x;
      forall y | y in s ensures Leq(m, y) {
        if y != x && m == x {
          LeqTransitive(x, n, y);
        }
      }
    }
  }

  /** The elements of a set in ascending order. */
  ghost function Listing(s: set<string>): seq<string> {
    if s == {} then []
    else
      var _ := LeastExistsFact(s);
      var m :| IsLeast(m, s);
      [m] + Listing(s - {m})
  }

  ghost function LeastExistsFact(s: set<string>): bool
    requires s != {}
    ensures exists m :: IsLeast(m, s)
  {
    LeastWitness(s);
    true
  }

  lemma LeastWitness(s: set<string>)
    requires s != {}
    ensures exists m :: IsLeast(m, s)
  {
    var m := LeastExists(s);
  }

  ghost predicate Ascending(r: seq<string>) {
    forall i, j :: 0 <= i < j < |r| ==> Leq(r[i], r[j]) && r[i] != r[j]
  }

  lemma {:induction false} ListingMembers(s: set<string>)
    ensures |Listing(s)| == |s|
    ensures forall x :: x in Listing(s) <==> x in s
  {
    if s != {} {
      LeastWitness(s);
      var m :| IsLeast(m, s) && Listing(s) == [m] + Listing(s - {m});
      ListingMembers(s - {m});
    }
  }

  lemma AscendingCons(m: string, r: seq<string>)
    requires Ascending(r)
    requires forall x :: x in r ==> Leq(m, x) && m != x
    ensures Ascending([m] + r)
  {
    var l := [m] + r;
    forall i, j | 0 <= i < j < |l| ensures Leq(l[i], l[j]) && l[i] != l[j] {
      assert l[j] == r[j - 1] && r[j - 1] in r;
      if i > 0 {
        assert l[i] == r[i - 1];
      }
    }
  }

  /** A listing holds exactly the elements of the set, each once, in ascending order. */
  lemma {:induction false} ListingSound(s: set<string>)
    ensures |Listing(s)| == |s|
    ensures forall x :: x in Listing(s) <==> x in s
    ensures Ascending(Listing(s))
  {
    ListingMembers(s);
    if s != {} {
      LeastWitness(s);
      var m :| IsLeast(m, s) && Listing(s) == [m] + Listing(s - {m});
      ListingSound(s - {m});
      AscendingCons(m, Listing(s - {m}));
    }
  }

  /** Collecting in any order and sorting gives that listing. */
  method SortedListing(s: set<string>) returns (r: seq<string>)
    ensures r == Listing(s)
  {
    r := [];
    var rest := s;
    assert [] + Listing(s) == Listing(s);
    while rest != {}
      invariant r + Listing(rest) == Listing(s)
      decreases |rest|
    {
      LeastWitness(rest);
      var m :| m in rest && forall x :: x in rest ==> Leq(m, x);
      ListingStep(rest, m);
      assert r + ([m] + Listing(rest - {m})) == r + [m] + Listing(rest - {m});
      r := r + [m];
      rest := rest - {m};
    }
    assert r + [] == r;
  }

  lemma ListingStep(s: set<string>, m: string)
    requires IsLeast(m, s)
    ensures Listing(s) == [m] + Listing(s - {m})
  {
    LeastWitness(s);
    var n :| IsLeast(n, s) && Listing(s) == [n] + Listing(s - {n});
    assert m in s && n in s;
    LeqAntisymmetric(m, n);
  }
}
