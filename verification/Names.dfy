/**
Go's string order (by code point, which is also UTF-8 byte order) and sort.Strings over the
keys of a map, whose enumeration order is arbitrary.
*/
module Names {

  type Name = string

  predicate Less(a: Name, b: Name) {
    if b == [] then false
    else if a == [] then true
    else a[0] < b[0] || (a[0] == b[0] && Less(a[1..], b[1..]))
  }

  lemma {:induction false} LessTrichotomy(a: Name, b: Name)
    ensures Less(a, b) || a == b || Less(b, a)
    ensures !(Less(a, b) && Less(b, a))
  {
    if a != [] && b != [] {
      LessTrichotomy(a[1..], b[1..]);
      assert a == [a[0]] + a[1..] && b == [b[0]] + b[1..];
    }
  }

  lemma {:induction false} LessTransitive(a: Name, b: Name, c: Name)
    requires Less(a, b) && Less(b, c)
    ensures Less(a, c)
  {
    if a != [] && a[0] == b[0] == c[0] {
      LessTransitive(a[1..], b[1..], c[1..]);
    }
  }

  /** `k` is the first index at which `a` and `b` differ, and there `a` has ended or has the smaller character. */
  predicate PrecedesAt(a: Name, b: Name, k: int) {
    0 <= k <= |a| && k < |b| && a[..k] == b[..k] && (k == |a| || a[k] < b[k])
  }

  /** String order, said without recursion. */
  ghost predicate Precedes(a: Name, b: Name) {
    exists k :: PrecedesAt(a, b, k)
  }

  lemma {:induction false} PrecedesHead(a: Name, b: Name, k: int)
    requires PrecedesAt(a, b, k) && k > 0
    ensures a[0] == b[0]
  {
    assert a[..k][0] == a[0] && b[..k][0] == b[0];
  }

  lemma {:induction false} LessIsPrecedes(a: Name, b: Name)
    ensures Less(a, b) <==> Precedes(a, b)
  {
    if b == [] {
    } else if a == [] {
      assert PrecedesAt(a, b, 0);
    } else if a[0] != b[0] {
      if a[0] < b[0] {
        assert PrecedesAt(a, b, 0);
      }
      forall k | PrecedesAt(a, b, k) ensures k == 0 {
        if k > 0 {
          PrecedesHead(a, b, k);
        }
      }
    } else {
      LessIsPrecedes(a[1..], b[1..]);
      forall k | PrecedesAt(a[1..], b[1..], k) ensures PrecedesAt(a, b, k + 1) {
        assert a[..k + 1] == [a[0]] + a[1..][..k] && b[..k + 1] == [b[0]] + b[1..][..k];
      }
      forall k | PrecedesAt(a, b, k) ensures PrecedesAt(a[1..], b[1..], k - 1) {
        assert k > 0;
        assert a[1..][..k - 1] == a[..k][1..] && b[1..][..k - 1] == b[..k][1..];
      }
    }
  }

  ghost predicate Increasing(s: seq<Name>) {
    forall i, j :: 0 <= i < j < |s| ==> Less(s[i], s[j])
  }

  ghost function Elements(s: seq<Name>): set<Name> {
    set x | x in s
  }

  lemma {:induction false} HasLeast(s: set<Name>)
    requires s != {}
    ensures exists m :: m in s && forall x :: x in s && x != m ==> Less(m, x)
  {
    var k :| k in s;
    if s == {k} {
    } else {
      var rest := s - {k};
      HasLeast(rest);
      var m :| m in rest && forall x :: x in rest && x != m ==> Less(m, x);
      LessTrichotomy(k, m);
      if Less(k, m) {
        forall x | x in s && x != k ensures Less(k, x) {
          if x != m {
            LessTransitive(k, m, x);
          }
        }
      } else {
        assert m in s && forall x :: x in s && x != m ==> Less(m, x);
      }
    }
  }

  /** The elements of `s` in increasing order. */
  ghost function Sorted(s: set<Name>): (r: seq<Name>)
    ensures Increasing(r)
    ensures forall x :: x in r <==> x in s
  {
    if s == {} then []
    else
      HasLeast(s);
      var m :| m in s && forall x :: x in s && x != m ==> Less(m, x);
      [m] + Sorted(s - {m})
  }

  /** Only one sequence lists a set in increasing order. */
  lemma {:induction false} IncreasingUnique(a: seq<Name>, b: seq<Name>)
    requires Increasing(a) && Increasing(b)
    requires forall x :: x in a <==> x in b
    ensures a == b
  {
    if b != [] {
      assert b[0] in a;
    }
    if a != [] {
      assert a[0] in b;
      var j :| 0 <= j < |b| && b[j] == a[0];
      assert b[0] in a;
      var i :| 0 <= i < |a| && a[i] == b[0];
      LessTrichotomy(a[0], b[0]);
      assert a[0] == b[0];
      forall x ensures x in a[1..] <==> x in b[1..] {
        TailMember(a, x);
        TailMember(b, x);
      }
      IncreasingUnique(a[1..], b[1..]);
    }
  }

  lemma {:induction false} TailMember(a: seq<Name>, x: Name)
    requires Increasing(a) && a != []
    ensures x in a[1..] <==> x in a && x != a[0]
  {
    LessTrichotomy(a[0], a[0]);
  }

  /** Insert into an increasing sequence. */
  method Insert(s: seq<Name>, x: Name) returns (r: seq<Name>)
    requires Increasing(s) && x !in s
    ensures Increasing(r)
    ensures forall y :: y in r <==> y in s || y == x
  {
    var i := |s|;
    while i > 0 && Less(x, s[i - 1])
      invariant 0 <= i <= |s|
      invariant forall j :: i <= j < |s| ==> Less(x, s[j])
    {
      i := i - 1;
    }
    if i > 0 {
      LessTrichotomy(x, s[i - 1]);
    }
    forall j | 0 <= j < i ensures Less(s[j], x) {
      if j < i - 1 {
        LessTransitive(s[j], s[i - 1], x);
      }
    }
    r := s[..i] + [x] + s[i..];
    assert s == s[..i] + s[i..];
  }

  /** Collect the keys of a map in whatever order it yields them, and sort. */
  method SortedKeys(keys: set<Name>) returns (r: seq<Name>)
    ensures r == Sorted(keys)
  {
    r := [];
    var rest := keys;
    while rest != {}
      invariant rest <= keys && Increasing(r)
      invariant forall x :: x in r <==> x in keys - rest
      decreases rest
    {
      var k :| k in rest;
      r := Insert(r, k);
      rest := rest - {k};
    }
    IncreasingUnique(r, Sorted(keys));
  }
}
