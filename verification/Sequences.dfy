/** First-seen order, multiplicities and permutations of sequences. */
module Sequences {
  import opened Octets

  function FirstSeen<T(==)>(s: seq<T>): seq<T> {
    if s == [] then [] else
    var before := FirstSeen(s[..|s| - 1]);
    if s[|s| - 1] in s[..|s| - 1] then before else before + [s[|s| - 1]]
  }

  ghost predicate Distinct<T>(s: seq<T>) {
    forall i, j :: 0 <= i < j < |s| ==> s[i] != s[j]
  }

  lemma FirstSeenAppend<T>(s: seq<T>, x: T)
    ensures FirstSeen(s + [x]) == if x in s then FirstSeen(s) else FirstSeen(s) + [x]
  {
    assert (s + [x])[..|s|] == s;
  }

  lemma {:induction false} FirstSeenElements<T>(s: seq<T>)
    ensures Distinct(FirstSeen(s))
    ensures forall x :: x in FirstSeen(s) <==> x in s
    ensures forall i :: 0 <= i < |FirstSeen(s)| ==> FirstSeen(s)[i] in s
  {
    if s != [] {
      var before, last := s[..|s| - 1], s[|s| - 1];
      assert s == before + [last];
      FirstSeenElements(before);
    }
  }

  /** The position of the first occurrence. */
  function IndexOf<T(==)>(s: seq<T>, x: T): (i: nat)
    requires x in s
    ensures i < |s| && s[i] == x && x !in s[..i]
  {
    if s[0] == x then 0 else
    assert s == [s[0]] + s[1..];
    var i := 1 + IndexOf(s[1..], x);
    assert s[..i] == [s[0]] + s[1..][..i - 1];
    i
  }

  lemma IndexOfIsUnique<T>(s: seq<T>, i: nat)
    requires i < |s| && s[i] !in s[..i]
    ensures IndexOf(s, s[i]) == i
  {
    var j := IndexOf(s, s[i]);
    assert forall k :: 0 <= k < i ==> s[k] == s[..i][k] != s[i];
    assert forall k :: 0 <= k < j ==> s[k] == s[..j][k] != s[i];
  }

  lemma IndexOfAppend<T>(s: seq<T>, t: seq<T>, x: T)
    requires x in s
    ensures x in s + t && IndexOf(s + t, x) == IndexOf(s, x)
  {
    var i := IndexOf(s, x);
    assert (s + t)[i] == x && (s + t)[..i] == s[..i];
    IndexOfIsUnique(s + t, i);
  }

  /** First-seen order is the order of first occurrences. */
  lemma {:induction false} FirstSeenOrder<T>(s: seq<T>, i: nat, j: nat)
    requires i < j < |FirstSeen(s)|
    ensures FirstSeen(s)[i] in s && FirstSeen(s)[j] in s
    ensures IndexOf(s, FirstSeen(s)[i]) < IndexOf(s, FirstSeen(s)[j])
  {
    FirstSeenElements(s);
    var before, last := s[..|s| - 1], s[|s| - 1];
    assert s == before + [last];
    FirstSeenAppend(before, last);
    FirstSeenElements(before);
    var first := FirstSeen(before);
    IndexOfAppend(before, [last], first[i]);
    if j < |first| {
      IndexOfAppend(before, [last], first[j]);
      FirstSeenOrder(before, i, j);
    } else {
      IndexOfIsUnique(s, |before|);
    }
  }

  lemma MultisetAppend<T>(s: seq<T>, x: T)
    ensures multiset(s + [x]) == multiset(s) + multiset{x}
  {
  }

  /** One more element changes only its own multiplicity. */
  lemma CountsAppend<T>(s: seq<T>, x: T, y: T)
    ensures multiset(s + [x])[y] == multiset(s)[y] + if y == x then 1 else 0
  {
    MultisetAppend(s, x);
  }

  /** A distinct sequence holds each of its elements once. */
  lemma {:induction false} DistinctMultiset<T>(s: seq<T>)
    requires Distinct(s)
    ensures forall x :: multiset(s)[x] == if x in s then 1 else 0
  {
    if s != [] {
      var before, last := s[..|s| - 1], s[|s| - 1];
      assert s == before + [last];
      DistinctMultiset(before);
    }
  }

  /** Two distinct sequences with the same elements are permutations of each other. */
  lemma DistinctPermutation<T>(a: seq<T>, b: seq<T>)
    requires Distinct(a) && Distinct(b)
    requires forall x :: x in a <==> x in b
    ensures multiset(a) == multiset(b)
  {
    DistinctMultiset(a);
    DistinctMultiset(b);
    assert forall x :: multiset(a)[x] == multiset(b)[x];
  }

  // ----- sums of multiplicities

  function Sum(s: seq<nat>): nat {
    if s == [] then 0 else Sum(s[..|s| - 1]) + s[|s| - 1]
  }

  /** The multiplicities in `s` of the elements listed in `of`. */
  ghost function Multiplicities<T>(of: seq<T>, s: seq<T>): seq<nat> {
    seq(|of|, i requires 0 <= i < |of| => multiset(s)[of[i]])
  }

  ghost function CountOutside<T>(s: seq<T>, of: seq<T>): nat {
    if s == [] then 0 else CountOutside(s[..|s| - 1], of) + (if s[|s| - 1] in of then 0 else 1)
  }

  lemma {:induction false} SumBump(s: seq<nat>, t: seq<nat>, at: nat)
    requires at < |s| == |t| && t[at] == s[at] + 1
    requires forall i :: 0 <= i < |s| && i != at ==> s[i] == t[i]
    ensures Sum(t) == Sum(s) + 1
  {
    var n := |s| - 1;
    if at == n {
      assert s[..n] == t[..n];
    } else {
      SumBump(s[..n], t[..n], at);
    }
  }

  lemma {:induction false} SumZero(s: seq<nat>)
    requires forall i :: 0 <= i < |s| ==> s[i] == 0
    ensures Sum(s) == 0
  {
    if s != [] {
      SumZero(s[..|s| - 1]);
    }
  }

  /** Every element of `s` is either counted under one of the listed elements or outside. */
  lemma {:induction false} MultiplicitiesPartition<T>(of: seq<T>, s: seq<T>)
    requires Distinct(of)
    ensures Sum(Multiplicities(of, s)) + CountOutside(s, of) == |s|
  {
    if s == [] {
      SumZero(Multiplicities(of, s));
    } else {
      var before, last := s[..|s| - 1], s[|s| - 1];
      assert s == before + [last];
      MultisetAppend(before, last);
      MultiplicitiesPartition(of, before);
      if last in of {
        SumBump(Multiplicities(of, before), Multiplicities(of, s), IndexOf(of, last));
      } else {
        assert Multiplicities(of, before) == Multiplicities(of, s);
      }
    }
  }

  /** Lowering some terms keeps the sum exactly when no term was lowered. */
  lemma {:induction false} SumLowered(s: seq<nat>, t: seq<nat>)
    requires |s| == |t| && forall i :: 0 <= i < |s| ==> t[i] <= s[i]
    ensures Sum(t) <= Sum(s)
    ensures Sum(t) == Sum(s) <==> s == t
  {
    if s != [] {
      var n := |s| - 1;
      SumLowered(s[..n], t[..n]);
      assert s == s[..n] + [s[n]] && t == t[..n] + [t[n]];
    }
  }

  // ----- ascending hardware addresses (`BTreeSet` iteration order)

  predicate Less(a: seq<u8>, b: seq<u8>)
    requires |a| == |b|
  {
    |a| > 0 && (a[0] < b[0] || (a[0] == b[0] && Less(a[1..], b[1..])))
  }

  lemma LessIsTotal(a: seq<u8>, b: seq<u8>)
    requires |a| == |b|
    ensures Less(a, b) || Less(b, a) || a == b
    ensures !(Less(a, b) && Less(b, a))
    ensures !Less(a, a)
  {
    if |a| > 0 {
      LessIsTotal(a[1..], b[1..]);
      assert a == [a[0]] + a[1..] && b == [b[0]] + b[1..];
    }
  }

  lemma LessIsTransitive(a: seq<u8>, b: seq<u8>, c: seq<u8>)
    requires |a| == |b| == |c| && Less(a, b) && Less(b, c)
    ensures Less(a, c)
  {
    if a[0] == b[0] == c[0] {
      LessIsTransitive(a[1..], b[1..], c[1..]);
    }
  }

  /** One address is less than another exactly when it is smaller at the first octet where they differ. */
  lemma {:induction false} LessAtFirstDifference(a: seq<u8>, b: seq<u8>)
    requires |a| == |b|
    ensures Less(a, b) <==> exists k :: 0 <= k < |a| && a[..k] == b[..k] && a[k] < b[k]
  {
    if |a| > 0 {
      LessAtFirstDifference(a[1..], b[1..]);
      if a[0] < b[0] {
        assert a[..0] == b[..0];
      }
      if a[0] == b[0] && Less(a[1..], b[1..]) {
        var k :| 0 <= k < |a[1..]| && a[1..][..k] == b[1..][..k] && a[1..][k] < b[1..][k];
        assert a[..k + 1] == [a[0]] + a[1..][..k] && b[..k + 1] == [b[0]] + b[1..][..k];
        assert a[..k + 1] == b[..k + 1] && a[k + 1] < b[k + 1];
      }
      if k :| 0 < k < |a| && a[..k] == b[..k] && a[k] < b[k] {
        assert a[0] == a[..k][0] == b[..k][0] == b[0];
        assert a[1..][..k - 1] == a[..k][1..] == b[..k][1..] == b[1..][..k - 1];
        assert a[1..][k - 1] < b[1..][k - 1];
      }
    }
  }

  /** An address as a 48-bit number, first octet most significant. */
  function AddressNumber(m: Mac): nat {
    m[0] as nat * 0x100_0000_0000 + m[1] as nat * 0x1_0000_0000 + m[2] as nat * 0x100_0000
    + m[3] as nat * 0x1_0000 + m[4] as nat * 0x100 + m[5] as nat
  }

  lemma LessIsNumeric(a: Mac, b: Mac)
    requires Less(a, b)
    ensures AddressNumber(a) < AddressNumber(b)
  {
    LessAtFirstDifference(a, b);
    var k :| 0 <= k < 6 && a[..k] == b[..k] && a[k] < b[k];
    assert forall i :: 0 <= i < k ==> a[i] == a[..k][i] == b[..k][i] == b[i];
  }

  predicate IsLeast(m: Mac, s: set<Mac>) {
    m in s && forall x :: x in s && x != m ==> Less(m, x)
  }

  lemma LeastExists(s: set<Mac>) returns (m: Mac)
    requires s != {}
    ensures IsLeast(m, s)
  {
    var x :| x in s;
    var rest := s - {x};
    if rest == {} {
      assert s == {x};
      m := x;
    } else {
      var least := LeastExists(rest);
      LessIsTotal(x, least);
      m := if Less(x, least) then x else least;
      forall y | y in s && y != m
        ensures Less(m, y)
      {
        if m == x && y != least {
          LessIsTransitive(x, least, y);
        }
      }
    }
  }

  predicate Ascending(s: seq<Mac>) {
    forall i, j :: 0 <= i < j < |s| ==> Less(s[i], s[j])
  }

  lemma AscendingIsNumeric(s: seq<Mac>)
    requires Ascending(s)
    ensures forall i, j :: 0 <= i < j < |s| ==> AddressNumber(s[i]) < AddressNumber(s[j])
  {
    forall i, j | 0 <= i < j < |s|
      ensures AddressNumber(s[i]) < AddressNumber(s[j])
    {
      LessIsNumeric(s[i], s[j]);
    }
  }

  function InAscendingOrder(s: set<Mac>): (r: seq<Mac>)
    ensures Ascending(r)
    ensures forall x :: x in r <==> x in s
    ensures |r| == |s|
  {
    if s == {} then [] else
    assert exists m :: IsLeast(m, s) by { var m := LeastExists(s); }
    assert forall m: Mac, n: Mac :: IsLeast(m, s) && IsLeast(n, s) ==> m == n by {
      forall m: Mac, n: Mac | IsLeast(m, s) && IsLeast(n, s) ensures m == n {
        LessIsTotal(m, n);
      }
    }
    var m :| IsLeast(m, s);
    [m] + InAscendingOrder(s - {m})
  }
}
