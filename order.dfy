/**
 * Go's ordering of strings (byte-wise lexicographic, as `<` and sort.Strings
 * use it) and sorting a finite set of names by it.
 */
module Order {
  import opened Text

  /** Go's `a < b` on strings: the first differing byte decides, and a proper
      prefix comes first. */
  predicate Below(a: Bytes, b: Bytes) {
    if b == [] then false
    else if a == [] then true
    else if a[0] != b[0] then a[0] < b[0]
    else Below(a[1..], b[1..])
  }

  lemma {:induction false} BelowIrreflexive(a: Bytes)
    ensures !Below(a, a)
  {
    if a != [] {
      BelowIrreflexive(a[1..]);
    }
  }

  lemma {:induction false} BelowTransitive(a: Bytes, b: Bytes, c: Bytes)
    requires Below(a, b) && Below(b, c)
    ensures Below(a, c)
  {
    if a != [] && a[0] == b[0] && b[0] == c[0] {
      BelowTransitive(a[1..], b[1..], c[1..]);
    }
  }

  lemma {:induction false} BelowTotal(a: Bytes, b: Bytes)
    requires a != b
    ensures Below(a, b) || Below(b, a)
  {
    if a != [] && b != [] && a[0] == b[0] {
      assert a == [a[0]] + a[1..] && b == [b[0]] + b[1..];
      BelowTotal(a[1..], b[1..]);
    }
  }

  lemma BelowAsymmetric(a: Bytes, b: Bytes)
    requires Below(a, b)
    ensures !Below(b, a)
  {
    if Below(b, a) {
      BelowTransitive(a, b, a);
      BelowIrreflexive(a);
    }
  }

  /** A shared prefix does not change the order. */
  lemma {:induction false} BelowCommonPrefix(p: Bytes, a: Bytes, b: Bytes)
    ensures Below(p + a, p + b) == Below(a, b)
  {
    if p != [] {
      assert (p + a)[1..] == p[1..] + a && (p + b)[1..] == p[1..] + b;
      BelowCommonPrefix(p[1..], a, b);
    } else {
      assert p + a == a && p + b == b;
    }
  }

  /** Between two strings of equal length, whatever follows does not change
      the order. */
  lemma {:induction false} BelowEqualLengthPrefix(a: Bytes, b: Bytes, s: Bytes, t: Bytes)
    requires |a| == |b| && Below(a, b)
    ensures Below(a + s, b + t)
  {
    if a[0] == b[0] {
      assert (a + s)[1..] == a[1..] + s && (b + t)[1..] == b[1..] + t;
      BelowEqualLengthPrefix(a[1..], b[1..], s, t);
    }
  }

  /** Digits of a larger value come later in the byte order. */
  lemma HexCharOrder(d: nat, e: nat)
    requires d < e < 16
    ensures HexChar(d) < HexChar(e)
  {
  }

  lemma MulCancel(b: int, x: int, y: int)
    requires b > 0 && b * x < b * y
    ensures x < y
  {
  }

  lemma QuotientOrder(b: int, p: int, qi: int, ri: int, qj: int, rj: int)
    requires b > 0 && 0 <= ri < b && 0 <= rj < b
    requires 0 <= b * qi + ri < b * qj + rj < b * p
    ensures 0 <= qi <= qj < p
    ensures qi == qj ==> ri < rj
  {
    assert b * -1 < b * qi;
    MulCancel(b, -1, qi);
    MulCancel(b, qj, p);
    assert b * qj + b == b * (qj + 1);
    MulCancel(b, qi, qj + 1);
  }

  lemma DivisionSplit(b: nat, p: nat, i: nat, j: nat)
    requires b >= 2 && i < j < b * p
    ensures 0 <= i / b && 0 <= i % b < b && 0 <= j % b < b
    ensures j / b < p
    ensures i / b <= j / b
    ensures i / b == j / b ==> i % b < j % b
  {
    QuotientOrder(b, p, i / b, i % b, j / b, j % b);
  }

  lemma DigitSplit(b: nat, w: nat, i: nat, j: nat)
    requires 2 <= b <= 16 && w > 0 && i < j < Pow(b, w)
    ensures 0 <= i / b && 0 <= i % b < b && 0 <= j % b < b
    ensures j / b < Pow(b, w - 1)
    ensures i / b <= j / b
    ensures i / b == j / b ==> i % b < j % b
  {
    var p := Pow(b, w - 1);
    assert Pow(b, w) == b * p;
    DivisionSplit(b, p, i, j);
  }

  lemma PaddedLast(b: nat, w: nat, n: nat)
    requires 2 <= b <= 16 && w > 0
    ensures Padded(b, w, n) == Padded(b, w - 1, n / b) + [HexChar(n % b)]
  {
  }

  /** Zero-padded numbers of one width sort as the numbers do. */
  lemma {:induction false} PaddedOrder(b: nat, w: nat, i: nat, j: nat)
    requires 2 <= b <= 16 && i < j < Pow(b, w)
    ensures Below(Padded(b, w, i), Padded(b, w, j))
  {
    if w == 0 {
      assert false;
    }
    DigitSplit(b, w, i, j);
    var qi, qj, ri, rj := i / b, j / b, i % b, j % b;
    PaddedLast(b, w, i);
    PaddedLast(b, w, j);
    if qi < qj {
      PaddedOrder(b, w - 1, qi, qj);
      BelowEqualLengthPrefix(Padded(b, w - 1, qi), Padded(b, w - 1, qj), [HexChar(ri)], [HexChar(rj)]);
    } else {
      HexCharOrder(ri, rj);
      BelowCommonPrefix(Padded(b, w - 1, qi), [HexChar(ri)], [HexChar(rj)]);
    }
  }

  /** `m` is the smallest element of `s`. */
  predicate IsLeast(m: Bytes, s: set<Bytes>) {
    m in s && forall x :: x in s && x != m ==> Below(m, x)
  }

  lemma {:induction false} LeastExists(s: set<Bytes>)
    requires s != {}
    ensures exists m :: IsLeast(m, s)
    decreases s
  {
    var x :| x in s;
    if s == {x} {
      assert IsLeast(x, s);
    } else {
      LeastExists(s - {x});
      var m :| IsLeast(m, s - {x});
      if Below(x, m) {
        forall y | y in s && y != x ensures Below(x, y) {
          if y != m { BelowTransitive(x, m, y); }
        }
        assert IsLeast(x, s);
      } else {
        BelowTotal(x, m);
        assert IsLeast(m, s);
      }
    }
  }

  lemma LeastUnique(m: Bytes, n: Bytes, s: set<Bytes>)
    requires IsLeast(m, s) && IsLeast(n, s)
    ensures m == n
  {
    if m != n {
      BelowAsymmetric(m, n);
    }
  }

  ghost function Least(s: set<Bytes>): (m: Bytes)
    requires s != {}
    ensures IsLeast(m, s)
  {
    LeastExists(s);
    var m :| IsLeast(m, s); m
  }

  /** The elements of `s` in ascending order. */
  ghost function SortedNames(s: set<Bytes>): seq<Bytes>
    decreases s
  {
    if s == {} then [] else var m := Least(s); [m] + SortedNames(s - {m})
  }

  predicate Ascending(r: seq<Bytes>) {
    forall i, j :: 0 <= i < j < |r| ==> Below(r[i], r[j])
  }

  function Elements(r: seq<Bytes>): set<Bytes> {
    set x | x in r
  }

  /** Putting an element below all others in front keeps a sequence ascending. */
  lemma ConsAscending(m: Bytes, rest: seq<Bytes>)
    requires Ascending(rest)
    requires forall x :: x in rest ==> Below(m, x)
    ensures Ascending([m] + rest)
  {
    var r := [m] + rest;
    forall i, j | 0 <= i < j < |r| ensures Below(r[i], r[j]) {
      assert r[j] == rest[j - 1];
      if i > 0 {
        assert r[i] == rest[i - 1];
      }
    }
  }

  /** SortedNames(s) holds every element of s exactly once, in ascending order. */
  lemma {:induction false} SortedNamesSpec(s: set<Bytes>)
    ensures Ascending(SortedNames(s))
    ensures Elements(SortedNames(s)) == s
    ensures |SortedNames(s)| == |s|
    decreases s
  {
    if s != {} {
      var m := Least(s);
      var rest := SortedNames(s - {m});
      SortedNamesSpec(s - {m});
      assert SortedNames(s) == [m] + rest;
      forall x | x in rest ensures Below(m, x) {
        assert x in Elements(rest);
      }
      ConsAscending(m, rest);
      assert Elements([m] + rest) == {m} + Elements(rest);
    }
  }

  /** An ascending sequence is the sorted arrangement of its elements. */
  lemma {:induction false} AscendingIsSorted(r: seq<Bytes>)
    requires Ascending(r)
    ensures SortedNames(Elements(r)) == r
  {
    if r != [] {
      var s := Elements(r);
      forall x | x in s && x != r[0] ensures Below(r[0], x) {
        var j :| 0 <= j < |r| && r[j] == x;
        assert j > 0;
      }
      assert IsLeast(r[0], s);
      LeastUnique(Least(s), r[0], s);
      assert Ascending(r[1..]);
      forall x ensures x in s - {r[0]} <==> x in Elements(r[1..]) {
        if x in r[1..] {
          var j :| 1 <= j < |r| && r[j] == x;
          BelowIrreflexive(r[0]);
          assert Below(r[0], r[j]);
        }
      }
      assert s - {r[0]} == Elements(r[1..]);
      AscendingIsSorted(r[1..]);
      assert r == [r[0]] + r[1..];
    }
  }

  /** sort.Strings over the names of a set: selection of the least remaining
      name, one at a time. */
  method SortStrings(s: set<Bytes>) returns (r: seq<Bytes>)
    ensures r == SortedNames(s)
  {
    r := [];
    var rest := s;
    while rest != {}
      invariant r + SortedNames(rest) == SortedNames(s)
      decreases rest
    {
      LeastExists(rest);
      var m :| IsLeast(m, rest);
      LeastUnique(m, Least(rest), rest);
      r := r + [m];
      rest := rest - {m};
    }
  }
}
