/**
 * The order Go's `sort.Strings` uses (byte-wise lexicographic, a proper
 * prefix first) and the sorted, duplicate-free listing of a set of strings
 * that a map's keys give after sorting.
 */
module Order {

  /** `a <= b` in Go's string order. */
  predicate Below(a: string, b: string) {
    |a| == 0 || (|b| > 0 && (a[0] < b[0] || (a[0] == b[0] && Below(a[1..], b[1..]))))
  }

  /** `a < b` in Go's string order. */
  predicate Less(a: string, b: string) {
    Below(a, b) && a != b
  }

  predicate StrictlyAscending(xs: seq<string>) {
    forall i, j :: 0 <= i < j < |xs| ==> Less(xs[i], xs[j])
  }

  lemma {:induction false} BelowReflexive(a: string)
    ensures Below(a, a)
  {
    if |a| > 0 {
      BelowReflexive(a[1..]);
    }
  }

  lemma {:induction false} BelowAntisymmetric(a: string, b: string)
    requires Below(a, b) && Below(b, a)
    ensures a == b
  {
    if |a| > 0 && |b| > 0 {
      BelowAntisymmetric(a[1..], b[1..]);
      assert a == [a[0]] + a[1..];
      assert b == [b[0]] + b[1..];
    }
  }

  lemma {:induction false} BelowTransitive(a: string, b: string, c: string)
    requires Below(a, b) && Below(b, c)
    ensures Below(a, c)
  {
    if |a| > 0 && |b| > 0 && |c| > 0 && a[0] == b[0] && b[0] == c[0] {
      BelowTransitive(a[1..], b[1..], c[1..]);
    }
  }

  lemma {:induction false} BelowTotal(a: string, b: string)
    ensures Below(a, b) || Below(b, a)
  {
    if |a| > 0 && |b| > 0 && a[0] == b[0] {
      BelowTotal(a[1..], b[1..]);
    }
  }

  lemma BelowAntisymmetricAll()
    ensures forall a, b :: Below(a, b) && Below(b, a) ==> a == b
  {
    forall a, b | Below(a, b) && Below(b, a) ensures a == b {
      BelowAntisymmetric(a, b);
    }
  }

  predicate IsLeast(m: string, s: set<string>) {
    m in s && forall y :: y in s ==> Below(m, y)
  }

  /** Every non-empty finite set of strings has a least element. */
  lemma {:induction false} LeastExists(s: set<string>)
    requires s != {}
    ensures exists m :: IsLeast(m, s)
    decreases |s|
  {
    var x :| x in s;
    if s == {x} {
      BelowReflexive(x);
      assert IsLeast(x, s);
    } else {
      var rest := s - {x};
      LeastExists(rest);
      var m :| IsLeast(m, rest);
      BelowTotal(m, x);
      if Below(m, x) {
        assert IsLeast(m, s);
      } else {
        BelowReflexive(x);
        forall y | y in s ensures Below(x, y) {
          if y != x {
            BelowTransitive(x, m, y);
          }
        }
        assert IsLeast(x, s);
      }
    }
  }

  /** The elements of `s` in strictly ascending order: what collecting a map's
      keys and calling `sort.Strings` on them yields, whatever order the map
      iteration produced them in (see `AscendingUnique`). */
  function SortedList(s: set<string>): (r: seq<string>)
    ensures |r| == |s|
    ensures forall x :: x in r <==> x in s
    ensures StrictlyAscending(r)
    decreases |s|
  {
    if s == {} then []
    else
      LeastExists(s);
      BelowAntisymmetricAll();
      var m :| IsLeast(m, s);
      var rest := SortedList(s - {m});
      assert forall i :: 0 <= i < |rest| ==> rest[i] in s - {m};
      assert forall i :: 0 <= i < |rest| ==> Less(m, rest[i]);
      [m] + rest
  }

  /** A strictly ascending sequence is fixed by its elements: two of them with
      the same elements are equal. */
  lemma {:induction false} AscendingUnique(xs: seq<string>, ys: seq<string>)
    requires StrictlyAscending(xs) && StrictlyAscending(ys)
    requires forall x :: x in xs <==> x in ys
    ensures xs == ys
  {
    assert |xs| > 0 ==> xs[0] in ys;
    assert |ys| > 0 ==> ys[0] in xs;
    if |xs| > 0 && |ys| > 0 {
      assert xs[0] == ys[0] by {
        assert xs[0] in ys && ys[0] in xs;
        var i :| 0 <= i < |ys| && ys[i] == xs[0];
        var j :| 0 <= j < |xs| && xs[j] == ys[0];
        if xs[0] != ys[0] {
          assert Less(ys[0], xs[0]) && Less(xs[0], ys[0]);
          BelowAntisymmetric(xs[0], ys[0]);
        }
      }
      forall x ensures x in xs[1..] <==> x in ys[1..] {
        if x in xs[1..] {
          var i :| 1 <= i < |xs| && xs[i] == x;
          assert Less(xs[0], x);
          assert x in xs && x in ys;
          var k :| 0 <= k < |ys| && ys[k] == x;
          assert ys[1..][k - 1] == x;
        }
        if x in ys[1..] {
          var i :| 1 <= i < |ys| && ys[i] == x;
          assert Less(ys[0], x);
          assert x in ys && x in xs;
          var k :| 0 <= k < |xs| && xs[k] == x;
          assert xs[1..][k - 1] == x;
        }
      }
      AscendingUnique(xs[1..], ys[1..]);
      assert xs == [xs[0]] + xs[1..];
      assert ys == [ys[0]] + ys[1..];
    }
  }
}
