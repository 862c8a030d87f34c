/** QString as a sequence of UTF-16 code units, its order, and the sorted iteration of a QMap. */
module Text {
  type CodeUnit = x: int | 0 <= x < 0x1_0000
  type QString = seq<CodeUnit>

  // operator< of QString: code unit by code unit, a prefix comes first.
  predicate Before(a: QString, b: QString)
  {
    b != [] && (a == [] || a[0] < b[0] || (a[0] == b[0] && Before(a[1..], b[1..])))
  }

  // The first unit in which they differ decides; when there is none, the shorter one comes first.
  lemma {:induction false} BeforeMeans(a: QString, b: QString)
    ensures Before(a, b) <==> a < b || exists i: nat :: i < |a| && i < |b| && a[..i] == b[..i] && a[i] < b[i]
  {
    if a != [] && b != [] {
      if a[0] == b[0] {
        BeforeMeans(a[1..], b[1..]);
        assert a == [a[0]] + a[1..] && b == [b[0]] + b[1..];
        assert a < b <==> a[1..] < b[1..];
        if i: nat :| i < |a[1..]| && i < |b[1..]| && a[1..][..i] == b[1..][..i] && a[1..][i] < b[1..][i] {
          assert a[..i + 1] == [a[0]] + a[1..][..i] && b[..i + 1] == [b[0]] + b[1..][..i];
          assert a[i + 1] < b[i + 1];
        }
        if i: nat :| i < |a| && i < |b| && a[..i] == b[..i] && a[i] < b[i] {
          assert a[1..][..i - 1] == a[..i][1..] && b[1..][..i - 1] == b[..i][1..];
          assert a[1..][i - 1] < b[1..][i - 1];
        }
      } else if a[0] < b[0] {
        assert a[..0] == b[..0];
      } else {
        forall i: nat | 0 < i < |a| && i < |b| ensures a[..i] != b[..i] {
          assert a[..i][0] == a[0] && b[..i][0] == b[0];
        }
      }
    }
  }

  lemma {:induction false} BeforeTransitive(a: QString, b: QString, c: QString)
    requires Before(a, b) && Before(b, c)
    ensures Before(a, c)
  {
    if a != [] && a[0] == b[0] && b[0] == c[0] {
      BeforeTransitive(a[1..], b[1..], c[1..]);
    }
  }

  lemma {:induction false} BeforeTotal(a: QString, b: QString)
    ensures Before(a, b) || Before(b, a) || a == b
  {
    if a != [] && b != [] && a[0] == b[0] {
      BeforeTotal(a[1..], b[1..]);
      assert a == [a[0]] + a[1..] && b == [b[0]] + b[1..];
    }
  }

  lemma {:induction false} BeforeAsymmetric(a: QString, b: QString)
    requires Before(a, b)
    ensures !Before(b, a) && a != b
  {
    if a != [] && a[0] == b[0] {
      BeforeAsymmetric(a[1..], b[1..]);
    }
  }

  predicate IsLeast(m: QString, s: set<QString>)
  {
    m in s && forall x :: x in s ==> x == m || Before(m, x)
  }

  lemma {:induction false} LeastExists(s: set<QString>)
    requires s != {}
    ensures exists m :: IsLeast(m, s)
  {
    var x :| x in s;
    if s == {x} {
      assert IsLeast(x, s);
    } else {
      var rest := s - {x};
      LeastExists(rest);
      var m :| IsLeast(m, rest);
      BeforeTotal(x, m);
      if Before(x, m) {
        forall y | y in s ensures y == x || Before(x, y) {
          if y in rest && y != m {
            BeforeTransitive(x, m, y);
          }
        }
        assert IsLeast(x, s);
      } else {
        assert IsLeast(m, s);
      }
    }
  }

  lemma LeastUnique(m: QString, n: QString, s: set<QString>)
    requires IsLeast(m, s) && IsLeast(n, s)
    ensures m == n
  {
    if m != n {
      BeforeAsymmetric(m, n);
    }
  }

  function Least(s: set<QString>): (m: QString)
    requires s != {}
    ensures IsLeast(m, s)
  {
    LeastExists(s);
    assert forall m, n :: IsLeast(m, s) && IsLeast(n, s) ==> m == n by {
      forall m, n | IsLeast(m, s) && IsLeast(n, s) ensures m == n {
        LeastUnique(m, n, s);
      }
    }
    var m :| IsLeast(m, s) && m in s;
    m
  }

  // The keys of a map in the order in which its iterator visits them.
  function Sorted(s: set<QString>): (l: seq<QString>)
    ensures |l| == |s|
    ensures forall x :: x in s <==> x in l
    ensures forall i, j :: 0 <= i < j < |l| ==> Before(l[i], l[j])
    decreases |s|
  {
    if s == {} then []
    else
      var m := Least(s);
      var rest := Sorted(s - {m});
      assert forall x :: x in rest ==> Before(m, x);
      [m] + rest
  }
}
