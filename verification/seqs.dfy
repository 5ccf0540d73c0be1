/** Facts about lists used by both the occupancy test and the waiting queue. */
module Seqs {

  /** The set of elements of a list. */
  function Elements<T>(s: seq<T>): set<T>
  {
    set x | x in s
  }

  ghost predicate NoDup<T>(s: seq<T>)
  {
    forall i, j | 0 <= i < j < |s| :: s[i] != s[j]
  }

  lemma NoDupCons<T>(x: T, t: seq<T>)
    ensures NoDup([x] + t) <==> x !in t && NoDup(t)
  {
    var s := [x] + t;
    if x !in t && NoDup(t) {
      forall i, j | 0 <= i < j < |s| ensures s[i] != s[j] {
        if i > 0 {
          assert s[i] == t[i - 1] && s[j] == t[j - 1];
        } else {
          assert s[j] == t[j - 1];
        }
      }
    }
    if NoDup(s) {
      forall i, j | 0 <= i < j < |t| ensures t[i] != t[j] {
        assert t[i] == s[i + 1] && t[j] == s[j + 1];
      }
      forall j | 0 <= j < |t| ensures t[j] != x {
        assert t[j] == s[j + 1] && x == s[0];
        assert s[0] != s[j + 1];
      }
    }
  }

  /** A set built from a list is as large as the list exactly when the list
      has no repeated element. */
  lemma {:induction false} ElementsCount<T>(s: seq<T>)
    ensures |Elements(s)| <= |s|
    ensures |Elements(s)| == |s| <==> NoDup(s)
  {
    if |s| == 0 {
      assert Elements(s) == {};
    } else {
      var t := s[1..];
      ElementsCount(t);
      assert s == [s[0]] + t;
      assert Elements(s) == {s[0]} + Elements(t);
      NoDupCons(s[0], t);
      if s[0] in t {
        assert Elements(s) == Elements(t);
      } else {
        assert s[0] !in Elements(t);
      }
    }
  }

  /** Position of the first occurrence of `x`: `Array.prototype.indexOf`. */
  function IndexOf<T(==)>(q: seq<T>, x: T): (r: int)
    ensures -1 <= r < |q|
    ensures 0 <= r ==> q[r] == x && x !in q[..r]
    ensures r == -1 <==> x !in q
  {
    if |q| == 0 then -1
    else if q[0] == x then 0
    else
      var i := IndexOf(q[1..], x);
      if i == -1 then -1
      else
        assert q[..i + 1] == [q[0]] + q[1..][..i];
        i + 1
  }

  /** `const i = q.indexOf(x); if (i !== -1) q.splice(i, 1)`: the first
      occurrence of `x` is taken out, everything else keeps its order. */
  function RemoveFirst<T(==)>(q: seq<T>, x: T): (r: seq<T>)
    ensures x !in q ==> r == q
    ensures x in q ==> 0 <= IndexOf(q, x) && r == q[..IndexOf(q, x)] + q[IndexOf(q, x) + 1..]
    ensures x in q ==> |r| == |q| - 1 && multiset(r) == multiset(q) - multiset{x}
  {
    var i := IndexOf(q, x);
    if i == -1 then q
    else
      assert q == q[..i] + [q[i]] + q[i + 1..];
      q[..i] + q[i + 1..]
  }

  /** Where the elements of a list with position `i` cut out come from. */
  lemma CutAt<T>(q: seq<T>, i: nat, r: seq<T>)
    requires i < |q| && r == q[..i] + q[i + 1..]
    ensures |r| == |q| - 1
    ensures forall a | 0 <= a < i :: r[a] == q[a]
    ensures forall a | i <= a < |r| :: r[a] == q[a + 1]
  {
  }

  /** Removing one occurrence keeps a list free of repeats, leaves no copy of
      the removed element behind, and adds nothing. */
  lemma RemoveFirstNoDup<T>(q: seq<T>, x: T)
    requires NoDup(q)
    ensures NoDup(RemoveFirst(q, x)) && x !in RemoveFirst(q, x)
    ensures forall y | y in RemoveFirst(q, x) :: y in q
  {
    var r := RemoveFirst(q, x);
    if x in q {
      var i := IndexOf(q, x);
      CutAt(q, i, r);
      forall a, b | 0 <= a < b < |r| ensures r[a] != r[b] {
        var a', b' := if a < i then a else a + 1, if b < i then b else b + 1;
        assert r[a] == q[a'] && r[b] == q[b'];
      }
      forall a | 0 <= a < |r| ensures r[a] != x && r[a] in q {
        var a' := if a < i then a else a + 1;
        assert r[a] == q[a'] && a' != i;
      }
    }
  }

  /** Appending an element that is not yet present keeps a list free of repeats. */
  lemma AppendNewNoDup<T>(q: seq<T>, x: T)
    requires NoDup(q) && x !in q
    ensures NoDup(q + [x])
  {
    var r := q + [x];
    forall i, j | 0 <= i < j < |r| ensures r[i] != r[j] {
      assert r[i] == q[i];
    }
  }

  /** Removing the first occurrence of `x` keeps every other element. */
  lemma RemoveFirstKeepsOthers<T>(q: seq<T>, x: T, y: T)
    requires y in q && y != x
    ensures y in RemoveFirst(q, x)
  {
    var r := RemoveFirst(q, x);
    if x in q {
      assert multiset(r) == multiset(q) - multiset{x};
      assert multiset(q)[y] > 0;
      assert multiset(r)[y] > 0;
    }
  }

  /** The two front elements of a list without repeats differ from each
      other and from everything behind them. */
  lemma DropTwoNoDup<T>(q: seq<T>)
    requires |q| >= 2 && NoDup(q)
    ensures NoDup(q[2..]) && q[0] != q[1] && q[0] !in q[2..] && q[1] !in q[2..]
    ensures forall x | x in q[2..] :: x in q
  {
    assert q == [q[0]] + ([q[1]] + q[2..]);
    NoDupCons(q[0], [q[1]] + q[2..]);
    NoDupCons(q[1], q[2..]);
  }
}
