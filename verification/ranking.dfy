/**
 The ordering step of the tempo vote: the analyzer collects `(tempo, score)`
 pairs and takes the head of `sorted(pairs, key=score, reverse=True)`.
 Python's sort is stable also when `reverse=True`, so the order it produces is
 the unique stable descending order; here it is written as an insertion sort
 and proved sorted, a permutation, stable per score, and to start with the
 first pair of maximal score.
 */
module Ranking {

  /** A candidate tempo paired with its vote score. */
  datatype Scored = Scored(tempo: nat, score: nat)

  ghost predicate SortedDesc(s: seq<Scored>) {
    forall i, j :: 0 <= i < j < |s| ==> s[i].score >= s[j].score
  }

  /** `k` is the first position of `s` that holds its maximal score. */
  ghost predicate IsFirstMax(s: seq<Scored>, k: nat) {
    && k < |s|
    && (forall j :: 0 <= j < |s| ==> s[j].score <= s[k].score)
    && (forall j :: 0 <= j < k ==> s[j].score < s[k].score)
  }

  /** The pairs of `s` whose score is `v`, in the order of `s`. */
  function WithScore(s: seq<Scored>, v: nat): seq<Scored>
  {
    if |s| == 0 then []
    else (if s[0].score == v then [s[0]] else []) + WithScore(s[1..], v)
  }

  /**
   Inserts `x` into a descending `l` in front of the first element whose score
   it reaches; `x` stands for an element that came before all of `l`, so on a
   tie it stays in front.
   */
  function InsertDesc(x: Scored, l: seq<Scored>): (r: seq<Scored>)
    ensures |r| == |l| + 1
    ensures multiset(r) == multiset(l) + multiset{x}
    ensures |l| == 0 || x.score >= l[0].score ==> r[0] == x
    ensures |l| > 0 && x.score < l[0].score ==> r[0] == l[0]
  {
    if |l| == 0 then [x]
    else if x.score >= l[0].score then [x] + l
    else
      assert l == [l[0]] + l[1..];
      [l[0]] + InsertDesc(x, l[1..])
  }

  lemma {:induction false} InsertDescMembers(x: Scored, l: seq<Scored>, e: Scored)
    ensures e in InsertDesc(x, l) ==> e == x || e in l
    decreases |l|
  {
    if |l| > 0 && x.score < l[0].score {
      InsertDescMembers(x, l[1..], e);
      assert l == [l[0]] + l[1..];
    }
  }

  lemma {:induction false} InsertDescSorted(x: Scored, l: seq<Scored>)
    requires SortedDesc(l)
    ensures SortedDesc(InsertDesc(x, l))
    decreases |l|
  {
    if |l| > 0 && x.score < l[0].score {
      var rest := InsertDesc(x, l[1..]);
      InsertDescSorted(x, l[1..]);
      var r := InsertDesc(x, l);
      assert r == [l[0]] + rest;
      forall j | 0 <= j < |rest| ensures l[0].score >= rest[j].score {
        var e := rest[j];
        InsertDescMembers(x, l[1..], e);
        if e != x {
          var k :| 0 <= k < |l[1..]| && l[1..][k] == e;
          assert l[k + 1] == e;
        }
      }
      forall i, j | 0 <= i < j < |r| ensures r[i].score >= r[j].score {
        if i > 0 {
          assert r[i] == rest[i - 1] && r[j] == rest[j - 1];
        } else {
          assert r[j] == rest[j - 1];
        }
      }
    }
  }

  /** Stable descending sort by score. */
  function SortDesc(s: seq<Scored>): (r: seq<Scored>)
    ensures |r| == |s|
    ensures multiset(r) == multiset(s)
    ensures SortedDesc(r)
  {
    if |s| == 0 then []
    else
      assert s == [s[0]] + s[1..];
      InsertDescSorted(s[0], SortDesc(s[1..]));
      InsertDesc(s[0], SortDesc(s[1..]))
  }

  lemma {:induction false} WithScoreAppend(a: seq<Scored>, b: seq<Scored>, v: nat)
    ensures WithScore(a + b, v) == WithScore(a, v) + WithScore(b, v)
    decreases |a|
  {
    if |a| == 0 {
      assert a + b == b;
    } else {
      var ab := a + b;
      assert ab[0] == a[0] && ab[1..] == a[1..] + b;
      WithScoreAppend(a[1..], b, v);
      WithScoreCons(ab, v);
      WithScoreCons(a, v);
    }
  }

  lemma WithScoreSingle(e: Scored, v: nat)
    ensures WithScore([e], v) == if e.score == v then [e] else []
  {
    assert [e][1..] == [];
  }

  /** Pairs of different scores never both land in class `v`, so their class lists commute. */
  lemma SwapClasses(x: Scored, y: Scored, v: nat, t: seq<Scored>)
    requires x.score != y.score
    ensures WithScore([y], v) + (WithScore([x], v) + t) == WithScore([x], v) + (WithScore([y], v) + t)
  {
    if x.score == v {
      WithScoreSingle(y, v);
      assert WithScore([y], v) == [];
    } else {
      WithScoreSingle(x, v);
      assert WithScore([x], v) == [];
    }
  }

  /** Inserting `x` keeps every score class in order, with `x` first in its own. */
  lemma {:induction false} InsertDescStable(x: Scored, l: seq<Scored>, v: nat)
    ensures WithScore(InsertDesc(x, l), v) == WithScore([x], v) + WithScore(l, v)
    decreases |l|
  {
    if |l| == 0 {
    } else if x.score >= l[0].score {
      WithScoreAppend([x], l, v);
    } else {
      var rest := InsertDesc(x, l[1..]);
      assert InsertDesc(x, l) == [l[0]] + rest;
      assert l == [l[0]] + l[1..];
      InsertDescStable(x, l[1..], v);
      WithScoreAppend([l[0]], rest, v);
      WithScoreAppend([l[0]], l[1..], v);
      SwapClasses(x, l[0], v, WithScore(l[1..], v));
    }
  }

  lemma SortDescCons(s: seq<Scored>)
    requires |s| > 0
    ensures SortDesc(s) == InsertDesc(s[0], SortDesc(s[1..]))
  {
  }

  lemma WithScoreCons(s: seq<Scored>, v: nat)
    requires |s| > 0
    ensures WithScore(s, v) == WithScore([s[0]], v) + WithScore(s[1..], v)
  {
    WithScoreSingle(s[0], v);
  }

  /** The sort is stable: pairs of equal score keep their original relative order. */
  lemma {:induction false} SortDescStable(s: seq<Scored>, v: nat)
    ensures WithScore(SortDesc(s), v) == WithScore(s, v)
    decreases |s|
  {
    if |s| > 0 {
      var t := SortDesc(s[1..]);
      SortDescCons(s);
      SortDescStable(s[1..], v);
      InsertDescStable(s[0], t, v);
      WithScoreCons(s, v);
    }
  }

  lemma {:induction false} WithScoreMembers(s: seq<Scored>, v: nat, e: Scored)
    ensures e in WithScore(s, v) <==> e in s && e.score == v
    decreases |s|
  {
    if |s| > 0 {
      WithScoreMembers(s[1..], v, e);
      assert s == [s[0]] + s[1..];
    }
  }

  lemma WithScoreOfHead(s: seq<Scored>)
    requires |s| > 0
    ensures WithScore(s, s[0].score) != []
  {
  }

  /** The head of a list leads its own score class. */
  lemma HeadLeadsClass(s: seq<Scored>)
    requires |s| > 0
    ensures s[0] in WithScore(s, s[0].score)
    ensures WithScore(s, s[0].score)[0] == s[0]
  {
    assert WithScore(s, s[0].score) == [s[0]] + WithScore(s[1..], s[0].score);
  }

  /** In a descending list no pair scores above the head. */
  lemma AtMostHead(s: seq<Scored>, e: Scored)
    requires SortedDesc(s) && e in s
    ensures e.score <= s[0].score
  {
    var i :| 0 <= i < |s| && s[i] == e;
  }

  /** Two descending lists with the same score classes start with the same pair. */
  lemma SameHead(a: seq<Scored>, b: seq<Scored>)
    requires |a| > 0 && |b| > 0
    requires SortedDesc(a) && SortedDesc(b)
    requires forall v :: WithScore(a, v) == WithScore(b, v)
    ensures a[0] == b[0]
  {
    var m, n := a[0].score, b[0].score;
    HeadLeadsClass(a);
    HeadLeadsClass(b);
    assert WithScore(a, m) == WithScore(b, m) && WithScore(a, n) == WithScore(b, n);
    WithScoreMembers(b, m, a[0]);
    AtMostHead(b, a[0]);
    WithScoreMembers(a, n, b[0]);
    AtMostHead(a, b[0]);
    assert m == n;
  }

  /**
   A stable descending order is unique: two descending lists with the same
   score classes, each class in the same order, are equal. So any stable
   sort (Python's included) produces `SortDesc(s)`.
   */
  lemma {:induction false} StableOrderUnique(a: seq<Scored>, b: seq<Scored>)
    requires SortedDesc(a) && SortedDesc(b)
    requires forall v :: WithScore(a, v) == WithScore(b, v)
    ensures a == b
    decreases |a|
  {
    if |a| == 0 && |b| > 0 {
      WithScoreOfHead(b);
      assert false;
    } else if |a| > 0 && |b| == 0 {
      WithScoreOfHead(a);
      assert false;
    } else if |a| > 0 {
      SameHead(a, b);
      forall v ensures WithScore(a[1..], v) == WithScore(b[1..], v) {
        WithScoreCons(a, v);
        WithScoreCons(b, v);
        var pre := WithScore([a[0]], v);
        assert WithScore(a[1..], v) == WithScore(a, v)[|pre|..];
        assert WithScore(b[1..], v) == WithScore(b, v)[|pre|..];
      }
      StableOrderUnique(a[1..], b[1..]);
      assert a == [a[0]] + a[1..] && b == [b[0]] + b[1..];
    }
  }

  /** Any descending order of `s` that keeps every score class in order is `SortDesc(s)`. */
  lemma SortDescIsTheStableSort(s: seq<Scored>, r: seq<Scored>)
    requires SortedDesc(r)
    requires forall v :: WithScore(r, v) == WithScore(s, v)
    ensures r == SortDesc(s)
  {
    forall v ensures WithScore(r, v) == WithScore(SortDesc(s), v) {
      SortDescStable(s, v);
    }
    StableOrderUnique(r, SortDesc(s));
  }

  /**
   The first maximum of `s` from that of its tail: the head when it scores at
   least the tail's maximum, otherwise the tail's first maximum moved by one.
   */
  lemma FirstMaxCons(s: seq<Scored>, k': nat) returns (k: nat)
    requires |s| > 1 && IsFirstMax(s[1..], k')
    ensures IsFirstMax(s, k)
    ensures k == if s[0].score >= s[k' + 1].score then 0 else k' + 1
  {
    var best := s[1..][k'];
    assert s[k' + 1] == best;
    forall j | 1 <= j < |s| ensures s[j].score <= best.score && (j - 1 < k' ==> s[j].score < best.score) {
      assert s[j] == s[1..][j - 1];
    }
    k := if s[0].score >= best.score then 0 else k' + 1;
  }

  /** The head of the stable descending order is the first pair of maximal score. */
  lemma {:induction false} SortDescHead(s: seq<Scored>) returns (k: nat)
    requires |s| > 0
    ensures IsFirstMax(s, k)
    ensures SortDesc(s)[0] == s[k]
    decreases |s|
  {
    SortDescCons(s);
    if |s| == 1 {
      k := 0;
    } else {
      var k' := SortDescHead(s[1..]);
      assert SortDesc(s[1..])[0] == s[k' + 1];
      k := FirstMaxCons(s, k');
    }
  }
}
