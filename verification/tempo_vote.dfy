/**
 Octave-aware tempo vote of the analyzer (`analyze_audio`). The input is the
 list of per-frame tempo estimates after rounding to integers. The analyzer
 counts them into a histogram (`np.bincount`), takes the tempos that occur as
 candidates (`np.where(freq > 0)`), scores each candidate with its own count
 plus the counts of its half and its double, and reports the head of the
 candidates stably sorted by descending score.
 */
module TempoVote {
  import opened Wrappers
  import opened Ranking

  /** Length of the histogram: one past the largest tempo, 0 for no tempos. */
  function Width(xs: seq<nat>): (w: nat)
    ensures forall i :: 0 <= i < |xs| ==> xs[i] < w
    ensures |xs| == 0 ==> w == 0
    ensures |xs| > 0 ==> exists i :: 0 <= i < |xs| && xs[i] + 1 == w
    decreases |xs|
  {
    if |xs| == 0 then 0
    else
      var init := xs[..|xs| - 1];
      var w0 := Width(init);
      assert forall i :: 0 <= i < |init| ==> init[i] == xs[i];
      if xs[|xs| - 1] < w0 then w0 else xs[|xs| - 1] + 1
  }

  /** No tempo at or beyond the width occurs in the list. */
  lemma NothingBeyondWidth(xs: seq<nat>, v: nat)
    requires v >= Width(xs)
    ensures multiset(xs)[v] == 0
  {
    assert v !in xs by {
      forall i | 0 <= i < |xs| ensures xs[i] != v {
      }
    }
  }

  /**
   The histogram `np.bincount(xs)`: as long as the width, and slot `v` holds
   the number of occurrences of `v` in `xs`.
   */
  function Histogram(xs: seq<nat>): (h: seq<nat>)
    ensures |h| == Width(xs)
    ensures forall v :: 0 <= v < |h| ==> h[v] == multiset(xs)[v]
    decreases |xs|
  {
    if |xs| == 0 then []
    else
      var init := xs[..|xs| - 1];
      var x := xs[|xs| - 1];
      var h0 := Histogram(init);
      var padded := if x < |h0| then h0 else h0 + seq(x + 1 - |h0|, _ => 0);
      assert xs == init + [x];
      assert forall v :: |h0| <= v < |padded| ==> multiset(init)[v] == 0 by {
        forall v | |h0| <= v < |padded| ensures multiset(init)[v] == 0 {
          NothingBeyondWidth(init, v);
        }
      }
      padded[x := padded[x] + 1]
  }

  /**
   The candidate tempos `np.where(h > 0)[0]`: slots with a nonzero count, in
   strictly ascending order (that every such slot is present is
   `CandidatesComplete`).
   */
  function Candidates(h: seq<nat>): (c: seq<nat>)
    ensures forall i :: 0 <= i < |c| ==> c[i] < |h| && h[c[i]] > 0
    ensures forall i, j :: 0 <= i < j < |c| ==> c[i] < c[j]
  {
    CandidatesFrom(h, 0)
  }

  /** The slots at or after `lo` with a nonzero count, ascending. */
  function CandidatesFrom(h: seq<nat>, lo: nat): (c: seq<nat>)
    ensures forall i :: 0 <= i < |c| ==> lo <= c[i] < |h| && h[c[i]] > 0
    ensures forall i, j :: 0 <= i < j < |c| ==> c[i] < c[j]
    decreases |h| - lo
  {
    if lo >= |h| then []
    else if h[lo] > 0 then [lo] + CandidatesFrom(h, lo + 1)
    else CandidatesFrom(h, lo + 1)
  }

  lemma {:induction false} CandidatesFromComplete(h: seq<nat>, lo: nat, v: nat)
    requires lo <= v < |h| && h[v] > 0
    ensures v in CandidatesFrom(h, lo)
    decreases |h| - lo
  {
    if lo < v {
      CandidatesFromComplete(h, lo + 1, v);
    }
  }

  /** Every slot with a nonzero count is a candidate. */
  lemma CandidatesComplete(h: seq<nat>, v: nat)
    requires v < |h| && h[v] > 0
    ensures v in Candidates(h)
  {
    CandidatesFromComplete(h, 0, v);
  }

  /** `freq[i] if i < len(freq) else 0`, the guarded lookup of the score loop. */
  function Lookup(h: seq<nat>, i: nat): nat
  {
    if i < |h| then h[i] else 0
  }

  /** Score of candidate `t`: its own count plus those of `t // 2` and `t * 2`. */
  function Score(h: seq<nat>, t: nat): nat
  {
    Lookup(h, t) + Lookup(h, t / 2) + Lookup(h, t * 2)
  }

  /**
   For a candidate inside the histogram only the lookup of the double can
   fall outside it; the guards on the other two always pass. At tempo 0 the
   three lookups hit the same slot.
   */
  lemma ScoreOfCandidate(h: seq<nat>, t: nat)
    requires t < |h|
    ensures Score(h, t) == h[t] + h[t / 2] + (if 2 * t < |h| then h[2 * t] else 0)
    ensures t == 0 ==> Score(h, t) == 3 * h[0]
  {
  }

  /** The `(tempo, score)` pairs in candidate order. */
  function ScoreAll(h: seq<nat>, cs: seq<nat>): seq<Scored>
  {
    seq(|cs|, i requires 0 <= i < |cs| => Scored(cs[i], Score(h, cs[i])))
  }

  /**
   The tempo the analyzer selects, or None when the sorted candidate list is
   empty (indexing it with `[0]` raises in `app.py`).
   */
  function BestTempo(xs: seq<nat>): Option<nat>
  {
    var h := Histogram(xs);
    var ranked := SortDesc(ScoreAll(h, Candidates(h)));
    if |ranked| == 0 then None else Some(ranked[0].tempo)
  }

  /**
   Reference score computed straight from the tempo list: occurrences of
   `u`, of `u / 2` and of `2 * u`.
   */
  ghost function Votes(xs: seq<nat>, u: nat): nat
  {
    multiset(xs)[u] + multiset(xs)[u / 2] + multiset(xs)[2 * u]
  }

  /** The guarded histogram score agrees with the reference score for every tempo. */
  lemma ScoreIsVotes(xs: seq<nat>, u: nat)
    ensures Score(Histogram(xs), u) == Votes(xs, u)
  {
    var h := Histogram(xs);
    if u >= |h| { NothingBeyondWidth(xs, u); }
    if u / 2 >= |h| { NothingBeyondWidth(xs, u / 2); }
    if u * 2 >= |h| { NothingBeyondWidth(xs, u * 2); }
  }

  /** Every observed tempo is a candidate. */
  lemma ObservedIsCandidate(xs: seq<nat>, u: nat) returns (j: nat)
    requires u in xs
    ensures j < |Candidates(Histogram(xs))| && Candidates(Histogram(xs))[j] == u
  {
    var h := Histogram(xs);
    var i :| 0 <= i < |xs| && xs[i] == u;
    assert u < |h| && h[u] > 0;
    CandidatesComplete(h, u);
    var cs := Candidates(h);
    j :| 0 <= j < |cs| && cs[j] == u;
  }

  /** With some tempo observed, the selection is the candidate at the first top-scoring position. */
  lemma SelectedPosition(xs: seq<nat>) returns (k: nat)
    requires |xs| > 0
    ensures k < |Candidates(Histogram(xs))|
    ensures IsFirstMax(ScoreAll(Histogram(xs), Candidates(Histogram(xs))), k)
    ensures BestTempo(xs) == Some(Candidates(Histogram(xs))[k])
  {
    var h := Histogram(xs);
    var cs := Candidates(h);
    var pairs := ScoreAll(h, cs);
    var j0 := ObservedIsCandidate(xs, xs[0]);
    k := SortDescHead(pairs);
  }

  /**
   Among ascending candidates, the first top-scoring one scores at least as
   much as candidate `j`, and strictly more when it comes later.
   */
  lemma FirstMaxBeats(h: seq<nat>, cs: seq<nat>, k: nat, j: nat)
    requires k < |cs| && j < |cs|
    requires forall a, b :: 0 <= a < b < |cs| ==> cs[a] < cs[b]
    requires IsFirstMax(ScoreAll(h, cs), k)
    ensures Score(h, cs[j]) <= Score(h, cs[k])
    ensures Score(h, cs[j]) == Score(h, cs[k]) ==> cs[k] <= cs[j]
  {
    var pairs := ScoreAll(h, cs);
    assert pairs[j].score == Score(h, cs[j]) && pairs[k].score == Score(h, cs[k]);
    assert cs[j] < cs[k] ==> j < k;
  }

  /** The selected tempo against one observed tempo `u`. */
  lemma SelectedBeats(xs: seq<nat>, k: nat, u: nat)
    requires k < |Candidates(Histogram(xs))|
    requires IsFirstMax(ScoreAll(Histogram(xs), Candidates(Histogram(xs))), k)
    requires u in xs
    ensures var t := Candidates(Histogram(xs))[k];
      && Votes(xs, u) <= Votes(xs, t)
      && (Votes(xs, u) == Votes(xs, t) ==> t <= u)
  {
    var h := Histogram(xs);
    var cs := Candidates(h);
    var j := ObservedIsCandidate(xs, u);
    FirstMaxBeats(h, cs, k, j);
    ScoreIsVotes(xs, u);
    ScoreIsVotes(xs, cs[k]);
  }

  /**
   `t` was observed, its vote is at least that of every observed tempo, and
   it is the smallest observed tempo with that vote.
   */
  ghost predicate SmallestTopVote(xs: seq<nat>, t: nat) {
    && t in xs
    && (forall u :: u in xs ==> Votes(xs, u) <= Votes(xs, t))
    && (forall u :: u in xs && Votes(xs, u) == Votes(xs, t) ==> t <= u)
  }

  /** The selection fails exactly when no tempo was estimated. */
  lemma BestTempoNoneIffEmpty(xs: seq<nat>)
    ensures BestTempo(xs).None? <==> |xs| == 0
  {
    if |xs| > 0 {
      var k := SelectedPosition(xs);
    }
  }

  /** The selected tempo is the smallest observed tempo with the highest vote. */
  lemma BestTempoIsSmallestTopVote(xs: seq<nat>)
    requires |xs| > 0
    ensures BestTempo(xs).Some? && SmallestTopVote(xs, BestTempo(xs).value)
  {
    var k := SelectedPosition(xs);
    var h := Histogram(xs);
    var t := Candidates(h)[k];
    assert h[t] > 0;
    assert t in multiset(xs);
    forall u | u in xs
      ensures Votes(xs, u) <= Votes(xs, t)
      ensures Votes(xs, u) == Votes(xs, t) ==> t <= u
    {
      SelectedBeats(xs, k, u);
    }
  }

  /** The reference votes in `[120, 60, 120, 61]`: 60 and 120 both collect 3, 61 only 1. */
  lemma ExampleVotes(xs: seq<nat>)
    requires xs == [120, 60, 120, 61]
    ensures Votes(xs, 60) == 3 && Votes(xs, 120) == 3 && Votes(xs, 61) == 1
  {
    var ms := multiset(xs);
    assert ms == multiset{60, 61, 120, 120};
    assert ms[30] == 0 && ms[60] == 1 && ms[61] == 1 && ms[120] == 2 && ms[122] == 0 && ms[240] == 0;
  }

  /** In `[120, 60, 120, 61]`, 60 and 120 tie at the top vote of 3, so only 60 is the smallest top vote. */
  lemma TieExampleVotes(xs: seq<nat>, t: nat)
    requires xs == [120, 60, 120, 61]
    requires SmallestTopVote(xs, t)
    ensures t == 60
  {
    ExampleVotes(xs);
    assert t == 120 || t == 60 || t == 61;
    assert xs[0] == 120 && xs[1] == 60;
    assert Votes(xs, 120) <= Votes(xs, t);
    assert Votes(xs, 60) == Votes(xs, t) ==> t <= 60;
  }

  /**
   Octave tie-break on a small input: 120 is the most frequent estimate, but
   60 collects 120's count through its double and ties it at 3 votes, so the
   smaller 60 is reported.
   */
  lemma HalfTempoWinsTie(xs: seq<nat>)
    requires xs == [120, 60, 120, 61]
    ensures BestTempo(xs) == Some(60)
  {
    BestTempoIsSmallestTopVote(xs);
    TieExampleVotes(xs, BestTempo(xs).value);
  }
}
