/** Best-match selection (app/services/face_service.py): the strict
    threshold decision of `compare_embeddings` and the linear scan of
    `find_best_match`.

    The cosine similarity is not computed here: each candidate carries the
    outcome of comparing it with the target, either a similarity or the fact
    that the comparison raised. */
module Matcher {
  import opened Common

  /** The outcome of comparing the target with one candidate. */
  datatype Score = Scored(similarity: real) | Raised

  datatype Candidate = Candidate(photoId: int, score: Score)

  /** A returned `(candidate_id, similarity)` pair. */
  datatype Match = Match(photoId: int, similarity: real)

  /** A threshold that is not passed falls back to the configured one. */
  function ResolveThreshold(threshold: Option<real>, configured: real): (t: real)
    ensures threshold.None? ==> t == configured
    ensures threshold.Some? ==> t == threshold.value
  {
    if threshold.None? then configured else threshold.value
  }

  /** `compare_embeddings` on a given similarity: `(is_same, similarity)`. */
  function Compare(similarity: real, threshold: Option<real>, configured: real): (r: (bool, real))
    ensures r.1 == similarity
    ensures r.0 <==> similarity > ResolveThreshold(threshold, configured)
  {
    (similarity > ResolveThreshold(threshold, configured), similarity)
  }

  /** A similarity equal to the threshold is not a match. */
  lemma EqualIsNoMatch(t: real, configured: real)
    ensures !Compare(t, Some(t), configured).0
    ensures !Compare(configured, None, configured).0
  {
  }

  /** The loop of `find_best_match` from some point on, with the best pair
      and best similarity found so far. A candidate replaces the best one
      when it matches and is strictly more similar. */
  function Scan(cs: seq<Candidate>, t: real, best: Option<Match>, bestSim: real): Option<Match>
    decreases |cs|
  {
    if cs == [] then best
    else
      var c := cs[0];
      if c.score.Scored? && Compare(c.score.similarity, Some(t), t).0 && c.score.similarity > bestSim then
        Scan(cs[1..], t, Some(Match(c.photoId, c.score.similarity)), c.score.similarity)
      else
        Scan(cs[1..], t, best, bestSim)
  }

  /** `c` would replace a best pair of similarity `b` under threshold `t`. */
  predicate Beats(c: Candidate, t: real, b: real) {
    c.score.Scored? && c.score.similarity > t && c.score.similarity > b
  }

  /** Index `k` is the winner among the candidates that beat `(t, b)`: it
      beats them, no such candidate is more similar, and every earlier such
      candidate is strictly less similar. */
  predicate Winner(cs: seq<Candidate>, t: real, b: real, k: int) {
    && 0 <= k < |cs|
    && Beats(cs[k], t, b)
    && (forall j :: 0 <= j < |cs| && Beats(cs[j], t, b) ==> cs[j].score.similarity <= cs[k].score.similarity)
    && (forall j :: 0 <= j < k && Beats(cs[j], t, b) ==> cs[j].score.similarity < cs[k].score.similarity)
  }

  /** What the scan returns: the best pair so far when nothing beats it,
      otherwise the winner. */
  lemma {:induction false} ScanCases(cs: seq<Candidate>, t: real, best: Option<Match>, b: real)
    ensures (forall j :: 0 <= j < |cs| ==> !Beats(cs[j], t, b)) ==> Scan(cs, t, best, b) == best
    ensures (exists j :: 0 <= j < |cs| && Beats(cs[j], t, b)) ==>
      exists k :: Winner(cs, t, b, k)
        && Scan(cs, t, best, b) == Some(Match(cs[k].photoId, cs[k].score.similarity))
    decreases |cs|, 1
  {
    if cs != [] {
      if Beats(cs[0], t, b) {
        ScanTakesFirst(cs, t, best, b);
      } else {
        ScanSkipsFirst(cs, t, best, b);
      }
    }
  }

  /** The first candidate beats the best pair: it is the winner unless a
      later one beats it in turn. */
  lemma {:induction false} ScanTakesFirst(cs: seq<Candidate>, t: real, best: Option<Match>, b: real)
    requires cs != [] && Beats(cs[0], t, b)
    ensures exists k ::
      Winner(cs, t, b, k) && Scan(cs, t, best, b) == Some(Match(cs[k].photoId, cs[k].score.similarity))
    decreases |cs|, 0
  {
    var c, rest := cs[0], cs[1..];
    assert forall j :: 0 < j < |cs| ==> cs[j] == rest[j - 1];
    var s := c.score.similarity;
    var m := Some(Match(c.photoId, s));
    ScanCases(rest, t, m, s);
    assert Scan(cs, t, best, b) == Scan(rest, t, m, s);
    if exists j :: 0 <= j < |rest| && Beats(rest[j], t, s) {
      var k :| Winner(rest, t, s, k) && Scan(rest, t, m, s) == Some(Match(rest[k].photoId, rest[k].score.similarity));
      forall j | 0 <= j < |cs| && Beats(cs[j], t, b)
        ensures cs[j].score.similarity <= cs[k + 1].score.similarity
      {
        if j > 0 && Beats(cs[j], t, s) {
          assert Beats(rest[j - 1], t, s);
        }
      }
      forall j | 0 <= j < k + 1 && Beats(cs[j], t, b)
        ensures cs[j].score.similarity < cs[k + 1].score.similarity
      {
        if j > 0 && Beats(cs[j], t, s) {
          assert Beats(rest[j - 1], t, s);
        }
      }
      assert Winner(cs, t, b, k + 1);
    } else {
      forall j | 0 <= j < |cs| && Beats(cs[j], t, b)
        ensures cs[j].score.similarity <= cs[0].score.similarity
      {
        if j > 0 {
          assert !Beats(rest[j - 1], t, s);
        }
      }
      assert Winner(cs, t, b, 0);
    }
  }

  /** The first candidate does not beat the best pair: the scan goes on
      as if it were not there. */
  lemma {:induction false} ScanSkipsFirst(cs: seq<Candidate>, t: real, best: Option<Match>, b: real)
    requires cs != [] && !Beats(cs[0], t, b)
    ensures (forall j :: 0 <= j < |cs| ==> !Beats(cs[j], t, b)) ==> Scan(cs, t, best, b) == best
    ensures (exists j :: 0 <= j < |cs| && Beats(cs[j], t, b)) ==>
      exists k :: Winner(cs, t, b, k)
        && Scan(cs, t, best, b) == Some(Match(cs[k].photoId, cs[k].score.similarity))
    decreases |cs|, 0
  {
    var rest := cs[1..];
    assert forall j :: 0 < j < |cs| ==> cs[j] == rest[j - 1];
    ScanCases(rest, t, best, b);
    assert Scan(cs, t, best, b) == Scan(rest, t, best, b);
    if exists j :: 0 <= j < |rest| && Beats(rest[j], t, b) {
      var k :| Winner(rest, t, b, k) && Scan(rest, t, best, b) == Some(Match(rest[k].photoId, rest[k].score.similarity));
      assert Winner(cs, t, b, k + 1);
    } else {
      assert forall j :: 0 <= j < |cs| ==> !Beats(cs[j], t, b);
    }
  }

  /** `find_best_match`: `None` for no candidates; otherwise the scan from
      no best pair and best similarity 0.0. The result is the first of the
      most similar candidates above both the threshold and 0, and `None`
      exactly when there is no such candidate. */
  function FindBestMatch(cs: seq<Candidate>, threshold: Option<real>, configured: real): (r: Option<Match>)
    ensures cs == [] ==> r.None?
    ensures var t := ResolveThreshold(threshold, configured);
      r.None? <==> forall j :: 0 <= j < |cs| ==> !Beats(cs[j], t, 0.0)
    ensures var t := ResolveThreshold(threshold, configured);
      r.Some? ==> exists k :: Winner(cs, t, 0.0, k) && r.value == Match(cs[k].photoId, cs[k].score.similarity)
  {
    var t := ResolveThreshold(threshold, configured);
    ScanCases(cs, t, None, 0.0);
    if cs == [] then None else Scan(cs, t, None, 0.0)
  }

  /** There is only one winner, so the result is determined by the list. */
  lemma WinnerUnique(cs: seq<Candidate>, t: real, b: real, k1: int, k2: int)
    requires Winner(cs, t, b, k1) && Winner(cs, t, b, k2)
    ensures k1 == k2
  {
  }

  /** A returned pair is one of the candidates, with that candidate's own
      similarity, above the threshold and above 0. */
  lemma MatchIsCandidate(cs: seq<Candidate>, threshold: Option<real>, configured: real)
    requires FindBestMatch(cs, threshold, configured).Some?
    ensures var m := FindBestMatch(cs, threshold, configured).value;
      exists k :: 0 <= k < |cs| && cs[k] == Candidate(m.photoId, Scored(m.similarity))
    ensures var m := FindBestMatch(cs, threshold, configured).value;
      m.similarity > ResolveThreshold(threshold, configured) && m.similarity > 0.0
  {
    var t := ResolveThreshold(threshold, configured);
    var m := FindBestMatch(cs, threshold, configured).value;
    var k :| Winner(cs, t, 0.0, k) && m == Match(cs[k].photoId, cs[k].score.similarity);
    assert cs[k] == Candidate(m.photoId, Scored(m.similarity));
  }

  /** Maximality: no candidate above the threshold and 0 is more similar
      than the returned one. */
  lemma MatchIsMaximal(cs: seq<Candidate>, threshold: Option<real>, configured: real, j: int)
    requires FindBestMatch(cs, threshold, configured).Some?
    requires 0 <= j < |cs| && cs[j].score.Scored?
    requires cs[j].score.similarity > ResolveThreshold(threshold, configured) && cs[j].score.similarity > 0.0
    ensures cs[j].score.similarity <= FindBestMatch(cs, threshold, configured).value.similarity
  {
    var t := ResolveThreshold(threshold, configured);
    var k :| Winner(cs, t, 0.0, k) && FindBestMatch(cs, threshold, configured).value == Match(cs[k].photoId, cs[k].score.similarity);
    assert Beats(cs[j], t, 0.0);
  }

  /** Ties go to the earliest: of two equally similar candidates above
      the threshold and 0, the later one is not the one returned. */
  lemma EarliestTieWins(cs: seq<Candidate>, threshold: Option<real>, configured: real, i: int, j: int)
    requires 0 <= i < j < |cs|
    requires cs[i].score.Scored? && cs[j].score.Scored?
    requires cs[i].score.similarity == cs[j].score.similarity
    requires cs[i].score.similarity > ResolveThreshold(threshold, configured) && cs[i].score.similarity > 0.0
    ensures var t := ResolveThreshold(threshold, configured);
      exists k :: k != j && Winner(cs, t, 0.0, k)
        && FindBestMatch(cs, threshold, configured) == Some(Match(cs[k].photoId, cs[k].score.similarity))
  {
    var t := ResolveThreshold(threshold, configured);
    var r := FindBestMatch(cs, threshold, configured);
    assert Beats(cs[i], t, 0.0);
    var k :| Winner(cs, t, 0.0, k) && r.value == Match(cs[k].photoId, cs[k].score.similarity);
    WinnerIsNotLaterTie(cs, t, 0.0, k, i, j);
  }

  lemma WinnerIsNotLaterTie(cs: seq<Candidate>, t: real, b: real, k: int, i: int, j: int)
    requires Winner(cs, t, b, k)
    requires 0 <= i < j < |cs| && Beats(cs[i], t, b)
    requires cs[j].score.Scored? && cs[i].score.similarity == cs[j].score.similarity
    ensures k != j
  {
  }

  /** A candidate whose comparison raises is skipped: dropping it from the
      scan changes nothing. */
  lemma {:induction false} ScanSkipsRaised(a: seq<Candidate>, id: int, b: seq<Candidate>, t: real,
                                           best: Option<Match>, s: real)
    ensures Scan(a + [Candidate(id, Raised)] + b, t, best, s) == Scan(a + b, t, best, s)
    decreases |a|
  {
    if a == [] {
      assert (a + [Candidate(id, Raised)] + b)[1..] == b;
      assert a + b == b;
    } else {
      var c := a[0];
      assert (a + [Candidate(id, Raised)] + b)[0] == c && (a + b)[0] == c;
      assert (a + [Candidate(id, Raised)] + b)[1..] == a[1..] + [Candidate(id, Raised)] + b;
      assert (a + b)[1..] == a[1..] + b;
      if c.score.Scored? && c.score.similarity > t && c.score.similarity > s {
        ScanSkipsRaised(a[1..], id, b, t, Some(Match(c.photoId, c.score.similarity)), c.score.similarity);
      } else {
        ScanSkipsRaised(a[1..], id, b, t, best, s);
      }
    }
  }

  lemma RaisedCandidateIgnored(a: seq<Candidate>, id: int, b: seq<Candidate>, threshold: Option<real>, configured: real)
    ensures FindBestMatch(a + [Candidate(id, Raised)] + b, threshold, configured) == FindBestMatch(a + b, threshold, configured)
  {
    ScanSkipsRaised(a, id, b, ResolveThreshold(threshold, configured), None, 0.0);
  }

  /** The result depends on the order of the list: two equally similar
      candidates above the threshold each win when they come first. */
  lemma OrderMatters()
    ensures FindBestMatch([Candidate(1, Scored(0.9)), Candidate(2, Scored(0.9))], None, 0.6) == Some(Match(1, 0.9))
    ensures FindBestMatch([Candidate(2, Scored(0.9)), Candidate(1, Scored(0.9))], None, 0.6) == Some(Match(2, 0.9))
  {
  }

  /** With a negative threshold a candidate must still beat 0.0, the initial
      best similarity. */
  lemma ZeroFloor()
    ensures FindBestMatch([Candidate(1, Scored(0.0))], Some(-1.0), 0.6) == None
  {
  }
}
