/** The decision over a sequence of face frames: enough accepted frames in a row, and a majority of
    accepted frames. Similarities are given reals between 0 and 1. */
module FaceSequence {
  import opened Basics

  /** One audited frame. */
  datatype Audit = Audit(confidence: real, accepted: bool)

  datatype Verdict = Verdict(matched: bool, confidence: real, bestStreak: nat, accepted: nat, valid: nat, total: nat,
                             majorityRequired: int, majorityMet: bool, audit: seq<Audit>)

  /** The frames of one attempt: their best similarity to the profile, and optional validity flags. */
  datatype Frames = Frames(similarities: seq<real>, flags: Option<seq<bool>>)

  ghost predicate Measured(f: Frames) {
    forall i :: 0 <= i < |f.similarities| ==> 0.0 <= f.similarities[i] <= 1.0
  }

  /** A frame without a flag of its own counts as valid. */
  predicate IsValid(f: Frames, i: nat) {
    f.flags.Some? && i < |f.flags.value| ==> f.flags.value[i]
  }

  predicate IsAccepted(f: Frames, threshold: real, i: nat)
    requires i < |f.similarities|
  {
    IsValid(f, i) && f.similarities[i] >= threshold
  }

  /** A frame that is not valid is audited with similarity 0. */
  function AuditOf(f: Frames, threshold: real, i: nat): Audit
    requires i < |f.similarities|
  {
    Audit(if IsValid(f, i) then f.similarities[i] else 0.0, IsAccepted(f, threshold, i))
  }

  function AcceptedFlags(f: Frames, threshold: real): seq<bool> {
    seq(|f.similarities|, i requires 0 <= i < |f.similarities| => IsAccepted(f, threshold, i))
  }

  /** So many accepted frames in a row, from position i. */
  predicate Block(a: seq<bool>, i: nat, length: nat) {
    i + length <= |a| && forall j :: i <= j < i + length ==> a[j]
  }

  ghost predicate HasBlock(a: seq<bool>, length: nat) {
    exists i: nat :: Block(a, i, length)
  }

  function Count(a: seq<bool>): nat {
    if a == [] then 0 else Count(a[..|a| - 1]) + if a[|a| - 1] then 1 else 0
  }

  /** The flagged frames; frames beyond the flags are valid but not counted here. */
  function ValidCount(f: Frames): nat {
    if f.flags.None? then |f.similarities| else Count(f.flags.value[..Min(|f.similarities|, |f.flags.value|)])
  }

  function MajorityRequired(total: nat, minStreak: int): int {
    if total == 0 then minStreak else Max(minStreak, (3 * total + 4) / 5)
  }

  /** The majority is the least number that reaches the streak asked for and three fifths of the frames;
      without frames it is the streak alone. */
  lemma MajorityIsLeast(total: nat, minStreak: int)
    ensures var m := MajorityRequired(total, minStreak);
            if total == 0 then m == minStreak
            else m >= minStreak && 5 * m >= 3 * total && (m == minStreak || 5 * (m - 1) < 3 * total)
  {
  }

  /** A frame is accepted exactly if its similarity reaches the threshold and no flag rules it out. */
  lemma AcceptedExactly(f: Frames, threshold: real, i: nat)
    requires i < |f.similarities|
    ensures AcceptedFlags(f, threshold)[i]
            <==> && f.similarities[i] >= threshold
                 && !(f.flags.Some? && i < |f.flags.value| && !f.flags.value[i])
    ensures AuditOf(f, threshold, i).confidence
            == if f.flags.Some? && i < |f.flags.value| && !f.flags.value[i] then 0.0 else f.similarities[i]
  {
  }

  lemma {:induction false} CountIs(a: seq<bool>)
    ensures Count(a) == |set i: nat | i < |a| && a[i]|
  {
    if a != [] {
      var n := |a| - 1;
      CountIs(a[..n]);
      var before := set i: nat | i < |a[..n]| && a[..n][i];
      assert (set i: nat | i < |a| && a[i]) == before + if a[n] then {n} else {};
    }
  }

  /** With flags, the frames counted as valid are those flagged so; without, all of them. */
  lemma ValidCountIs(f: Frames)
    ensures f.flags.None? ==> ValidCount(f) == |f.similarities|
    ensures f.flags.Some? ==>
              ValidCount(f) == |set i: nat | i < |f.similarities| && i < |f.flags.value| && f.flags.value[i]|
  {
    if f.flags.Some? {
      var a := f.flags.value[..Min(|f.similarities|, |f.flags.value|)];
      CountIs(a);
      assert (set i: nat | i < |a| && a[i])
          == set i: nat | i < |f.similarities| && i < |f.flags.value| && f.flags.value[i];
    }
  }

  function Sum(s: seq<real>): real {
    if s == [] then 0.0 else Sum(s[..|s| - 1]) + s[|s| - 1]
  }

  function Mean(s: seq<real>): real
    requires s != []
  {
    Sum(s) / |s| as real
  }

  function Clamp01(x: real): real {
    if x < 0.0 then 0.0 else if x > 1.0 then 1.0 else x
  }

  /** The mean of a block weighs every score alike: it times its length is the sum over any two parts. */
  lemma {:induction false} SumAdds(a: seq<real>, b: seq<real>)
    ensures Sum(a + b) == Sum(a) + Sum(b)
    ensures forall x :: Sum([x]) == x
    ensures a + b != [] ==> Mean(a + b) * |a + b| as real == Sum(a) + Sum(b)
  {
    forall x
      ensures Sum([x]) == x
    {
      assert [x][..0] == [];
    }
    if b == [] {
      assert a + b == a;
    } else {
      var n := |b| - 1;
      assert (a + b)[..|a + b| - 1] == a + b[..n];
      SumAdds(a, b[..n]);
    }
  }

  // ----- means stay between their bounds -----

  lemma {:induction false} SumBounds(s: seq<real>, low: real, high: real)
    requires forall i :: 0 <= i < |s| ==> low <= s[i] <= high
    ensures low * |s| as real <= Sum(s) <= high * |s| as real
  {
    if s != [] {
      var n := |s| - 1;
      SumBounds(s[..n], low, high);
      OneMore(low, n);
      OneMore(high, n);
    }
  }

  lemma MeanBounds(s: seq<real>, low: real, high: real)
    requires s != [] && forall i :: 0 <= i < |s| ==> low <= s[i] <= high
    ensures low <= Mean(s) <= high
  {
    hide Sum;
    SumBounds(s, low, high);
    QuotientWithin(low, Sum(s), high, |s| as real);
  }

  lemma QuotientWithin(low: real, x: real, high: real, n: real)
    requires n > 0.0 && low * n <= x <= high * n
    ensures low <= x / n <= high
  {
    Cancels(low, n);
    Cancels(high, n);
    QuotientOrdered(low * n, x, n);
    QuotientOrdered(x, high * n, n);
  }

  lemma OneMore(x: real, n: nat)
    ensures x * (n + 1) as real == x * n as real + x
  {
  }

  lemma Cancels(x: real, n: real)
    requires n > 0.0
    ensures (x * n) / n == x
  {
  }

  lemma QuotientOrdered(x: real, y: real, n: real)
    requires n > 0.0 && x <= y
    ensures x / n <= y / n
  {
  }

  // ----- the longest block -----

  /** The leftmost longest block of the first n frames. */
  ghost predicate LeftmostLongest(a: seq<bool>, n: nat, start: nat, length: nat) {
    && n <= |a| && start + length <= n && Block(a, start, length)
    && forall i: nat, k: nat :: i + k <= n && Block(a, i, k) ==> k <= length && (k == length && k > 0 ==> start <= i)
  }

  /** The accepted frames that end the first n frames. */
  ghost predicate Trailing(a: seq<bool>, n: nat, streak: nat) {
    n <= |a| && streak <= n && Block(a, n - streak, streak) && (streak < n ==> !a[n - streak - 1])
  }

  lemma SingleBlock(a: seq<bool>, i: nat)
    requires i < |a|
    ensures Block(a, i, 1) <==> a[i]
  {
  }

  lemma BlockAtEnd(a: seq<bool>, n: nat, streak: nat, i: nat, k: nat)
    requires n < |a| && a[n] && Trailing(a, n, streak) && i + k == n + 1 && Block(a, i, k)
    ensures k <= streak + 1
  {
  }

  /** Accepting one more frame: the trailing block grows, and replaces the longest one only if it
      has become strictly longer. */
  lemma AcceptStep(a: seq<bool>, n: nat, streak: nat, start: nat, length: nat)
    requires n < |a| && a[n] && Trailing(a, n, streak) && LeftmostLongest(a, n, start, length) && streak <= length
    ensures Trailing(a, n + 1, streak + 1)
    ensures if streak + 1 > length then LeftmostLongest(a, n + 1, n - streak, streak + 1)
            else LeftmostLongest(a, n + 1, start, length)
  {
    forall i: nat, k: nat | i + k == n + 1 && Block(a, i, k)
      ensures k <= streak + 1
    {
      BlockAtEnd(a, n, streak, i, k);
    }
  }

  lemma RejectStep(a: seq<bool>, n: nat, start: nat, length: nat)
    requires n < |a| && !a[n] && LeftmostLongest(a, n, start, length)
    ensures Trailing(a, n + 1, 0) && LeftmostLongest(a, n + 1, start, length)
  {
    forall i: nat, k: nat | i + k <= n + 1 && Block(a, i, k)
      ensures k == 0 || i + k <= n
    {
    }
  }

  lemma LongestAnswers(a: seq<bool>, start: nat, length: nat, k: nat)
    requires LeftmostLongest(a, |a|, start, length)
    ensures HasBlock(a, k) <==> k <= length
  {
    if k <= length {
      assert Block(a, start, k);
    }
  }

  // ----- the one-pass scan -----

  /** The decision is exact: a match needs a block of the required length somewhere and a majority;
      the reported streak is the longest, its scores are those of the leftmost longest block, and the
      confidence of a match lies between the threshold and 1. */
  method EvaluateEmbeddingSequence(enrolled: bool, f: Frames, threshold: real, minStreak: int)
    returns (v: Verdict, ghost start: nat)
    requires Measured(f)
    ensures !enrolled ==> !v.matched && v.confidence == 0.0 && v.bestStreak == 0 && v.audit == []
    ensures enrolled ==>
              var a := AcceptedFlags(f, threshold);
              && (v.matched <==>
                    (minStreak <= 0 || HasBlock(a, minStreak)) && Count(a) >= MajorityRequired(|a|, minStreak))
              && LeftmostLongest(a, |a|, start, v.bestStreak)
              && v.confidence == (if v.bestStreak == 0 then 0.0 else Mean(f.similarities[start..start + v.bestStreak]))
              && (v.bestStreak > 0 ==> threshold <= v.confidence)
              && v.accepted == Count(a) && v.total == |a| && v.valid == ValidCount(f)
              && v.majorityRequired == MajorityRequired(|a|, minStreak)
              && v.majorityMet == (v.accepted >= v.majorityRequired)
              && |v.audit| == |a| && forall i :: 0 <= i < |a| ==> v.audit[i] == AuditOf(f, threshold, i)
    ensures 0.0 <= v.confidence <= 1.0
    ensures v.matched && minStreak >= 1 ==> threshold <= v.confidence
  {
    hide Trailing, LeftmostLongest, Mean, Sum, HasBlock, Count, ValidCount, MajorityRequired;
    start := 0;
    if !enrolled {
      return Verdict(false, 0.0, 0, 0, 0, 0, minStreak, false, []), 0;
    }
    ghost var a := AcceptedFlags(f, threshold);
    var streak, best := 0, 0;
    var bestScores: seq<real>, scores: seq<real>, acceptedScores: seq<real> := [], [], [];
    var audit: seq<Audit> := [];
    Beginning(a);
    for n := 0 to |f.similarities|
      invariant Trailing(a, n, streak) && LeftmostLongest(a, n, start, best) && streak <= best && streak <= n
                && start + best <= n
      invariant scores == f.similarities[n - streak..n] && bestScores == f.similarities[start..start + best]
      invariant |acceptedScores| == Count(a[..n])
      invariant |audit| == n && forall i :: 0 <= i < n ==> audit[i] == AuditOf(f, threshold, i)
    {
      var valid := if f.flags.Some? && n < |f.flags.value| then f.flags.value[n] else true;
      var similarity := 0.0;
      if valid {
        similarity := f.similarities[n];
      }
      var accepted := valid && similarity >= threshold;
      assert accepted == a[n];
      CountStep(a, n);
      if accepted {
        SliceExtends(f.similarities, n - streak, n);
        AcceptStep(a, n, streak, start, best);
        streak := streak + 1;
        scores := scores + [similarity];
        acceptedScores := acceptedScores + [similarity];
        if streak > best {
          best := streak;
          bestScores := scores;
          start := n + 1 - streak;
        }
      } else {
        RejectStep(a, n, start, best);
        streak := 0;
        scores := [];
      }
      audit := audit + [Audit(similarity, accepted)];
    }
    assert a[..|a|] == a;
    var total := |f.similarities|;
    var valid := ValidCount(f);
    var required := MajorityRequired(total, minStreak);
    var pool := if bestScores != [] then bestScores else acceptedScores;
    PoolFacts(f, threshold, start, best);
    var confidence := if pool != [] then Mean(pool) else 0.0;
    if minStreak > 0 {
      LongestAnswers(a, start, best, minStreak);
    }
    v := Verdict(best >= minStreak && |acceptedScores| >= required, Clamp01(confidence), best, |acceptedScores|, valid,
                 total,
                 required, |acceptedScores| >= required, audit);
  }

  lemma Beginning(a: seq<bool>)
    ensures Trailing(a, 0, 0) && LeftmostLongest(a, 0, 0, 0) && Count(a[..0]) == 0
  {
  }

  lemma SliceExtends<T>(s: seq<T>, i: nat, n: nat)
    requires i <= n < |s|
    ensures s[i..n] + [s[n]] == s[i..n + 1]
  {
  }

  lemma CountStep(a: seq<bool>, n: nat)
    requires n < |a|
    ensures Count(a[..n + 1]) == Count(a[..n]) + if a[n] then 1 else 0
  {
    assert a[..n + 1][..n] == a[..n];
  }

  /** The scores of the longest block lie between the threshold and 1; without one, nothing was accepted. */
  lemma PoolFacts(f: Frames, threshold: real, start: nat, best: nat)
    requires Measured(f) && LeftmostLongest(AcceptedFlags(f, threshold), |f.similarities|, start, best)
    ensures start + best <= |f.similarities|
    ensures best == 0 ==> Count(AcceptedFlags(f, threshold)) == 0
    ensures best > 0 ==> threshold <= Mean(f.similarities[start..start + best]) <= 1.0
    ensures best > 0 ==> 0.0 <= Mean(f.similarities[start..start + best])
  {
    hide Mean, Sum;
    var a := AcceptedFlags(f, threshold);
    if best > 0 {
      var s := f.similarities[start..start + best];
      forall i | 0 <= i < |s|
        ensures threshold <= s[i] <= 1.0 && 0.0 <= s[i]
      {
        assert a[start + i];
      }
      MeanBounds(s, threshold, 1.0);
      MeanBounds(s, 0.0, 1.0);
    } else {
      forall i: nat | i < |a|
        ensures !a[i]
      {
        SingleBlock(a, i);
      }
      NoneCounted(a);
    }
  }

  lemma {:induction false} NoneCounted(a: seq<bool>)
    requires forall i :: 0 <= i < |a| ==> !a[i]
    ensures Count(a) == 0
  {
    if a != [] {
      NoneCounted(a[..|a| - 1]);
    }
  }

  /** A match is monotone in the threshold: a stricter setting never admits an attempt that a laxer
      one refuses. */
  lemma {:induction false} StricterCountsFewer(a: seq<bool>, b: seq<bool>)
    requires |a| == |b| && forall i :: 0 <= i < |a| && b[i] ==> a[i]
    ensures Count(b) <= Count(a)
  {
    if a != [] {
      StricterCountsFewer(a[..|a| - 1], b[..|b| - 1]);
    }
  }

  predicate Majority(a: seq<bool>, minStreak: int) {
    Count(a) >= MajorityRequired(|a|, minStreak)
  }

  lemma StricterNeverAdmits(f: Frames, low: real, high: real, minStreak: nat)
    requires low <= high
    ensures HasBlock(AcceptedFlags(f, high), minStreak) ==> HasBlock(AcceptedFlags(f, low), minStreak)
    ensures Majority(AcceptedFlags(f, high), minStreak) ==> Majority(AcceptedFlags(f, low), minStreak)
  {
    var a, b := AcceptedFlags(f, low), AcceptedFlags(f, high);
    StricterCountsFewer(a, b);
    if HasBlock(b, minStreak) {
      var i: nat :| Block(b, i, minStreak);
      assert Block(a, i, minStreak);
    }
  }
}
