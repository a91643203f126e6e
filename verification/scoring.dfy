/**
 * Guess scoring (checkGuess, script.js:182-205): a two-pass, consume-on-match
 * comparison of a guess with the secret word over a working copy of the
 * secret's letters in which matched slots are nulled out.
 *
 * The algorithm is modelled as written (ExactPass, IndexOf, PresentPass,
 * Score) and is proved equal, position by position, to an independent closed
 * form (Feedback) from which the counting and ordering properties follow.
 */
module Scoring {
  import opened Statuses

  // ---------------------------------------------------------------------
  // The algorithm as written
  // ---------------------------------------------------------------------

  /**
   * Pass 1 from position i on: every exact positional match is marked
   * correct and its slot in the working copy of the secret is nulled.
   */
  function ExactPass(guess: string, secret: string, i: nat,
                     marks: seq<Option<Status>>, slots: seq<Option<char>>)
    : (r: (seq<Option<Status>>, seq<Option<char>>))
    requires |guess| == |secret| == |marks| == |slots|
    requires i <= |guess|
    ensures |r.0| == |guess| && |r.1| == |guess|
    ensures forall k :: 0 <= k < i ==> r.0[k] == marks[k] && r.1[k] == slots[k]
    ensures forall k :: i <= k < |guess| ==>
              r.0[k] == (if guess[k] == secret[k] then Some(Correct) else marks[k])
    ensures forall k :: i <= k < |guess| ==>
              r.1[k] == (if guess[k] == secret[k] then None else slots[k])
    decreases |guess| - i
  {
    if i == |guess| then (marks, slots)
    else if guess[i] == secret[i] then
      ExactPass(guess, secret, i + 1, marks[i := Some(Correct)], slots[i := None])
    else
      ExactPass(guess, secret, i + 1, marks, slots)
  }

  /** Array.prototype.indexOf on the working copy: the first slot holding c, or -1. */
  function IndexOf(slots: seq<Option<char>>, c: char): (r: int)
    ensures -1 <= r < |slots|
    ensures r == -1 <==> Some(c) !in slots
    ensures r != -1 ==> slots[r] == Some(c)
    ensures forall k :: 0 <= k < r ==> slots[k] != Some(c)
  {
    if |slots| == 0 then -1
    else if slots[0] == Some(c) then 0
    else
      var j := IndexOf(slots[1..], c);
      assert forall k :: 1 <= k < |slots| ==> slots[k] == slots[1..][k - 1];
      if j == -1 then -1 else j + 1
  }

  /**
   * Pass 2 from position i on: a position left unmarked by pass 1 takes the
   * first unconsumed slot holding its letter and becomes present, consuming
   * it; if there is none it becomes absent.
   */
  function PresentPass(guess: string, i: nat,
                       marks: seq<Option<Status>>, slots: seq<Option<char>>)
    : (r: seq<Option<Status>>)
    requires |guess| == |marks| == |slots|
    requires i <= |guess|
    ensures |r| == |guess|
    ensures forall k :: 0 <= k < i ==> r[k] == marks[k]
    ensures forall k :: i <= k < |guess| ==> r[k].Some?
    ensures forall k :: i <= k < |guess| && marks[k].Some? ==> r[k] == marks[k]
    decreases |guess| - i
  {
    if i == |guess| then marks
    else if marks[i].Some? then PresentPass(guess, i + 1, marks, slots)
    else
      var idx := IndexOf(slots, guess[i]);
      if idx != -1 then
        PresentPass(guess, i + 1, marks[i := Some(Present)], slots[idx := None])
      else
        PresentPass(guess, i + 1, marks[i := Some(Absent)], slots)
  }

  /** The working copy of the secret before pass 1: every slot holds its letter. */
  function Slots(secret: string): (r: seq<Option<char>>)
    ensures |r| == |secret|
    ensures forall k :: 0 <= k < |secret| ==> r[k] == Some(secret[k])
  {
    seq(|secret|, k requires 0 <= k < |secret| => Some(secret[k]))
  }

  /** The status array before pass 1: every position unmarked. */
  function Unmarked(n: nat): (r: seq<Option<Status>>)
    ensures |r| == n
    ensures forall k :: 0 <= k < n ==> r[k] == None
  {
    seq(n, k => None)
  }

  /** The five statuses checkGuess computes for guess against secret. */
  function Score(guess: string, secret: string): (r: seq<Status>)
    requires |guess| == |secret|
    ensures |r| == |guess|
    ensures forall k :: 0 <= k < |guess| ==> r[k] == Feedback(guess, secret, k)
  {
    var pass1 := ExactPass(guess, secret, 0, Unmarked(|guess|), Slots(secret));
    var pass2 := PresentPass(guess, 0, pass1.0, pass1.1);
    ExactPassSlots(guess, secret, pass1.1);
    PresentPassAgrees(guess, secret, 0, pass1.0, pass1.1);
    seq(|guess|, k requires 0 <= k < |guess| => pass2[k].value)
  }

  // ---------------------------------------------------------------------
  // The closed form
  // ---------------------------------------------------------------------

  /** Positions k < n where the guess holds c and the secret holds c too. */
  function Exact(guess: string, secret: string, c: char, n: nat): nat
    requires |guess| == |secret| && n <= |guess|
  {
    if n == 0 then 0
    else Exact(guess, secret, c, n - 1) + (if guess[n - 1] == c && secret[n - 1] == c then 1 else 0)
  }

  /** Positions k < n where the guess holds c but the secret does not: c is misplaced there. */
  function Misplaced(guess: string, secret: string, c: char, n: nat): nat
    requires |guess| == |secret| && n <= |guess|
  {
    if n == 0 then 0
    else Misplaced(guess, secret, c, n - 1) + (if guess[n - 1] == c && secret[n - 1] != c then 1 else 0)
  }

  /** Positions k < n where the secret holds c but the guess does not: c is left over there. */
  function Spare(guess: string, secret: string, c: char, n: nat): nat
    requires |guess| == |secret| && n <= |guess|
  {
    if n == 0 then 0
    else Spare(guess, secret, c, n - 1) + (if secret[n - 1] == c && guess[n - 1] != c then 1 else 0)
  }

  /**
   * The status of position k, stated without the algorithm: correct on an
   * exact match; otherwise present exactly when fewer misplaced copies of
   * the letter occur before k than the secret has copies of it left over
   * after the exact matches; otherwise absent.
   */
  function Feedback(guess: string, secret: string, k: nat): Status
    requires |guess| == |secret| && k < |guess|
  {
    var c := guess[k];
    if c == secret[k] then Correct
    else if Misplaced(guess, secret, c, k) < Spare(guess, secret, c, |guess|) then Present
    else Absent
  }

  /** How many left-over copies of c the working copy still holds after pass 2 reached i. */
  function Remaining(guess: string, secret: string, c: char, i: nat): nat
    requires |guess| == |secret| && i <= |guess|
  {
    var used := Misplaced(guess, secret, c, i);
    var supply := Spare(guess, secret, c, |guess|);
    if used < supply then supply - used else 0
  }

  // ---------------------------------------------------------------------
  // The algorithm agrees with the closed form
  // ---------------------------------------------------------------------

  /** After pass 1 the working copy holds each letter exactly as often as it is left over. */
  lemma {:induction false} ExactPassSlots(guess: string, secret: string, slots: seq<Option<char>>)
    requires |guess| == |secret| == |slots|
    requires forall k :: 0 <= k < |guess| ==>
               slots[k] == (if guess[k] == secret[k] then None else Some(secret[k]))
    ensures forall c :: multiset(slots)[Some(c)] == Spare(guess, secret, c, |guess|)
  {
    forall c ensures multiset(slots)[Some(c)] == Spare(guess, secret, c, |guess|) {
      SlotsPrefix(guess, secret, slots, c, |guess|);
      assert slots[..|guess|] == slots;
    }
  }

  lemma {:induction false} SlotsPrefix(guess: string, secret: string, slots: seq<Option<char>>, c: char, n: nat)
    requires |guess| == |secret| == |slots| && n <= |guess|
    requires forall k :: 0 <= k < |guess| ==>
               slots[k] == (if guess[k] == secret[k] then None else Some(secret[k]))
    ensures multiset(slots[..n])[Some(c)] == Spare(guess, secret, c, n)
  {
    if n > 0 {
      SlotsPrefix(guess, secret, slots, c, n - 1);
      assert slots[..n] == slots[..n - 1] + [slots[n - 1]];
    }
  }

  /**
   * The induction behind Score: if pass 1 has run and pass 2 has reached i
   * with every earlier position agreeing with Feedback and the working copy
   * holding Remaining copies of each letter, then pass 2 ends agreeing with
   * Feedback everywhere.
   */
  lemma {:induction false} PresentPassAgrees(guess: string, secret: string, i: nat,
                                             marks: seq<Option<Status>>, slots: seq<Option<char>>)
    requires |guess| == |secret| == |marks| == |slots| && i <= |guess|
    requires forall k :: 0 <= k < i ==> marks[k] == Some(Feedback(guess, secret, k))
    requires forall k :: i <= k < |guess| ==>
               marks[k] == (if guess[k] == secret[k] then Some(Correct) else None)
    requires forall c :: multiset(slots)[Some(c)] == Remaining(guess, secret, c, i)
    ensures forall k :: 0 <= k < |guess| ==>
              PresentPass(guess, i, marks, slots)[k] == Some(Feedback(guess, secret, k))
    decreases |guess| - i
  {
    if i < |guess| {
      var g := guess[i];
      if g == secret[i] {
        forall c ensures multiset(slots)[Some(c)] == Remaining(guess, secret, c, i + 1) {
          assert Misplaced(guess, secret, c, i + 1) == Misplaced(guess, secret, c, i);
        }
        PresentPassAgrees(guess, secret, i + 1, marks, slots);
      } else {
        var idx := IndexOf(slots, g);
        assert Some(g) in slots <==> multiset(slots)[Some(g)] > 0;
        if idx != -1 {
          var slots' := slots[idx := None];
          var marks' := marks[i := Some(Present)];
          forall c ensures multiset(slots')[Some(c)] == Remaining(guess, secret, c, i + 1) {
            assert multiset(slots')[Some(c)] == multiset(slots)[Some(c)] - (if c == g then 1 else 0);
          }
          PresentPassAgrees(guess, secret, i + 1, marks', slots');
        } else {
          var marks' := marks[i := Some(Absent)];
          forall c ensures multiset(slots)[Some(c)] == Remaining(guess, secret, c, i + 1) {
          }
          PresentPassAgrees(guess, secret, i + 1, marks', slots);
        }
      }
    }
  }

  // ---------------------------------------------------------------------
  // Properties of the scores
  // ---------------------------------------------------------------------

  /**
   * A position scores correct exactly when guess and secret agree there, so
   * the secret itself scores correct everywhere.
   */
  lemma ScoreCorrectExactly(guess: string, secret: string)
    requires |guess| == |secret|
    ensures forall k :: 0 <= k < |guess| ==> (Score(guess, secret)[k] == Correct <==> guess[k] == secret[k])
    ensures guess == secret ==> forall k :: 0 <= k < |guess| ==> Score(guess, secret)[k] == Correct
  {
  }

  /** Positions k < n whose guess letter is c and whose status is not absent. */
  function Hits(guess: string, statuses: seq<Status>, c: char, n: nat): nat
    requires |statuses| == |guess| && n <= |guess|
  {
    if n == 0 then 0
    else Hits(guess, statuses, c, n - 1) + (if guess[n - 1] == c && statuses[n - 1] != Absent then 1 else 0)
  }

  function Min(a: int, b: int): int {
    if a <= b then a else b
  }

  /**
   * Duplicate handling: for every letter c, the positions holding c that
   * score correct or present number exactly min(count of c in the guess,
   * count of c in the secret); every further copy of c scores absent.
   */
  lemma ScoreCountsLetters(guess: string, secret: string, c: char)
    requires |guess| == |secret|
    ensures Hits(guess, Score(guess, secret), c, |guess|)
            == Min(multiset(guess)[c], multiset(secret)[c])
  {
    var n := |guess|;
    HitsSplit(guess, secret, Score(guess, secret), c, n);
    LetterCountsSplit(guess, secret, c, n);
    assert guess[..n] == guess && secret[..n] == secret;
  }

  lemma {:induction false} HitsSplit(guess: string, secret: string, statuses: seq<Status>, c: char, n: nat)
    requires |guess| == |secret| == |statuses| && n <= |guess|
    requires forall k :: 0 <= k < |guess| ==> statuses[k] == Feedback(guess, secret, k)
    ensures Hits(guess, statuses, c, n)
            == Exact(guess, secret, c, n) + Min(Misplaced(guess, secret, c, n), Spare(guess, secret, c, |guess|))
  {
    if n > 0 {
      HitsSplit(guess, secret, statuses, c, n - 1);
      assert statuses[n - 1] == Feedback(guess, secret, n - 1);
    }
  }

  lemma {:induction false} LetterCountsSplit(guess: string, secret: string, c: char, n: nat)
    requires |guess| == |secret| && n <= |guess|
    ensures multiset(guess[..n])[c] == Exact(guess, secret, c, n) + Misplaced(guess, secret, c, n)
    ensures multiset(secret[..n])[c] == Exact(guess, secret, c, n) + Spare(guess, secret, c, n)
  {
    if n > 0 {
      LetterCountsSplit(guess, secret, c, n - 1);
      assert guess[..n] == guess[..n - 1] + [guess[n - 1]];
      assert secret[..n] == secret[..n - 1] + [secret[n - 1]];
    }
  }

  lemma {:induction false} MisplacedGrows(guess: string, secret: string, c: char, i: nat, j: nat)
    requires |guess| == |secret| && i < j <= |guess|
    requires guess[i] == c && secret[i] != c
    ensures Misplaced(guess, secret, c, j) > Misplaced(guess, secret, c, i)
    decreases j
  {
    if j > i + 1 {
      MisplacedGrows(guess, secret, c, i, j - 1);
    }
  }

  /**
   * Left-to-right priority: of two non-exact positions i < j holding the
   * same letter, the later one can only be present if the earlier one is.
   */
  lemma ScoreLeftToRight(guess: string, secret: string, i: nat, j: nat)
    requires |guess| == |secret| && i < j < |guess|
    requires guess[i] == guess[j] && guess[i] != secret[i] && guess[j] != secret[j]
    requires Score(guess, secret)[j] == Present
    ensures Score(guess, secret)[i] == Present
  {
    MisplacedGrows(guess, secret, guess[i], i, j);
  }

  lemma {:induction false} SpareOccurs(guess: string, secret: string, c: char, n: nat)
    requires |guess| == |secret| && n <= |guess|
    requires Spare(guess, secret, c, n) > 0
    ensures exists j :: 0 <= j < n && secret[j] == c && guess[j] != c
  {
    if secret[n - 1] == c && guess[n - 1] != c {
    } else {
      SpareOccurs(guess, secret, c, n - 1);
    }
  }

  /**
   * A present position is backed by a secret position that holds its letter
   * and is not itself an exact match; an absent letter is one whose copies in
   * the secret, if any, are all exact matches or already claimed.
   */
  lemma ScorePresentIsBacked(guess: string, secret: string, k: nat)
    requires |guess| == |secret| && k < |guess|
    requires Score(guess, secret)[k] == Present
    ensures guess[k] != secret[k]
    ensures exists j :: 0 <= j < |secret| && secret[j] == guess[k] && guess[j] != secret[j]
  {
    SpareOccurs(guess, secret, guess[k], |guess|);
  }

  /**
   * Worked example with a repeated letter on both sides: secret ALLOW, guess
   * LOYAL. No position matches exactly (the final L faces the secret's W), so
   * both L's take one of the secret's two L's and score present.
   */
  lemma ScoreExampleAllowLoyal()
    ensures Score("LOYAL", "ALLOW") == [Present, Present, Absent, Present, Present]
  {
    var g, s := "LOYAL", "ALLOW";
    assert g[0] == 'L' && g[1] == 'O' && g[2] == 'Y' && g[3] == 'A' && g[4] == 'L';
    assert s[0] == 'A' && s[1] == 'L' && s[2] == 'L' && s[3] == 'O' && s[4] == 'W';
    assert Spare(g, s, 'L', 5) == 2 && Misplaced(g, s, 'L', 4) == 1;
    assert Spare(g, s, 'O', 5) == 1 && Spare(g, s, 'Y', 5) == 0 && Spare(g, s, 'A', 5) == 1;
    assert Feedback(g, s, 0) == Present && Feedback(g, s, 1) == Present && Feedback(g, s, 2) == Absent;
    assert Feedback(g, s, 3) == Present && Feedback(g, s, 4) == Present;
  }

  /**
   * Worked example: secret SPEED, guess ERASE. No position matches exactly;
   * the secret has two E's, so both E's of the guess score present.
   */
  lemma ScoreExampleSpeedErase()
    ensures Score("ERASE", "SPEED") == [Present, Absent, Absent, Present, Present]
  {
    var g, s := "ERASE", "SPEED";
    assert g[0] == 'E' && g[1] == 'R' && g[2] == 'A' && g[3] == 'S' && g[4] == 'E';
    assert s[0] == 'S' && s[1] == 'P' && s[2] == 'E' && s[3] == 'E' && s[4] == 'D';
    assert Spare(g, s, 'E', 5) == 2 && Misplaced(g, s, 'E', 4) == 1;
    assert Spare(g, s, 'R', 5) == 0 && Spare(g, s, 'A', 5) == 0 && Spare(g, s, 'S', 5) == 1;
    assert Feedback(g, s, 0) == Present && Feedback(g, s, 1) == Absent && Feedback(g, s, 2) == Absent;
    assert Feedback(g, s, 3) == Present && Feedback(g, s, 4) == Present;
  }
}
