/**
 * The on-screen keyboard's colours (updateKeyboard, script.js:234-243): each
 * letter key remembers the best status its letter has scored, under the
 * order absent < present < correct, and is never downgraded.
 */
module Keyboard {
  import opened Statuses

  /** The letter keys of the three keyboard rows (script.js:28-32), ENTER and BACK aside. */
  const LetterKeys: string := "QWERTYUIOPASDFGHJKLZXCVBNM"

  /** The colour class key c currently carries, if any. */
  function Lookup(keys: map<char, Status>, c: char): Option<Status> {
    if c in keys then Some(keys[c]) else None
  }

  /**
   * Colours the key of letter with status. A letter without a key is
   * ignored; otherwise the key ends at the maximum of its old colour and
   * status, so it never moves down the order and correct is final.
   */
  function UpdateKeyboard(keys: map<char, Status>, letter: char, status: Status)
    : (r: map<char, Status>)
    ensures letter !in LetterKeys ==> r == keys
    ensures letter in LetterKeys ==> Lookup(r, letter) == MaxOpt(Lookup(keys, letter), Some(status))
    ensures letter in keys ==> letter in r && Rank(r[letter]) >= Rank(keys[letter])
    ensures letter in keys && keys[letter] == Correct ==> r[letter] == Correct
    ensures forall c :: c != letter ==> Lookup(r, c) == Lookup(keys, c)
  {
    if letter !in LetterKeys then keys
    else if letter in keys && keys[letter] == Correct then keys
    else if letter in keys && keys[letter] == Present && status != Correct then keys
    else keys[letter := status]
  }

  /**
   * The keyboard updates of one scored row, applied position by position
   * from i on, in the order the source schedules them. Every letter key ends
   * at the maximum of its old colour and the best status its letter scored
   * from i on, so no key is downgraded; keys of letters outside the layout
   * never change.
   */
  function UpdateRow(keys: map<char, Status>, guess: string, statuses: seq<Status>, i: nat)
    : (r: map<char, Status>)
    requires |statuses| == |guess| && i <= |guess|
    ensures forall c :: c in LetterKeys ==>
              Lookup(r, c) == MaxOpt(Lookup(keys, c), BestFrom(guess, statuses, c, i))
    ensures forall c :: c !in LetterKeys ==> Lookup(r, c) == Lookup(keys, c)
    ensures forall c :: RankOpt(Lookup(r, c)) >= RankOpt(Lookup(keys, c))
    ensures forall c :: Lookup(keys, c) == Some(Correct) ==> Lookup(r, c) == Some(Correct)
    decreases |guess| - i
  {
    if i == |guess| then keys
    else
      var r := UpdateRow(UpdateKeyboard(keys, guess[i], statuses[i]), guess, statuses, i + 1);
      assert forall c :: c in LetterKeys ==>
               Lookup(r, c) == MaxOpt(Lookup(keys, c), BestFrom(guess, statuses, c, i)) by {
        forall c | c in LetterKeys
          ensures Lookup(r, c) == MaxOpt(Lookup(keys, c), BestFrom(guess, statuses, c, i))
        {
          MaxOptLaws(Lookup(keys, c), if guess[i] == c then Some(statuses[i]) else None,
                     BestFrom(guess, statuses, c, i + 1));
        }
      }
      r
  }

  /** The best status scored by letter c among positions i.. of a row. */
  function BestFrom(guess: string, statuses: seq<Status>, c: char, i: nat): Option<Status>
    requires |statuses| == |guess| && i <= |guess|
    decreases |guess| - i
  {
    if i == |guess| then None
    else MaxOpt(if guess[i] == c then Some(statuses[i]) else None,
                BestFrom(guess, statuses, c, i + 1))
  }

  /** A letter that does not occur in positions i.. of the row has no best status there. */
  lemma {:induction false} BestFromMissing(guess: string, statuses: seq<Status>, c: char, i: nat)
    requires |statuses| == |guess| && i <= |guess|
    requires forall k :: i <= k < |guess| ==> guess[k] != c
    ensures BestFrom(guess, statuses, c, i) == None
    decreases |guess| - i
  {
    if i < |guess| {
      BestFromMissing(guess, statuses, c, i + 1);
    }
  }
}
