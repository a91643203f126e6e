/**
 * The word list: the length filter applied at load time (script.js:15) and
 * the dictionary check on a submitted guess (isValidWord, script.js:150-152).
 * The list itself is an input; the case maps are those of ASCII letters.
 */
module Words {

  /** Keeps only the words of exactly five characters. */
  function FiveLetterWords(words: seq<string>): (r: seq<string>)
    ensures forall w {:trigger w in r} :: w in r <==> w in words && |w| == 5
    ensures |r| <= |words|
  {
    if |words| == 0 then []
    else (if |words[0]| == 5 then [words[0]] else []) + FiveLetterWords(words[1..])
  }

  predicate IsLowerLetter(c: char) {
    'a' <= c <= 'z'
  }

  predicate IsUpperLetter(c: char) {
    'A' <= c <= 'Z'
  }

  function LowerChar(c: char): char {
    if IsUpperLetter(c) then (c as int + 32) as char else c
  }

  function UpperChar(c: char): char {
    if IsLowerLetter(c) then (c as int - 32) as char else c
  }

  /**
   * String.prototype.toLowerCase, on ASCII letters: every upper-case letter
   * becomes the lower-case letter it is the capital of, everything else is
   * kept, and no upper-case letter is left.
   */
  function ToLower(s: string): (r: string)
    ensures |r| == |s|
    ensures forall i :: 0 <= i < |s| ==> r[i] == LowerChar(s[i])
    ensures forall i :: 0 <= i < |s| && IsUpperLetter(s[i]) ==> IsLowerLetter(r[i]) && UpperChar(r[i]) == s[i]
    ensures forall i :: 0 <= i < |s| && !IsUpperLetter(s[i]) ==> r[i] == s[i]
    ensures forall i :: 0 <= i < |s| ==> !IsUpperLetter(r[i])
  {
    seq(|s|, i requires 0 <= i < |s| => LowerChar(s[i]))
  }

  /**
   * String.prototype.toUpperCase, on ASCII letters: every lower-case letter
   * becomes its capital, everything else is kept, and no lower-case letter
   * is left.
   */
  function ToUpper(s: string): (r: string)
    ensures |r| == |s|
    ensures forall i :: 0 <= i < |s| ==> r[i] == UpperChar(s[i])
    ensures forall i :: 0 <= i < |s| && IsLowerLetter(s[i]) ==> IsUpperLetter(r[i]) && LowerChar(r[i]) == s[i]
    ensures forall i :: 0 <= i < |s| && !IsLowerLetter(s[i]) ==> r[i] == s[i]
    ensures forall i :: 0 <= i < |s| ==> !IsLowerLetter(r[i])
  {
    seq(|s|, i requires 0 <= i < |s| => UpperChar(s[i]))
  }

  /**
   * A guess is accepted when its lower-case form is one of the five-letter
   * words: exactly when it has five characters and its lower-case form is
   * in the list.
   */
  function IsValidWord(words: seq<string>, guess: string): (r: bool)
    ensures r <==> |guess| == 5 && ToLower(guess) in words
  {
    ToLower(guess) in FiveLetterWords(words)
  }

  /** Only five-character guesses can be accepted, and only if the list has such a word. */
  lemma ValidWordHasFiveLetters(words: seq<string>, guess: string)
    requires IsValidWord(words, guess)
    ensures |guess| == 5
    ensures |FiveLetterWords(words)| > 0
  {
  }

  /** The dictionary check ignores case: a guess, its lower-case and its upper-case forms agree. */
  lemma ValidWordIgnoresCase(words: seq<string>, guess: string)
    ensures IsValidWord(words, guess) <==> IsValidWord(words, ToLower(guess))
    ensures IsValidWord(words, guess) <==> IsValidWord(words, ToUpper(guess))
  {
    assert ToLower(ToLower(guess)) == ToLower(guess);
    assert ToLower(ToUpper(guess)) == ToLower(guess);
  }

  /**
   * A listed word written in lower-case letters, once upper-cased as the
   * secret is, passes the dictionary check, so the secret can be guessed.
   */
  lemma UpperOfListedWordIsValid(words: seq<string>, w: string)
    requires w in words && |w| == 5
    requires forall i :: 0 <= i < |w| ==> IsLowerLetter(w[i])
    ensures IsValidWord(words, ToUpper(w))
    ensures forall i :: 0 <= i < |w| ==> IsUpperLetter(ToUpper(w)[i])
  {
    assert ToLower(ToUpper(w)) == w;
  }
}
