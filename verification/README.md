# Guess-the-Word: a verified model of the game engine

This project models the game logic of a browser Wordle clone (`script.js`)
as a pure engine without a DOM. A secret five-letter word is drawn from a
word list. The player has six rows of five tiles in which to guess it.
Each submitted row is scored tile by tile as `correct`, `present` or
`absent`. The on-screen keyboard shows, for every letter, the best status
that letter has received so far.

The model has five modules:

- `Statuses` (`statuses.dfy`): the three status classes, the key-upgrade
  order absent < present < correct, and the maximum under that order.
- `Scoring` (`scoring.dfy`): the scoring in `checkGuess`, written the way
  the source writes it.
  - Pass 1 marks exact matches `correct` and nulls their slots in a working
    copy of the secret.
  - Pass 2 gives each remaining position the first unconsumed slot holding
    its letter (`indexOf`), or marks it `absent`.
  - `Score` is proved equal, position by position, to an independent closed
    form, `Feedback`. A non-exact position is `present` exactly when fewer
    misplaced copies of its letter come before it than the secret has
    copies of that letter left after the exact matches.
  - The duplicate-letter count property and the left-to-right priority
    property are proved from `Feedback`.
- `Keyboard` (`keyboard.dfy`): `updateKeyboard` as a max-merge over a map
  from letters to statuses, and the per-row sequence of those updates.
- `Words` (`words.dfy`): the five-letter filter on the word list, the ASCII
  case maps, and the case-insensitive dictionary check `isValidWord`.
- `Game` (`game.dfy`): the session state and one step function per key.
  - The state holds the secret, a 6×5 board of tiles (letter and status),
    the cursor (`row`, `tile`), the `over` flag and the key colours.
  - `HandleKey` dispatches as `handleKeyPress` does. `CheckGuess` rejects
    unlisted words. `Submit` scores the row, colours the keys and decides
    win, loss or next row, all as one atomic step.
  - The invariant `Valid` holds after every step. It says:
    - the cursor is in range;
    - rows above the cursor are scored, listed, wrong guesses;
    - rows below the cursor are untouched;
    - the cursor row is being typed, or, once the game is over, it is scored
      and is either the secret or the last row;
    - every key shows the best status its letter has on the board.

The word list is a parameter of every operation that needs it. The random
choice of the secret is a parameter `pick`, an index into the five-letter
words.

With secret ALLOW and guess LOYAL no position matches exactly, because
ALLOW ends in W. So both L's of the guess take one of the secret's two L's
and score `present`. `Scoring.ScoreExampleAllowLoyal` states this.

## Model

| member | source | states |
|---|---|---|
| `Statuses.MaxOpt` | script.js:238-242 | the merged key colour is one of the two inputs and ranks at least as high as both, with "no colour" below absent |
| `Scoring.ExactPass` | script.js:186-192 | pass 1 marks exactly the positions where guess and secret agree as correct, nulls exactly those slots, and leaves every other position and slot alone |
| `Scoring.IndexOf` | script.js:197 | returns -1 exactly when no slot holds the letter; otherwise it returns the first slot holding it |
| `Scoring.PresentPass` | script.js:194-205 | pass 2 leaves the positions already marked unchanged and gives every unmarked position a status |
| `Scoring.Score` | script.js:182-205 | every position gets exactly the closed-form `Feedback` status, so the two-pass algorithm agrees with the counting definition on every input |
| `Scoring.ScoreCorrectExactly` | script.js:186-192 | a position scores correct if and only if guess and secret agree there; the secret itself scores all correct |
| `Scoring.PresentPassAgrees` | script.js:195-204 | the consume-on-match loop keeps, for every letter, exactly max(0, left-over copies − misplaced copies already seen) unconsumed slots, so its result equals `Feedback` |
| `Scoring.ScoreCountsLetters` | script.js:186-205 | for every letter c, the positions holding c that score correct or present number exactly min(count of c in guess, count of c in secret) |
| `Scoring.ScoreLeftToRight` | script.js:195-200 | of two non-exact positions i < j with the same letter, if j is present then i is present |
| `Scoring.ScorePresentIsBacked` | script.js:197-200 | a present position is not an exact match, and the secret holds its letter at a position that is not an exact match |
| `Scoring.ScoreExampleAllowLoyal` | script.js:182-205 | LOYAL against ALLOW scores present, present, absent, present, present |
| `Scoring.ScoreExampleSpeedErase` | script.js:182-205 | ERASE against SPEED scores present, absent, absent, present, present |
| `Keyboard.UpdateKeyboard` | script.js:234-243 | a letter without a key changes nothing; otherwise the key becomes the maximum of its old colour and the new status, is never downgraded, stays correct once correct, and no other key changes |
| `Keyboard.UpdateRow` | script.js:207-217 | after a row's updates, each layout letter's key is the maximum of its old colour and the best status that letter scored in the row; keys of other letters never change; no key's rank drops, and a correct key stays correct |
| `Words.FiveLetterWords` | script.js:15 | a word is kept if and only if it is in the list and has exactly five characters |
| `Words.ToLower` | script.js:151 | every upper-case letter becomes the lower-case letter it is the capital of, every other character is kept, and no upper-case letter is left |
| `Words.ToUpper` | script.js:59 | every lower-case letter becomes its capital, every other character is kept, and no lower-case letter is left |
| `Words.IsValidWord` | script.js:150-152 | a guess is accepted if and only if it has five characters and its lower-case form is in the word list |
| `Words.ValidWordHasFiveLetters` | script.js:150-152 | an accepted guess has five characters, and the filtered list is not empty |
| `Words.ValidWordIgnoresCase` | script.js:150-152 | a guess is accepted if and only if its lower-case form is accepted, and if and only if its upper-case form is |
| `Words.UpperOfListedWordIsValid` | script.js:57-60 | a listed lower-case five-letter word, upper-cased as the secret is, passes the dictionary check and consists of upper-case letters |
| `Game.Join` | script.js:175 | the joined row is never longer than the row; a full row joins to a word of its length whose letters are the tiles' letters in order |
| `Game.Mark` | script.js:212 | each tile of the row keeps its letter and takes the status computed for its position |
| `Game.Guess` | script.js:175 | while the cursor row is being typed, the guess is exactly the letters typed so far, in order, and its length is the cursor position |
| `Game.StartGame` | script.js:37-60 | there is no session exactly when no word has five letters; otherwise the new session satisfies the invariant, has no guesses, no key colours, cursor (0, 0), is not over, and its secret is the upper case of a listed five-letter word |
| `Game.EnterLetter` | script.js:137-144 | with room in the row, the letter is written at the cursor and the cursor advances by one; on a full row nothing changes; no other tile changes |
| `Game.Backspace` | script.js:128-135 | after the row's start, the cursor steps back and that tile's letter is cleared; at the row's start nothing changes; no other tile changes |
| `Game.CheckGuess` | script.js:174-180 | a guess not in the list leaves the whole session unchanged; a listed guess has five letters and is submitted |
| `Game.Submit` | script.js:182-228 | the cursor row is marked with its scores, no other row changes, exactly one more guess is scored, and the game is over if and only if the guess is the secret or this was the last row; otherwise the cursor moves to the start of the next row |
| `Game.HandleKey` | script.js:120-145 | every key press preserves the invariant; row stays in [0,6) and tile in [0,5]; once over, a press changes nothing; ENTER on a partial row, or on an unlisted word, changes nothing; letters advance and BACK retreats the cursor within bounds; at most one guess is scored; no key is downgraded |
| `Game.Play` | script.js:120-145 | over any sequence of key presses, the invariant holds, the number of scored guesses only grows and never exceeds six, and no key is downgraded |
| `Game.WinIsAllCorrect` | script.js:219-221 | a game won on a row shows every tile of that row as correct |
| `Game.LossIsSixMisses` | script.js:222-223 | a game over without the secret is on the last row, after six scored, listed guesses, none of them the secret |
| `Game.EditPreservesValid` | script.js:128-144 | letter entry or deletion that keeps the cursor row a row being typed preserves the invariant, including the keys agreeing with the board |
| `Game.SubmitKeys` | script.js:207-217 | after a submission each key again shows the best status its letter has anywhere on the board |
| `Game.RowKeyAgrees` | script.js:207-217 | marking an unmarked row that spells the guess, and folding the same statuses into the keys, keeps each key equal to its letter's best status on the board |
| `Game.SubmitRows` | script.js:219-228 | after a submission the rows above the cursor are scored, listed misses and the rows below it are untouched |
| `Game.MarkedRowIsScored` | script.js:207-215 | the row marked with its scores spells the guess and is a correctly scored row of a listed word |
| `Game.FinishingTheSecretWins` | script.js:120-145 | from any tile of a running row that spells a prefix of the secret, typing the rest of the secret and pressing ENTER wins on that row |
| `Game.TypingTheSecretWins` | script.js:219-221 | at the start of any row, typing a listed secret and pressing ENTER ends the game on that row, with the secret in it |
| `Game.FreshSecretCanBeTyped` | script.js:57-60 | when the list's five-letter words are lower-case letters, the secret of a new game passes the dictionary check and every letter of it has a key |

## Left out

- DOM construction and messages: `createBoard`, `createKeyboard`,
  `showInvalidWordMessage`, the texts shown by `handleWin` and
  `handleLose`, and the CSS classes `filled`, `pop`, `flip` and `shake`.
  The board is a sequence of rows of tiles, each tile holding a letter and
  a status.
- `setTimeout` staging (script.js:142, 164-168, 207-228). A submission is
  one atomic step. The source defers the key colours and the outcome by up
  to one second, so a second ENTER in that window would score the same row
  again. That is a timing artefact, not modelled.
- `Math.random` in `generateRandomWord`: the index is the parameter `pick`.
  With no five-letter word the source throws on `undefined.toUpperCase()`.
  The model returns `None` instead.
- `VALID_WORDS` is defined in a file that is not part of this model. The
  word list is an input sequence of strings.
- The physical `keydown` listener (script.js:268-276) and the restart
  button (script.js:263). The model keeps only their guarantee that
  `handleKeyPress` receives ENTER, BACK or one of the 26 layout letters
  (`Game.ValidKey`). Restarting is `Game.StartGame` again.
- `Words.ValidWordIgnoresCase`: `toLowerCase` and `toUpperCase` are
  modelled on ASCII letters only, while JavaScript applies full Unicode
  case mapping. The keys only produce A–Z, so typed guesses are unaffected.
- `Game.StartGame`: strings are sequences of Unicode scalar values, with
  ASCII-only case maps. For a list word with non-ASCII letters the model's
  secret differs from the source's. For example, JavaScript upper-cases
  "große" to the six-character "GROSSE", while the model keeps "GROßE".
  Scores against such a secret differ as well.
- `Words.FiveLetterWords`: the model counts a word's length in Unicode
  scalar values. JavaScript's `length` counts UTF-16 code units. A list
  word with a character outside the Basic Multilingual Plane is therefore
  filtered differently. ASCII words are filtered identically.
- `Game.FreshSecretCanBeTyped`: winnability is proved only for word lists
  whose five-letter entries are lower-case letters. If the list held a
  word with an upper-case letter, the upper-cased secret would fail the
  lower-case dictionary check, and the game could not be won.
