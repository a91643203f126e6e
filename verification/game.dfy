/**
 * The turn state machine of the game (startGame, handleKeyPress, checkGuess,
 * handleWin and handleLose in script.js) as an immutable session value with
 * one step function per key. A submission is one atomic step: check the
 * word, score it, colour the keys, then decide win, loss or the next row.
 */
module Game {
  import opened Statuses
  import opened Scoring
  import opened Keyboard
  import opened Words

  /** The board is 6 rows of 5 tiles (script.js:68, 75). */
  const Rows: int := 6
  const Columns: int := 5

  /** A tile: the letter typed into it, if any, and the status class it was given, if any. */
  datatype Tile = Tile(letter: Option<char>, mark: Option<Status>)

  const Blank: Tile := Tile(None, None)

  /** The keys handleKeyPress is called with: ENTER, BACK or one letter. */
  datatype Key = Enter | Back | Letter(c: char)

  /** The game's module-level state; the secret is fixed for the session. */
  datatype Session = Session(
    secret: string,
    board: seq<seq<Tile>>,
    row: int,
    tile: int,
    over: bool,
    keys: map<char, Status>)

  /** Both callers of handleKeyPress pass either a command or a letter of the layout. */
  predicate ValidKey(key: Key) {
    key.Letter? ==> key.c in LetterKeys
  }

  // ---------------------------------------------------------------------
  // Rows of tiles
  // ---------------------------------------------------------------------

  predicate Filled(tiles: seq<Tile>) {
    forall k :: 0 <= k < |tiles| ==> tiles[k].letter.Some?
  }

  /** The word in a row: the tiles' text joined, an empty tile contributing nothing. */
  function Join(tiles: seq<Tile>): (r: string)
    ensures |r| <= |tiles|
    ensures Filled(tiles) ==> |r| == |tiles|
    ensures Filled(tiles) ==> forall k :: 0 <= k < |tiles| ==> r[k] == tiles[k].letter.value
  {
    if |tiles| == 0 then []
    else
      var head := match tiles[0].letter case None => [] case Some(c) => [c];
      var r := head + Join(tiles[1..]);
      assert Filled(tiles) ==> Filled(tiles[1..]);
      r
  }

  /** A row being typed joins to exactly the letters typed into its first n tiles. */
  lemma {:induction false} JoinTyped(tiles: seq<Tile>, n: int)
    requires 0 <= n <= |tiles| && EditingRow(tiles, n)
    ensures |Join(tiles)| == n
    ensures forall k :: 0 <= k < n ==> Join(tiles)[k] == tiles[k].letter.value
  {
    if |tiles| > 0 {
      var m := if n > 0 then n - 1 else 0;
      assert EditingRow(tiles[1..], m);
      JoinTyped(tiles[1..], m);
    }
  }

  /** Gives every tile of a row the status computed for its position. */
  function Mark(tiles: seq<Tile>, statuses: seq<Status>): (r: seq<Tile>)
    requires |statuses| == |tiles|
    ensures |r| == |tiles|
    ensures forall k :: 0 <= k < |tiles| ==> r[k].letter == tiles[k].letter && r[k].mark == Some(statuses[k])
  {
    seq(|tiles|, k requires 0 <= k < |tiles| => tiles[k].(mark := Some(statuses[k])))
  }

  predicate EmptyRow(tiles: seq<Tile>) {
    forall k :: 0 <= k < |tiles| ==> tiles[k] == Blank
  }

  /** A row being typed: letters in the first n tiles, nothing after, no status anywhere. */
  predicate EditingRow(tiles: seq<Tile>, n: int) {
    forall k :: 0 <= k < |tiles| ==>
      if k < n then tiles[k].letter.Some? && tiles[k].mark.None? else tiles[k] == Blank
  }

  /** A submitted row: full, a listed word, and marked with its scores against the secret. */
  predicate ScoredRow(words: seq<string>, tiles: seq<Tile>, secret: string) {
    && |tiles| == |secret|
    && Filled(tiles)
    && IsValidWord(words, Join(tiles))
    && forall k :: 0 <= k < |tiles| ==> tiles[k].mark == Some(Score(Join(tiles), secret)[k])
  }

  // ---------------------------------------------------------------------
  // The best status on the board for a letter
  // ---------------------------------------------------------------------

  function TileBest(t: Tile, c: char): Option<Status> {
    if t.letter == Some(c) then t.mark else None
  }

  /**
   * The best status among tiles i.. of a row that hold c. This reads tiles,
   * which may be empty or not yet marked; Keyboard.BestFrom reads a scored
   * row as a guess and its statuses. RowBestMarked shows that the two agree
   * on a marked row.
   */
  function RowBest(tiles: seq<Tile>, c: char, i: nat): Option<Status>
    requires i <= |tiles|
    decreases |tiles| - i
  {
    if i == |tiles| then None else MaxOpt(TileBest(tiles[i], c), RowBest(tiles, c, i + 1))
  }

  /** The best status any tile holding c has been given on the whole board. */
  function BoardBest(board: seq<seq<Tile>>, c: char): Option<Status> {
    if |board| == 0 then None else MaxOpt(RowBest(board[0], c, 0), BoardBest(board[1..], c))
  }

  // ---------------------------------------------------------------------
  // The session invariant
  // ---------------------------------------------------------------------

  predicate Shape(s: Session) {
    && |s.secret| == Columns
    && |s.board| == Rows
    && (forall r :: 0 <= r < Rows ==> |s.board[r]| == Columns)
    && 0 <= s.row < Rows
    && 0 <= s.tile <= Columns
  }

  /** Every letter on the board is a letter of the keyboard layout. */
  predicate LayoutLetters(board: seq<seq<Tile>>) {
    forall r, k :: 0 <= r < |board| && 0 <= k < |board[r]| && board[r][k].letter.Some? ==>
      board[r][k].letter.value in LetterKeys
  }

  /** Rows above the cursor hold scored misses; rows below it are untouched. */
  predicate OtherRows(words: seq<string>, s: Session)
    requires Shape(s)
  {
    && (forall r :: 0 <= r < s.row ==>
          ScoredRow(words, s.board[r], s.secret) && Join(s.board[r]) != s.secret)
    && (forall r :: s.row < r < Rows ==> EmptyRow(s.board[r]))
  }

  /**
   * The cursor row is being typed while the game runs; once the game is
   * over it is full and scored, and it is either the secret or the last row.
   */
  predicate CursorRow(words: seq<string>, s: Session)
    requires Shape(s)
  {
    if s.over then
      && s.tile == Columns
      && ScoredRow(words, s.board[s.row], s.secret)
      && (Join(s.board[s.row]) == s.secret || s.row == Rows - 1)
    else
      EditingRow(s.board[s.row], s.tile)
  }

  /** Each key shows the best status its letter has been given anywhere on the board. */
  predicate KeysAgree(s: Session) {
    forall c :: Lookup(s.keys, c) == BoardBest(s.board, c)
  }

  predicate Valid(words: seq<string>, s: Session) {
    && Shape(s)
    && LayoutLetters(s.board)
    && OtherRows(words, s)
    && CursorRow(words, s)
    && KeysAgree(s)
  }

  /** How many guesses have been scored: the rows above the cursor, and the cursor row once over. */
  function Guesses(s: Session): int {
    if s.over then s.row + 1 else s.row
  }

  /**
   * The word in the cursor row, as checkGuess assembles it (script.js:175):
   * while the row is being typed, exactly the letters typed so far, in order.
   */
  function Guess(s: Session): (r: string)
    requires Shape(s)
    ensures EditingRow(s.board[s.row], s.tile) ==>
              |r| == s.tile && forall k :: 0 <= k < s.tile ==> r[k] == s.board[s.row][k].letter.value
  {
    var line := s.board[s.row];
    if EditingRow(line, s.tile) then
      JoinTyped(line, s.tile);
      Join(line)
    else Join(line)
  }

  // ---------------------------------------------------------------------
  // Steps
  // ---------------------------------------------------------------------

  function EmptyBoard(): (b: seq<seq<Tile>>)
    ensures |b| == Rows
    ensures forall r :: 0 <= r < Rows ==> |b[r]| == Columns && EmptyRow(b[r])
  {
    seq(Rows, r => seq(Columns, k => Blank))
  }

  /**
   * startGame with the random index taken as a parameter: the secret is the
   * upper-cased pick from the five-letter words; the cursor is at the first
   * tile, the game runs and no key is coloured. With no five-letter word
   * there is no secret and no session.
   */
  function StartGame(words: seq<string>, pick: nat): (r: Option<Session>)
    requires pick < |FiveLetterWords(words)| || |FiveLetterWords(words)| == 0
    ensures r.None? <==> |FiveLetterWords(words)| == 0
    ensures r.Some? ==> Valid(words, r.value) && Guesses(r.value) == 0
    ensures r.Some? ==> r.value.row == 0 && r.value.tile == 0 && !r.value.over
    ensures r.Some? ==> forall c :: Lookup(r.value.keys, c).None?
    ensures r.Some? ==> exists w :: w in words && |w| == 5 && r.value.secret == ToUpper(w)
  {
    var list := FiveLetterWords(words);
    if |list| == 0 then None
    else
      var s := Session(ToUpper(list[pick]), EmptyBoard(), 0, 0, false, map[]);
      EmptyBoardHasNoBest(s.board);
      assert list[pick] in list;
      Some(s)
  }

  /** A letter key: written at the cursor and the cursor advanced, unless the row is full. */
  function EnterLetter(s: Session, c: char): (r: Session)
    requires Shape(s)
    ensures Shape(r)
    ensures s.tile < Columns ==> r.tile == s.tile + 1 && r.board[s.row][s.tile].letter == Some(c)
    ensures s.tile == Columns ==> r == s
    ensures r.secret == s.secret && r.row == s.row && r.over == s.over && r.keys == s.keys
    ensures forall i, k :: 0 <= i < Rows && 0 <= k < Columns && (i, k) != (s.row, s.tile) ==>
              r.board[i][k] == s.board[i][k]
  {
    if s.tile < Columns then
      var line := s.board[s.row][s.tile := s.board[s.row][s.tile].(letter := Some(c))];
      s.(board := s.board[s.row := line], tile := s.tile + 1)
    else s
  }

  /** BACK: the cursor steps back and that tile is emptied, unless it is at the row's start. */
  function Backspace(s: Session): (r: Session)
    requires Shape(s)
    ensures Shape(r)
    ensures s.tile > 0 ==> r.tile == s.tile - 1 && r.board[s.row][s.tile - 1].letter == None
    ensures s.tile == 0 ==> r == s
    ensures r.secret == s.secret && r.row == s.row && r.over == s.over && r.keys == s.keys
    ensures forall i, k :: 0 <= i < Rows && 0 <= k < Columns && (i, k) != (s.row, s.tile - 1) ==>
              r.board[i][k] == s.board[i][k]
  {
    if s.tile > 0 then
      var line := s.board[s.row][s.tile - 1 := s.board[s.row][s.tile - 1].(letter := None)];
      s.(board := s.board[s.row := line], tile := s.tile - 1)
    else s
  }

  /**
   * checkGuess on a full row, as one step: a word not in the list changes
   * nothing (script.js:177-180); a listed word is submitted.
   */
  function CheckGuess(words: seq<string>, s: Session): (r: Session)
    requires Shape(s) && !s.over && s.tile == Columns
    ensures Shape(r) && r.secret == s.secret
    ensures !IsValidWord(words, Guess(s)) ==> r == s
    ensures IsValidWord(words, Guess(s)) ==> |Guess(s)| == Columns && r == Submit(s)
    ensures forall c :: RankOpt(Lookup(r.keys, c)) >= RankOpt(Lookup(s.keys, c))
  {
    var guess := Guess(s);
    if !IsValidWord(words, guess) then s
    else
      ValidWordHasFiveLetters(words, guess);
      Submit(s)
  }

  /**
   * A submitted full row of five letters: the row is marked with its
   * scores, the keys are coloured, and the game is won on the secret
   * (handleWin), lost on the last row (handleLose), and otherwise moves to
   * the start of the next row. Exactly one more guess has been scored.
   */
  function Submit(s: Session): (r: Session)
    requires Shape(s) && !s.over && s.tile == Columns && |Guess(s)| == Columns
    ensures Shape(r) && r.secret == s.secret
    ensures r.board[s.row] == Mark(s.board[s.row], Score(Guess(s), s.secret))
    ensures forall i :: 0 <= i < Rows && i != s.row ==> r.board[i] == s.board[i]
    ensures Guesses(r) == Guesses(s) + 1
    ensures r.over <==> Guess(s) == s.secret || s.row == Rows - 1
    ensures r.over ==> r.row == s.row && r.tile == Columns
    ensures !r.over ==> r.row == s.row + 1 && r.tile == 0
    ensures forall c :: RankOpt(Lookup(r.keys, c)) >= RankOpt(Lookup(s.keys, c))
  {
    var guess := Guess(s);
    var statuses := Score(guess, s.secret);
    var board := s.board[s.row := Mark(s.board[s.row], statuses)];
    var keys := UpdateRow(s.keys, guess, statuses, 0);
    if guess == s.secret then s.(board := board, keys := keys, over := true)
    else if s.row == Rows - 1 then s.(board := board, keys := keys, over := true)
    else s.(board := board, keys := keys, row := s.row + 1, tile := 0)
  }

  /**
   * handleKeyPress: nothing once the game is over; ENTER submits only a
   * full row; BACK and letters move the cursor within the row.
   */
  function HandleKey(words: seq<string>, s: Session, key: Key): (r: Session)
    requires Valid(words, s) && ValidKey(key)
    ensures Valid(words, r)
    ensures 0 <= r.row < Rows && 0 <= r.tile <= Columns
    ensures s.over ==> r == s
    ensures r.secret == s.secret
    ensures Guesses(r) == Guesses(s) || Guesses(r) == Guesses(s) + 1
    ensures key != Enter ==> Guesses(r) == Guesses(s) && r.keys == s.keys
    ensures key == Enter && s.tile < Columns ==> r == s
    ensures key == Enter && s.tile == Columns && !IsValidWord(words, Guess(s)) ==> r == s
    ensures !s.over && key.Letter? ==> r.tile == (if s.tile < Columns then s.tile + 1 else s.tile)
    ensures !s.over && key == Back ==> r.tile == (if s.tile > 0 then s.tile - 1 else 0)
    ensures forall c :: RankOpt(Lookup(r.keys, c)) >= RankOpt(Lookup(s.keys, c))
  {
    if s.over then s
    else
      match key
      case Enter =>
        if s.tile == Columns then
          CheckGuessValid(words, s);
          CheckGuess(words, s)
        else s
      case Back =>
        BackspaceValid(words, s);
        Backspace(s)
      case Letter(c) =>
        EnterLetterValid(words, s, c);
        EnterLetter(s, c)
  }

  /**
   * A session driven by a sequence of key presses, one handleKeyPress at a
   * time. Whatever the keys, the invariant holds throughout, the number of
   * scored guesses only grows and never passes six, and no key is ever
   * downgraded.
   */
  function Play(words: seq<string>, s: Session, presses: seq<Key>): (r: Session)
    requires Valid(words, s)
    requires forall i :: 0 <= i < |presses| ==> ValidKey(presses[i])
    ensures Valid(words, r)
    ensures r.secret == s.secret
    ensures Guesses(s) <= Guesses(r) <= Rows
    ensures Guesses(r) <= Guesses(s) + |presses|
    ensures s.over ==> r == s
    ensures forall c :: RankOpt(Lookup(r.keys, c)) >= RankOpt(Lookup(s.keys, c))
    decreases |presses|
  {
    if |presses| == 0 then s
    else Play(words, HandleKey(words, s, presses[0]), presses[1..])
  }

  // ---------------------------------------------------------------------
  // Outcomes
  // ---------------------------------------------------------------------

  /** A won game shows the secret in its last scored row, every tile correct. */
  lemma WinIsAllCorrect(words: seq<string>, s: Session)
    requires Valid(words, s) && s.over && Guess(s) == s.secret
    ensures forall k :: 0 <= k < Columns ==> s.board[s.row][k].mark == Some(Correct)
  {
  }

  /** A game over without the secret is a loss after six scored, listed, wrong guesses. */
  lemma LossIsSixMisses(words: seq<string>, s: Session)
    requires Valid(words, s) && s.over && Guess(s) != s.secret
    ensures s.row == Rows - 1 && Guesses(s) == Rows
    ensures forall i :: 0 <= i < Rows ==>
              ScoredRow(words, s.board[i], s.secret) && Join(s.board[i]) != s.secret
  {
  }

  /** The key presses that type a word letter by letter. */
  function Typing(word: string): (r: seq<Key>)
    ensures |r| == |word|
    ensures forall i :: 0 <= i < |word| ==> r[i] == Letter(word[i])
  {
    seq(|word|, i requires 0 <= i < |word| => Letter(word[i]))
  }

  /** ENTER on a full row spelling the secret wins, if the secret is a listed word. */
  lemma EnterOnSecretWins(words: seq<string>, t: Session)
    requires Valid(words, t) && !t.over && t.tile == Columns
    requires Guess(t) == t.secret && IsValidWord(words, t.secret)
    ensures HandleKey(words, t, Enter).over
    ensures HandleKey(words, t, Enter).row == t.row
    ensures Guess(HandleKey(words, t, Enter)) == t.secret
  {
    var r := HandleKey(words, t, Enter);
    assert r == CheckGuess(words, t);
    assert r == Submit(t);
    MarkedRowIsScored(words, t);
  }

  /** The presses that type word from position i on and then press ENTER. */
  function Finish(word: string, i: nat): (r: seq<Key>)
    requires i <= |word|
    ensures |r| == |word| - i + 1
    ensures r[|r| - 1] == Enter
    ensures forall k :: 0 <= k < |word| - i ==> r[k] == Letter(word[i + k])
    ensures (forall k :: i <= k < |word| ==> word[k] in LetterKeys) ==>
              forall j :: 0 <= j < |r| ==> ValidKey(r[j])
    decreases |word| - i
  {
    if i == |word| then [Enter] else [Letter(word[i])] + Finish(word, i + 1)
  }

  /**
   * From tile i of a running row that already spells the secret's first i
   * letters, typing the rest of the secret and pressing ENTER wins.
   */
  lemma {:induction false} FinishingTheSecretWins(words: seq<string>, s: Session, i: nat)
    requires Valid(words, s) && !s.over && s.tile == i && i <= Columns
    requires IsValidWord(words, s.secret)
    requires forall k :: 0 <= k < Columns ==> s.secret[k] in LetterKeys
    requires forall k :: 0 <= k < i ==> s.board[s.row][k].letter == Some(s.secret[k])
    ensures var r := Play(words, s, Finish(s.secret, i));
            r.over && r.row == s.row && Guess(r) == s.secret
    decreases Columns - i
  {
    if i < Columns {
      var s' := HandleKey(words, s, Letter(s.secret[i]));
      TypingNextLetter(words, s, i);
      FinishingTheSecretWins(words, s', i + 1);
      PlayFirstLetter(words, s, i);
    } else {
      EnterCompletesSecret(words, s);
    }
  }

  lemma FinishIsTyping(word: string)
    ensures Finish(word, 0) == Typing(word) + [Enter]
  {
    assert forall k :: 0 <= k < |word| ==> Finish(word, 0)[k] == (Typing(word) + [Enter])[k];
  }

  /** Playing the rest of the secret is typing its next letter, then playing what follows. */
  lemma PlayFirstLetter(words: seq<string>, s: Session, i: nat)
    requires Valid(words, s) && i < Columns
    requires forall k :: 0 <= k < Columns ==> s.secret[k] in LetterKeys
    ensures Play(words, s, Finish(s.secret, i))
            == Play(words, HandleKey(words, s, Letter(s.secret[i])), Finish(s.secret, i + 1))
  {
    assert Finish(s.secret, i)[1..] == Finish(s.secret, i + 1);
  }

  /** On a full row spelling the secret, the last press, ENTER, wins. */
  lemma EnterCompletesSecret(words: seq<string>, s: Session)
    requires Valid(words, s) && !s.over && s.tile == Columns
    requires IsValidWord(words, s.secret)
    requires forall k :: 0 <= k < Columns ==> s.board[s.row][k].letter == Some(s.secret[k])
    ensures var r := Play(words, s, Finish(s.secret, Columns));
            r.over && r.row == s.row && Guess(r) == s.secret
  {
    assert Finish(s.secret, Columns) == [Enter];
    assert Guess(s) == s.secret;
    EnterOnSecretWins(words, s);
    assert Play(words, s, [Enter]) == Play(words, HandleKey(words, s, Enter), []);
  }

  /** Typing the secret's next letter keeps the row a typed prefix of the secret. */
  lemma TypingNextLetter(words: seq<string>, s: Session, i: nat)
    requires Valid(words, s) && !s.over && s.tile == i && i < Columns
    requires forall k :: 0 <= k < Columns ==> s.secret[k] in LetterKeys
    requires forall k :: 0 <= k < i ==> s.board[s.row][k].letter == Some(s.secret[k])
    ensures var r := HandleKey(words, s, Letter(s.secret[i]));
            && Valid(words, r) && !r.over && r.tile == i + 1 && r.row == s.row && r.secret == s.secret
            && forall k :: 0 <= k < i + 1 ==> r.board[s.row][k].letter == Some(s.secret[k])
  {
    assert HandleKey(words, s, Letter(s.secret[i])) == EnterLetter(s, s.secret[i]);
  }

  /**
   * At the start of any row of a running game, typing the secret and
   * pressing ENTER wins, provided the secret is a listed word made of
   * keyboard letters.
   */
  lemma TypingTheSecretWins(words: seq<string>, s: Session)
    requires Valid(words, s) && !s.over && s.tile == 0
    requires IsValidWord(words, s.secret)
    requires forall k :: 0 <= k < Columns ==> s.secret[k] in LetterKeys
    ensures var r := Play(words, s, Typing(s.secret) + [Enter]);
            r.over && r.row == s.row && Guess(r) == s.secret
  {
    FinishIsTyping(s.secret);
    FinishingTheSecretWins(words, s, 0);
  }

  lemma UpperLetterHasKey(c: char)
    requires IsUpperLetter(c)
    ensures c in LetterKeys
  {
    assert LetterKeys[0] == 'Q' && LetterKeys[1] == 'W' && LetterKeys[2] == 'E' && LetterKeys[3] == 'R';
    assert LetterKeys[4] == 'T' && LetterKeys[5] == 'Y' && LetterKeys[6] == 'U' && LetterKeys[7] == 'I';
    assert LetterKeys[8] == 'O' && LetterKeys[9] == 'P' && LetterKeys[10] == 'A' && LetterKeys[11] == 'S';
    assert LetterKeys[12] == 'D' && LetterKeys[13] == 'F' && LetterKeys[14] == 'G' && LetterKeys[15] == 'H';
    assert LetterKeys[16] == 'J' && LetterKeys[17] == 'K' && LetterKeys[18] == 'L' && LetterKeys[19] == 'Z';
    assert LetterKeys[20] == 'X' && LetterKeys[21] == 'C' && LetterKeys[22] == 'V' && LetterKeys[23] == 'B';
    assert LetterKeys[24] == 'N' && LetterKeys[25] == 'M';
  }

  /**
   * In a game started from a list whose five-letter words are lower-case
   * letters, the secret is accepted by the dictionary check and every one
   * of its letters has a key, so the game can be won on the first row.
   */
  lemma FreshSecretCanBeTyped(words: seq<string>, pick: nat)
    requires pick < |FiveLetterWords(words)|
    requires forall w :: w in words && |w| == 5 ==> forall i :: 0 <= i < 5 ==> IsLowerLetter(w[i])
    ensures IsValidWord(words, StartGame(words, pick).value.secret)
    ensures forall k :: 0 <= k < Columns ==> StartGame(words, pick).value.secret[k] in LetterKeys
  {
    var w := FiveLetterWords(words)[pick];
    assert w in FiveLetterWords(words);
    var s := StartGame(words, pick).value;
    assert s.secret == ToUpper(w);
    UpperOfListedWordIsValid(words, w);
    forall k | 0 <= k < Columns ensures s.secret[k] in LetterKeys {
      UpperLetterHasKey(s.secret[k]);
    }
  }

  // ---------------------------------------------------------------------
  // Invariant preservation
  // ---------------------------------------------------------------------

  lemma {:induction false} RowBestUnmarked(tiles: seq<Tile>, c: char, i: nat)
    requires i <= |tiles|
    requires forall k :: 0 <= k < |tiles| ==> tiles[k].mark.None?
    ensures RowBest(tiles, c, i) == None
    decreases |tiles| - i
  {
    if i < |tiles| {
      RowBestUnmarked(tiles, c, i + 1);
    }
  }

  lemma {:induction false} EmptyBoardHasNoBest(board: seq<seq<Tile>>)
    requires forall r :: 0 <= r < |board| ==> EmptyRow(board[r])
    ensures forall c :: BoardBest(board, c) == None
  {
    forall c ensures BoardBest(board, c) == None {
      if |board| > 0 {
        RowBestUnmarked(board[0], c, 0);
        EmptyBoardHasNoBest(board[1..]);
      }
    }
  }

  /** Replacing an unmarked row merges the new row's best into the board's best. */
  lemma {:induction false} BoardBestReplace(board: seq<seq<Tile>>, r: nat, line: seq<Tile>, c: char)
    requires r < |board|
    requires RowBest(board[r], c, 0) == None
    ensures BoardBest(board[r := line], c) == MaxOpt(BoardBest(board, c), RowBest(line, c, 0))
  {
    var b' := board[r := line];
    if r == 0 {
      assert b'[1..] == board[1..];
      MaxOptLaws(RowBest(line, c, 0), BoardBest(board[1..], c), None);
    } else {
      assert b'[1..] == board[1..][r - 1 := line];
      BoardBestReplace(board[1..], r - 1, line, c);
      MaxOptLaws(RowBest(board[0], c, 0), BoardBest(board[1..], c), RowBest(line, c, 0));
    }
  }

  /** The best of a marked row is the best the keyboard fold sees for that row. */
  lemma {:induction false} RowBestMarked(tiles: seq<Tile>, guess: string, statuses: seq<Status>, c: char, i: nat)
    requires |guess| == |tiles| == |statuses| && i <= |tiles|
    requires forall k :: 0 <= k < |tiles| ==>
               tiles[k].letter == Some(guess[k]) && tiles[k].mark == Some(statuses[k])
    ensures RowBest(tiles, c, i) == BestFrom(guess, statuses, c, i)
    decreases |tiles| - i
  {
    if i < |tiles| {
      RowBestMarked(tiles, guess, statuses, c, i + 1);
    }
  }

  /**
   * An edit of the cursor row that keeps it a row being typed, with layout
   * letters only, preserves the invariant.
   */
  lemma EditPreservesValid(words: seq<string>, s: Session, r: Session)
    requires Valid(words, s) && !s.over
    requires r.secret == s.secret && r.row == s.row && !r.over && r.keys == s.keys
    requires 0 <= r.tile <= Columns && |r.board| == Rows
    requires r.board == s.board[s.row := r.board[s.row]] && |r.board[s.row]| == Columns
    requires EditingRow(r.board[s.row], r.tile)
    requires forall k :: 0 <= k < Columns && r.board[s.row][k].letter.Some? ==>
               r.board[s.row][k].letter.value in LetterKeys
    ensures Valid(words, r)
  {
    assert Shape(r);
    assert LayoutLetters(r.board) by {
      forall i, k | 0 <= i < Rows && 0 <= k < Columns && r.board[i][k].letter.Some?
        ensures r.board[i][k].letter.value in LetterKeys
      {
        if i != s.row {
          assert r.board[i] == s.board[i];
        }
      }
    }
    assert OtherRows(words, r) by {
      forall i | 0 <= i < Rows && i != s.row ensures r.board[i] == s.board[i] { }
    }
    assert KeysAgree(r) by {
      forall ch ensures Lookup(r.keys, ch) == BoardBest(r.board, ch) {
        RowBestUnmarked(s.board[s.row], ch, 0);
        RowBestUnmarked(r.board[s.row], ch, 0);
        BoardBestReplace(s.board, s.row, r.board[s.row], ch);
      }
    }
  }

  lemma EnterLetterValid(words: seq<string>, s: Session, c: char)
    requires Valid(words, s) && !s.over && c in LetterKeys
    ensures Valid(words, EnterLetter(s, c))
  {
    if s.tile < Columns {
      var r := EnterLetter(s, c);
      assert EditingRow(r.board[s.row], r.tile);
      EditPreservesValid(words, s, r);
    }
  }

  lemma BackspaceValid(words: seq<string>, s: Session)
    requires Valid(words, s) && !s.over
    ensures Valid(words, Backspace(s))
  {
    if s.tile > 0 {
      var r := Backspace(s);
      assert EditingRow(r.board[s.row], r.tile);
      EditPreservesValid(words, s, r);
    }
  }

  lemma CheckGuessValid(words: seq<string>, s: Session)
    requires Valid(words, s) && !s.over && s.tile == Columns
    ensures Valid(words, CheckGuess(words, s))
  {
    if IsValidWord(words, Guess(s)) {
      ValidWordHasFiveLetters(words, Guess(s));
      SubmitRows(words, s);
      SubmitKeys(s);
    }
  }

  /** Marking the cursor row with its scores yields a ScoredRow spelling the guess. */
  lemma MarkedRowIsScored(words: seq<string>, s: Session)
    requires Shape(s) && s.tile == Columns && EditingRow(s.board[s.row], s.tile)
    requires IsValidWord(words, Guess(s))
    ensures |Guess(s)| == Columns
    ensures Join(Mark(s.board[s.row], Score(Guess(s), s.secret))) == Guess(s)
    ensures ScoredRow(words, Mark(s.board[s.row], Score(Guess(s), s.secret)), s.secret)
  {
    var guess := Guess(s);
    ValidWordHasFiveLetters(words, guess);
    var line := Mark(s.board[s.row], Score(guess, s.secret));
    assert Filled(s.board[s.row]);
    assert Join(line) == guess;
  }

  /** The scored row is a valid ScoredRow, and the rows and cursor stay consistent. */
  lemma SubmitRows(words: seq<string>, s: Session)
    requires Shape(s) && !s.over && s.tile == Columns
    requires LayoutLetters(s.board) && OtherRows(words, s) && CursorRow(words, s)
    requires IsValidWord(words, Guess(s))
    ensures |Guess(s)| == Columns
    ensures LayoutLetters(Submit(s).board)
    ensures OtherRows(words, Submit(s))
    ensures CursorRow(words, Submit(s))
  {
    MarkedRowIsScored(words, s);
    SubmitLayout(s);
    SubmitOtherRows(words, s);
  }

  lemma SubmitLayout(s: Session)
    requires Shape(s) && !s.over && s.tile == Columns && |Guess(s)| == Columns
    requires LayoutLetters(s.board)
    ensures LayoutLetters(Submit(s).board)
  {
    var r := Submit(s);
    forall i, k | 0 <= i < Rows && 0 <= k < Columns && r.board[i][k].letter.Some?
      ensures r.board[i][k].letter.value in LetterKeys
    {
      assert r.board[i][k].letter == s.board[i][k].letter;
    }
  }

  lemma SubmitOtherRows(words: seq<string>, s: Session)
    requires Shape(s) && !s.over && s.tile == Columns && |Guess(s)| == Columns
    requires OtherRows(words, s)
    requires ScoredRow(words, Submit(s).board[s.row], s.secret)
    requires Join(Submit(s).board[s.row]) == Guess(s)
    ensures OtherRows(words, Submit(s))
  {
    var r := Submit(s);
    forall i | 0 <= i < r.row ensures ScoredRow(words, r.board[i], r.secret) && Join(r.board[i]) != r.secret {
      if i != s.row {
        assert r.board[i] == s.board[i];
      }
    }
    forall i | r.row < i < Rows ensures EmptyRow(r.board[i]) {
      assert r.board[i] == s.board[i];
    }
  }

  /** The keys after a scored row still show the best status of each letter on the board. */
  lemma SubmitKeys(s: Session)
    requires Shape(s) && !s.over && s.tile == Columns && |Guess(s)| == Columns
    requires LayoutLetters(s.board) && EditingRow(s.board[s.row], s.tile) && KeysAgree(s)
    ensures KeysAgree(Submit(s))
  {
    var guess := Guess(s);
    var statuses := Score(guess, s.secret);
    var r := Submit(s);
    assert r.board == s.board[s.row := Mark(s.board[s.row], statuses)];
    assert r.keys == UpdateRow(s.keys, guess, statuses, 0);
    assert forall k :: 0 <= k < Columns ==>
             s.board[s.row][k].letter == Some(guess[k]) && s.board[s.row][k].mark.None? && guess[k] in LetterKeys;
    forall ch ensures Lookup(r.keys, ch) == BoardBest(r.board, ch) {
      RowKeyAgrees(s.board, s.keys, s.row, guess, statuses, ch);
    }
  }

  /**
   * Marking an unmarked row whose letters are the guess, and folding the
   * same row into the keys, keeps a key equal to its letter's best status.
   */
  lemma RowKeyAgrees(board: seq<seq<Tile>>, keys: map<char, Status>, row: nat,
                     guess: string, statuses: seq<Status>, ch: char)
    requires row < |board| && |board[row]| == |guess| == |statuses|
    requires forall k :: 0 <= k < |guess| ==>
               board[row][k].letter == Some(guess[k]) && board[row][k].mark.None? && guess[k] in LetterKeys
    requires Lookup(keys, ch) == BoardBest(board, ch)
    ensures Lookup(UpdateRow(keys, guess, statuses, 0), ch)
            == BoardBest(board[row := Mark(board[row], statuses)], ch)
  {
    var line := Mark(board[row], statuses);
    RowBestUnmarked(board[row], ch, 0);
    BoardBestReplace(board, row, line, ch);
    RowBestMarked(line, guess, statuses, ch, 0);
    if ch !in LetterKeys {
      BestFromMissing(guess, statuses, ch, 0);
    }
  }
}
