/**
 * `getPuzzleFeedback` of src/lib/gif-helper.ts: the end-of-game message and picture,
 * chosen from a per-difficulty table of move thresholds by the first tier whose
 * threshold the move count does not exceed, with the first "{moves}" of the message
 * replaced by the move count.
 */
module GifHelper {
  import opened Wrappers
  import opened Utils

  /** A tier's threshold: a number of moves, or `Infinity`. */
  datatype MaxMoves = Finite(n: int) | Infinity

  datatype Tier = Tier(maxMoves: MaxMoves, message: string, gif: string)

  datatype Feedback = Feedback(message: string, gif: string)

  /** `moves <= maxMoves`; every number is at most `Infinity`. */
  predicate Within(moves: int, maxMoves: MaxMoves)
  {
    match maxMoves
    case Finite(n) => moves <= n
    case Infinity => true
  }

  const DEFAULT_MESSAGE: string :=
    "Congratulations, you've completed the puzzle! Try for fewer moves next time!"
  const DEFAULT_GIF: string := "/assets/clapping.gif"
  const PLACEHOLDER: string := "{moves}"

  const EASY_OUTSTANDING := Tier(Finite(10), "Outstanding! You solved it in record time!", "/assets/outstanding.webp")
  const EASY_WOW := Tier(Finite(12), "WOW! You are a genius!", "/assets/wow.webp")
  const EASY_GREAT_JOB := Tier(Finite(20), "Great job! You solved it in {moves} moves!", "/assets/great_job.webp")
  const EASY_COMPLETED := Tier(Infinity, "You completed it in {moves} moves. Keep improving!", "/assets/completed.webp")
  const EASY_TIERS: seq<Tier> := [EASY_OUTSTANDING, EASY_WOW, EASY_GREAT_JOB, EASY_COMPLETED]

  const MEDIUM_PHENOMENAL := Tier(Finite(15), "Phenomenal! {moves} moves? You're unstoppable!", "/assets/no.gif")
  const MEDIUM_IMPRESSIVE := Tier(Finite(20), "Impressive! You won in just {moves} moves\U{2014}what a pro!", "/assets/hard.gif")
  const MEDIUM_NICE_WORK := Tier(Finite(25), "Nice work! {moves} moves\U{2014}solid effort!", "/assets/nicework.webp")
  const MEDIUM_SOLVED := Tier(Infinity, "You solved it in {moves} moves! Try for fewer next time!", "/assets/ez.gif")
  const MEDIUM_TIERS: seq<Tier> := [MEDIUM_PHENOMENAL, MEDIUM_IMPRESSIVE, MEDIUM_NICE_WORK, MEDIUM_SOLVED]

  const HARD_LEGENDARY := Tier(Finite(25), "Legendary! You cracked the hard puzzle in just {moves} moves!", "/assets/legendary.gif")
  const HARD_YOU_WON := Tier(Finite(30), "You won in {moves} moves! You're a puzzle master!", "/assets/youwon.webp")
  const HARD_WELL_DONE := Tier(Finite(40), "Well done! {moves} moves is a solid performance!", "/assets/welldone.webp")
  const HARD_PERSISTENCE := Tier(Infinity, "You completed the challenge in {moves} moves. Great persistence!", "/assets/pro.gif")
  const HARD_TIERS: seq<Tier> := [HARD_LEGENDARY, HARD_YOU_WON, HARD_WELL_DONE, HARD_PERSISTENCE]

  /** `messagesAndGifs[difficulty]`: the tiers of a difficulty, in the order they are
      tried, or `undefined` for any other key. */
  function MessagesAndGifs(difficulty: string): (tiers: Option<seq<Tier>>)
    ensures tiers.Some? <==> difficulty == "easy" || difficulty == "medium" || difficulty == "hard"
  {
    if difficulty == "easy" then Some(EASY_TIERS)
    else if difficulty == "medium" then Some(MEDIUM_TIERS)
    else if difficulty == "hard" then Some(HARD_TIERS)
    else None
  }

  /** Threshold `a` is a number below threshold `b`. */
  predicate Tighter(a: MaxMoves, b: MaxMoves)
  {
    a.Finite? && (b.Infinity? || a.n < b.n)
  }

  /** Each table has four tiers whose thresholds strictly rise, only the last one
      without a bound; so the tiers are tried from the tightest to the loosest. */
  lemma TablesEndUnbounded(difficulty: string)
    requires MessagesAndGifs(difficulty).Some?
    ensures var tiers := MessagesAndGifs(difficulty).value;
      |tiers| == 4 && tiers[3].maxMoves == Infinity
      && forall i, j :: 0 <= i < j < |tiers| ==> Tighter(tiers[i].maxMoves, tiers[j].maxMoves)
  {
  }

  /* ---------------------------------------------------------------- String.prototype.replace */

  /** `pattern` occurs in `s` at index `i`. */
  predicate OccursAt(s: string, pattern: string, i: int)
  {
    0 <= i && i + |pattern| <= |s| && s[i..i + |pattern|] == pattern
  }

  /** The first occurrence of `pattern` in `s` at or after `from`, or `None`. */
  function FindFrom(s: string, pattern: string, from: nat): (r: Option<nat>)
    ensures r.Some? ==>
      from <= r.value && OccursAt(s, pattern, r.value)
      && forall j :: from <= j < r.value ==> !OccursAt(s, pattern, j)
    ensures r.None? ==> forall j :: from <= j ==> !OccursAt(s, pattern, j)
    decreases |s| - from
  {
    if from + |pattern| > |s| then None
    else if s[from..from + |pattern|] == pattern then Some(from)
    else FindFrom(s, pattern, from + 1)
  }

  /** `s.replace(pattern, replacement)` with a string pattern: only the first occurrence
      is replaced, and `s` is returned unchanged when there is none. */
  function ReplaceFirst(s: string, pattern: string, replacement: string): (r: string)
    ensures (exists i :: OccursAt(s, pattern, i)) ==> |r| + |pattern| == |s| + |replacement|
    ensures (forall i :: !OccursAt(s, pattern, i)) ==> r == s
  {
    match FindFrom(s, pattern, 0)
    case None => s
    case Some(i) => s[..i] + replacement + s[i + |pattern|..]
  }

  /** The replacement splits `s` at its first occurrence of `pattern`: what comes before
      it is untouched, the pattern itself becomes `replacement`, and the rest follows. */
  lemma ReplaceFirstSpec(s: string, pattern: string, replacement: string)
    ensures forall i :: OccursAt(s, pattern, i) && (forall j :: 0 <= j < i ==> !OccursAt(s, pattern, j)) ==>
      ReplaceFirst(s, pattern, replacement) == s[..i] + replacement + s[i + |pattern|..]
  {
  }

  /* ---------------------------------------------------------------- getPuzzleFeedback */

  /** The `for…of` over a difficulty's tiers: the index of the first tier whose threshold
      the move count does not exceed. */
  function FirstWithin(tiers: seq<Tier>, moves: int, from: nat): (r: Option<nat>)
    requires from <= |tiers|
    ensures r.Some? ==>
      from <= r.value < |tiers| && Within(moves, tiers[r.value].maxMoves)
      && forall j :: from <= j < r.value ==> !Within(moves, tiers[j].maxMoves)
    ensures r.None? ==> forall j :: from <= j < |tiers| ==> !Within(moves, tiers[j].maxMoves)
    decreases |tiers| - from
  {
    if from == |tiers| then None
    else if Within(moves, tiers[from].maxMoves) then Some(from)
    else FirstWithin(tiers, moves, from + 1)
  }

  /** The `for…of` with early return over one difficulty's tiers, and the default
      feedback after it. */
  function FeedbackFromTiers(tiers: seq<Tier>, moves: int): (r: Feedback)
    ensures (forall i :: 0 <= i < |tiers| ==> !Within(moves, tiers[i].maxMoves)) ==> r == Feedback(DEFAULT_MESSAGE, DEFAULT_GIF)
    ensures (exists i :: 0 <= i < |tiers| && Within(moves, tiers[i].maxMoves)) ==>
      exists i :: 0 <= i < |tiers| && r.gif == tiers[i].gif
  {
    match FirstWithin(tiers, moves, 0)
    case None => Feedback(DEFAULT_MESSAGE, DEFAULT_GIF)
    case Some(i) => Feedback(ReplaceFirst(tiers[i].message, PLACEHOLDER, IntToString(moves)), tiers[i].gif)
  }

  /** `getPuzzleFeedback(difficulty, moves)`: an unknown difficulty gives the default
      message and the clapping picture; a known one always answers with the picture of
      one of its own tiers. */
  function GetPuzzleFeedback(difficulty: string, moves: int): (r: Feedback)
    ensures MessagesAndGifs(difficulty).None? ==> r == Feedback(DEFAULT_MESSAGE, "/assets/clapping.gif")
    ensures MessagesAndGifs(difficulty).Some? ==>
      var tiers := MessagesAndGifs(difficulty).value;
      exists i :: 0 <= i < |tiers| && r.gif == tiers[i].gif
  {
    match MessagesAndGifs(difficulty)
    case None => Feedback(DEFAULT_MESSAGE, DEFAULT_GIF)
    case Some(tiers) =>
      TablesEndUnbounded(difficulty);
      assert Within(moves, tiers[3].maxMoves);
      FeedbackFromTiers(tiers, moves)
  }

  /** Every table ends with an `Infinity` tier, so for a known difficulty some tier
      matches, and the feedback is the first matching tier's picture and its message
      with the move count filled in: the default after the loop is never reached. */
  lemma FeedbackIsFirstMatch(difficulty: string, moves: int)
    requires MessagesAndGifs(difficulty).Some?
    ensures var tiers := MessagesAndGifs(difficulty).value; var r := FirstWithin(tiers, moves, 0);
      r.Some? && GetPuzzleFeedback(difficulty, moves)
         == Feedback(ReplaceFirst(tiers[r.value].message, PLACEHOLDER, IntToString(moves)), tiers[r.value].gif)
  {
    TablesEndUnbounded(difficulty);
    var tiers := MessagesAndGifs(difficulty).value;
    assert Within(moves, tiers[3].maxMoves);
  }

  /** A string with `pattern` right after a part `before` that does not hold the
      pattern's first character has exactly that occurrence replaced. */
  lemma ReplaceAfter(before: string, pattern: string, after: string, replacement: string)
    requires |pattern| > 0 && pattern[0] !in before
    ensures ReplaceFirst(before + pattern + after, pattern, replacement) == before + replacement + after
  {
    var s := before + pattern + after;
    assert OccursAt(s, pattern, |before|) by {
      assert s[|before|..|before| + |pattern|] == pattern;
    }
    forall j | 0 <= j < |before| ensures !OccursAt(s, pattern, j) {
      assert s[j] == before[j];
    }
    ReplaceFirstSpec(s, pattern, replacement);
    assert s[..|before|] == before && s[|before| + |pattern|..] == after;
  }

  /** A string without the pattern's first character is not changed. */
  lemma ReplaceAbsent(s: string, pattern: string, replacement: string)
    requires |pattern| > 0 && pattern[0] !in s
    ensures ReplaceFirst(s, pattern, replacement) == s
  {
    forall j | 0 <= j ensures !OccursAt(s, pattern, j) {
      if j < |s| && j + |pattern| <= |s| { assert s[j] != pattern[0]; }
    }
    ReplaceFirstSpec(s, pattern, replacement);
  }

  /** Proof step for `EasyRecord`: the first easy message holds no placeholder, decided
      on the literal alone rather than inside the lookup. */
  lemma OutstandingIsPlain(message: string)
    requires message == "Outstanding! You solved it in record time!"
    ensures '{' !in message
  {
  }

  /** An easy game of at most ten moves gets the first tier, whose message has no
      placeholder. */
  lemma EasyRecord(moves: int)
    requires moves <= 10
    ensures GetPuzzleFeedback("easy", moves)
         == Feedback(EASY_OUTSTANDING.message, "/assets/outstanding.webp")
  {
    assert GetPuzzleFeedback("easy", moves) == FeedbackFromTiers(EASY_TIERS, moves) by {
      assert MessagesAndGifs("easy") == Some(EASY_TIERS);
    }
    assert FirstWithin(EASY_TIERS, moves, 0) == Some(0);
    OutstandingIsPlain(EASY_OUTSTANDING.message);
    ReplaceAbsent(EASY_OUTSTANDING.message, PLACEHOLDER, IntToString(moves));
  }

  /** Proof step for `YouWonFilled`: the second hard message split around its
      placeholder, decided on the literal alone. */
  lemma YouWonTemplate(message: string)
    requires message == "You won in {moves} moves! You're a puzzle master!"
    ensures message == "You won in " + PLACEHOLDER + " moves! You're a puzzle master!"
  {
  }

  /** The second hard message with its placeholder filled in. */
  lemma YouWonFilled(count: string)
    ensures ReplaceFirst(HARD_YOU_WON.message, PLACEHOLDER, count)
         == "You won in " + count + " moves! You're a puzzle master!"
  {
    YouWonTemplate(HARD_YOU_WON.message);
    assert '{' !in "You won in ";
    ReplaceAfter("You won in ", PLACEHOLDER, " moves! You're a puzzle master!", count);
  }

  /** A hard game of 26 to 30 moves gets the second tier, with the count in its message. */
  lemma HardMaster(moves: int)
    requires 26 <= moves <= 30
    ensures GetPuzzleFeedback("hard", moves)
         == Feedback("You won in " + IntToString(moves) + " moves! You're a puzzle master!", "/assets/youwon.webp")
  {
    assert GetPuzzleFeedback("hard", moves) == FeedbackFromTiers(HARD_TIERS, moves) by {
      assert MessagesAndGifs("hard") == Some(HARD_TIERS);
    }
    assert FirstWithin(HARD_TIERS, moves, 0) == Some(1);
    YouWonFilled(IntToString(moves));
  }
}
