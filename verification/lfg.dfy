/** The game-hint helpers of `src/utilities/lfg.ts`. The value of
    `Math.random()` is a parameter. */
module Lfg {
  import opened Wrappers
  import opened JsStrings

  const RUST_HINT: string := "Did you know we have a Rust game server? Join us on **rust.level9.gg**!"

  /** The constant hint table, keyed by normalised game name. */
  function GameHints(key: string): (hints: Option<seq<string>>)
    ensures hints.Some? <==> key == "rust"
    ensures hints.Some? ==> |hints.value| >= 1 && forall i :: 0 <= i < |hints.value| ==> hints.value[i] == RUST_HINT
  {
    if key == "rust" then Some([RUST_HINT]) else None
  }

  /** The lookup key: the game name trimmed, then lower-cased. */
  function NormalizeGame(game: string): (key: string)
    ensures |key| <= |game|
    ensures key == [] || (!IsJsWhitespace(key[0]) && !IsJsWhitespace(key[|key| - 1]))
    ensures forall i :: 0 <= i < |key| ==> !('A' <= key[i] <= 'Z')
  {
    Lower(Trim(game))
  }

  /** `getRandomGameHintFor`: a hint drawn from the game's list at index
      `floor(random * length)`, or no hint for a game not in the table. */
  function GetRandomGameHintFor(game: string, random: real): (hint: Option<string>)
    requires 0.0 <= random < 1.0
    ensures hint.Some? <==> NormalizeGame(game) == "rust"
    ensures hint.Some? ==> hint.value == RUST_HINT
  {
    match GameHints(NormalizeGame(game))
    case None => None
    case Some(hints) =>
      var n := |hints|;
      var i := (random * n as real).Floor;
      assert 0 <= i < n by { IndexInRange(random, n); }
      Some(hints[i])
  }

  lemma IndexInRange(random: real, n: nat)
    requires 0.0 <= random < 1.0 && n > 0
    ensures 0 <= (random * n as real).Floor < n
  {
    assert random * n as real < n as real;
  }

  /** The random draw does not matter: the result is the same for every
      value `Math.random()` can return. */
  lemma GameHintDeterministic(game: string, r1: real, r2: real)
    requires 0.0 <= r1 < 1.0 && 0.0 <= r2 < 1.0
    ensures GetRandomGameHintFor(game, r1) == GetRandomGameHintFor(game, r2)
  {
  }

  /** Surrounding whitespace and the case of ASCII letters do not change
      the hint. */
  lemma GameHintNormalised(a: string, game: string, b: string, random: real)
    requires AllWhitespace(a) && AllWhitespace(b)
    requires 0.0 <= random < 1.0
    ensures GetRandomGameHintFor(a + game + b, random) == GetRandomGameHintFor(game, random)
    ensures GetRandomGameHintFor(Lower(game), random) == GetRandomGameHintFor(game, random)
  {
    TrimIgnoresPadding(a, game, b);
    TrimLower(game);
    LowerIdempotent(Trim(game));
  }

  /** The example the normalisation exists for. */
  lemma PaddedUpperCaseRust(random: real)
    requires 0.0 <= random < 1.0
    ensures GetRandomGameHintFor(" RUST ", random) == GetRandomGameHintFor("rust", random) == Some(RUST_HINT)
  {
    NormalizesToRust(" RUST ");
    NormalizesToRust("rust");
  }

  lemma NormalizesToRust(game: string)
    requires game == " RUST " || game == "rust"
    ensures NormalizeGame(game) == "rust"
  {
    if game == " RUST " {
      PadRust();
      TrimsToItself("RUST");
      LowersToRust("RUST");
    } else {
      TrimsToItself("rust");
      LowersToRust("rust");
    }
  }

  lemma PadRust()
    ensures Trim(" RUST ") == Trim("RUST")
  {
    assert " RUST " == " " + "RUST" + " ";
    TrimIgnoresPadding(" ", "RUST", " ");
  }

  lemma LowersToRust(s: string)
    requires s == "RUST" || s == "rust"
    ensures Lower(s) == "rust"
  {
    var l := Lower(s);
    assert l[0] == 'r' && l[1] == 'u' && l[2] == 's' && l[3] == 't';
  }

  lemma TrimsToItself(s: string)
    requires s == "RUST" || s == "rust"
    ensures Trim(s) == s
  {
    assert !IsJsWhitespace(s[0]) && !IsJsWhitespace(s[3]);
  }

  const HINT_OPEN: string := "_**Hint:** "
  const HINT_CLOSE: string := "_"

  /** `formatHint`: the hint in italics behind a bold `Hint:` label. */
  function FormatHint(hint: string): (r: string)
    ensures |r| == |HINT_OPEN| + |hint| + |HINT_CLOSE|
    ensures r[..|HINT_OPEN|] == HINT_OPEN
    ensures r[|HINT_OPEN|..|r| - |HINT_CLOSE|] == hint
    ensures r[|r| - |HINT_CLOSE|..] == HINT_CLOSE
  {
    HINT_OPEN + hint + HINT_CLOSE
  }

  /** The hint can be read back from the formatted text, so different hints
      are never formatted alike. */
  lemma FormatHintInjective(h1: string, h2: string)
    requires FormatHint(h1) == FormatHint(h2)
    ensures h1 == h2
  {
    var r := FormatHint(h1);
    assert h1 == r[|HINT_OPEN|..|r| - |HINT_CLOSE|] == h2;
  }
}
