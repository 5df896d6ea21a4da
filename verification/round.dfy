/** The round evaluator of the dice game: the two guess modes, the win rule
    and the text shown under a lost round. */
module Round {

  /** The player's guess about the next drawn number. */
  datatype GuessMode = Under | Over

  /** Both the threshold slider and the drawn number range over MinValue..MaxValue. */
  const MinValue: int := 1
  const MaxValue: int := 100

  predicate InRange(v: int) {
    MinValue <= v <= MaxValue
  }

  const HigherText: string := "Number was higher"
  const LowerText: string := "Number was lower"

  /** The win rule: strictly below the threshold in mode Under, strictly above it in mode Over. */
  predicate Wins(mode: GuessMode, threshold: int, value: int) {
    match mode
    case Under => value < threshold
    case Over => value > threshold
  }

  /** What one round produces besides the drawn number itself. */
  datatype Outcome = Outcome(win: bool, detail: string)

  /** Decides one round for the mode and threshold current at play time. */
  function Evaluate(mode: GuessMode, threshold: int, value: int): (o: Outcome)
    ensures o.win <==> (mode == Under && value < threshold) || (mode == Over && value > threshold)
    ensures value == threshold ==> !o.win
    ensures o.win <==> o.detail == ""
    ensures !o.win && mode == Under ==> o.detail == HigherText
    ensures !o.win && mode == Over ==> o.detail == LowerText
  {
    var win := Wins(mode, threshold, value);
    Outcome(win, if win then "" else if mode == Under then HigherText else LowerText)
  }

  /** The loss text never lies: "higher" means the number was at least the
      threshold, "lower" means it was at most the threshold. */
  lemma DetailIsTruthful(mode: GuessMode, threshold: int, value: int)
    ensures Evaluate(mode, threshold, value).detail == HigherText ==> value >= threshold
    ensures Evaluate(mode, threshold, value).detail == LowerText ==> value <= threshold
  {
    assert HigherText != LowerText && HigherText != "" && LowerText != "";
  }

  /** Away from the threshold, exactly one of the two modes wins. */
  lemma ModesAreComplementary(threshold: int, value: int)
    requires value != threshold
    ensures Evaluate(Under, threshold, value).win != Evaluate(Over, threshold, value).win
  {
  }

  /** The number of draws among MinValue..n that win: a reference count of the
      win rule over the draw range. */
  function CountWins(mode: GuessMode, threshold: int, n: int): (c: nat)
    requires n >= MinValue - 1
    ensures c <= n - MinValue + 1
    decreases n
  {
    if n < MinValue then 0
    else CountWins(mode, threshold, n - 1) + (if Wins(mode, threshold, n) then 1 else 0)
  }

  lemma {:induction false} CountWinsUnder(threshold: int, n: int)
    requires n >= MinValue - 1 && threshold >= MinValue
    ensures CountWins(Under, threshold, n) == if n < threshold then n else threshold - 1
    decreases n
  {
    if n >= MinValue {
      CountWinsUnder(threshold, n - 1);
    }
  }

  lemma {:induction false} CountWinsOver(threshold: int, n: int)
    requires n >= MinValue - 1 && threshold >= MinValue - 1
    ensures CountWins(Over, threshold, n) == if n <= threshold then 0 else n - threshold
    decreases n
  {
    if n >= MinValue {
      CountWinsOver(threshold, n - 1);
    }
  }

  /** Of the 100 possible draws, threshold - 1 win in mode Under and
      100 - threshold win in mode Over; exactly one draw (the threshold itself)
      loses in both modes. */
  lemma WinningDraws(threshold: int)
    requires InRange(threshold)
    ensures CountWins(Under, threshold, MaxValue) == threshold - 1
    ensures CountWins(Over, threshold, MaxValue) == MaxValue - threshold
    ensures CountWins(Under, threshold, MaxValue) + CountWins(Over, threshold, MaxValue) == MaxValue - 1
  {
    CountWinsUnder(threshold, MaxValue);
    CountWinsOver(threshold, MaxValue);
  }
}
