/**
 * The hero section's typewriter: a fixed list of phrases is typed one
 * character at a time, held, deleted one character at a time, and the
 * next phrase (wrapping round) is started. The page drives it with
 * self-rescheduling single-shot timers; here each timer callback is one
 * `Tick`, and the delay before the next callback is a returned value.
 */
module Typing {

  /** Delays in milliseconds chosen by the four branches of a tick. */
  const TypeDelay: nat := 150
  const DeleteDelay: nat := 75
  const HoldDelay: nat := 2000
  const NextPhraseDelay: nat := 500

  /** The phrases the portfolio page cycles through, in order. */
  const PortfolioPhrases: seq<string> := [
    "Bioinformatics Researcher",
    "Computational Biologist",
    "Machine Learning Expert",
    "Genomics Specialist"
  ]

  /**
   * The typewriter's whole state: which phrase, how many of its characters
   * are meant to be on screen, the direction, the delay the next timer is
   * scheduled with, and the text content of the target element.
   */
  datatype TypingState = TypingState(
    textIndex: nat,
    charIndex: nat,
    deleting: bool,
    delay: nat,
    shown: string)

  /** The state every tick keeps: indices in range, the screen shows a prefix of the phrase. */
  predicate Inv(phrases: seq<string>, s: TypingState) {
    s.textIndex < |phrases| &&
    s.charIndex <= |phrases[s.textIndex]| &&
    s.shown == phrases[s.textIndex][..s.charIndex]
  }

  /** The branch of the tick's if/else-if chain that fires; `Idle` when no guard holds. */
  datatype Branch = Type | Delete | Hold | Advance | Idle

  function BranchOf(phrases: seq<string>, s: TypingState): Branch
    requires s.textIndex < |phrases|
  {
    var len := |phrases[s.textIndex]|;
    if !s.deleting && s.charIndex < len then Type
    else if s.deleting && s.charIndex > 0 then Delete
    else if !s.deleting && s.charIndex == len then Hold
    else if s.deleting && s.charIndex == 0 then Advance
    else Idle
  }

  /** `text.substring(0, n)` for n >= 0: an end past the text is clamped to its length. */
  function Substring(text: string, n: nat): (r: string)
    ensures r <= text
    ensures |r| == if n <= |text| then n else |text|
  {
    if n <= |text| then text[..n] else text
  }

  /** State before the first tick: first phrase, nothing shown, typing. */
  function Initial(): (s: TypingState)
    ensures forall phrases: seq<string> :: |phrases| > 0 ==> Inv(phrases, s)
    // the start of a whole cycle, as `FullCycle` requires it
    ensures !s.deleting && s.charIndex == 0 && s.delay == TypeDelay
  {
    TypingState(0, 0, false, TypeDelay, [])
  }

  /** One tick of the typewriter. */
  function Step(phrases: seq<string>, s: TypingState): (r: TypingState)
    requires s.textIndex < |phrases|
    ensures r.textIndex < |phrases|
    ensures Inv(phrases, s) ==> Inv(phrases, r)
    // typing: one more character of the phrase appears
    ensures Inv(phrases, s) && BranchOf(phrases, s) == Type ==>
              r == s.(charIndex := s.charIndex + 1, delay := TypeDelay,
                      shown := s.shown + [phrases[s.textIndex][s.charIndex]])
    // deleting: the last character shown disappears
    ensures Inv(phrases, s) && BranchOf(phrases, s) == Delete ==>
              r == s.(charIndex := s.charIndex - 1, delay := DeleteDelay,
                      shown := s.shown[..|s.shown| - 1])
    // full phrase shown: hold it, turn round, nothing else changes
    ensures BranchOf(phrases, s) == Hold ==>
              r == s.(deleting := true, delay := HoldDelay)
    // all deleted: next phrase, wrapping round after the last
    ensures BranchOf(phrases, s) == Advance ==>
              r == s.(deleting := false, textIndex := (s.textIndex + 1) % |phrases|,
                      delay := NextPhraseDelay)
  {
    var text := phrases[s.textIndex];
    match BranchOf(phrases, s)
    case Type =>
      s.(charIndex := s.charIndex + 1, delay := TypeDelay, shown := Substring(text, s.charIndex + 1))
    case Delete =>
      s.(charIndex := s.charIndex - 1, delay := DeleteDelay, shown := Substring(text, s.charIndex - 1))
    case Hold =>
      s.(deleting := true, delay := HoldDelay)
    case Advance =>
      s.(deleting := false, textIndex := (s.textIndex + 1) % |phrases|, delay := NextPhraseDelay)
    case Idle =>
      s
  }

  /** Whenever the invariant holds, one of the four real branches fires. */
  lemma SomeBranchFires(phrases: seq<string>, s: TypingState)
    requires Inv(phrases, s)
    ensures BranchOf(phrases, s) != Idle
    ensures BranchOf(phrases, s) == Type <==> !s.deleting && s.charIndex < |phrases[s.textIndex]|
    ensures BranchOf(phrases, s) == Delete <==> s.deleting && s.charIndex > 0
    ensures BranchOf(phrases, s) == Hold <==> !s.deleting && s.charIndex == |phrases[s.textIndex]|
    ensures BranchOf(phrases, s) == Advance <==> s.deleting && s.charIndex == 0
  {
  }

  /** The state after `k` ticks. */
  function Run(phrases: seq<string>, s: TypingState, k: nat): (r: TypingState)
    requires s.textIndex < |phrases|
    ensures r.textIndex < |phrases|
    ensures Inv(phrases, s) ==> Inv(phrases, r)
    decreases k
  {
    if k == 0 then s else Run(phrases, Step(phrases, s), k - 1)
  }

  lemma {:induction false} RunAdd(phrases: seq<string>, s: TypingState, a: nat, b: nat)
    requires s.textIndex < |phrases|
    ensures Run(phrases, s, a + b) == Run(phrases, Run(phrases, s, a), b)
    decreases a
  {
    if a > 0 {
      RunAdd(phrases, Step(phrases, s), a - 1, b);
    }
  }

  /** Typing from any partial prefix reaches the whole phrase, one tick per missing character. */
  lemma {:induction false} TypesOut(phrases: seq<string>, s: TypingState)
    requires Inv(phrases, s) && !s.deleting
    requires s.charIndex < |phrases[s.textIndex]|
    ensures Run(phrases, s, |phrases[s.textIndex]| - s.charIndex) ==
            s.(charIndex := |phrases[s.textIndex]|, delay := TypeDelay,
               shown := phrases[s.textIndex])
    decreases |phrases[s.textIndex]| - s.charIndex
  {
    var text := phrases[s.textIndex];
    var t := Step(phrases, s);
    if s.charIndex + 1 < |text| {
      TypesOut(phrases, t);
    } else {
      assert text[..s.charIndex + 1] == text;
    }
  }

  /** Deleting from any non-empty prefix reaches the empty text, one tick per character. */
  lemma {:induction false} DeletesOut(phrases: seq<string>, s: TypingState)
    requires Inv(phrases, s) && s.deleting && s.charIndex > 0
    ensures Run(phrases, s, s.charIndex) ==
            s.(charIndex := 0, delay := DeleteDelay, shown := [])
    decreases s.charIndex
  {
    var t := Step(phrases, s);
    if s.charIndex > 1 {
      DeletesOut(phrases, t);
    }
  }

  /**
   * A whole cycle: starting a phrase from nothing, after |phrase| ticks the
   * phrase is fully shown, the next tick holds it for HoldDelay, and after
   * 2 * |phrase| + 2 ticks the typewriter starts the next phrase (modulo the
   * list length) from nothing.
   */
  lemma {:induction false} FullCycle(phrases: seq<string>, s: TypingState)
    requires Inv(phrases, s) && !s.deleting && s.charIndex == 0
    ensures var n := |phrases[s.textIndex]|;
            Run(phrases, s, n).shown == phrases[s.textIndex] &&
            Run(phrases, s, n + 1) ==
              s.(charIndex := n, deleting := true, delay := HoldDelay, shown := phrases[s.textIndex])
    ensures Run(phrases, s, 2 * |phrases[s.textIndex]| + 2) ==
            TypingState((s.textIndex + 1) % |phrases|, 0, false, NextPhraseDelay, [])
  {
    var text := phrases[s.textIndex];
    var n := |text|;
    // after typing
    var typed := Run(phrases, s, n);
    if n > 0 {
      TypesOut(phrases, s);
      assert typed == s.(charIndex := n, delay := TypeDelay, shown := text);
    } else {
      assert typed == s;
    }
    // after the hold
    var held := Step(phrases, typed);
    RunAdd(phrases, s, n, 1);
    assert Run(phrases, typed, 1) == held;
    assert held == s.(charIndex := n, deleting := true, delay := HoldDelay, shown := text);
    // after deleting
    var deleted := Run(phrases, held, n);
    if n > 0 {
      DeletesOut(phrases, held);
      assert deleted == held.(charIndex := 0, delay := DeleteDelay, shown := []);
    } else {
      assert deleted == held;
    }
    RunAdd(phrases, s, n + 1, n);
    // the move to the next phrase
    RunAdd(phrases, s, 2 * n + 1, 1);
    assert Run(phrases, deleted, 1) == Step(phrases, deleted);
  }

  /**
   * With phrases ["A", "B"]: "A" is shown, deleted, "B" is shown, deleted,
   * and after two full cycles the typewriter is back at the first phrase.
   */
  lemma TwoPhraseCycle()
    ensures Run(["A", "B"], Initial(), 1).shown == "A"
    ensures Run(["A", "B"], Initial(), 4) == TypingState(1, 0, false, NextPhraseDelay, [])
    ensures Run(["A", "B"], Initial(), 5).shown == "B"
    ensures Run(["A", "B"], Initial(), 8) == TypingState(0, 0, false, NextPhraseDelay, [])
  {
    var p: seq<string> := ["A", "B"];
    var s0 := Initial();
    FullCycle(p, s0);
    var s1 := Run(p, s0, 4);
    FullCycle(p, s1);
    RunAdd(p, s0, 4, 1);
    RunAdd(p, s0, 4, 4);
  }

  /** From the initial state, the first phrase is typed out and the second one started. */
  lemma FirstCycle(phrases: seq<string>)
    requires |phrases| > 0
    ensures Run(phrases, Initial(), |phrases[0]|).shown == phrases[0]
    ensures Run(phrases, Initial(), 2 * |phrases[0]| + 2) ==
            TypingState(1 % |phrases|, 0, false, NextPhraseDelay, [])
  {
    FullCycle(phrases, Initial());
  }

  /**
   * The page's own four phrases meet the typewriter's precondition, and the
   * first one is typed out after 25 ticks and replaced after 2 * 25 + 2.
   */
  lemma PortfolioFirstCycle()
    ensures |PortfolioPhrases| > 0
    ensures Run(PortfolioPhrases, Initial(), 25).shown == "Bioinformatics Researcher"
    ensures Run(PortfolioPhrases, Initial(), 52) == TypingState(1, 0, false, NextPhraseDelay, [])
  {
    FirstCycle(PortfolioPhrases);
  }

  /**
   * The typewriter as the page holds it: four module-level variables that
   * every tick updates in place, plus the text content of the target element.
   */
  class Typewriter {
    const phrases: seq<string>
    var textIndex: nat
    var charIndex: nat
    var isDeleting: bool
    var typingSpeed: nat
    var shown: string

    function State(): TypingState
      reads this
    {
      TypingState(textIndex, charIndex, isDeleting, typingSpeed, shown)
    }

    ghost predicate Valid()
      reads this
    {
      Inv(phrases, State())
    }

    /** The target element is taken to start out empty. */
    constructor (phrases: seq<string>)
      requires |phrases| > 0
      ensures Valid() && this.phrases == phrases
      ensures State() == Initial()
    {
      this.phrases := phrases;
      textIndex := 0;
      charIndex := 0;
      isDeleting := false;
      typingSpeed := TypeDelay;
      shown := [];
    }

    /** One timer callback; returns the delay the next callback is scheduled with. */
    method Tick() returns (delay: nat)
      requires Valid()
      modifies this
      ensures Valid()
      ensures State() == Step(phrases, old(State()))
      ensures delay == typingSpeed
    {
      var currentText := phrases[textIndex];
      if !isDeleting && charIndex < |currentText| {
        shown := Substring(currentText, charIndex + 1);
        charIndex := charIndex + 1;
        typingSpeed := TypeDelay;
      } else if isDeleting && charIndex > 0 {
        shown := Substring(currentText, charIndex - 1);
        charIndex := charIndex - 1;
        typingSpeed := DeleteDelay;
      } else if !isDeleting && charIndex == |currentText| {
        isDeleting := true;
        typingSpeed := HoldDelay;
      } else if isDeleting && charIndex == 0 {
        isDeleting := false;
        textIndex := (textIndex + 1) % |phrases|;
        typingSpeed := NextPhraseDelay;
      }
      delay := typingSpeed;
    }
  }
}
