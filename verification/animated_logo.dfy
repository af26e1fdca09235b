/** src/components/ui/AnimatedLogo.tsx: a logo that types a word, pauses, deletes it and
    moves on to the next word, cyclically. Timers are events: `Tick` is one run of
    `handleTyping`, `DelayElapsed` is one pending `setTimeout(() => setIsDeleting(true))`
    firing. */
module AnimatedLogo {
  import opened Opt

  /** `text`, `isDeleting`, `loopNum`, and the number of switch-to-deleting timeouts that
      are scheduled but have not fired yet. */
  datatype Logo = Logo(text: string, deleting: bool, loopNum: nat, pendingSwitches: nat)

  const DefaultTexts: seq<string> := ["sOn4jit", "RootSecOps"]
  const DefaultTypingSpeed: nat := 150
  const DefaultDeleteSpeed: nat := 100
  const DefaultDelay: nat := 2000

  const Initial: Logo := Logo("", false, 0, 0)

  /** `s.substring(0, end)`: the end is clamped to `[0, |s|]`. */
  function Substring(s: string, end: int): (r: string)
    ensures r <= s
    ensures |r| == (if end <= 0 then 0 else if end >= |s| then |s| else end)
  {
    if end <= 0 then "" else if end >= |s| then s else s[..end]
  }

  /** The word of the current loop. */
  function Word(texts: seq<string>, loopNum: nat): string
    requires texts != []
  {
    texts[loopNum % |texts|]
  }

  /** The shown text is a prefix of the current word. */
  ghost predicate Valid(texts: seq<string>, s: Logo) {
    texts != [] && s.text <= Word(texts, s.loopNum)
  }

  /** `handleTyping` for a non-empty word list. Steps and switch timeouts may interleave in any
      order here, so the model admits more typing ticks on a complete word than React's
      re-render cadence produces; every property proved holds for all of them. */
  function Step(texts: seq<string>, s: Logo): (t: Logo)
    requires texts != []
    ensures Valid(texts, t)
    ensures t.deleting ==> s.deleting
    ensures t.loopNum == s.loopNum || (t.loopNum == s.loopNum + 1 && s.deleting && !t.deleting && t.text == "")
  {
    var full := Word(texts, s.loopNum);
    var next := if s.deleting then Substring(full, |s.text| - 1) else Substring(full, |s.text| + 1);
    if !s.deleting && next == full then Logo(next, false, s.loopNum, s.pendingSwitches + 1)
    else if s.deleting && next == "" then Logo("", false, s.loopNum + 1, s.pendingSwitches)
    else Logo(next, s.deleting, s.loopNum, s.pendingSwitches)
  }

  /** `handleTyping`: with no words, `texts[NaN]` is undefined and the step throws. */
  function Tick(texts: seq<string>, s: Logo): (r: Option<Logo>)
    ensures r.None? <==> texts == []
  {
    if texts == [] then None else Some(Step(texts, s))
  }

  /** A scheduled switch fires: from then on the logo deletes. */
  function DelayElapsed(s: Logo): (t: Logo)
    ensures s.pendingSwitches > 0 ==> t.deleting && t.pendingSwitches == s.pendingSwitches - 1
    ensures s.pendingSwitches == 0 ==> t == s
    ensures t.text == s.text && t.loopNum == s.loopNum
  {
    if s.pendingSwitches > 0 then s.(deleting := true, pendingSwitches := s.pendingSwitches - 1) else s
  }

  /** The delay before the next `handleTyping`. */
  function TickDelay(s: Logo, typingSpeed: nat, deleteSpeed: nat): nat {
    if s.deleting then deleteSpeed else typingSpeed
  }

  lemma InitialValid(texts: seq<string>)
    requires texts != []
    ensures Valid(texts, Initial)
  {
  }

  /** Both events keep the shown text a prefix of the current word. */
  lemma EventsPreserveValid(texts: seq<string>, s: Logo)
    requires Valid(texts, s)
    ensures Valid(texts, Step(texts, s)) && Valid(texts, DelayElapsed(s))
  {
  }

  /** A typing step before the word is complete appends exactly the word's next character;
      completing the word schedules the switch to deleting and keeps `loopNum`. */
  lemma TypingStep(texts: seq<string>, s: Logo)
    requires Valid(texts, s) && !s.deleting && s.text != Word(texts, s.loopNum)
    ensures var t := Step(texts, s); var w := Word(texts, s.loopNum);
      t.text == s.text + [w[|s.text|]] && !t.deleting && t.loopNum == s.loopNum &&
      (t.text == w ==> t.pendingSwitches == s.pendingSwitches + 1) &&
      (t.text != w ==> t.pendingSwitches == s.pendingSwitches)
  {
    var w := Word(texts, s.loopNum);
    assert |s.text| < |w|;
    assert w[..|s.text| + 1] == s.text + [w[|s.text|]];
  }

  /** A deleting step drops exactly the last character (an empty text stays empty); reaching
      the empty text switches to typing and moves to the next word. */
  lemma DeletingStep(texts: seq<string>, s: Logo)
    requires Valid(texts, s) && s.deleting
    ensures var t := Step(texts, s);
      (s.text != "" ==> t.text == s.text[..|s.text| - 1]) &&
      (s.text == "" ==> t.text == "") &&
      (t.text == "" ==> !t.deleting && t.loopNum == s.loopNum + 1) &&
      (t.text != "" ==> t.deleting && t.loopNum == s.loopNum) &&
      t.pendingSwitches == s.pendingSwitches
  {
    var w := Word(texts, s.loopNum);
    if s.text != "" {
      assert w[..|s.text| - 1] == s.text[..|s.text| - 1];
    }
  }

  /** `n` typing events. */
  function Steps(texts: seq<string>, s: Logo, n: nat): Logo
    requires texts != []
  {
    if n == 0 then s else Step(texts, Steps(texts, s, n - 1))
  }

  lemma {:induction false} TypingSpellsWord(texts: seq<string>, s: Logo, n: nat)
    requires texts != [] && s.text == "" && !s.deleting
    requires n <= |Word(texts, s.loopNum)|
    ensures var t := Steps(texts, s, n);
      t.text == Word(texts, s.loopNum)[..n] && !t.deleting && t.loopNum == s.loopNum &&
      t.pendingSwitches == s.pendingSwitches + (if n == |Word(texts, s.loopNum)| && n > 0 then 1 else 0)
  {
    if n > 0 {
      TypingSpellsWord(texts, s, n - 1);
      TypingStep(texts, Steps(texts, s, n - 1));
      assert Word(texts, s.loopNum)[..n] == Word(texts, s.loopNum)[..n - 1] + [Word(texts, s.loopNum)[n - 1]];
    }
  }

  lemma {:induction false} DeletingErasesWord(texts: seq<string>, s: Logo, n: nat)
    requires Valid(texts, s) && s.deleting && 0 < n <= |s.text|
    ensures var t := Steps(texts, s, n);
      t.text == s.text[..|s.text| - n] && t.pendingSwitches == s.pendingSwitches &&
      (n < |s.text| ==> t.deleting && t.loopNum == s.loopNum) &&
      (n == |s.text| ==> !t.deleting && t.loopNum == s.loopNum + 1)
  {
    if n > 1 {
      DeletingErasesWord(texts, s, n - 1);
      var m := Steps(texts, s, n - 1);
      DeletingStep(texts, m);
      assert m.text[..|m.text| - 1] == s.text[..|s.text| - n];
    } else {
      DeletingStep(texts, s);
    }
  }

  /** Typing a non-empty word from the empty text ends on the whole word with one switch scheduled. */
  lemma TypingPhase(texts: seq<string>, s: Logo)
    requires texts != [] && s.text == "" && !s.deleting && s.pendingSwitches == 0
    requires Word(texts, s.loopNum) != ""
    ensures Steps(texts, s, |Word(texts, s.loopNum)|) == Logo(Word(texts, s.loopNum), false, s.loopNum, 1)
  {
    var w := Word(texts, s.loopNum);
    TypingSpellsWord(texts, s, |w|);
    assert w[..|w|] == w;
  }

  /** Deleting a whole word ends on the empty text, in typing mode, on the next loop. */
  lemma DeletingPhase(texts: seq<string>, d: Logo)
    requires texts != [] && d.text == Word(texts, d.loopNum) && d.text != ""
    requires d.deleting && d.pendingSwitches == 0
    ensures Steps(texts, d, |d.text|) == Logo("", false, d.loopNum + 1, 0)
  {
    DeletingErasesWord(texts, d, |d.text|);
  }

  /** One full cycle on a non-empty word: typing it out, the pause, and deleting it leave an
      empty text, in typing mode, on the next word. */
  lemma FullCycleMovesToNextWord(texts: seq<string>, s: Logo)
    requires texts != [] && s.text == "" && !s.deleting && s.pendingSwitches == 0
    requires Word(texts, s.loopNum) != ""
    ensures var w := Word(texts, s.loopNum);
      var typed := Steps(texts, s, |w|);
      var t := Steps(texts, DelayElapsed(typed), |w|);
      typed.text == w && t == Logo("", false, s.loopNum + 1, 0) &&
      Word(texts, t.loopNum) == texts[(s.loopNum + 1) % |texts|]
  {
    var w := Word(texts, s.loopNum);
    TypingPhase(texts, s);
    var switched := DelayElapsed(Logo(w, false, s.loopNum, 1));
    assert switched == Logo(w, true, s.loopNum, 0);
    DeletingPhase(texts, switched);
  }

  /** Typing ticks keep running on a complete word, and each schedules another switch. For a
      one-character word a second switch outlives the deletion: it fires on the next word's
      empty text, whose first deleting step then moves on at once, so that word is never
      shown. */
  lemma StaleSwitchSkipsNextWord(texts: seq<string>, n: nat)
    requires texts != [] && |Word(texts, n)| == 1
    ensures var s2 := Step(texts, Step(texts, Logo("", false, n, 0)));
      var s4 := Step(texts, DelayElapsed(s2));
      var s6 := Step(texts, DelayElapsed(s4));
      s2.pendingSwitches == 2 && s4 == Logo("", false, n + 1, 1) && s6 == Logo("", false, n + 2, 0)
  {
    var s1 := Step(texts, Logo("", false, n, 0));
    assert s1.text == Word(texts, n);
  }
}
