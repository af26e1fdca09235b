/** src/components/ui/DecryptedText.tsx: text that starts scrambled and is revealed either
    one position per tick (sequential mode) or all at once after a fixed number of
    scrambles. `Math.random` is an oracle `rand: int -> nat` handed to each tick. */
module DecryptedText {

  datatype Direction = Start | End | Center

  /** Where scrambled characters come from: a given alphabet (the `characters` prop) or a
      shuffle of the text's own hidden characters (`useOriginalCharsOnly`). */
  datatype Alphabet = Characters(chars: string) | OriginalCharsOnly

  datatype Config = Config(text: string, sequential: bool, direction: Direction,
                           alphabet: Alphabet, maxIterations: int)

  /** The component state: displayed text, revealed positions, whether the interval runs,
      and the non-sequential iteration counter. */
  datatype Anim = Anim(display: string, revealed: set<int>, scrambling: bool, iteration: int)

  type Random = int -> nat

  /** Default prop values. */
  const DefaultMaxIterations: int := 10
  const DefaultCharacters: string := "ABCDEFGHIJKLMNOPQRSTUVWXYZabcdefghijklmnopqrstuvwxyz!@#$%^&*()_+"

  // ---------------------------------------------------------------------------------
  // Sets of positions

  ghost predicate InRange(revealed: set<int>, len: nat) {
    forall i :: i in revealed ==> 0 <= i < len
  }

  /** The positions `0..len-1`. */
  function Range(len: nat): (r: set<int>)
    ensures forall i :: i in r <==> 0 <= i < len
    ensures |r| == len
  {
    if len == 0 then {} else Range(len - 1) + {len - 1}
  }

  lemma {:induction false} SubsetSize<T>(a: set<T>, b: set<T>)
    requires a <= b
    ensures |a| <= |b|
  {
    if a != {} {
      var x :| x in a;
      SubsetSize(a - {x}, b - {x});
    }
  }

  lemma SameSizeSubsetIsEqual<T>(a: set<T>, b: set<T>)
    requires a <= b && |a| == |b|
    ensures a == b
  {
    if a != b {
      assert exists y :: y in b && y !in a;
      var x :| x in b && x !in a;
      SubsetSize(a, b - {x});
    }
  }

  /** Fewer than `len` in-range positions leave one unrevealed. */
  lemma SomeUnrevealed(revealed: set<int>, len: nat)
    requires |revealed| < len
    ensures exists i :: 0 <= i < len && i !in revealed
  {
    if forall i :: 0 <= i < len ==> i in revealed {
      SubsetSize(Range(len), revealed);
    }
  }

  lemma AllRevealed(revealed: set<int>, len: nat)
    requires InRange(revealed, len) && |revealed| == len
    ensures revealed == Range(len)
  {
    SameSizeSubsetIsEqual(revealed, Range(len));
  }

  // ---------------------------------------------------------------------------------
  // Reveal order

  /** The first unrevealed position in `[from, len)`, or -1. */
  function LowestUnrevealed(len: nat, revealed: set<int>, from: nat): (r: int)
    decreases len - from
    ensures r == -1 <==> forall i :: from <= i < len ==> i in revealed
    ensures r != -1 ==> from <= r < len && r !in revealed && forall i :: from <= i < r ==> i in revealed
  {
    if from >= len then -1
    else if from !in revealed then from
    else LowestUnrevealed(len, revealed, from + 1)
  }

  /** The centre direction's first choice for the `count`-th reveal: alternately right and
      left of the middle, moving outwards. */
  function CenterCandidate(len: nat, count: nat): int {
    var middle := len / 2;
    var offset := count / 2;
    if count % 2 == 0 then middle + offset else middle - offset - 1
  }

  /** `getNextIndex`. */
  function NextIndex(direction: Direction, len: nat, revealed: set<int>): (r: int)
    ensures direction == Start ==> r == |revealed|
    ensures direction == End ==> r == len - 1 - |revealed|
    ensures direction == Center ==> (r == -1 <==> forall i :: 0 <= i < len ==> i in revealed)
    ensures direction == Center && r != -1 ==> 0 <= r < len && r !in revealed
  {
    match direction
    case Start => |revealed|
    case End => len - 1 - |revealed|
    case Center =>
      var c := CenterCandidate(len, |revealed|);
      if 0 <= c < len && c !in revealed then c else LowestUnrevealed(len, revealed, 0)
  }

  /** The first `count` centre candidates are distinct positions of the text. */
  lemma CenterCandidatesDistinct(len: nat, k1: nat, k2: nat)
    requires k1 < len && k2 < len
    ensures 0 <= CenterCandidate(len, k1) < len
    ensures k1 != k2 ==> CenterCandidate(len, k1) != CenterCandidate(len, k2)
  {
  }

  /** Positions revealed by the first `count` centre choices. */
  function CenterPrefix(len: nat, count: nat): set<int> {
    if count == 0 then {} else CenterPrefix(len, count - 1) + {CenterCandidate(len, count - 1)}
  }

  lemma {:induction false} CenterPrefixShape(len: nat, count: nat)
    requires count <= len
    ensures |CenterPrefix(len, count)| == count
    ensures InRange(CenterPrefix(len, count), len)
    ensures forall k :: count <= k < len ==> CenterCandidate(len, k) !in CenterPrefix(len, count)
  {
    if count > 0 {
      CenterPrefixShape(len, count - 1);
      CenterCandidatesDistinct(len, count - 1, count - 1);
      forall k | count <= k < len
        ensures CenterCandidate(len, k) !in CenterPrefix(len, count)
      {
        CenterCandidatesDistinct(len, count - 1, k);
      }
    }
  }

  /** Revealing from the centre never needs the fallback: each step takes the next
      candidate, which is in range and still hidden. */
  lemma CenterFollowsCandidates(len: nat, count: nat)
    requires count < len
    ensures NextIndex(Center, len, CenterPrefix(len, count)) == CenterCandidate(len, count)
    ensures CenterPrefix(len, count + 1) == CenterPrefix(len, count) + {NextIndex(Center, len, CenterPrefix(len, count))}
  {
    CenterPrefixShape(len, count);
    CenterCandidatesDistinct(len, count, count);
  }

  // ---------------------------------------------------------------------------------
  // Scrambling with a given alphabet

  /** The output for position `i`: a space stays, a revealed position shows the original, any
      other draws from the alphabet; an empty alphabet yields `undefined`, which joins as
      nothing. */
  function RandomPiece(text: string, revealed: set<int>, chars: string, rand: Random, i: nat): string
    requires i < |text|
  {
    if text[i] == ' ' then " "
    else if i in revealed then [text[i]]
    else if chars == [] then ""
    else [chars[rand(i) % |chars|]]
  }

  /** The scramble of the first `n` positions. */
  function ScrambleRandom(text: string, revealed: set<int>, chars: string, rand: Random, n: nat): (r: string)
    requires n <= |text|
    ensures |r| <= n
    ensures chars != [] ==> |r| == n
    ensures chars != [] ==> forall i :: 0 <= i < n ==>
      (text[i] == ' ' ==> r[i] == ' ') &&
      (i in revealed ==> r[i] == text[i]) &&
      (text[i] != ' ' && i !in revealed ==> r[i] in chars)
  {
    if n == 0 then ""
    else ScrambleRandom(text, revealed, chars, rand, n - 1) + RandomPiece(text, revealed, chars, rand, n - 1)
  }

  // ---------------------------------------------------------------------------------
  // Scrambling with the text's own characters

  predicate Hidden(text: string, revealed: set<int>, i: nat)
    requires i < |text|
  {
    text[i] != ' ' && i !in revealed
  }

  /** The characters of `s` at the hidden positions `i..` of `text`, where `s` is aligned so
      that `s[0]` stands at position `i`. */
  function HiddenOf(text: string, revealed: set<int>, s: string, i: nat): (r: string)
    requires i <= |text| && |s| == |text| - i
    decreases |text| - i
  {
    if i == |text| then ""
    else (if Hidden(text, revealed, i) then [s[0]] else "") + HiddenOf(text, revealed, s[1..], i + 1)
  }

  /** The number of hidden positions in `i..`. */
  function HiddenCount(text: string, revealed: set<int>, i: nat): nat
    requires i <= |text|
    decreases |text| - i
  {
    if i == |text| then 0
    else (if Hidden(text, revealed, i) then 1 else 0) + HiddenCount(text, revealed, i + 1)
  }

  lemma {:induction false} HiddenOfLength(text: string, revealed: set<int>, s: string, i: nat)
    requires i <= |text| && |s| == |text| - i
    decreases |text| - i
    ensures |HiddenOf(text, revealed, s, i)| == HiddenCount(text, revealed, i)
  {
    if i < |text| {
      HiddenOfLength(text, revealed, s[1..], i + 1);
    }
  }

  /** The hidden characters of the text, in order. */
  function Pool(text: string, revealed: set<int>): (r: string)
    ensures |r| == HiddenCount(text, revealed, 0)
  {
    HiddenOfLength(text, revealed, text, 0);
    HiddenOf(text, revealed, text, 0)
  }

  function Swap(s: string, i: nat, j: nat): (r: string)
    requires i < |s| && j < |s|
    ensures |r| == |s| && multiset(r) == multiset(s)
  {
    s[i := s[j]][j := s[i]]
  }

  /** The Fisher–Yates loop from index `i` down to 1, with `j = rand(i) mod (i + 1)`. */
  function ShuffleFrom(s: string, rand: Random, i: int): (r: string)
    requires i < |s|
    decreases i
    ensures |r| == |s| && multiset(r) == multiset(s)
  {
    if i <= 0 then s
    else ShuffleFrom(Swap(s, i, rand(i) % (i + 1)), rand, i - 1)
  }

  function Shuffle(s: string, rand: Random): (r: string)
    ensures |r| == |s| && multiset(r) == multiset(s)
  {
    ShuffleFrom(s, rand, |s| - 1)
  }

  /** Writes the output from position `i` on: spaces and revealed positions show the text,
      hidden positions take the pool's characters in order (`''` once it runs out). */
  function Fill(text: string, revealed: set<int>, pool: string, i: nat): string
    requires i <= |text|
    decreases |text| - i
  {
    if i == |text| then ""
    else if text[i] == ' ' then " " + Fill(text, revealed, pool, i + 1)
    else if i in revealed then [text[i]] + Fill(text, revealed, pool, i + 1)
    else if pool != [] then [pool[0]] + Fill(text, revealed, pool[1..], i + 1)
    else Fill(text, revealed, pool, i + 1)
  }

  /** One position of `Fill` when the pool holds exactly one character per hidden position. */
  lemma FillStep(text: string, revealed: set<int>, pool: string, i: nat)
    requires i < |text| && |pool| == HiddenCount(text, revealed, i)
    ensures Hidden(text, revealed, i) ==>
      pool != [] && |pool[1..]| == HiddenCount(text, revealed, i + 1) &&
      Fill(text, revealed, pool, i) == [pool[0]] + Fill(text, revealed, pool[1..], i + 1)
    ensures !Hidden(text, revealed, i) ==>
      |pool| == HiddenCount(text, revealed, i + 1) &&
      Fill(text, revealed, pool, i) == [text[i]] + Fill(text, revealed, pool, i + 1)
  {
  }

  lemma {:induction false} FillPlacesPool(text: string, revealed: set<int>, pool: string, i: nat)
    requires i <= |text| && |pool| == HiddenCount(text, revealed, i)
    decreases |text| - i
    ensures |Fill(text, revealed, pool, i)| == |text| - i
    ensures HiddenOf(text, revealed, Fill(text, revealed, pool, i), i) == pool
  {
    if i < |text| {
      var f := Fill(text, revealed, pool, i);
      FillStep(text, revealed, pool, i);
      if Hidden(text, revealed, i) {
        FillPlacesPool(text, revealed, pool[1..], i + 1);
        assert f[1..] == Fill(text, revealed, pool[1..], i + 1);
      } else {
        FillPlacesPool(text, revealed, pool, i + 1);
        assert f[1..] == Fill(text, revealed, pool, i + 1);
      }
    }
  }

  lemma {:induction false} FillKeepsVisible(text: string, revealed: set<int>, pool: string, i: nat, k: nat)
    requires i <= k < |text| && |pool| == HiddenCount(text, revealed, i)
    requires !Hidden(text, revealed, k)
    decreases |text| - i
    ensures |Fill(text, revealed, pool, i)| == |text| - i
    ensures Fill(text, revealed, pool, i)[k - i] == text[k]
  {
    FillPlacesPool(text, revealed, pool, i);
    FillStep(text, revealed, pool, i);
    if k > i {
      if Hidden(text, revealed, i) {
        FillKeepsVisible(text, revealed, pool[1..], i + 1, k);
      } else {
        FillKeepsVisible(text, revealed, pool, i + 1, k);
      }
    }
  }

  /** The original-characters scramble: the hidden characters, shuffled, refill the hidden
      positions. */
  function ScrambleOriginal(text: string, revealed: set<int>, rand: Random): (r: string)
    ensures |r| == |text|
    ensures forall k :: 0 <= k < |text| && !Hidden(text, revealed, k) ==> r[k] == text[k]
    ensures multiset(HiddenOf(text, revealed, r, 0)) == multiset(Pool(text, revealed))
  {
    var pool := Shuffle(Pool(text, revealed), rand);
    FillPlacesPool(text, revealed, pool, 0);
    assert forall k :: 0 <= k < |text| && !Hidden(text, revealed, k) ==> Fill(text, revealed, pool, 0)[k] == text[k] by {
      forall k | 0 <= k < |text| && !Hidden(text, revealed, k)
        ensures Fill(text, revealed, pool, 0)[k] == text[k]
      {
        FillKeepsVisible(text, revealed, pool, 0, k);
      }
    }
    Fill(text, revealed, pool, 0)
  }

  /** `shuffleText`. */
  function Scramble(cfg: Config, revealed: set<int>, rand: Random): string {
    match cfg.alphabet
    case OriginalCharsOnly => ScrambleOriginal(cfg.text, revealed, rand)
    case Characters(chars) => ScrambleRandom(cfg.text, revealed, chars, rand, |cfg.text|)
  }

  /** Once every position is revealed, either scramble gives back the text. */
  lemma ScrambleOfRevealedIsText(cfg: Config, rand: Random)
    ensures Scramble(cfg, Range(|cfg.text|), rand) == cfg.text
  {
    var text := cfg.text;
    match cfg.alphabet
    case OriginalCharsOnly =>
      var r := ScrambleOriginal(text, Range(|text|), rand);
      assert forall k :: 0 <= k < |text| ==> !Hidden(text, Range(|text|), k);
      assert r == text;
    case Characters(chars) =>
      RevealedPrefixIsText(text, chars, rand, |text|);
  }

  lemma {:induction false} RevealedPrefixIsText(text: string, chars: string, rand: Random, n: nat)
    requires n <= |text|
    ensures ScrambleRandom(text, Range(|text|), chars, rand, n) == text[..n]
  {
    if n > 0 {
      var all := Range(|text|);
      RevealedPrefixIsText(text, chars, rand, n - 1);
      assert n - 1 in all;
      assert RandomPiece(text, all, chars, rand, n - 1) == [text[n - 1]];
      assert ScrambleRandom(text, all, chars, rand, n)
          == ScrambleRandom(text, all, chars, rand, n - 1) + RandomPiece(text, all, chars, rand, n - 1);
      assert text[..n] == text[..n - 1] + [text[n - 1]];
    }
  }

  // ---------------------------------------------------------------------------------
  // The interval tick

  /** After adding a position: stop with the plain text once all are revealed. */
  function Advance(cfg: Config, a: Anim, revealed: set<int>, rand: Random): Anim {
    if |revealed| >= |cfg.text| then Anim(cfg.text, revealed, false, a.iteration)
    else Anim(Scramble(cfg, revealed, rand), revealed, true, a.iteration)
  }

  /** One firing of the interval. A stopped animation has no interval and does not change. */
  function Tick(cfg: Config, a: Anim, rand: Random): (b: Anim)
    ensures !a.scrambling ==> b == a
    ensures !cfg.sequential ==> b.revealed == a.revealed
    ensures a.scrambling && !b.scrambling ==> b.display == cfg.text
  {
    var len := |cfg.text|;
    if !a.scrambling then a
    else if cfg.sequential then
      if |a.revealed| < len then
        var k := NextIndex(cfg.direction, len, a.revealed);
        if 0 <= k < len && k !in a.revealed then Advance(cfg, a, a.revealed + {k}, rand)
        else
          var f := LowestUnrevealed(len, a.revealed, 0);
          if f == -1 then Anim(cfg.text, a.revealed, false, a.iteration)
          else Advance(cfg, a, a.revealed + {f}, rand)
      else Anim(cfg.text, a.revealed, false, a.iteration)
    else
      var it := a.iteration + 1;
      if it >= cfg.maxIterations then Anim(cfg.text, a.revealed, false, it)
      else Anim(Scramble(cfg, a.revealed, rand), a.revealed, true, it)
  }

  /** A sequential tick with a position still hidden reveals exactly one more in-range
      position, and stops with the plain text exactly when that was the last one. */
  lemma SequentialTickRevealsOne(cfg: Config, a: Anim, rand: Random)
    requires cfg.sequential && a.scrambling
    requires InRange(a.revealed, |cfg.text|) && |a.revealed| < |cfg.text|
    ensures var b := Tick(cfg, a, rand);
      a.revealed < b.revealed && |b.revealed| == |a.revealed| + 1 && InRange(b.revealed, |cfg.text|) &&
      (b.scrambling <==> |b.revealed| < |cfg.text|) &&
      (!b.scrambling ==> b.display == cfg.text)
  {
    SomeUnrevealed(a.revealed, |cfg.text|);
  }

  /** The state when scrambling starts (a hover, or the element scrolling into view). */
  function Begin(a: Anim): (b: Anim)
    ensures b.scrambling && b.revealed == {} && b.iteration == 0 && b.display == a.display
  {
    Anim(a.display, {}, true, 0)
  }

  /** `n` ticks, the `t`-th drawing from `rands(t)`. */
  function Run(cfg: Config, a: Anim, n: nat, rands: nat -> Random): Anim {
    if n == 0 then a else Tick(cfg, Run(cfg, a, n - 1, rands), rands(n - 1))
  }

  /** `Run` unrolled once. */
  lemma RunStep(cfg: Config, a: Anim, n: nat, rands: nat -> Random)
    requires n > 0
    ensures Run(cfg, a, n, rands) == Tick(cfg, Run(cfg, a, n - 1, rands), rands(n - 1))
  {
  }

  /** The `n`-th sequential tick, from a state with `n - 1` positions revealed. */
  lemma ProgressStep(cfg: Config, prev: Anim, rand: Random, n: nat)
    requires cfg.sequential && prev.scrambling && 0 < n <= |cfg.text|
    requires |prev.revealed| == n - 1 && InRange(prev.revealed, |cfg.text|)
    ensures var b := Tick(cfg, prev, rand);
      |b.revealed| == n && InRange(b.revealed, |cfg.text|) &&
      (n < |cfg.text| ==> b.scrambling) &&
      (n == |cfg.text| ==> !b.scrambling && b.display == cfg.text)
  {
    SequentialTickRevealsOne(cfg, prev, rand);
  }

  lemma {:induction false} SequentialProgress(cfg: Config, a: Anim, n: nat, rands: nat -> Random)
    requires cfg.sequential && a.scrambling && a.revealed == {}
    requires n <= |cfg.text|
    ensures var b := Run(cfg, a, n, rands);
      |b.revealed| == n && InRange(b.revealed, |cfg.text|) &&
      (n < |cfg.text| ==> b.scrambling) &&
      (n == |cfg.text| && n > 0 ==> !b.scrambling && b.display == cfg.text)
  {
    if n == 0 {
      assert Run(cfg, a, 0, rands) == a;
    } else {
      SequentialProgress(cfg, a, n - 1, rands);
      RunStep(cfg, a, n, rands);
      ProgressStep(cfg, Run(cfg, a, n - 1, rands), rands(n - 1), n);
    }
  }

  /** From a fresh start, `text.length` sequential ticks (one for an empty text) reveal every
      position, stop the animation and restore the original text. */
  lemma SequentialRunCompletes(cfg: Config, a: Anim, rands: nat -> Random)
    requires cfg.sequential && a.scrambling && a.revealed == {}
    ensures var n := if |cfg.text| == 0 then 1 else |cfg.text|;
      var b := Run(cfg, a, n, rands);
      !b.scrambling && b.display == cfg.text && b.revealed == Range(|cfg.text|)
  {
    var len := |cfg.text|;
    if len == 0 {
      assert Run(cfg, a, 0, rands) == a;
    } else {
      SequentialProgress(cfg, a, len, rands);
      AllRevealed(Run(cfg, a, len, rands).revealed, len);
    }
  }

  /** In non-sequential mode the text keeps scrambling, with nothing revealed, while the
      counter is below `maxIterations`; after `maxIterations` ticks (at least one) it stops
      and shows the original. */
  lemma {:induction false} NonSequentialRun(cfg: Config, a: Anim, n: nat, rands: nat -> Random)
    requires !cfg.sequential && a.scrambling && a.iteration == 0
    requires n <= cfg.maxIterations || n <= 1
    ensures var b := Run(cfg, a, n, rands);
      b.revealed == a.revealed && b.iteration == n &&
      (b.scrambling <==> n < cfg.maxIterations || n == 0) &&
      (n > 0 && !b.scrambling ==> b.display == cfg.text)
  {
    if n > 0 {
      NonSequentialRun(cfg, a, n - 1, rands);
    }
  }

  /** Leaving the element while scrambling resets it: original text, nothing revealed,
      counter back to zero. */
  function HoverOut(cfg: Config, a: Anim): (b: Anim)
    ensures a.scrambling ==> !b.scrambling && b.display == cfg.text && b.revealed == {} && b.iteration == 0
    ensures !a.scrambling ==> b == a
  {
    if a.scrambling then Anim(cfg.text, {}, false, 0) else a
  }
}
