/** Korean-specific helpers of the law editor: the trailing-consonant test that picks
    the object particle 을/를 (`has_final_consonant`), and the per-law enumeration
    marker (`number_to_circled`). The trailing-consonant test is the arithmetic of
    the Hangul syllable decomposition in section 3.12 of The Unicode Standard. */
module Morphology {
  import opened Text
  import Extractors

  // Constants of the Hangul syllable algorithm (The Unicode Standard, section 3.12).
  const SBase := 0xAC00
  const VCount := 21
  const TCount := 28
  const NCount := 588    // VCount * TCount
  const SCount := 11172  // 19 * NCount

  /** `has_final_consonant`: the trailing-consonant index (codepoint - 0xAC00) mod 28
      of the word's last character is non-zero. Python's `%` with a positive divisor
      never returns a negative number, as Dafny's does not, so the rule is the same for
      every character, Hangul or not. An empty word fails in the source (`word[-1]`). */
  function HasFinalConsonant(word: string): (b: bool)
    requires |word| > 0
    ensures IsHangulSyllable(word[|word| - 1]) ==> (b <==> TrailingIndex(word[|word| - 1]) != 0)
  {
    (word[|word| - 1] as int - SBase) % TCount != 0
  }

  /** The object particle the sentence puts after the quoted term. */
  function Particle(term: string): (p: string)
    requires |term| > 0
    ensures p == "을" <==> HasFinalConsonant(term)
    ensures p == "을" || p == "를"
  {
    if HasFinalConsonant(term) then "을" else "를"
  }

  /** The test reads the last character only: a prefix in front of the word never
      changes it. */
  lemma FinalConsonantIgnoresPrefix(prefix: string, word: string)
    requires |word| > 0
    ensures HasFinalConsonant(prefix + word) == HasFinalConsonant(word)
  {
    assert (prefix + word)[|prefix + word| - 1] == word[|word| - 1];
  }

  predicate IsHangulSyllable(c: char)
  {
    SBase <= c as int < SBase + SCount
  }

  /** The precomposed syllable with leading consonant `l`, vowel `v` and trailing
      consonant `t` (`t == 0`: none). */
  function ComposeSyllable(l: nat, v: nat, t: nat): (c: char)
    requires l < 19 && v < VCount && t < TCount
    ensures IsHangulSyllable(c)
  {
    (SBase + (l * VCount + v) * TCount + t) as char
  }

  function LeadingIndex(c: char): nat
    requires IsHangulSyllable(c)
  {
    (c as int - SBase) / NCount
  }

  function VowelIndex(c: char): nat
    requires IsHangulSyllable(c)
  {
    ((c as int - SBase) % NCount) / TCount
  }

  function TrailingIndex(c: char): nat
    requires IsHangulSyllable(c)
  {
    (c as int - SBase) % TCount
  }

  /** Decomposition inverts composition ... */
  lemma DecomposeCompose(l: nat, v: nat, t: nat)
    requires l < 19 && v < VCount && t < TCount
    ensures var c := ComposeSyllable(l, v, t);
      LeadingIndex(c) == l && VowelIndex(c) == v && TrailingIndex(c) == t
  {
    var s := (l * VCount + v) * TCount + t;
    assert s == l * NCount + (v * TCount + t);
    assert v * TCount + t < NCount;
    assert s / NCount == l && s % NCount == v * TCount + t;
    assert (v * TCount + t) / TCount == v;
    assert s % TCount == t;
  }

  /** ... and composition inverts decomposition, on the whole syllable block. */
  lemma ComposeDecompose(c: char)
    requires IsHangulSyllable(c)
    ensures LeadingIndex(c) < 19 && VowelIndex(c) < VCount && TrailingIndex(c) < TCount
    ensures ComposeSyllable(LeadingIndex(c), VowelIndex(c), TrailingIndex(c)) == c
  {
    var s := c as int - SBase;
    var r := s % NCount;
    assert s == (s / NCount) * NCount + r;
    assert r == (r / TCount) * TCount + r % TCount;
    assert r % TCount == s % TCount;
  }

  /** A word has a final consonant exactly when its last syllable was composed with a
      trailing consonant. */
  lemma FinalConsonantIsTrailingJamo(word: string, l: nat, v: nat, t: nat)
    requires l < 19 && v < VCount && t < TCount
    ensures HasFinalConsonant(word + [ComposeSyllable(l, v, t)]) <==> t != 0
  {
    DecomposeCompose(l, v, t);
  }

  lemma ParticleExamples()
    ensures Particle("법원") == "을" && Particle("지방법원") == "을" && Particle("지역법원") == "을"
    ensures Particle("학교") == "를"
  {
  }

  // ---------------------------------------------------------------------------
  // Enumeration markers
  // ---------------------------------------------------------------------------

  /** `number_to_circled`: one character for 1..100 (U+2460 onwards for 1..50, U+3251
      onwards for 51..100), the text "(n)" otherwise. */
  function NumberToCircled(num: int): (glyph: string)
    ensures (1 <= num <= 100) <==> |glyph| == 1
    ensures (1 <= num <= 100) ==> 0x2460 <= glyph[0] as int <= 0x3282
    ensures !(1 <= num <= 100) ==> |glyph| >= 3 && glyph[0] == '(' && glyph[|glyph| - 1] == ')'
    ensures forall k :: 0 < k < |glyph| - 1 ==> glyph[k] == '-' || IsDigit(glyph[k])
  {
    if 1 <= num <= 50 then [(0x2460 + num - 1) as char]
    else if 51 <= num <= 100 then [(0x3251 + num - 51) as char]
    else "(" + ShowInt(num) + ")"
  }

  /** Distinct indices get distinct markers, on every integer. */
  lemma NumberToCircledInjective(a: int, b: int)
    requires NumberToCircled(a) == NumberToCircled(b)
    ensures a == b
  {
    if !(1 <= a <= 100) && !(1 <= b <= 100) {
      var ga, gb := NumberToCircled(a), NumberToCircled(b);
      assert ShowInt(a) == ga[1..|ga| - 1] == gb[1..|gb| - 1] == ShowInt(b);
      ShowIntInjective(a, b);
    }
  }

  lemma NumberToCircledExamples()
    ensures NumberToCircled(1) == "①" && NumberToCircled(20) == "⑳"
    ensures NumberToCircled(21) == "⑴" && NumberToCircled(51) == "㉑"
    ensures NumberToCircled(101) == "(101)" && NumberToCircled(0) == "(0)"
  {
  }

  /** For the first twenty laws the marker is the circled digit that the clause-number
      table decodes back to the same index. */
  lemma NumberToCircledMatchesClauseTable(n: int)
    requires 1 <= n <= 20
    ensures NumberToCircled(n)[0] in Extractors.CircledNumberMap
    ensures Extractors.CircledNumberMap[NumberToCircled(n)[0]] == ShowNat(n)
  {
    Extractors.CircledNumberMapKeys(NumberToCircled(n)[0]);
    Extractors.CircledNumberMapDecodes(NumberToCircled(n)[0]);
  }
}
