# Consequential-amendment drafting (타법개정 도우미), modelled in Dafny

The law editor drafts the "다른 법률의 개정" part of a bill's addenda. A term (for
example 지방법원) is renamed to a replacement term (지역법원). For every law that mentions
the old term, the editor writes an amendment instruction in the fixed Korean drafting
form:

    ① 가나라법 일부를 다음과 같이 개정한다.
    가나라법 제1조의 제목 및 같은 조 제1항 중 "지방법원"을 "지역법원"으로 한다.

This project models the editor's string logic in `law_editor_app.py` and proves its
properties:

- the three leftmost-match extractors, for the article token 제N조 or 제N조의M, the
  parenthesised article title, and the circled clause number ①..⑳;
- the trailing-consonant test that picks the object particle 을 or 를;
- the clause-list formatter "제a항, 제b항 및 제c항";
- the per-law enumeration marker (`number_to_circled`);
- the placeholder law text;
- the drafting loop `process_web_laws`, which walks the law names in Python's sorted
  order, skips laws whose text lacks the term, and emits a header line, a sentence and
  an empty line per remaining law.

Modules, one file each:

- `text.dfy` (`Text`): the Python string operations the editor relies on:
  - `in` (`Contains`), `str.replace` (`Replace`), `sep.join` (`Join`);
  - `str(int)` (`ShowNat`, `ShowInt`);
  - a newline splitter (`Split`) that the editor does not call. It exists to state
    that splitting the joined output gives back its lines (`SplitJoin`).
- `extractors.dfy` (`Extractors`): the three regular expressions, written as explicit
  left-to-right scanners. Ghost predicates state what a leftmost (and, for digit runs,
  greedy) regex match is.
- `morphology.dfy` (`Morphology`): `has_final_consonant`, the particle choice, and the
  Hangul syllable arithmetic of section 3.12 of The Unicode Standard behind it;
  `number_to_circled`.
- `clauses.dfy` (`Clauses`): `format_clauses`, with a reader that parses a formatted
  list back into its numerals.
- `ordering.dfy` (`Ordering`): Python's string order (code point by code point, a
  proper prefix first) and `sorted` as an insertion sort.
- `amendment.dfy` (`Amendment`):
  - `dummy_law_text`;
  - the location phrase and the sentence;
  - `process_web_laws` as an imperative loop (`ProcessWebLaws`, with `DraftLaw` for one
    pass of the loop body);
  - the specification functions (`Drafts`, `OutputLines`, `Emitted`) that the loop is
    proved against.

Facts about `law_editor_app.py` that the model keeps as written:

- Line 79 writes the title phrase as `{article}의 제목`, with no space before 의.
- Line 88 chooses the particle from the original term, which is the word the particle
  follows in the sentence.
- Line 87 calls `original_term.replace(original_term, replacement_term)`. This
  replaces the whole word, so the second quoted word is exactly the replacement term.
- Lines 72-74 put at most one clause number in the list: the leftmost glyph ①..⑳.
- Lines 43-47 map 21..50 to the characters from U+2474 onward (⑴, ⒈, …) and 51..100
  to the characters from U+3251 (㉑) onward.

## Model

| member | source | states |
|---|---|---|
| Extractors.ExtractArticle | law_editor_app.py:10-12 | returns "" exactly when the text holds no token 제<digits>조; otherwise the result is the slice of the text at the leftmost token, extended greedily by 의<digits> when that follows, is at least three characters long and starts with 제 |
| Extractors.ExtractArticleIs | law_editor_app.py:10-12 | whenever a leftmost longest token occupies `s[i..i+n]`, `extract_article` returns exactly that slice |
| Extractors.LeftmostArticleUnique | law_editor_app.py:10-12 | there is only one leftmost longest match of the article pattern |
| Extractors.ArticleEndSpec | law_editor_app.py:10-12 | the greedy scanner at a position returns the longest token starting there, and returns nothing exactly when no token starts there |
| Extractors.ExtractTitle | law_editor_app.py:14-16 | None exactly when no article token is followed by "(", at least one character other than ")", and ")"; otherwise the capture of the leftmost such match, non-empty and free of ")" |
| Extractors.ExtractTitleIs | law_editor_app.py:14-16 | whenever the leftmost title match has its capture at `s[i+n+1..i+n+1+m]`, `extract_title` returns exactly that capture |
| Extractors.LeftmostTitleUnique | law_editor_app.py:14-16 | two leftmost matches of the title pattern start at the same position |
| Extractors.SameTitle | law_editor_app.py:14-16 | two matches of the title pattern at one position capture the same title |
| Extractors.TitleAtDetermined | law_editor_app.py:14-16 | a match of the title pattern at a position fixes the scanner's result there: the capture is the text between "(" and the first ")" |
| Extractors.TokenBeforeParen | law_editor_app.py:14-16 | a token directly followed by "(" cannot be extended, so backtracking never shortens it |
| Extractors.ExtractClauseNumber | law_editor_app.py:18-26 | None exactly when no glyph ①..⑳ occurs; otherwise the table's decoding of the leftmost glyph, which is the decimal form of a number in 1..20 |
| Extractors.ExtractClauseNumberIs | law_editor_app.py:18-26 | the leftmost glyph decides the result |
| Extractors.CircledNumberMapDecodes | law_editor_app.py:20-25 | the table (`CircledNumberMap`) maps the glyph at U+2460+n−1 to the decimal numeral of n, for every n in 1..20 |
| Extractors.CircledNumberMapKeys | law_editor_app.py:20-25 | the keys of `CircledNumberMap` are exactly the code points U+2460..U+2473 |
| Morphology.HasFinalConsonant | law_editor_app.py:28-30 | for a word ending in a Hangul syllable, true exactly when that syllable's trailing-consonant index is non-zero |
| Morphology.Particle | law_editor_app.py:88 | the particle is 을 exactly when the term has a final consonant, and 를 otherwise |
| Morphology.FinalConsonantIgnoresPrefix | law_editor_app.py:28-30 | the test depends only on the last character of the word |
| Morphology.FinalConsonantIsTrailingJamo | law_editor_app.py:28-30 | for a word ending in a precomposed syllable, the test holds exactly when that syllable was composed with a trailing consonant |
| Morphology.DecomposeCompose | law_editor_app.py:28-30 | the syllable arithmetic recovers the leading, vowel and trailing indices a syllable was composed from |
| Morphology.ComposeDecompose | law_editor_app.py:28-30 | every precomposed syllable is the composition of its three indices |
| Morphology.ParticleExamples | law_editor_app.py:28-30 | 법원, 지방법원 and 지역법원 take 을; 학교 takes 를 |
| Morphology.NumberToCircled | law_editor_app.py:41-47 | a single character exactly for 1..100, in U+2460..U+3282; for every other integer at least three characters, a "(", a sign and digits, and a ")" |
| Morphology.NumberToCircledInjective | law_editor_app.py:41-47 | different indices never get the same marker, on all integers |
| Morphology.NumberToCircledExamples | law_editor_app.py:41-47 | 1 gives ①, 20 gives ⑳, 21 gives ⑴, 51 gives ㉑, 101 gives (101) and 0 gives (0) |
| Morphology.NumberToCircledMatchesClauseTable | law_editor_app.py:41-47 | for 1..20 the marker is the clause glyph that the clause-number table decodes back to the same number |
| Clauses.FormatClauses | law_editor_app.py:32-39 | the result is non-empty and ends in 항 |
| Clauses.FormatClausesGeneralRule | law_editor_app.py:32-39 | two or more items: the references of all but the last joined by ", ", then " 및 " and the last reference; the two-item branch is this rule |
| Clauses.FormatClausesRoundTrip | law_editor_app.py:32-39 | reading a formatted list gives back exactly its numerals, with commas between them and one final 및 |
| Clauses.FormatClausesInjective | law_editor_app.py:32-39 | different numeral lists are never formatted alike |
| Clauses.FormatClausesExamples | law_editor_app.py:32-39 | ["1"] gives 제1항, ["1","2"] gives 제1항 및 제2항, ["1","2","3"] gives 제1항, 제2항 및 제3항 |
| Clauses.SeparatorsShape | law_editor_app.py:36-39 | a list of n items has n−1 separators, all commas except a final 및 |
| Ordering.BelowTotal | law_editor_app.py:66 | Python's string order compares any two strings |
| Ordering.BelowAntisymmetric | law_editor_app.py:66 | two strings each below the other are equal |
| Ordering.BelowTransitive | law_editor_app.py:66 | the order is transitive |
| Ordering.InsertSorted | law_editor_app.py:66 | inserting into an ascending list keeps it ascending |
| Ordering.SortedNames | law_editor_app.py:66 | `sorted` returns the same names with the same multiplicities |
| Ordering.SortedNamesSorted | law_editor_app.py:66 | `sorted` returns an ascending list |
| Ordering.SortedUnique | law_editor_app.py:66 | two ascending lists with the same elements are the same list |
| Ordering.SortedNamesPermutation | law_editor_app.py:66 | listing the same names in another order gives the same sorted list |
| Text.Contains | law_editor_app.py:68 | a term that occurs in a text is not longer than the text |
| Text.ContainsIff | law_editor_app.py:68 | `term in text` holds exactly when the term occurs at some position of the text |
| Text.Replace | law_editor_app.py:87 | replacing a word by itself leaves every string unchanged |
| Text.ReplaceWhole | law_editor_app.py:87 | replacing a non-empty word inside itself yields the replacement |
| Text.SplitJoin | law_editor_app.py:94 | splitting the newline-joined lines at newlines gives the lines back when no line holds a newline |
| Amendment.DummyLawText | law_editor_app.py:59-60 | the law name is a prefix of its placeholder text |
| Amendment.DummyLawMentionsDistrictCourt | law_editor_app.py:59-60 | every placeholder text mentions 지방법원 |
| Amendment.DummyLawArticle | law_editor_app.py:71 | for a law name without an article token, the leftmost token of its text is the 제1조 right after the name |
| Amendment.DummyLawTitle | law_editor_app.py:73 | for such a name the extracted title is exactly Some("목적"), which is truthy, so a title branch is taken |
| Amendment.PurposeTitleAt | law_editor_app.py:14-16 | "제1조(목적)" with no article token before it is the leftmost title match, capturing 목적 |
| Amendment.DummyLawClause | law_editor_app.py:72-74 | for a law name without circled numbers the clause list is ["1"] |
| Amendment.DummyLawSentence | law_editor_app.py:76-89 | for a law name with no article token and no circled number, the sentence is the name, "제1조의 제목 및 같은 조 제1항", the quoted term with its particle, and the quoted replacement term |
| Amendment.ArticleOrDefault | law_editor_app.py:71 | the article is the extracted one, or 제1조 exactly when the text holds no token; it always starts with 제 |
| Amendment.ClauseList | law_editor_app.py:72-74 | at most one numeral, and it is the value `extract_clause_number` returns; empty exactly when the text has no glyph ①..⑳ |
| Amendment.LocationPhrase | law_editor_app.py:77-85 | the phrase is the bare article exactly when the title is not truthy (None or "", per Python's truth value, `Truthy`) and there is no clause |
| Amendment.LocationSuffixKind | law_editor_app.py:77-85 | what follows the article says whether the title is named (it starts with 의) and whether clauses are |
| Amendment.LocationPhraseInjective | law_editor_app.py:77-85 | the phrase determines whether the title is amended and which clauses are |
| Amendment.PhraseWithTitleAndClause | law_editor_app.py:78-79 | a title with clause 1 gives "제1조의 제목 및 같은 조 제1항" |
| Amendment.AmendmentSentence | law_editor_app.py:70-89 | the sentence is the law name, the location phrase built from the article (or 제1조), the title and the clause list, "중", the quoted original term with its particle, and the quoted replacement term itself, then "으로 한다." |
| Amendment.LocationText | law_editor_app.py:77-85 | the if-chain yields the location phrase for every title and clause list |
| Amendment.Header | law_editor_app.py:90 | the header starts with the law's enumeration marker and ends with " 일부를 다음과 같이 개정한다." |
| Amendment.HeaderInjective | law_editor_app.py:90 | two header lines are equal only for the same position and the same law name |
| Amendment.MarkerPrefixFree | law_editor_app.py:41-47 | no enumeration marker is a proper prefix of another, so a line starting with a marker determines it |
| Amendment.DraftLaw | law_editor_app.py:67-92 | one pass of the loop body yields nothing when the law's text lacks the term, and otherwise its header, its sentence and an empty line |
| Amendment.DraftMention | law_editor_app.py:70-92 | for a text that mentions the term, the pass yields the header, the amendment sentence of that text, and an empty line |
| Amendment.ProcessWebLaws | law_editor_app.py:62-94 | the result is the newline-join of the lines the drafting specification gives for the sorted names; the loop keeps the collected lines equal to the specification for the names seen so far |
| Amendment.OutputLinesStep | law_editor_app.py:66-92 | one more name adds its header, sentence and empty line when its text mentions the term, and nothing otherwise |
| Amendment.Emitted | law_editor_app.py:66-69 | emitted positions are 1-based positions in the full list |
| Amendment.EmittedIff | law_editor_app.py:66-69 | a law is emitted exactly when its text mentions the term |
| Amendment.EmittedAscending | law_editor_app.py:66 | emitted positions are strictly increasing |
| Amendment.DraftsBlocks | law_editor_app.py:66-92 | the collected lines are, for every emitted law in order, its header, its sentence and an empty line |
| Amendment.OutputLinesShape | law_editor_app.py:66-92 | exactly three lines per emitted law, in order: the header with the law's position in the full sorted list (skipped laws use up a number), the sentence, and "" |
| Amendment.EmittedInNameOrder | law_editor_app.py:66 | for sorted input, the laws appear in ascending name order |
| Amendment.ListingOrderIrrelevant | law_editor_app.py:66 | the drafted lines depend only on which names are listed, not on their order |
| Amendment.SingleLawLines | law_editor_app.py:66-92 | a list of one law that mentions the term drafts it as number 1 |
| Amendment.ProcessWebLawsExample | law_editor_app.py:62-94 | 가나라법, with 지방법원 replaced by 지역법원, drafts "① 가나라법 일부를 다음과 같이 개정한다.", the sentence amending 제1조의 제목 및 같은 조 제1항 with the particle 을, and "" |

## Left out

- `fetch_law_names_from_url` (law_editor_app.py:49-57) is an HTTP request with HTML
  parsing. The model takes the list of law names as a parameter instead.
- The Streamlit page (law_editor_app.py:96-129) is user interface: inputs, download
  button and preview. Its guard on line 116 keeps the original term non-empty. The
  model states only that part, as a precondition. An empty term would make the
  source's `has_final_consonant` fail.
- The regular-expression engine is replaced by explicit scanners. `\d` is modelled as
  the ASCII digits 0-9, while Python's `\d` also accepts other Unicode decimal digits.
- The second `if original_term in text` (law_editor_app.py:76) always holds after the
  `continue` on line 68. `DraftLaw` has no branch for it.
- The unused imports (`pandas`, `io`, `defaultdict`) carry no logic.
- This file has no per-clause segmentation, no prefix-capturing term matching and no
  각각 counting, so none is modelled.
- Amendment.ProcessWebLaws: `\n` is not excluded from law names or terms. The result
  is therefore stated as the join of the lines, not as a list of lines recovered by
  splitting the text.
