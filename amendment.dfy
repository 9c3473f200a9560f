/** The drafting step of the law editor (`process_web_laws`): for every law name, in
    ascending order, the law's text is looked up; a law whose text mentions the term
    receives a header line, an amendment sentence and a blank line. The law texts are
    the placeholder texts of `dummy_law_text`. */
module Amendment {
  import opened Text
  import opened Extractors
  import opened Morphology
  import opened Clauses
  import opened Ordering

  /** `dummy_law_text`: the placeholder text of a law, with one article, its title and
      two clauses. */
  function DummyLawText(lawName: string): (text: string)
    ensures lawName <= text
  {
    lawName + " 제1조(목적) ① 이 법은 " + lawName + "에 관한 사항을 정한다. ② 지방법원은 이에 따른다."
  }

  /** Every placeholder text mentions 지방법원, the default term of the editor. */
  lemma DummyLawMentionsDistrictCourt(lawName: string)
    ensures Contains(DummyLawText(lawName), "지방법원")
  {
    var text := DummyLawText(lawName);
    var tail := "지방법원은 이에 따른다.";
    var i := |text| - |tail|;
    assert text[i..i + 4] == "지방법원";
    ContainsAt(text, "지방법원", i);
  }

  // ---------------------------------------------------------------------------
  // One amendment sentence
  // ---------------------------------------------------------------------------

  /** Python's truth value of the extracted title: present and not empty. */
  predicate Truthy(title: Option<string>)
  {
    title.Some? && title.value != ""
  }

  /** What follows the article in the location phrase. */
  function LocationSuffix(title: Option<string>, clauses: seq<string>): string
  {
    if Truthy(title) && clauses != [] then "의 제목 및 같은 조 " + FormatClauses(clauses)
    else if Truthy(title) then "의 제목"
    else if clauses != [] then " " + FormatClauses(clauses)
    else ""
  }

  /** Where the term is changed: the article, the article's title and/or its clauses. */
  function LocationPhrase(article: string, title: Option<string>, clauses: seq<string>): (phrase: string)
    ensures phrase == article <==> !Truthy(title) && clauses == []
  {
    article + LocationSuffix(title, clauses)
  }

  /** The suffix alone says whether the title is amended and whether clauses are. */
  lemma LocationSuffixKind(title: Option<string>, clauses: seq<string>)
    ensures var s := LocationSuffix(title, clauses);
      (s == [] <==> !Truthy(title) && clauses == []) &&
      (s != [] ==> (s[0] == '의' <==> Truthy(title))) &&
      (Truthy(title) ==> (|s| == 4 <==> clauses == []))
  {
  }

  /** The four phrase forms never coincide: the phrase tells whether the title is
      amended and which clauses are. */
  lemma LocationPhraseInjective(article: string, t1: Option<string>, c1: seq<string>,
                                t2: Option<string>, c2: seq<string>)
    requires forall k :: 0 <= k < |c1| ==> IsNumeral(c1[k])
    requires forall k :: 0 <= k < |c2| ==> IsNumeral(c2[k])
    requires LocationPhrase(article, t1, c1) == LocationPhrase(article, t2, c2)
    ensures Truthy(t1) == Truthy(t2) && c1 == c2
  {
    var s1, s2 := LocationSuffix(t1, c1), LocationSuffix(t2, c2);
    assert s1 == (article + s1)[|article|..] == (article + s2)[|article|..] == s2;
    LocationSuffixKind(t1, c1);
    LocationSuffixKind(t2, c2);
    if Truthy(t1) && c1 != [] && c2 != [] {
      assert FormatClauses(c1) == s1[12..] == s2[12..] == FormatClauses(c2);
      FormatClausesInjective(c1, c2);
    } else if !Truthy(t1) && c1 != [] && c2 != [] {
      assert FormatClauses(c1) == s1[1..] == s2[1..] == FormatClauses(c2);
      FormatClausesInjective(c1, c2);
    }
  }

  /** The article the sentence names: the extracted one, or 제1조 when none is found. */
  function ArticleOrDefault(text: string): (article: string)
    ensures article != "" && article[0] == '제'
    ensures article == ExtractArticle(text) || (article == "제1조" && !HasArticleToken(text))
  {
    var found := ExtractArticle(text);
    if found == "" then "제1조" else found
  }

  /** The clauses the sentence names: the leftmost circled clause number, if any. */
  function ClauseList(text: string): (clauses: seq<string>)
    ensures |clauses| <= 1
    ensures forall k :: 0 <= k < |clauses| ==> IsNumeral(clauses[k])
    ensures clauses == [] <==> forall i :: 0 <= i < |text| ==> text[i] !in CircledNumberMap
    ensures clauses != [] ==> ExtractClauseNumber(text) == Some(clauses[0])
  {
    var clauseNumber := ExtractClauseNumber(text);
    if clauseNumber.Some? && clauseNumber.value != "" then [clauseNumber.value] else []
  }

  /** The amendment sentence for a law whose text is `text`: one pass of the drafting
      loop after the term test. */
  function AmendmentSentence(lawName: string, text: string, originalTerm: string, replacementTerm: string): (sentence: string)
    requires originalTerm != []
    ensures sentence ==
      lawName + " " + LocationPhrase(ArticleOrDefault(text), ExtractTitle(text), ClauseList(text)) +
      " 중 \"" + originalTerm + "\"" + Particle(originalTerm) + " \"" + replacementTerm + SentenceTail
  {
    ReplaceWhole(originalTerm, replacementTerm);
    var phrase := LocationPhrase(ArticleOrDefault(text), ExtractTitle(text), ClauseList(text));
    var modified := Replace(originalTerm, originalTerm, replacementTerm);
    lawName + " " + phrase + " 중 \"" + originalTerm + "\"" + Particle(originalTerm) + " \"" + modified + SentenceTail
  }

  /** The amendment sentence of one law, drafted from its placeholder text. */
  function LawSentence(lawName: string, originalTerm: string, replacementTerm: string): string
    requires originalTerm != []
  {
    AmendmentSentence(lawName, DummyLawText(lawName), originalTerm, replacementTerm)
  }

  const SentenceTail := "\"으로 한다."


  /** The header line of a law with 1-based position `idx` in the sorted list. */
  function Header(idx: int, lawName: string): (header: string)
    ensures NumberToCircled(idx) <= header
    ensures |header| >= |HeaderTail| && header[|header| - |HeaderTail|..] == HeaderTail
  {
    NumberToCircled(idx) + " " + lawName + HeaderTail
  }

  const HeaderTail := " 일부를 다음과 같이 개정한다."

  /** Different positions or different laws never share a header line. */
  lemma HeaderInjective(i: int, a: string, j: int, b: string)
    requires Header(i, a) == Header(j, b)
    ensures i == j && a == b
  {
    MarkedLineInjective(i, a, j, b, HeaderTail);
  }

  lemma MarkedLineInjective(i: int, a: string, j: int, b: string, tail: string)
    requires NumberToCircled(i) + " " + a + tail == NumberToCircled(j) + " " + b + tail
    ensures i == j && a == b
  {
    var ga, gb := NumberToCircled(i), NumberToCircled(j);
    DropTail(ga, a, gb, b, tail);
    MarkerPrefixFree(i, j, " " + a, " " + b);
    CancelPrefix(ga, " " + a, " " + b);
    CancelPrefix(" ", a, b);
    NumberToCircledInjective(i, j);
  }

  lemma DropTail(x: string, a: string, y: string, b: string, tail: string)
    requires x + " " + a + tail == y + " " + b + tail
    ensures x + (" " + a) == y + (" " + b)
  {
    assert x + " " + a + tail == (x + (" " + a)) + tail;
    assert y + " " + b + tail == (y + (" " + b)) + tail;
    CancelSuffix(x + (" " + a), y + (" " + b), tail);
  }

  /** No enumeration marker is a proper prefix of another: a text that starts with a
      marker determines it. */
  lemma MarkerPrefixFree(i: int, j: int, x: string, y: string)
    requires NumberToCircled(i) + x == NumberToCircled(j) + y
    ensures NumberToCircled(i) == NumberToCircled(j)
  {
    var ga, gb := NumberToCircled(i), NumberToCircled(j);
    assert (ga + x)[0] == ga[0] && (gb + y)[0] == gb[0];
    if !(1 <= i <= 100) {
      CloseParenEndsMarker(i, x);
      CloseParenEndsMarker(j, y);
      assert ga == (ga + x)[..|ga|] == (gb + y)[..|gb|] == gb;
    }
  }

  /** In a text that starts with a parenthesised marker, the first ")" ends it. */
  lemma CloseParenEndsMarker(i: int, x: string)
    requires !(1 <= i <= 100)
    ensures FindChar(NumberToCircled(i) + x, ')', 0) == |NumberToCircled(i)| - 1
  {
    var g := NumberToCircled(i);
    forall q | 0 <= q < |g| - 1
      ensures (g + x)[q] != ')'
    {
      assert (g + x)[q] == g[q];
    }
    FindCharAt(g + x, ')', 0, |g| - 1);
  }

  /** The text of the law mentions the term (Python's `original_term in text`). */
  predicate Mentions(lawName: string, originalTerm: string)
  {
    Contains(DummyLawText(lawName), originalTerm)
  }

  /** A line of the drafted text, before it is spelled out. */
  datatype Line = HeaderLine(idx: int, lawName: string) | SentenceLine(lawName: string) | BlankLine

  /** The text of a drafted line. */
  function Render(line: Line, originalTerm: string, replacementTerm: string): string
    requires originalTerm != []
  {
    match line
    case HeaderLine(idx, lawName) => Header(idx, lawName)
    case SentenceLine(lawName) => LawSentence(lawName, originalTerm, replacementTerm)
    case BlankLine => ""
  }

  /** The renderer the drafting loop uses for a given pair of terms. */
  function Renderer(originalTerm: string, replacementTerm: string): Line -> string
    requires originalTerm != []
  {
    line => Render(line, originalTerm, replacementTerm)
  }

  /** Spells out every line with `render`. */
  function RenderAll(lines: seq<Line>, render: Line -> string): seq<string>
  {
    seq(|lines|, k requires 0 <= k < |lines| => render(lines[k]))
  }

  lemma RenderAllAppend(a: seq<Line>, b: seq<Line>, render: Line -> string)
    ensures RenderAll(a + b, render) == RenderAll(a, render) + RenderAll(b, render)
  {
  }

  /** The lines one law contributes: none when its text lacks the term, otherwise the
      header, the sentence and an empty line. */
  function LawBlock(idx: int, lawName: string, originalTerm: string): seq<Line>
  {
    if !Mentions(lawName, originalTerm) then []
    else [HeaderLine(idx, lawName), SentenceLine(lawName), BlankLine]
  }

  lemma RenderThree(a: Line, b: Line, c: Line, render: Line -> string)
    ensures RenderAll([a, b, c], render) == [render(a), render(b), render(c)]
  {
  }

  lemma RenderBlock(idx: int, lawName: string, originalTerm: string, replacementTerm: string, header: string, sentence: string)
    requires originalTerm != [] && Mentions(lawName, originalTerm)
    requires header == Header(idx, lawName) && sentence == LawSentence(lawName, originalTerm, replacementTerm)
    ensures RenderAll(LawBlock(idx, lawName, originalTerm), Renderer(originalTerm, replacementTerm)) == [header, sentence, ""]
  {
    RenderThree(HeaderLine(idx, lawName), SentenceLine(lawName), BlankLine, Renderer(originalTerm, replacementTerm));
    RenderLines(idx, lawName, originalTerm, replacementTerm);
  }

  /** The lines the drafting loop collects for `names`, numbered from 1 in list order. */
  function Drafts(names: seq<string>, originalTerm: string): seq<Line>
    decreases |names|
  {
    if names == [] then []
    else
      var n := |names|;
      Drafts(names[..n - 1], originalTerm) + LawBlock(n, names[n - 1], originalTerm)
  }

  /** The text of the lines the drafting loop collects. */
  function OutputLines(names: seq<string>, originalTerm: string, replacementTerm: string): seq<string>
    requires originalTerm != []
  {
    RenderAll(Drafts(names, originalTerm), Renderer(originalTerm, replacementTerm))
  }

  /** One more name adds its three lines when its text mentions the term, and nothing
      otherwise. */
  lemma OutputLinesStep(names: seq<string>, originalTerm: string, replacementTerm: string)
    requires originalTerm != [] && names != []
    ensures var n := |names|;
      OutputLines(names, originalTerm, replacementTerm) ==
        OutputLines(names[..n - 1], originalTerm, replacementTerm) +
        (if Mentions(names[n - 1], originalTerm)
         then [Header(n, names[n - 1]), LawSentence(names[n - 1], originalTerm, replacementTerm), ""]
         else [])
  {
    var n := |names|;
    var d0 := Drafts(names[..n - 1], originalTerm);
    var block := LawBlock(n, names[n - 1], originalTerm);
    RenderAllAppend(d0, block, Renderer(originalTerm, replacementTerm));
    if Mentions(names[n - 1], originalTerm) {
      RenderBlock(n, names[n - 1], originalTerm, replacementTerm,
                  Header(n, names[n - 1]), LawSentence(names[n - 1], originalTerm, replacementTerm));
    } else {
      assert RenderAll(block, Renderer(originalTerm, replacementTerm)) == [];
    }
  }

  // ---------------------------------------------------------------------------
  // The drafting loop
  // ---------------------------------------------------------------------------

  /** `process_web_laws`, with the fetched law-name list passed in. The original term
      must not be empty: the empty string occurs in every text, and the particle test
      then reads the last character of an empty word, which fails. */
  method ProcessWebLaws(lawNames: seq<string>, originalTerm: string, replacementTerm: string)
    returns (resultText: string)
    requires originalTerm != []
    ensures resultText == Join("\n", OutputLines(SortedNames(lawNames), originalTerm, replacementTerm))
  {
    var sorted := SortedNames(lawNames);
    var outputLines: seq<string> := [];
    var idx := 0;
    while idx < |sorted|
      invariant idx <= |sorted|
      invariant outputLines == OutputLines(sorted[..idx], originalTerm, replacementTerm)
    {
      var lawName := sorted[idx];
      idx := idx + 1;
      assert sorted[..idx][..idx - 1] == sorted[..idx - 1] && sorted[..idx][idx - 1] == lawName;
      OutputLinesStep(sorted[..idx], originalTerm, replacementTerm);
      var block := DraftLaw(idx, lawName, originalTerm, replacementTerm);
      outputLines := outputLines + block;
    }
    assert sorted[..idx] == sorted;
    resultText := Join("\n", outputLines);
  }

  /** One pass of the drafting loop: nothing when the law's text lacks the term
      (the `continue`), otherwise its header, its sentence and an empty line. */
  method DraftLaw(idx: int, lawName: string, originalTerm: string, replacementTerm: string)
    returns (block: seq<string>)
    requires originalTerm != []
    ensures block == if Mentions(lawName, originalTerm)
      then [Header(idx, lawName), LawSentence(lawName, originalTerm, replacementTerm), ""]
      else []
  {
    var text := DummyLawText(lawName);
    if !Contains(text, originalTerm) {
      return [];
    }
    block := DraftMention(idx, lawName, text, originalTerm, replacementTerm);
  }

  /** The rest of the pass, for a law whose text mentions the term. */
  method DraftMention(idx: int, lawName: string, text: string, originalTerm: string, replacementTerm: string)
    returns (block: seq<string>)
    requires originalTerm != []
    ensures block == [Header(idx, lawName), AmendmentSentence(lawName, text, originalTerm, replacementTerm), ""]
  {
    var circled := NumberToCircled(idx);
    var article := ExtractArticle(text);
    if article == "" {
      article := "제1조";
    }
    var clauseNumber := ExtractClauseNumber(text);
    var title := ExtractTitle(text);
    var clauses := if clauseNumber.Some? && clauseNumber.value != "" then [clauseNumber.value] else [];
    var clauseText := LocationText(article, title, clauses);
    var modified := Replace(originalTerm, originalTerm, replacementTerm);
    var particle := if HasFinalConsonant(originalTerm) then "을" else "를";
    var sentence := lawName + " " + clauseText + " 중 \"" + originalTerm + "\"" + particle + " \"" + modified + SentenceTail;
    var header := circled + " " + lawName + HeaderTail;
    assert article == ArticleOrDefault(text) && clauses == ClauseList(text);
    block := [header, sentence, ""];
  }

  /** The if-chain that builds the location phrase from the article, the title and
      the clause list, proved equal to the function `LocationPhrase`. */
  method LocationText(article: string, title: Option<string>, clauses: seq<string>)
    returns (clauseText: string)
    ensures clauseText == LocationPhrase(article, title, clauses)
  {
    if Truthy(title) && clauses != [] {
      clauseText := article + "의 제목 및 같은 조 " + FormatClauses(clauses);
    } else if Truthy(title) {
      clauseText := article + "의 제목";
    } else if clauses != [] {
      clauseText := article + " " + FormatClauses(clauses);
    } else {
      clauseText := article;
    }
  }

  // ---------------------------------------------------------------------------
  // What the drafting loop emits
  // ---------------------------------------------------------------------------

  /** The 1-based positions of the laws whose text mentions the term. */
  function Emitted(names: seq<string>, originalTerm: string): (indices: seq<nat>)
    ensures forall k :: 0 <= k < |indices| ==> 1 <= indices[k] <= |names|
    decreases |names|
  {
    if names == [] then []
    else
      var n := |names|;
      Emitted(names[..n - 1], originalTerm) +
        (if Mentions(names[n - 1], originalTerm) then [n] else [])
  }

  /** A law is emitted exactly when its text mentions the term. */
  lemma {:induction false} EmittedIff(names: seq<string>, originalTerm: string, i: nat)
    ensures i in Emitted(names, originalTerm) <==>
      1 <= i <= |names| && Mentions(names[i - 1], originalTerm)
    decreases |names|
  {
    if names != [] {
      var n := |names|;
      EmittedIff(names[..n - 1], originalTerm, i);
      if 1 <= i < n {
        assert names[..n - 1][i - 1] == names[i - 1];
      }
    }
  }

  predicate Ascending(e: seq<nat>)
  {
    forall k, l :: 0 <= k < l < |e| ==> e[k] < e[l]
  }

  /** Emitted positions are strictly increasing: laws keep their sorted order. */
  lemma {:induction false} EmittedAscending(names: seq<string>, originalTerm: string)
    ensures Ascending(Emitted(names, originalTerm))
    decreases |names|
  {
    if names != [] {
      var n := |names|;
      EmittedAscending(names[..n - 1], originalTerm);
      var e0 := Emitted(names[..n - 1], originalTerm);
      var tail: seq<nat> := if Mentions(names[n - 1], originalTerm) then [n] else [];
      assert Emitted(names, originalTerm) == e0 + tail;
      assert Ascending(e0);
      forall k, l | 0 <= k < l < |e0 + tail|
        ensures (e0 + tail)[k] < (e0 + tail)[l]
      {
        if l < |e0| {
          assert (e0 + tail)[l] == e0[l] && (e0 + tail)[k] == e0[k];
          assert e0[k] < e0[l];
        } else {
          assert (e0 + tail)[l] == n && (e0 + tail)[k] == e0[k] <= n - 1;
        }
      }
    }
  }

  /** `lines` holds, for each position in `e`, the header of the law at that position,
      its sentence and an empty line. */
  ghost predicate Blocks(lines: seq<Line>, e: seq<nat>, names: seq<string>)
  {
    |lines| == 3 * |e| &&
    forall k :: 0 <= k < |e| ==>
      (1 <= e[k] <= |names| &&
       lines[3 * k] == HeaderLine(e[k], names[e[k] - 1]) &&
       lines[3 * k + 1] == SentenceLine(names[e[k] - 1]) &&
       lines[3 * k + 2] == BlankLine)
  }

  lemma BlocksWiden(lines: seq<Line>, e: seq<nat>, names: seq<string>)
    requires names != [] && Blocks(lines, e, names[..|names| - 1])
    ensures Blocks(lines, e, names)
  {
    var init := names[..|names| - 1];
    assert forall k :: 0 <= k < |e| ==> init[e[k] - 1] == names[e[k] - 1];
  }

  lemma BlocksAppend(lines: seq<Line>, e: seq<nat>, names: seq<string>)
    requires names != [] && Blocks(lines, e, names)
    ensures var n := |names|;
      Blocks(lines + [HeaderLine(n, names[n - 1]), SentenceLine(names[n - 1]), BlankLine], e + [n], names)
  {
    var n := |names|;
    var lines' := lines + [HeaderLine(n, names[n - 1]), SentenceLine(names[n - 1]), BlankLine];
    assert forall k :: 0 <= k < |e| ==>
      lines'[3 * k] == lines[3 * k] && lines'[3 * k + 1] == lines[3 * k + 1] && lines'[3 * k + 2] == lines[3 * k + 2];
  }

  lemma {:induction false} DraftsBlocks(names: seq<string>, originalTerm: string)
    ensures Blocks(Drafts(names, originalTerm), Emitted(names, originalTerm), names)
    decreases |names|
  {
    if names != [] {
      DraftsBlocks(names[..|names| - 1], originalTerm);
      DraftsBlocksStep(names, originalTerm);
    }
  }

  lemma DraftsBlocksStep(names: seq<string>, originalTerm: string)
    requires names != []
    requires Blocks(Drafts(names[..|names| - 1], originalTerm), Emitted(names[..|names| - 1], originalTerm), names[..|names| - 1])
    ensures Blocks(Drafts(names, originalTerm), Emitted(names, originalTerm), names)
  {
    var n := |names|;
    var init := names[..n - 1];
    var d0, e0 := Drafts(init, originalTerm), Emitted(init, originalTerm);
    BlocksWiden(d0, e0, names);
    var m := Mentions(names[n - 1], originalTerm);
    DraftsEmittedLast(names, originalTerm, d0, e0, m);
    if m {
      BlocksAppend(d0, e0, names);
    }
  }

  /** How the last name extends the drafts and the emitted positions. */
  lemma DraftsEmittedLast(names: seq<string>, originalTerm: string, d0: seq<Line>, e0: seq<nat>, m: bool)
    requires names != [] && m == Mentions(names[|names| - 1], originalTerm)
    requires d0 == Drafts(names[..|names| - 1], originalTerm) && e0 == Emitted(names[..|names| - 1], originalTerm)
    ensures var n := |names|;
      Drafts(names, originalTerm) ==
        (if m then d0 + [HeaderLine(n, names[n - 1]), SentenceLine(names[n - 1]), BlankLine] else d0) &&
      Emitted(names, originalTerm) == (if m then e0 + [n] else e0)
  {
    if !m {
      assert Drafts(names, originalTerm) == d0 + [];
      assert Emitted(names, originalTerm) == e0 + [];
    }
  }

  /** `lines` holds, for each position in `e`, the header of the law at that position,
      its sentence and an empty line, spelled out. */
  predicate Drafted(lines: seq<string>, e: seq<nat>, names: seq<string>, originalTerm: string, replacementTerm: string)
    requires originalTerm != []
  {
    |lines| == 3 * |e| &&
    forall k :: 0 <= k < |e| ==>
      (1 <= e[k] <= |names| &&
       lines[3 * k..3 * k + 3] ==
         [Header(e[k], names[e[k] - 1]), LawSentence(names[e[k] - 1], originalTerm, replacementTerm), ""])
  }

  /** Every emitted law contributes exactly three lines, in emission order: its header
      with its position in the full list, its sentence, and an empty line. */
  lemma OutputLinesShape(names: seq<string>, originalTerm: string, replacementTerm: string)
    requires originalTerm != []
    ensures Drafted(OutputLines(names, originalTerm, replacementTerm), Emitted(names, originalTerm), names,
                    originalTerm, replacementTerm)
  {
    DraftsBlocks(names, originalTerm);
    var e, d := Emitted(names, originalTerm), Drafts(names, originalTerm);
    var render := Renderer(originalTerm, replacementTerm);
    var lines := RenderAll(d, render);
    forall k | 0 <= k < |e|
      ensures 1 <= e[k] <= |names| &&
        lines[3 * k..3 * k + 3] ==
          [Header(e[k], names[e[k] - 1]), LawSentence(names[e[k] - 1], originalTerm, replacementTerm), ""]
    {
      BlockText(d, k, e[k], names[e[k] - 1], originalTerm, replacementTerm);
    }
    assert Drafted(lines, e, names, originalTerm, replacementTerm);
  }

  /** The three lines of a block, spelled out. */
  lemma BlockText(d: seq<Line>, k: nat, idx: int, lawName: string, originalTerm: string, replacementTerm: string)
    requires originalTerm != [] && 3 * k + 2 < |d|
    requires d[3 * k] == HeaderLine(idx, lawName) && d[3 * k + 1] == SentenceLine(lawName) && d[3 * k + 2] == BlankLine
    ensures RenderAll(d, Renderer(originalTerm, replacementTerm))[3 * k..3 * k + 3] ==
      [Header(idx, lawName), LawSentence(lawName, originalTerm, replacementTerm), ""]
  {
    RenderedBlock(d, k, Renderer(originalTerm, replacementTerm));
    RenderLines(idx, lawName, originalTerm, replacementTerm);
  }

  lemma RenderedBlock(d: seq<Line>, k: nat, render: Line -> string)
    requires 3 * k + 2 < |d|
    ensures RenderAll(d, render)[3 * k..3 * k + 3] == [render(d[3 * k]), render(d[3 * k + 1]), render(d[3 * k + 2])]
  {
  }

  /** What each kind of line spells out. */
  lemma RenderLines(idx: int, lawName: string, originalTerm: string, replacementTerm: string)
    requires originalTerm != []
    ensures var render := Renderer(originalTerm, replacementTerm);
      render(HeaderLine(idx, lawName)) == Header(idx, lawName) &&
      render(SentenceLine(lawName)) == LawSentence(lawName, originalTerm, replacementTerm) &&
      render(BlankLine) == ""
  {
    RenderSentenceLine(lawName, originalTerm, replacementTerm);
  }

  lemma RenderSentenceLine(lawName: string, originalTerm: string, replacementTerm: string)
    requires originalTerm != []
    ensures Renderer(originalTerm, replacementTerm)(SentenceLine(lawName)) ==
      LawSentence(lawName, originalTerm, replacementTerm)
  {
  }

  /** The laws appear in ascending name order. */
  lemma EmittedInNameOrder(names: seq<string>, originalTerm: string)
    requires Sorted(names)
    ensures var e := Emitted(names, originalTerm);
      forall k, l :: 0 <= k < l < |e| ==> Below(names[e[k] - 1], names[e[l] - 1])
  {
    EmittedAscending(names, originalTerm);
  }

  /** The drafted text depends only on which names are listed, not on their order. */
  lemma ListingOrderIrrelevant(a: seq<string>, b: seq<string>, originalTerm: string, replacementTerm: string)
    requires originalTerm != [] && multiset(a) == multiset(b)
    ensures OutputLines(SortedNames(a), originalTerm, replacementTerm) ==
            OutputLines(SortedNames(b), originalTerm, replacementTerm)
  {
    SortedNamesPermutation(a, b);
  }

  // ---------------------------------------------------------------------------
  // The placeholder text, end to end
  // ---------------------------------------------------------------------------

  /** The characters of the placeholder text right after the law name. */
  lemma DummyLawTextAt(lawName: string)
    ensures var text, p := DummyLawText(lawName), |lawName|;
      p + 10 < |text| && text[..p] == lawName &&
      text[p] == ' ' && text[p + 1] == '제' && text[p + 2] == '1' && text[p + 3] == '조' &&
      text[p + 4] == '(' && text[p + 5] == '목' && text[p + 6] == '적' && text[p + 7] == ')' &&
      text[p + 8] == ' ' && text[p + 9] == '①'
  {
    var head := " 제1조(목적) ①";
    var tail := " 이 법은 " + lawName + "에 관한 사항을 정한다. ② 지방법원은 이에 따른다.";
    assert DummyLawText(lawName) == lawName + (head + tail);
    AppendAt(lawName, head + tail, 10);
    assert (head + tail)[..10] == head;
  }

  /** The characters of `b` that follow `a` in `a + b`. */
  lemma AppendAt(a: string, b: string, m: nat)
    requires m <= |b|
    ensures (a + b)[..|a|] == a
    ensures forall i :: 0 <= i < m ==> (a + b)[|a| + i] == b[..m][i]
  {
  }

  /** Every character of an article token is 제, 조, 의 or a digit: never a space. */
  lemma TokenHasNoSpace(s: string, i: nat, n: nat, k: nat)
    requires ArticleTokenSplit(s, i, n, k)
    ensures forall q :: i <= q < i + n ==> s[q] != ' '
  {
    forall q | i <= q < i + n
      ensures s[q] != ' '
    {
      if i < q < k {
        assert s[q] == s[i + 1..k][q - i - 1];
      } else if k + 1 < q {
        assert s[q] == s[k + 2..i + n][q - k - 2];
      }
    }
  }

  /** A token of the placeholder text that starts inside the law name is a token of
      the law name. */
  lemma TokenInName(lawName: string, j: nat, n: nat)
    requires j < |lawName|
    ensures ArticleTokenAt(DummyLawText(lawName), j, n) ==> ArticleTokenAt(lawName, j, n)
  {
    var text := DummyLawText(lawName);
    if ArticleTokenAt(text, j, n) {
      var k: nat :| ArticleTokenSplit(text, j, n, k);
      DummyLawTextAt(lawName);
      TokenHasNoSpace(text, j, n, k);
      assert j + n <= |lawName|;
      assert text[j + 1..k] == lawName[j + 1..k];
      if k + 1 < j + n {
        assert text[k + 2..j + n] == lawName[k + 2..j + n];
      }
      assert ArticleTokenSplit(lawName, j, n, k);
    }
  }

  /** When the law name holds no article token, the placeholder's leftmost token is
      its 제1조. */
  lemma DummyLawArticle(lawName: string)
    requires !HasArticleToken(lawName)
    ensures LeftmostArticle(DummyLawText(lawName), |lawName| + 1, 3)
    ensures ArticleOrDefault(DummyLawText(lawName)) == "제1조"
  {
    var text, p := DummyLawText(lawName), |lawName| + 1;
    DummyLawNoEarlierToken(lawName);
    DummyLawArticleEnd(lawName);
    ArticleEndSpec(text, p);
    ExtractArticleIs(text, p, 3);
  }

  /** No article token starts in the law name or the space after it. */
  lemma DummyLawNoEarlierToken(lawName: string)
    requires !HasArticleToken(lawName)
    ensures NoArticleBefore(DummyLawText(lawName), |lawName| + 1)
  {
    var text, p := DummyLawText(lawName), |lawName| + 1;
    DummyLawTextAt(lawName);
    forall j: nat, n: nat | j < p
      ensures !ArticleTokenAt(text, j, n)
    {
      if j < |lawName| {
        TokenInName(lawName, j, n);
      }
    }
  }

  /** The longest token at the placeholder's 제 is 제1조. */
  lemma DummyLawArticleEnd(lawName: string)
    ensures var text, p := DummyLawText(lawName), |lawName| + 1;
      p + 3 <= |text| && ArticleEnd(text, p) == Some(p + 3) && text[p..p + 3] == "제1조"
  {
    var text, p := DummyLawText(lawName), |lawName| + 1;
    DummyLawTextAt(lawName);
    assert text[p + 1..p + 2] == "1";
    DigitRunEndAt(text, p + 1, p + 2);
    assert text[p..p + 3] == "제1조";
  }

  /** ... its title is 목적 ... */
  lemma DummyLawTitle(lawName: string)
    requires !HasArticleToken(lawName)
    ensures ExtractTitle(DummyLawText(lawName)) == Some("목적")
    ensures Truthy(ExtractTitle(DummyLawText(lawName)))
  {
    var text, p := DummyLawText(lawName), |lawName| + 1;
    DummyLawArticle(lawName);
    DummyLawTextAt(lawName);
    PurposeTitleAt(text, p);
    ExtractTitleIs(text, p, 3, 2);
  }

  /** "제1조(목적)" at `p`, with no article token before it, is the leftmost title match. */
  lemma PurposeTitleAt(s: string, p: nat)
    requires NoArticleBefore(s, p) && p + 6 < |s|
    requires s[p] == '제' && s[p + 1] == '1' && s[p + 2] == '조' && s[p + 3] == '('
    requires s[p + 4] == '목' && s[p + 5] == '적' && s[p + 6] == ')'
    ensures LeftmostTitle(s, p, 3, 2) && s[p + 4..p + 6] == "목적"
  {
    assert ArticleTokenSplit(s, p, 3, p + 2);
    NoTitleBeforeArticle(s, p);
  }

  /** ... and, when the law name holds no circled number, its first clause is ①. */
  lemma DummyLawClause(lawName: string)
    requires forall i :: 0 <= i < |lawName| ==> lawName[i] !in CircledNumberMap
    ensures ClauseList(DummyLawText(lawName)) == ["1"]
  {
    DummyLawFirstGlyph(lawName);
    ExtractClauseNumberIs(DummyLawText(lawName), |lawName| + 9);
  }

  /** The placeholder's first circled number is the ① after its title. */
  lemma DummyLawFirstGlyph(lawName: string)
    requires forall i :: 0 <= i < |lawName| ==> lawName[i] !in CircledNumberMap
    ensures var text, q := DummyLawText(lawName), |lawName| + 9;
      q < |text| && text[q] == '①' && CircledNumberMap[text[q]] == "1" &&
      forall j :: 0 <= j < q ==> text[j] !in CircledNumberMap
  {
    var text, p := DummyLawText(lawName), |lawName|;
    DummyLawTextAt(lawName);
    forall j | 0 <= j < p + 9
      ensures text[j] !in CircledNumberMap
    {
      CircledNumberMapKeys(text[j]);
      if j < p {
        assert text[j] == text[..p][j];
      }
    }
  }

  /** The location phrase for an article with a title and clauses. */
  lemma PhraseWithTitleAndClause(title: Option<string>)
    requires Truthy(title)
    ensures LocationPhrase("제1조", title, ["1"]) == "제1조의 제목 및 같은 조 제1항"
  {
    FormatClausesExamples();
  }

  /** For a law name without article tokens or circled numbers, the sentence amends the
      title and the first clause of 제1조. */
  lemma DummyLawSentence(lawName: string, originalTerm: string, replacementTerm: string)
    requires originalTerm != []
    requires !HasArticleToken(lawName)
    requires forall i :: 0 <= i < |lawName| ==> lawName[i] !in CircledNumberMap
    ensures LawSentence(lawName, originalTerm, replacementTerm) ==
      lawName + " " + "제1조의 제목 및 같은 조 제1항" + " 중 \"" + originalTerm + "\"" + Particle(originalTerm) +
      " \"" + replacementTerm + "\"으로 한다."
  {
    var text := DummyLawText(lawName);
    DummyLawArticle(lawName);
    DummyLawTitle(lawName);
    DummyLawClause(lawName);
    PhraseWithTitleAndClause(ExtractTitle(text));
  }

  /** A text without the character 제 holds no article token. */
  lemma NoArticleWithoutJe(s: string)
    requires '제' !in s
    ensures !HasArticleToken(s)
  {
    forall i: nat, n: nat
      ensures !ArticleTokenAt(s, i, n)
    {
      if i < |s| {
        assert s[i] in s;
      }
    }
  }

  /** A list of one law that mentions the term drafts that law as number 1. */
  lemma SingleLawLines(lawName: string, originalTerm: string, replacementTerm: string)
    requires originalTerm != [] && Mentions(lawName, originalTerm)
    ensures OutputLines([lawName], originalTerm, replacementTerm) ==
      [Header(1, lawName), LawSentence(lawName, originalTerm, replacementTerm), ""]
  {
    assert [lawName][..0] == [];
    OutputLinesStep([lawName], originalTerm, replacementTerm);
  }

  lemma SortedSingle(lawName: string)
    ensures SortedNames([lawName]) == [lawName]
  {
    assert [lawName][..0] == [];
  }

  /** The law name of the example holds neither 제 nor a circled number. */
  lemma ExampleName(lawName: string)
    requires lawName == "가나라법"
    ensures !HasArticleToken(lawName)
    ensures forall i :: 0 <= i < |lawName| ==> lawName[i] !in CircledNumberMap
  {
    NoArticleWithoutJe(lawName);
    forall i | 0 <= i < |lawName|
      ensures lawName[i] !in CircledNumberMap
    {
      CircledNumberMapKeys(lawName[i]);
    }
  }

  /** The drafting of a list with one law that mentions 지방법원, replacing it with 지역법원:
      the law is numbered ①, its 제1조 title and clause ① are named, and the term
      takes the particle 을. */
  lemma ProcessWebLawsExample(lawNames: seq<string>, originalTerm: string, replacementTerm: string)
    requires lawNames == ["가나라법"] && originalTerm == "지방법원" && replacementTerm == "지역법원"
    ensures OutputLines(SortedNames(lawNames), originalTerm, replacementTerm) ==
      ["①" + " " + lawNames[0] + " 일부를 다음과 같이 개정한다.",
       lawNames[0] + " " + "제1조의 제목 및 같은 조 제1항" + " 중 \"" + originalTerm + "\"" + "을" +
         " \"" + replacementTerm + "\"으로 한다.",
       ""]
  {
    var name := lawNames[0];
    assert lawNames == [name];
    DummyLawMentionsDistrictCourt(name);
    SortedSingle(name);
    NumberToCircledExamples();
    ExampleName(name);
    DummyLawSentence(name, originalTerm, replacementTerm);
    ParticleExamples();
    SingleLawLines(name, originalTerm, replacementTerm);
  }
}
