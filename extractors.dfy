/** The three leftmost-match scanners of the law editor (`extract_article`,
    `extract_title`, `extract_clause_number`), written as explicit scans over the
    characters of a text. The patterns' digit classes are ASCII `0`-`9` here. */
module Extractors {
  import opened Text

  // ---------------------------------------------------------------------------
  // Article tokens: 제<digits>조, optionally followed by 의<digits>
  // ---------------------------------------------------------------------------

  /** `s[i..i+n]` reads 제<digits>조, or 제<digits>조의<digits>, with its 조 at index `k`. */
  ghost predicate ArticleTokenSplit(s: string, i: nat, n: nat, k: nat)
  {
    i + n <= |s| && i + 1 < k < i + n && s[i] == '제' && AllDigits(s[i + 1..k]) && s[k] == '조' &&
    (k + 1 == i + n || (k + 2 < i + n && s[k + 1] == '의' && AllDigits(s[k + 2..i + n])))
  }

  /** An article token occupies `s[i..i+n]`. */
  ghost predicate ArticleTokenAt(s: string, i: nat, n: nat)
  {
    exists k: nat :: ArticleTokenSplit(s, i, n, k)
  }

  ghost predicate HasArticleToken(s: string)
  {
    exists i: nat, n: nat :: ArticleTokenAt(s, i, n)
  }

  /** No article token starts before index `i`. */
  ghost predicate NoArticleBefore(s: string, i: nat)
  {
    forall j: nat, n: nat :: j < i ==> !ArticleTokenAt(s, j, n)
  }

  /** `s[i..i+n]` is the longest article token starting at `i`: the optional 의-part
      and both digit runs of the pattern are greedy. */
  ghost predicate LongestArticleAt(s: string, i: nat, n: nat)
  {
    ArticleTokenAt(s, i, n) && forall m: nat :: ArticleTokenAt(s, i, m) ==> m <= n
  }

  /** The match a leftmost regex search reports. */
  ghost predicate LeftmostArticle(s: string, i: nat, n: nat)
  {
    NoArticleBefore(s, i) && LongestArticleAt(s, i, n)
  }

  /** Where the longest article token starting at `i` ends, if one starts there. */
  function ArticleEnd(s: string, i: nat): (e: Option<nat>)
    requires i <= |s|
    ensures e.Some? ==> i + 3 <= e.value <= |s|
  {
    if i < |s| && s[i] == '제' then
      var k := DigitRunEnd(s, i + 1);
      if i + 1 < k < |s| && s[k] == '조' then
        if k + 1 < |s| && s[k + 1] == '의' && k + 2 < DigitRunEnd(s, k + 2) then
          Some(DigitRunEnd(s, k + 2))
        else
          Some(k + 1)
      else
        None
    else
      None
  }

  /** Every token at `i` fits inside the one `ArticleEnd` reports. */
  lemma ArticleTokenBounded(s: string, i: nat, n: nat)
    requires ArticleTokenAt(s, i, n)
    ensures ArticleEnd(s, i).Some? && i + n <= ArticleEnd(s, i).value
  {
    var k: nat :| ArticleTokenSplit(s, i, n, k);
    DigitRunEndAt(s, i + 1, k);
    if k + 1 < i + n {
      DigitRunCovers(s, k + 2, i + n);
    }
  }

  lemma ArticleEndSpec(s: string, i: nat)
    requires i <= |s|
    ensures ArticleEnd(s, i).Some? ==> LongestArticleAt(s, i, ArticleEnd(s, i).value - i)
    ensures ArticleEnd(s, i).None? ==> forall n: nat :: !ArticleTokenAt(s, i, n)
  {
    forall n: nat | ArticleTokenAt(s, i, n)
      ensures ArticleEnd(s, i).Some? && i + n <= ArticleEnd(s, i).value
    {
      ArticleTokenBounded(s, i, n);
    }
    if ArticleEnd(s, i).Some? {
      var e := ArticleEnd(s, i).value;
      var k := DigitRunEnd(s, i + 1);
      assert ArticleTokenSplit(s, i, e - i, k);
    }
  }

  function FindArticleFrom(s: string, i: nat): (r: string)
    requires i <= |s|
    requires NoArticleBefore(s, i)
    ensures r == "" <==> !HasArticleToken(s)
    ensures r != "" ==>
      exists j: nat :: i <= j && j + |r| <= |s| && LeftmostArticle(s, j, |r|) && s[j..j + |r|] == r
    decreases |s| - i
  {
    if i == |s| then
      ""
    else
      ArticleEndSpec(s, i);
      match ArticleEnd(s, i)
      case Some(e) =>
        assert LeftmostArticle(s, i, e - i);
        s[i..e]
      case None => FindArticleFrom(s, i + 1)
  }

  /** `extract_article`: the leftmost article token (with its 의-part when one follows),
      or "" when the text holds none. */
  function ExtractArticle(text: string): (article: string)
    ensures article == "" <==> !HasArticleToken(text)
    ensures article != "" ==>
      exists i: nat :: i + |article| <= |text| && LeftmostArticle(text, i, |article|) &&
        text[i..i + |article|] == article
    ensures article != "" ==> 3 <= |article| && article[0] == '제'
  {
    FindArticleFrom(text, 0)
  }

  /** A leftmost longest token decides what `extract_article` returns. */
  lemma ExtractArticleIs(s: string, i: nat, n: nat)
    requires LeftmostArticle(s, i, n)
    ensures ExtractArticle(s) == s[i..i + n]
  {
    var a := ExtractArticle(s);
    assert ArticleTokenAt(s, i, n);
    var j: nat :| j + |a| <= |s| && LeftmostArticle(s, j, |a|) && s[j..j + |a|] == a;
    LeftmostArticleUnique(s, i, n, j, |a|);
  }

  /** There is only one leftmost longest token. */
  lemma LeftmostArticleUnique(s: string, i: nat, n: nat, j: nat, m: nat)
    requires LeftmostArticle(s, i, n) && LeftmostArticle(s, j, m)
    ensures i == j && n == m
  {
    assert !(j < i) && !(i < j);
  }

  // ---------------------------------------------------------------------------
  // Article titles: an article token followed by "(" title ")"
  // ---------------------------------------------------------------------------

  /** The pattern 제\d+조(?:의\d+)?\(([^)]+)\) matches at `i` with the token `s[i..i+n]`
      and a title of `m` characters, none of them ")". */
  ghost predicate TitleAt(s: string, i: nat, n: nat, m: nat)
  {
    ArticleTokenAt(s, i, n) && 1 <= m && i + n + m + 1 < |s| && s[i + n] == '(' &&
    (forall q :: i + n + 1 <= q < i + n + 1 + m ==> s[q] != ')') && s[i + n + 1 + m] == ')'
  }

  ghost predicate HasTitle(s: string)
  {
    exists i: nat, n: nat, m: nat :: TitleAt(s, i, n, m)
  }

  ghost predicate NoTitleBefore(s: string, i: nat)
  {
    forall j: nat, n: nat, m: nat :: j < i ==> !TitleAt(s, j, n, m)
  }

  ghost predicate LeftmostTitle(s: string, i: nat, n: nat, m: nat)
  {
    NoTitleBefore(s, i) && TitleAt(s, i, n, m)
  }

  /** The title captured by a match of the pattern at `i`, if it matches there. */
  function TitleFrom(s: string, i: nat): Option<string>
    requires i <= |s|
  {
    match ArticleEnd(s, i)
    case None => None
    case Some(e) =>
      if e < |s| && s[e] == '(' then
        var c := FindChar(s, ')', e + 1);
        if e + 1 < c < |s| then Some(s[e + 1..c]) else None
      else
        None
  }

  /** A token followed by "(" cannot be extended, so it is the longest one. */
  lemma TokenBeforeParen(s: string, i: nat, n: nat)
    requires ArticleTokenAt(s, i, n) && i + n < |s| && s[i + n] == '('
    ensures ArticleEnd(s, i) == Some(i + n)
  {
    var k: nat :| ArticleTokenSplit(s, i, n, k);
    DigitRunEndAt(s, i + 1, k);
    if k + 1 < i + n {
      DigitRunEndAt(s, k + 2, i + n);
    }
  }

  /** A match at `i` is unique: its token is the longest one at `i` and its title ends
      at the first ")". */
  lemma TitleAtDetermined(s: string, i: nat, n: nat, m: nat)
    requires TitleAt(s, i, n, m)
    ensures TitleFrom(s, i) == Some(s[i + n + 1..i + n + 1 + m])
  {
    TokenBeforeParen(s, i, n);
    FindCharAt(s, ')', i + n + 1, i + n + 1 + m);
  }

  lemma TitleFromSpec(s: string, i: nat)
    requires i <= |s|
    ensures TitleFrom(s, i).Some? ==> TitleAt(s, i, ArticleEnd(s, i).value - i, |TitleFrom(s, i).value|)
    ensures forall n: nat, m: nat :: TitleAt(s, i, n, m) ==> TitleFrom(s, i) == Some(s[i + n + 1..i + n + 1 + m])
  {
    if TitleFrom(s, i).Some? {
      ArticleEndSpec(s, i);
    }
    forall n: nat, m: nat | TitleAt(s, i, n, m)
      ensures TitleFrom(s, i) == Some(s[i + n + 1..i + n + 1 + m])
    {
      TitleAtDetermined(s, i, n, m);
    }
  }

  /** `t` is the title of the leftmost match of the pattern in `s`. */
  ghost predicate TitleOfLeftmost(s: string, t: string)
  {
    exists i: nat, n: nat :: LeftmostTitle(s, i, n, |t|) && t == s[i + n + 1..i + n + 1 + |t|]
  }

  function FindTitleFrom(s: string, i: nat): (r: Option<string>)
    requires i <= |s|
    requires NoTitleBefore(s, i)
    ensures r.None? <==> !HasTitle(s)
    ensures r.Some? ==> TitleOfLeftmost(s, r.value)
    decreases |s| - i
  {
    if i == |s| then
      None
    else
      match TitleFrom(s, i)
      case Some(t) =>
        TitleFromFound(s, i);
        Some(t)
      case None =>
        TitleFromMissed(s, i);
        FindTitleFrom(s, i + 1)
  }

  /** A match at `i` with none before it is the leftmost one. */
  lemma TitleFromFound(s: string, i: nat)
    requires i <= |s| && NoTitleBefore(s, i) && TitleFrom(s, i).Some?
    ensures HasTitle(s) && TitleOfLeftmost(s, TitleFrom(s, i).value)
  {
    TitleFromSpec(s, i);
    var t := TitleFrom(s, i).value;
    var e := ArticleEnd(s, i).value;
    assert LeftmostTitle(s, i, e - i, |t|) && t == s[e + 1..e + 1 + |t|];
  }

  /** No match at `i` moves the search on by one. */
  lemma TitleFromMissed(s: string, i: nat)
    requires i < |s| && NoTitleBefore(s, i) && TitleFrom(s, i).None?
    ensures NoTitleBefore(s, i + 1)
  {
    TitleFromSpec(s, i);
  }

  /** `extract_title`: the parenthesised title after the leftmost article token that
      has one, or None when no article token is followed by "(", a non-empty run
      without ")", and ")". */
  function ExtractTitle(text: string): (title: Option<string>)
    ensures title.None? <==> !HasTitle(text)
    ensures title.Some? ==> TitleOfLeftmost(text, title.value)
    ensures title.Some? ==> title.value != [] && ')' !in title.value
  {
    FindTitleFrom(text, 0)
  }

  /** The leftmost match of the title pattern decides `extract_title`. */
  lemma ExtractTitleIs(s: string, i: nat, n: nat, m: nat)
    requires LeftmostTitle(s, i, n, m)
    ensures ExtractTitle(s) == Some(s[i + n + 1..i + n + 1 + m])
  {
    assert HasTitle(s) by {
      assert TitleAt(s, i, n, m);
    }
    LeftmostTitleIs(s, ExtractTitle(s).value, i, n, m);
  }

  /** The title of the leftmost match is the one captured at the leftmost position. */
  lemma LeftmostTitleIs(s: string, t: string, i: nat, n: nat, m: nat)
    requires TitleOfLeftmost(s, t) && LeftmostTitle(s, i, n, m)
    ensures t == s[i + n + 1..i + n + 1 + m]
  {
    var j: nat, k: nat :| LeftmostTitle(s, j, k, |t|) && t == s[j + k + 1..j + k + 1 + |t|];
    LeftmostTitleAt(s, t, i, n, m, j, k);
  }

  lemma LeftmostTitleAt(s: string, t: string, i: nat, n: nat, m: nat, j: nat, k: nat)
    requires LeftmostTitle(s, j, k, |t|) && t == s[j + k + 1..j + k + 1 + |t|]
    requires LeftmostTitle(s, i, n, m)
    ensures t == s[i + n + 1..i + n + 1 + m]
  {
    LeftmostTitleUnique(s, i, n, m, j, k, |t|);
    SameTitle(s, i, n, m, k, |t|);
  }

  /** Two matches of the title pattern at one position capture the same title. */
  lemma SameTitle(s: string, i: nat, n: nat, m: nat, k: nat, l: nat)
    requires TitleAt(s, i, n, m) && TitleAt(s, i, k, l)
    ensures s[i + n + 1..i + n + 1 + m] == s[i + k + 1..i + k + 1 + l]
  {
    TitleAtDetermined(s, i, n, m);
    TitleAtDetermined(s, i, k, l);
  }

  /** A title match starts with an article token, so none precedes the first token. */
  lemma NoTitleBeforeArticle(s: string, i: nat)
    requires NoArticleBefore(s, i)
    ensures NoTitleBefore(s, i)
  {
  }

  /** Two leftmost matches of the title pattern start at the same position. */
  lemma LeftmostTitleUnique(s: string, i: nat, n: nat, m: nat, j: nat, k: nat, l: nat)
    requires LeftmostTitle(s, i, n, m) && LeftmostTitle(s, j, k, l)
    ensures i == j
  {
  }

  // ---------------------------------------------------------------------------
  // Clause numbers: the circled digits ① to ⑳
  // ---------------------------------------------------------------------------

  /** The glyph-to-numeral table of `extract_clause_number`. */
  const CircledNumberMap: map<char, string> := map[
    '①' := "1", '②' := "2", '③' := "3", '④' := "4", '⑤' := "5",
    '⑥' := "6", '⑦' := "7", '⑧' := "8", '⑨' := "9", '⑩' := "10",
    '⑪' := "11", '⑫' := "12", '⑬' := "13", '⑭' := "14", '⑮' := "15",
    '⑯' := "16", '⑰' := "17", '⑱' := "18", '⑲' := "19", '⑳' := "20"
  ]

  /** The table's glyphs are exactly the Unicode block U+2460..U+2473 ... */
  lemma CircledNumberMapKeys(c: char)
    ensures c in CircledNumberMap <==> 0x2460 <= c as int <= 0x2473
  {
  }

  lemma SingleDigitGlyphs(c: char)
    requires c in CircledNumberMap && c as int < 0x2469
    ensures CircledNumberMap[c] == [DigitChar(c as int - 0x2460 + 1)]
  {
  }

  lemma TwoDigitGlyphs(c: char)
    requires c in CircledNumberMap && 0x2469 <= c as int
    ensures CircledNumberMap[c] == [DigitChar((c as int - 0x2460 + 1) / 10), DigitChar((c as int - 0x2460 + 1) % 10)]
  {
  }

  /** ... and each glyph decodes to the decimal numeral of its position in the block. */
  lemma CircledNumberMapDecodes(c: char)
    requires c in CircledNumberMap
    ensures 1 <= c as int - 0x2460 + 1 <= 20
    ensures CircledNumberMap[c] == ShowNat(c as int - 0x2460 + 1)
  {
    CircledNumberMapKeys(c);
    var n := c as int - 0x2460 + 1;
    if n < 10 {
      SingleDigitGlyphs(c);
    } else {
      TwoDigitGlyphs(c);
      assert ShowNat(n) == ShowNat(n / 10) + [DigitChar(n % 10)];
    }
  }

  /** First index at or after `i` that holds a glyph of the table, or `|s|`. */
  function FindGlyphFrom(s: string, i: nat): (j: nat)
    requires i <= |s|
    ensures i <= j <= |s|
    ensures forall k :: i <= k < j ==> s[k] !in CircledNumberMap
    ensures j < |s| ==> s[j] in CircledNumberMap
    decreases |s| - i
  {
    if i == |s| || s[i] in CircledNumberMap then i else FindGlyphFrom(s, i + 1)
  }

  /** `extract_clause_number`: the numeral of the leftmost glyph ①..⑳, or None. */
  function ExtractClauseNumber(text: string): (r: Option<string>)
    ensures r.None? <==> forall i :: 0 <= i < |text| ==> text[i] !in CircledNumberMap
    ensures r.Some? ==>
      exists i :: 0 <= i < |text| && text[i] in CircledNumberMap &&
        r.value == CircledNumberMap[text[i]] &&
        forall j :: 0 <= j < i ==> text[j] !in CircledNumberMap
    ensures r.Some? ==> exists n :: 1 <= n <= 20 && r.value == ShowNat(n)
  {
    var i := FindGlyphFrom(text, 0);
    if i < |text| then
      CircledNumberMapDecodes(text[i]);
      ghost var n := text[i] as int - 0x2460 + 1;
      assert CircledNumberMap[text[i]] == ShowNat(n);
      Some(CircledNumberMap[text[i]])
    else
      None
  }

  /** The leftmost glyph decides what `extract_clause_number` returns. */
  lemma ExtractClauseNumberIs(s: string, i: nat)
    requires i < |s| && s[i] in CircledNumberMap
    requires forall j :: 0 <= j < i ==> s[j] !in CircledNumberMap
    ensures ExtractClauseNumber(s) == Some(CircledNumberMap[s[i]])
  {
    var j := FindGlyphFrom(s, 0);
    assert !(i < j) && !(j < i);
  }
}
