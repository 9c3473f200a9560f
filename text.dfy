/** Small string helpers that stand in for the Python built-ins the law editor relies
    on: ASCII digit runs (the `\d` of its patterns), the `in` substring test,
    `str.replace`, `str.join`, `str(int)`, and a line splitter that inverts `"\n".join`. */
module Text {

  datatype Option<T> = None | Some(value: T)

  predicate IsDigit(c: char) { '0' <= c <= '9' }

  predicate AllDigits(s: string) { forall i :: 0 <= i < |s| ==> IsDigit(s[i]) }

  /** End of the longest run of ASCII digits in `s` that starts at `i`. */
  function DigitRunEnd(s: string, i: nat): (j: nat)
    requires i <= |s|
    ensures i <= j <= |s|
    ensures AllDigits(s[i..j])
    ensures j == |s| || !IsDigit(s[j])
    decreases |s| - i
  {
    if i < |s| && IsDigit(s[i]) then DigitRunEnd(s, i + 1) else i
  }

  /** A digit run ended by a non-digit is the longest one. */
  lemma DigitRunEndAt(s: string, i: nat, k: nat)
    requires i <= k <= |s|
    requires AllDigits(s[i..k])
    requires k == |s| || !IsDigit(s[k])
    ensures DigitRunEnd(s, i) == k
  {
  }

  /** Every digit run starting at `i` lies inside the longest one. */
  lemma DigitRunCovers(s: string, i: nat, k: nat)
    requires i <= k <= |s|
    requires AllDigits(s[i..k])
    ensures k <= DigitRunEnd(s, i)
  {
    forall q | i <= q < k
      ensures IsDigit(s[q])
    {
      assert s[i..k][q - i] == s[q];
    }
  }

  /** First index at or after `p` holding `c`, or `|s|` when there is none. */
  function FindChar(s: string, c: char, p: nat): (j: nat)
    requires p <= |s|
    ensures p <= j <= |s|
    ensures forall k :: p <= k < j ==> s[k] != c
    ensures j == |s| || s[j] == c
    decreases |s| - p
  {
    if p == |s| || s[p] == c then p else FindChar(s, c, p + 1)
  }

  lemma FindCharAt(s: string, c: char, p: nat, k: nat)
    requires p <= k <= |s|
    requires forall q :: p <= q < k ==> s[q] != c
    requires k == |s| || s[k] == c
    ensures FindChar(s, c, p) == k
  {
  }

  /** Python's `term in text`. */
  predicate Contains(text: string, term: string)
    ensures Contains(text, term) ==> |term| <= |text|
    decreases |text|
  {
    term <= text || (text != [] && Contains(text[1..], term))
  }

  /** `term` occurs in `text` starting at index `i`. */
  predicate OccursAt(text: string, term: string, i: nat)
  {
    i + |term| <= |text| && text[i..i + |term|] == term
  }

  /** `term in text` holds exactly when `term` occurs at some position of `text`. */
  lemma {:induction false} ContainsIff(text: string, term: string)
    ensures Contains(text, term) <==> exists i: nat :: OccursAt(text, term, i)
    decreases |text|
  {
    if term <= text {
      assert OccursAt(text, term, 0);
    } else if text == [] {
    } else {
      ContainsIff(text[1..], term);
      if Contains(text[1..], term) {
        var i: nat :| OccursAt(text[1..], term, i);
        assert OccursAt(text, term, i + 1);
      } else {
        forall i: nat | 0 < i && i + |term| <= |text|
          ensures !OccursAt(text, term, i)
        {
          assert !OccursAt(text[1..], term, i - 1);
          assert text[i..i + |term|] == text[1..][i - 1..i - 1 + |term|];
        }
      }
    }
  }

  lemma ContainsAt(text: string, term: string, i: nat)
    requires OccursAt(text, term, i)
    ensures Contains(text, term)
  {
    ContainsIff(text, term);
  }

  /** Python's `s.replace(old, new)`: every non-overlapping occurrence of `old`,
      left to right; an empty `old` inserts `new` before every character and at the end. */
  function Replace(s: string, pattern: string, replacement: string): (r: string)
    ensures pattern == replacement ==> r == s
    decreases |s|
  {
    if pattern == [] then
      if s == [] then replacement else replacement + [s[0]] + Replace(s[1..], pattern, replacement)
    else if pattern <= s then replacement + Replace(s[|pattern|..], pattern, replacement)
    else if s == [] then []
    else [s[0]] + Replace(s[1..], pattern, replacement)
  }

  /** Replacing a non-empty string inside itself yields the replacement. */
  lemma ReplaceWhole(pattern: string, replacement: string)
    requires pattern != []
    ensures Replace(pattern, pattern, replacement) == replacement
  {
    assert pattern[|pattern|..] == [];
  }

  lemma CancelPrefix<T>(p: seq<T>, x: seq<T>, y: seq<T>)
    requires p + x == p + y
    ensures x == y
  {
    assert x == (p + x)[|p|..];
  }

  lemma CancelSuffix<T>(x: seq<T>, y: seq<T>, t: seq<T>)
    requires x + t == y + t
    ensures x == y
  {
    assert x == (x + t)[..|x|];
  }

  lemma SplitLast<T>(s: seq<T>)
    requires |s| > 0
    ensures s[..|s| - 1] + [s[|s| - 1]] == s
  {
  }

  lemma ConsAppend<T>(s: seq<T>, x: T)
    requires |s| > 0
    ensures [s[0]] + (s[1..] + [x]) == s + [x]
  {
  }

  /** Python's `sep.join(items)`. */
  function Join(sep: string, items: seq<string>): (joined: string)
    decreases |items|
  {
    if |items| == 0 then ""
    else if |items| == 1 then items[0]
    else items[0] + sep + Join(sep, items[1..])
  }

  /** Python's `s.split(sep)` for a one-character separator. */
  function Split(s: string, sep: char): (parts: seq<string>)
    ensures |parts| >= 1
    decreases |s|
  {
    var i := FindChar(s, sep, 0);
    if i == |s| then [s] else [s[..i]] + Split(s[i + 1..], sep)
  }

  /** Splitting a joined list at the separator gives the list back, as long as
      no item carries the separator itself. */
  lemma {:induction false} SplitJoin(items: seq<string>, sep: char)
    requires |items| >= 1
    requires forall k :: 0 <= k < |items| ==> sep !in items[k]
    ensures Split(Join([sep], items), sep) == items
    decreases |items|
  {
    var s := Join([sep], items);
    if |items| == 1 {
      FindCharAt(s, sep, 0, |s|);
    } else {
      var rest := Join([sep], items[1..]);
      assert s == items[0] + [sep] + rest;
      FindCharAt(s, sep, 0, |items[0]|);
      assert s[..|items[0]|] == items[0];
      assert s[|items[0]| + 1..] == rest;
      SplitJoin(items[1..], sep);
      assert [items[0]] + items[1..] == items;
    }
  }

  function DigitChar(d: nat): (c: char)
    requires d < 10
    ensures IsDigit(c)
  {
    ('0' as int + d) as char
  }

  /** Decimal digits of `n`, most significant first, without leading zeros. */
  function ShowNat(n: nat): (s: string)
    ensures |s| >= 1 && AllDigits(s)
    ensures |s| > 1 ==> s[0] != '0'
    decreases n
  {
    if n < 10 then [DigitChar(n)] else ShowNat(n / 10) + [DigitChar(n % 10)]
  }

  /** Python's `str(n)`. */
  function ShowInt(n: int): (s: string)
    ensures |s| >= 1 && forall k :: 0 <= k < |s| ==> s[k] == '-' || IsDigit(s[k])
  {
    if n < 0 then "-" + ShowNat(-n) else ShowNat(n)
  }

  /** The value a string of decimal digits denotes. */
  function DigitsValue(s: string): nat
    requires AllDigits(s)
    decreases |s|
  {
    if s == [] then 0
    else DigitsValue(s[..|s| - 1]) * 10 + (s[|s| - 1] as int - '0' as int)
  }

  lemma {:induction false} ShowNatValue(n: nat)
    ensures DigitsValue(ShowNat(n)) == n
    decreases n
  {
    if n >= 10 {
      var s := ShowNat(n);
      assert s[..|s| - 1] == ShowNat(n / 10);
      ShowNatValue(n / 10);
    }
  }

  lemma ShowNatInjective(a: nat, b: nat)
    requires ShowNat(a) == ShowNat(b)
    ensures a == b
  {
    ShowNatValue(a);
    ShowNatValue(b);
  }

  /** `str(n)` is injective on the integers. */
  lemma ShowIntInjective(a: int, b: int)
    requires ShowInt(a) == ShowInt(b)
    ensures a == b
  {
    if a < 0 && b < 0 {
      assert ShowNat(-a) == ShowInt(a)[1..];
      assert ShowNat(-b) == ShowInt(b)[1..];
      ShowNatInjective(-a, -b);
    } else if a >= 0 && b >= 0 {
      ShowNatInjective(a, b);
    }
  }
}
