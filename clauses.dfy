/** The clause-list formatter of the law editor (`format_clauses`): the Korean
    legal enumeration 제a항, 제b항 및 제c항. Its partner is a reader that takes an
    enumeration apart again; formatting followed by reading gives back the numerals
    and shows the separators are commas with a single 및 before the last item. */
module Clauses {
  import opened Text

  /** One clause reference: 제{clause}항. */
  function ClauseRef(clause: string): string
  {
    "제" + clause + "항"
  }

  /** The references of a list of clauses, in order. */
  function ClauseRefs(clauses: seq<string>): (refs: seq<string>)
    ensures |refs| == |clauses|
  {
    seq(|clauses|, k requires 0 <= k < |clauses| => ClauseRef(clauses[k]))
  }

  /** `format_clauses`. An empty list fails in the source (`clauses[-1]`). */
  function FormatClauses(clauses: seq<string>): (formatted: string)
    requires |clauses| > 0
    ensures |formatted| >= 2 && formatted[|formatted| - 1] == '항'
  {
    if |clauses| == 1 then
      ClauseRef(clauses[0])
    else if |clauses| == 2 then
      ClauseRef(clauses[0]) + " 및 " + ClauseRef(clauses[1])
    else
      var formatted := Join(", ", ClauseRefs(clauses[..|clauses| - 1]));
      formatted + " 및 " + ClauseRef(clauses[|clauses| - 1])
  }

  datatype Separator = Comma | And

  /** Reads one reference 제<digits>항 at the start of `s`: its numeral and what follows. */
  function ReadRef(s: string): (r: Option<(string, string)>)
    ensures r.Some? ==> |r.value.1| < |s|
  {
    if |s| < 3 || s[0] != '제' then
      None
    else
      var j := DigitRunEnd(s, 1);
      if j == 1 || j == |s| || s[j] != '항' then None else Some((s[1..j], s[j + 1..]))
  }

  /** Reads an enumeration of clause references: the numerals and the separators
      (", " or " 및 ") found between them. */
  function ParseClauses(s: string): Option<(seq<string>, seq<Separator>)>
    decreases |s|
  {
    match ReadRef(s)
    case None => None
    case Some((clause, rest)) =>
      if rest == [] then
        Some(([clause], []))
      else if ", " <= rest then
        match ParseClauses(rest[2..])
        case Some((cs, seps)) => Some(([clause] + cs, [Comma] + seps))
        case None => None
      else if " 및 " <= rest then
        match ParseClauses(rest[3..])
        case Some((cs, seps)) => Some(([clause] + cs, [And] + seps))
        case None => None
      else
        None
  }

  /** A clause numeral as the source's clause table produces it. */
  predicate IsNumeral(c: string)
  {
    c != [] && AllDigits(c)
  }

  /** The separators of an enumeration of `n` items: commas, then one 및. */
  function Separators(n: nat): seq<Separator>
    requires n >= 1
  {
    if n == 1 then [] else if n == 2 then [And] else [Comma] + Separators(n - 1)
  }

  /** `n - 1` separators: all commas but the last, which is 및. */
  lemma {:induction false} SeparatorsShape(n: nat)
    requires n >= 1
    ensures |Separators(n)| == n - 1
    ensures n >= 2 ==> Separators(n)[n - 2] == And
    ensures forall k :: 0 <= k < n - 2 ==> Separators(n)[k] == Comma
  {
    if n > 2 {
      SeparatorsShape(n - 1);
    }
  }

  lemma ReadRefOf(c: string, tail: string)
    requires IsNumeral(c)
    ensures ReadRef(ClauseRef(c) + tail) == Some((c, tail))
  {
    var s := ClauseRef(c) + tail;
    assert s[1..1 + |c|] == c;
    DigitRunEndAt(s, 1, 1 + |c|);
    assert s[|c| + 2..] == tail;
  }

  lemma ParseSingle(c: string)
    requires IsNumeral(c)
    ensures ParseClauses(ClauseRef(c)) == Some(([c], []))
  {
    ReadRefOf(c, []);
    assert ClauseRef(c) + [] == ClauseRef(c);
  }

  lemma ParseComma(c: string, rest: string, cs: seq<string>, seps: seq<Separator>)
    requires IsNumeral(c) && ParseClauses(rest) == Some((cs, seps))
    ensures ParseClauses(ClauseRef(c) + ", " + rest) == Some(([c] + cs, [Comma] + seps))
  {
    ReadRefOf(c, ", " + rest);
    assert ClauseRef(c) + ", " + rest == ClauseRef(c) + (", " + rest);
    assert (", " + rest)[2..] == rest;
  }

  lemma ParseAnd(c: string, rest: string, cs: seq<string>, seps: seq<Separator>)
    requires IsNumeral(c) && ParseClauses(rest) == Some((cs, seps))
    ensures ParseClauses(ClauseRef(c) + " 및 " + rest) == Some(([c] + cs, [And] + seps))
  {
    ReadRefOf(c, " 및 " + rest);
    assert ClauseRef(c) + " 및 " + rest == ClauseRef(c) + (" 및 " + rest);
    assert (" 및 " + rest)[0] == ' ';
    assert (" 및 " + rest)[3..] == rest;
  }

  /** The comma-joined references of at least two clauses start with the first one. */
  lemma JoinRefsCons(heads: seq<string>)
    requires |heads| >= 2
    ensures Join(", ", ClauseRefs(heads)) == ClauseRef(heads[0]) + ", " + Join(", ", ClauseRefs(heads[1..]))
  {
    assert ClauseRefs(heads)[1..] == ClauseRefs(heads[1..]);
  }

  /** Base case of `ParseTail`: 제a항 및 제b항. */
  lemma ParsePair(head: string, last: string)
    requires IsNumeral(head) && IsNumeral(last)
    ensures ParseClauses(ClauseRef(head) + " 및 " + ClauseRef(last)) == Some(([head, last], Separators(2)))
  {
    ParseSingle(last);
    ParseAnd(head, ClauseRef(last), [last], []);
    assert [head] + [last] == [head, last];
    assert [And] + [] == [And] == Separators(2);
  }

  /** The comma-joined references of `heads` followed by " 및 " and the last reference,
      nested to the right. */
  function Enumeration(heads: seq<string>, last: string): string
    requires |heads| >= 1
    decreases |heads|
  {
    if |heads| == 1 then ClauseRef(heads[0]) + " 및 " + ClauseRef(last)
    else ClauseRef(heads[0]) + ", " + Enumeration(heads[1..], last)
  }

  lemma {:induction false} EnumerationIsJoin(heads: seq<string>, last: string)
    requires |heads| >= 1
    ensures Join(", ", ClauseRefs(heads)) + " 및 " + ClauseRef(last) == Enumeration(heads, last)
    decreases |heads|
  {
    if |heads| == 1 {
      assert Join(", ", ClauseRefs(heads)) == ClauseRef(heads[0]);
    } else {
      JoinRefsCons(heads);
      EnumerationIsJoin(heads[1..], last);
    }
  }

  /** Base case of `ParseTail`: one head. */
  lemma ParseTailBase(heads: seq<string>, last: string)
    requires |heads| == 1 && IsNumeral(heads[0]) && IsNumeral(last)
    ensures ParseClauses(Enumeration(heads, last)) == Some((heads + [last], Separators(2)))
  {
    ParsePair(heads[0], last);
    assert [heads[0], last] == heads + [last];
  }

  /** Inductive step of `ParseTail`: one more reference in front, with a comma. */
  lemma ParseTailStep(heads: seq<string>, last: string, cs: seq<string>, seps: seq<Separator>)
    requires |heads| >= 2 && IsNumeral(heads[0])
    requires ParseClauses(Enumeration(heads[1..], last)) == Some((cs, seps))
    ensures ParseClauses(Enumeration(heads, last)) == Some(([heads[0]] + cs, [Comma] + seps))
  {
    ParseComma(heads[0], Enumeration(heads[1..], last), cs, seps);
  }

  /** Separators of three or more items start with a comma. */
  lemma SeparatorsCons(n: nat)
    requires n >= 3
    ensures Separators(n) == [Comma] + Separators(n - 1)
  {
  }

  lemma {:induction false} ParseTail(heads: seq<string>, last: string)
    requires |heads| >= 1 && IsNumeral(last)
    requires forall k :: 0 <= k < |heads| ==> IsNumeral(heads[k])
    ensures ParseClauses(Enumeration(heads, last)) == Some((heads + [last], Separators(|heads| + 1)))
    decreases |heads|
  {
    if |heads| == 1 {
      ParseTailBase(heads, last);
    } else {
      var n := |heads|;
      ParseTail(heads[1..], last);
      assert |heads[1..]| + 1 == n;
      ParseTailStep(heads, last, heads[1..] + [last], Separators(n));
      SeparatorsCons(n + 1);
      ConsAppend(heads, last);
    }
  }

  /** The two-item branch of `format_clauses` is the general comma-and-및 rule applied
      to two items; only the one-item branch differs from it. */
  lemma FormatClausesGeneralRule(clauses: seq<string>)
    requires |clauses| >= 2
    ensures FormatClauses(clauses) ==
      Join(", ", ClauseRefs(clauses[..|clauses| - 1])) + " 및 " + ClauseRef(clauses[|clauses| - 1])
  {
    if |clauses| == 2 {
      assert ClauseRefs(clauses[..1]) == [ClauseRef(clauses[0])];
    }
  }

  /** Reading a formatted list gives back its numerals, separated by commas and one
      final 및 (none for a single item). */
  lemma FormatClausesRoundTrip(clauses: seq<string>)
    requires |clauses| > 0
    requires forall k :: 0 <= k < |clauses| ==> IsNumeral(clauses[k])
    ensures ParseClauses(FormatClauses(clauses)) == Some((clauses, Separators(|clauses|)))
  {
    var n := |clauses|;
    if n == 1 {
      assert FormatClauses(clauses) == ClauseRef(clauses[0]);
      ParseSingle(clauses[0]);
      assert [clauses[0]] == clauses;
    } else {
      var heads, last := clauses[..n - 1], clauses[n - 1];
      FormatClausesEnumeration(clauses);
      ParseTail(heads, last);
      SplitLast(clauses);
    }
  }

  /** Two or more items are formatted as their right-nested enumeration. */
  lemma FormatClausesEnumeration(clauses: seq<string>)
    requires |clauses| >= 2
    ensures FormatClauses(clauses) == Enumeration(clauses[..|clauses| - 1], clauses[|clauses| - 1])
  {
    FormatClausesGeneralRule(clauses);
    EnumerationIsJoin(clauses[..|clauses| - 1], clauses[|clauses| - 1]);
  }

  /** Different numeral lists are never formatted alike. */
  lemma FormatClausesInjective(a: seq<string>, b: seq<string>)
    requires |a| > 0 && forall k :: 0 <= k < |a| ==> IsNumeral(a[k])
    requires |b| > 0 && forall k :: 0 <= k < |b| ==> IsNumeral(b[k])
    requires FormatClauses(a) == FormatClauses(b)
    ensures a == b
  {
    FormatClausesRoundTrip(a);
    FormatClausesRoundTrip(b);
  }

  lemma FormatClausesExamples()
    ensures FormatClauses(["1"]) == "제1항"
    ensures FormatClauses(["1", "2"]) == "제1항 및 제2항"
    ensures FormatClauses(["1", "2", "3"]) == "제1항, 제2항 및 제3항"
  {
    var three: seq<string> := ["1", "2", "3"];
    assert three[..2] == ["1", "2"];
    var refs := ClauseRefs(["1", "2"]);
    assert refs[0] == "제1항" && refs[1] == "제2항";
    assert refs == ["제1항", "제2항"];
    assert Join(", ", refs) == "제1항, 제2항";
  }
}
