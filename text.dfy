/**
 * The java.lang.String operations the species server relies on, over `string`
 * (a sequence of chars): trim, blank tests, ASCII case folding, compareTo,
 * decimal rendering of integers and Collectors.joining.
 */
module Text {
  import opened Wrappers

  // ---------------------------------------------------------------------------
  // trim / isEmpty

  /** Drops leading characters up to U+0020, as the first half of String.trim does. */
  function TrimStart(s: string): (r: string)
    ensures |r| <= |s| && r == s[|s| - |r|..]
    ensures r == [] || r[0] > ' '
    ensures IsBlank(s[..|s| - |r|])
  {
    if |s| > 0 && s[0] <= ' ' then TrimStart(s[1..]) else s
  }

  /** Drops trailing characters up to U+0020, as the second half of String.trim does. */
  function TrimEnd(s: string): (r: string)
    ensures |r| <= |s| && r == s[..|r|]
    ensures r == [] || r[|r| - 1] > ' '
    ensures IsBlank(s[|r|..])
  {
    if |s| > 0 && s[|s| - 1] <= ' ' then TrimEnd(s[..|s| - 1]) else s
  }

  /** String.trim: the longest infix that neither starts nor ends with a character up to U+0020. */
  function Trim(s: string): (r: string)
    ensures r == [] || (r[0] > ' ' && r[|r| - 1] > ' ')
    ensures exists i, j | 0 <= i <= j <= |s| :: r == s[i..j] && IsBlank(s[..i]) && IsBlank(s[j..])
  {
    var start := TrimStart(s);
    var r := TrimEnd(start);
    var i := |s| - |start|;
    assert start == s[i..];
    assert r == s[i..i + |r|];
    assert s[i + |r|..] == start[|r|..];
    r
  }

  predicate IsBlank(s: string) {
    forall i | 0 <= i < |s| :: s[i] <= ' '
  }

  /** `s == null || s.trim().isEmpty()`, the guard every lookup in the server starts with. */
  predicate IsNullOrBlank(name: Option<string>) {
    name.None? || IsBlank(name.value)
  }

  /** Trimming leaves nothing exactly when every character is at most U+0020. */
  lemma TrimEmptyIff(s: string)
    ensures Trim(s) == [] <==> IsBlank(s)
  {
  }

  /** Trimming twice is trimming once. */
  lemma TrimIdempotent(s: string)
    ensures Trim(Trim(s)) == Trim(s)
  {
    var r := Trim(s);
    if r != [] {
      assert TrimStart(r) == r;
      assert TrimEnd(r) == r;
    }
  }

  // ---------------------------------------------------------------------------
  // toLowerCase / equalsIgnoreCase, restricted to ASCII letters

  function LowerChar(c: char): char {
    if 'A' <= c <= 'Z' then (c as int - 'A' as int + 'a' as int) as char else c
  }

  /** String.toLowerCase on ASCII letters; every other character is kept. */
  function Lower(s: string): (r: string)
    ensures |r| == |s|
  {
    if s == [] then [] else [LowerChar(s[0])] + Lower(s[1..])
  }

  /** Lower-casing works character by character. */
  lemma {:induction false} LowerPointwise(s: string)
    ensures forall i | 0 <= i < |s| :: Lower(s)[i] == LowerChar(s[i])
  {
    if s != [] {
      LowerPointwise(s[1..]);
    }
  }

  /** String.equalsIgnoreCase: both strings fold to the same lower-case string. */
  predicate EqualsIgnoreCase(a: string, b: string) {
    Lower(a) == Lower(b)
  }

  /** Lower-casing a lower-cased string changes nothing, so stored keys look themselves up. */
  lemma LowerIdempotent(s: string)
    ensures Lower(Lower(s)) == Lower(s)
  {
    var l := Lower(s);
    LowerPointwise(s);
    LowerPointwise(l);
    assert forall i | 0 <= i < |s| :: Lower(l)[i] == l[i];
  }

  /** Case folding neither creates nor removes blankness. */
  lemma LowerKeepsBlank(s: string)
    ensures IsBlank(Lower(s)) <==> IsBlank(s)
  {
    LowerPointwise(s);
    assert forall i | 0 <= i < |s| :: (Lower(s)[i] <= ' ' <==> s[i] <= ' ');
  }

  /** Two strings equal up to case are both blank or both not blank. */
  lemma EqualsIgnoreCaseKeepsBlank(a: string, b: string)
    requires EqualsIgnoreCase(a, b)
    ensures IsBlank(a) <==> IsBlank(b)
  {
    LowerKeepsBlank(a);
    LowerKeepsBlank(b);
  }

  // ---------------------------------------------------------------------------
  // compareTo

  /**
   * `a.compareTo(b) <= 0`: the first differing character decides, and a proper
   * prefix comes before the longer string.
   */
  predicate NotAfter(a: string, b: string) {
    if a == [] then true
    else if b == [] then false
    else if a[0] != b[0] then a[0] < b[0]
    else NotAfter(a[1..], b[1..])
  }

  lemma {:induction false} NotAfterTotal(a: string, b: string)
    ensures NotAfter(a, b) || NotAfter(b, a)
  {
    if a != [] && b != [] && a[0] == b[0] {
      NotAfterTotal(a[1..], b[1..]);
    }
  }

  lemma {:induction false} NotAfterAntisymmetric(a: string, b: string)
    requires NotAfter(a, b) && NotAfter(b, a)
    ensures a == b
  {
    if a != [] && b != [] {
      NotAfterAntisymmetric(a[1..], b[1..]);
      assert a == [a[0]] + a[1..] && b == [b[0]] + b[1..];
    }
  }

  lemma {:induction false} NotAfterTransitive(a: string, b: string, c: string)
    requires NotAfter(a, b) && NotAfter(b, c)
    ensures NotAfter(a, c)
  {
    if a != [] && b != [] && c != [] && a[0] == b[0] == c[0] {
      NotAfterTransitive(a[1..], b[1..], c[1..]);
    }
  }

  // ---------------------------------------------------------------------------
  // Integer.toString / %d

  function DigitChar(d: nat): char
    requires d < 10
  {
    ('0' as int + d) as char
  }

  predicate IsDigit(c: char) {
    '0' <= c <= '9'
  }

  /** The decimal digits of n, most significant first, without leading zeros. */
  function NatDigits(n: nat): (r: string)
    ensures |r| > 0
    ensures forall i | 0 <= i < |r| :: IsDigit(r[i])
    ensures r[0] == '0' ==> n == 0
    decreases n
  {
    if n < 10 then [DigitChar(n)] else NatDigits(n / 10) + [DigitChar(n % 10)]
  }

  /** Integer.toString(n), which is also what `%d` and StringBuilder.append(int) print. */
  function Decimal(n: int): string {
    if n < 0 then "-" + NatDigits(-n) else NatDigits(n)
  }

  /** The number a string of decimal digits denotes. */
  function DigitsValue(s: string): nat
    requires forall i | 0 <= i < |s| :: IsDigit(s[i])
  {
    if s == [] then 0
    else
      assert IsDigit(s[|s| - 1]);
      DigitsValue(s[..|s| - 1]) * 10 + (s[|s| - 1] as int - '0' as int)
  }

  lemma {:induction false} NatDigitsRoundTrip(n: nat)
    ensures DigitsValue(NatDigits(n)) == n
    decreases n
  {
    if n >= 10 {
      NatDigitsRoundTrip(n / 10);
      var d := NatDigits(n);
      assert d[..|d| - 1] == NatDigits(n / 10);
    }
  }

  /** Reading Decimal(n) back gives n: a leading '-' exactly for negatives, then the digits of |n|. */
  lemma DecimalRoundTrip(n: int)
    ensures var d := Decimal(n);
      && (d[0] == '-' <==> n < 0)
      && (n < 0 ==> (forall i | 1 <= i < |d| :: IsDigit(d[i])) && DigitsValue(d[1..]) == -n)
      && (n >= 0 ==> (forall i | 0 <= i < |d| :: IsDigit(d[i])) && DigitsValue(d) == n)
  {
    if n < 0 {
      NatDigitsRoundTrip(-n);
      assert Decimal(n)[1..] == NatDigits(-n);
    } else {
      NatDigitsRoundTrip(n);
    }
  }

  /** Gluing strings is associative; stated once so that string-building loops need not re-derive it. */
  lemma AppendAssoc(a: string, b: string, c: string)
    ensures a + b + c == a + (b + c)
  {
  }

  // ---------------------------------------------------------------------------
  // Collectors.joining

  /** Collectors.joining(sep): the strings in order with sep between neighbours. */
  function Join(xs: seq<string>, sep: string): string {
    if xs == [] then "" else if |xs| == 1 then xs[0] else xs[0] + sep + Join(xs[1..], sep)
  }

  // ---------------------------------------------------------------------------
  // String.contains

  ghost predicate OccursAt(p: string, s: string, k: int) {
    0 <= k && k + |p| <= |s| && s[k..k + |p|] == p
  }

  /** `s.contains(p)` */
  ghost predicate Contains(s: string, p: string) {
    exists k :: OccursAt(p, s, k)
  }

  /** An occurrence inside a part is an occurrence in any string the part is glued into. */
  lemma ContainsInMiddle(a: string, p: string, b: string)
    ensures Contains(a + p + b, p)
  {
    assert (a + p + b)[|a|..|a| + |p|] == p;
    assert OccursAt(p, a + p + b, |a|);
  }

  /** An occurrence in the second part is an occurrence in the whole. */
  lemma ContainsInSuffix(a: string, b: string, p: string)
    requires Contains(b, p)
    ensures Contains(a + b, p)
  {
    var k :| OccursAt(p, b, k);
    assert (a + b)[|a| + k..|a| + k + |p|] == b[k..k + |p|];
    assert OccursAt(p, a + b, |a| + k);
  }

  /** An occurrence in the first part is an occurrence in the whole. */
  lemma ContainsInPrefix(a: string, b: string, p: string)
    requires Contains(a, p)
    ensures Contains(a + b, p)
  {
    var k :| OccursAt(p, a, k);
    assert (a + b)[k..k + |p|] == a[k..k + |p|];
    assert OccursAt(p, a + b, k);
  }

  /** Lines each followed by a newline, as a Java text block or a StringBuilder of lines lays them out. */
  function Unlines(lines: seq<string>): string {
    if lines == [] then "" else lines[0] + "\n" + Unlines(lines[1..])
  }

  /** Every line of the text appears in it with its newline, and every line but the first also with the newline before it. */
  lemma {:induction false} UnlinesContainsLine(lines: seq<string>, i: nat)
    requires i < |lines|
    ensures Contains(Unlines(lines), lines[i] + "\n")
    ensures i > 0 ==> Contains(Unlines(lines), "\n" + lines[i] + "\n")
  {
    var rest := Unlines(lines[1..]);
    assert Unlines(lines) == lines[0] + "\n" + rest;
    if i == 0 {
      assert Unlines(lines) == "" + (lines[0] + "\n") + rest;
      ContainsInMiddle("", lines[0] + "\n", rest);
    } else {
      UnlinesContainsLine(lines[1..], i - 1);
      ContainsInSuffix(lines[0] + "\n", rest, lines[i] + "\n");
      if i == 1 {
        var after := Unlines(lines[2..]);
        assert rest == lines[1] + "\n" + after;
        assert Unlines(lines) == lines[0] + ("\n" + lines[1] + "\n") + after;
        ContainsInMiddle(lines[0], "\n" + lines[1] + "\n", after);
      } else {
        ContainsInSuffix(lines[0] + "\n", rest, "\n" + lines[i] + "\n");
      }
    }
  }

  /** Every joined string readable in the joined text. */
  lemma {:induction false} JoinContainsEach(xs: seq<string>, sep: string, i: nat)
    requires i < |xs|
    ensures Contains(Join(xs, sep), xs[i])
  {
    if |xs| == 1 {
      ContainsInMiddle("", xs[0], "");
      assert "" + xs[0] + "" == xs[0];
    } else if i == 0 {
      ContainsInMiddle("", xs[0], sep + Join(xs[1..], sep));
      assert "" + xs[0] + (sep + Join(xs[1..], sep)) == Join(xs, sep);
    } else {
      JoinContainsEach(xs[1..], sep, i - 1);
      var rest := Join(xs[1..], sep);
      var k :| OccursAt(xs[i], rest, k);
      var pre := xs[0] + sep;
      assert Join(xs, sep) == pre + rest;
      assert (pre + rest)[|pre| + k..|pre| + k + |xs[i]|] == rest[k..k + |xs[i]|];
      assert OccursAt(xs[i], Join(xs, sep), |pre| + k);
    }
  }
}
