/**
 * The JavaScript string operations the proxy's request handling is built from,
 * with the semantics ECMA-262 gives them:
 *  - `s.indexOf(pat)`: the first index where `pat` occurs;
 *  - `s.replace("text", rep)`: replaces the FIRST occurrence only;
 *  - `s.replace(/text/g, rep)`: replaces every non-overlapping occurrence,
 *    scanning left to right;
 *  - both expand the `$` patterns of the replacement string (GetSubstitution);
 *  - `String(n)` for a non-negative integer: its decimal digits.
 * `ReplaceEvery` is a plain, `$`-free reference definition of global
 * replacement; the lemmas connect it to the runtime's behaviour.
 */
module JsString {
  import opened Wrappers

  /** `pat` occurs in `s` starting at index `i`. */
  predicate MatchAt(s: string, pat: string, i: nat) {
    i + |pat| <= |s| && s[i..i + |pat|] == pat
  }

  predicate Occurs(s: string, pat: string) {
    exists i: nat | i <= |s| :: MatchAt(s, pat, i)
  }

  /** The first index at or after `from` where `pat` occurs. */
  function IndexOfFrom(s: string, pat: string, from: nat): (r: Option<nat>)
    requires from <= |s|
    ensures r.Some? ==> from <= r.value && MatchAt(s, pat, r.value)
    ensures r.Some? ==> forall j: nat :: from <= j < r.value ==> !MatchAt(s, pat, j)
    ensures r.None? ==> forall j: nat :: from <= j ==> !MatchAt(s, pat, j)
    decreases |s| - from
  {
    if from + |pat| > |s| then None
    else if s[from..from + |pat|] == pat then Some(from)
    else IndexOfFrom(s, pat, from + 1)
  }

  /** `s.indexOf(pat)`, with `None` for JavaScript's -1. */
  function IndexOf(s: string, pat: string): (r: Option<nat>)
    ensures r.None? <==> !Occurs(s, pat)
    ensures r.Some? ==> MatchAt(s, pat, r.value)
    ensures r.Some? ==> forall j: nat :: j < r.value ==> !MatchAt(s, pat, j)
  {
    IndexOfFrom(s, pat, 0)
  }

  /**
   * The text one match is replaced by (GetSubstitution in ECMA-262), for a
   * pattern without capture groups: "$$" stands for "$", "$&" for the matched
   * text, "$`" for the text before the match and "$'" for the text after it.
   * Every other "$" (including "$1" and "$<", which need groups) is kept as is.
   */
  function Substitution(rep: string, matched: string, before: string, after: string): string
    decreases |rep|
  {
    if |rep| == 0 then ""
    else if rep[0] != '$' || |rep| == 1 then [rep[0]] + Substitution(rep[1..], matched, before, after)
    else DollarPattern(rep[1], matched, before, after) + Substitution(rep[2..], matched, before, after)
  }

  /** The text "$" followed by `c` stands for. */
  function DollarPattern(c: char, matched: string, before: string, after: string): string {
    if c == '$' then "$"
    else if c == '&' then matched
    else if c == '`' then before
    else if c == '\'' then after
    else ['$', c]
  }

  /**
   * Inside a longer replacement string, a "$" and the character after it
   * expand as that pair does alone, and the rest of the string is expanded
   * after them.
   */
  lemma DollarPairInReplacement(c: char, rest: string, matched: string, before: string, after: string)
    ensures Substitution(['$', c] + rest, matched, before, after)
      == DollarPattern(c, matched, before, after) + Substitution(rest, matched, before, after)
  {
    assert (['$', c] + rest)[2..] == rest;
  }

  /** The four patterns, and a "$" before any other character kept as it is. */
  lemma DollarPatterns(matched: string, before: string, after: string, c: char)
    requires c !in "$&`'"
    ensures Substitution("$$", matched, before, after) == "$"
    ensures Substitution("$&", matched, before, after) == matched
    ensures Substitution("$`", matched, before, after) == before
    ensures Substitution("$'", matched, before, after) == after
    ensures Substitution(['$', c], matched, before, after) == ['$', c]
  {
  }

  /**
   * Every character of a substitution comes from the replacement string or
   * from one of the three texts its patterns name.
   */
  lemma {:induction false} SubstitutionDrawsFrom(rep: string, matched: string, before: string, after: string)
    ensures forall x :: x in Substitution(rep, matched, before, after) ==>
      x in rep || x in matched || x in before || x in after
    decreases |rep|
  {
    if |rep| == 1 || (0 < |rep| && rep[0] != '$') {
      SubstitutionDrawsFrom(rep[1..], matched, before, after);
      assert forall x :: x in rep[1..] ==> x in rep;
    } else if 1 < |rep| {
      SubstitutionDrawsFrom(rep[2..], matched, before, after);
      assert forall x :: x in rep[2..] ==> x in rep;
      assert rep[0] in rep && rep[1] in rep;
    }
  }

  /** A replacement string without `$` is inserted literally. */
  lemma {:induction false} PlainSubstitution(rep: string, matched: string, before: string, after: string)
    requires '$' !in rep
    ensures Substitution(rep, matched, before, after) == rep
    decreases |rep|
  {
    if |rep| > 0 {
      assert forall c :: c in rep[1..] ==> c in rep;
      PlainSubstitution(rep[1..], matched, before, after);
      assert rep == [rep[0]] + rep[1..];
    }
  }

  /** `s.replace(pat, rep)` with a string pattern: only the first occurrence is replaced. */
  function ReplaceFirst(s: string, pat: string, rep: string): (r: string)
    ensures !Occurs(s, pat) ==> r == s
    ensures Occurs(s, pat) ==>
      var i := IndexOf(s, pat).value;
      var rest := |s| - (i + |pat|);
      && i + rest <= |r|
      && r[..i] == s[..i]
      && r[|r| - rest..] == s[i + |pat|..]
  {
    match IndexOf(s, pat)
    case None => s
    case Some(i) => s[..i] + Substitution(rep, pat, s[..i], s[i + |pat|..]) + s[i + |pat|..]
  }

  /** With a `$`-free replacement, the first occurrence — and only it — is replaced literally. */
  lemma ReplaceFirstAt(s: string, pat: string, rep: string, i: nat)
    requires MatchAt(s, pat, i)
    requires forall j: nat :: j < i ==> !MatchAt(s, pat, j)
    requires '$' !in rep
    ensures ReplaceFirst(s, pat, rep) == s[..i] + rep + s[i + |pat|..]
  {
    var k := IndexOf(s, pat);
    assert Occurs(s, pat);
    assert MatchAt(s, pat, k.value) && MatchAt(s, pat, i);
    assert k.value == i;
    PlainSubstitution(rep, pat, s[..i], s[i + |pat|..]);
  }

  /** The first match is the one `indexOf` finds. */
  lemma FirstMatchIsIndexOf(s: string, pat: string, i: nat)
    requires MatchAt(s, pat, i)
    requires forall k: nat :: k < i ==> !MatchAt(s, pat, k)
    ensures Occurs(s, pat) && IndexOf(s, pat) == Some(i)
  {
    assert Occurs(s, pat);
    var k := IndexOf(s, pat).value;
    assert MatchAt(s, pat, k);
  }

  /** The text after the first occurrence ends the result of `ReplaceFirst`. */
  lemma ReplaceFirstKeepsSuffix(s: string, pat: string, rep: string, i: nat)
    requires MatchAt(s, pat, i)
    requires forall k: nat :: k < i ==> !MatchAt(s, pat, k)
    ensures var r := ReplaceFirst(s, pat, rep);
      |s| - (i + |pat|) <= |r| && r[|r| - (|s| - (i + |pat|))..] == s[i + |pat|..]
  {
    FirstMatchIsIndexOf(s, pat, i);
  }

  /** An occurrence inside a suffix of `s` that ends `r` too occurs in `r`, at the same distance from the end. */
  lemma MatchInKeptSuffix(s: string, r: string, pat: string, m: nat, j: nat)
    requires m <= j && MatchAt(s, pat, j)
    requires |s| - m <= |r| && r[|r| - (|s| - m)..] == s[m..]
    ensures |s| - j <= |r| && MatchAt(r, pat, |r| - (|s| - j))
  {
    var t := s[m..];
    var d := j - m;
    assert t[d..d + |pat|] == s[j..j + |pat|];
    assert r[|r| - (|s| - j)..|r| - (|s| - j) + |pat|] == t[d..d + |pat|];
  }

  /**
   * An occurrence lying wholly after the first one survives `ReplaceFirst`,
   * whatever the replacement: it keeps its distance from the end of the
   * string.
   */
  lemma LaterOccurrenceSurvives(s: string, pat: string, rep: string, i: nat, j: nat)
    requires MatchAt(s, pat, i)
    requires forall k: nat :: k < i ==> !MatchAt(s, pat, k)
    requires i + |pat| <= j && MatchAt(s, pat, j)
    ensures |s| - j <= |ReplaceFirst(s, pat, rep)|
    ensures MatchAt(ReplaceFirst(s, pat, rep), pat, |ReplaceFirst(s, pat, rep)| - (|s| - j))
  {
    ReplaceFirstKeepsSuffix(s, pat, rep, i);
    MatchInKeptSuffix(s, ReplaceFirst(s, pat, rep), pat, i + |pat|, j);
  }

  /** With a `$`-free replacement, a later occurrence is shifted by the length change. */
  lemma LaterOccurrenceShifted(s: string, pat: string, rep: string, i: nat, j: nat)
    requires MatchAt(s, pat, i)
    requires forall k: nat :: k < i ==> !MatchAt(s, pat, k)
    requires i + |pat| <= j && MatchAt(s, pat, j)
    requires '$' !in rep
    ensures MatchAt(ReplaceFirst(s, pat, rep), pat, j - |pat| + |rep|)
  {
    var r := ReplaceFirst(s, pat, rep);
    LaterOccurrenceSurvives(s, pat, rep, i, j);
    ReplaceFirstLength(s, pat, rep, i);
    assert |r| - (|s| - j) == j - |pat| + |rep|;
  }

  /** With a `$`-free replacement, `ReplaceFirst` changes the length by the difference of the two texts. */
  lemma ReplaceFirstLength(s: string, pat: string, rep: string, i: nat)
    requires MatchAt(s, pat, i)
    requires forall k: nat :: k < i ==> !MatchAt(s, pat, k)
    requires '$' !in rep
    ensures |ReplaceFirst(s, pat, rep)| == |s| - |pat| + |rep|
  {
    ReplaceFirstAt(s, pat, rep, i);
  }

  /**
   * `s.replace(/pat/g, rep)` for a regular expression that matches the fixed
   * text `pat`, continuing the scan at index `i`: every non-overlapping
   * occurrence from the left is replaced, and the `$` patterns of `rep` refer
   * to the whole original string.
   */
  function ReplaceAllFrom(s: string, pat: string, rep: string, i: nat): string
    requires 0 < |pat| && i <= |s|
    decreases |s| - i
  {
    if i + |pat| > |s| then s[i..]
    else if MatchAt(s, pat, i) then
      Substitution(rep, pat, s[..i], s[i + |pat|..]) + ReplaceAllFrom(s, pat, rep, i + |pat|)
    else
      [s[i]] + ReplaceAllFrom(s, pat, rep, i + 1)
  }

  /** `s.replace(/pat/g, rep)`: a string without an occurrence comes back unchanged, whatever `rep` holds. */
  function ReplaceAll(s: string, pat: string, rep: string): (r: string)
    requires 0 < |pat|
    ensures !Occurs(s, pat) ==> r == s
  {
    var r := ReplaceAllFrom(s, pat, rep, 0);
    assert !Occurs(s, pat) ==> r == s by {
      if !Occurs(s, pat) {
        ReplaceAllFromWithoutMatch(s, pat, rep, 0);
      }
    }
    r
  }

  /** With no occurrence at or after `i`, the scan copies the rest of `s`. */
  lemma {:induction false} ReplaceAllFromWithoutMatch(s: string, pat: string, rep: string, i: nat)
    requires 0 < |pat| && i <= |s|
    requires forall j: nat :: i <= j ==> !MatchAt(s, pat, j)
    ensures ReplaceAllFrom(s, pat, rep, i) == s[i..]
    decreases |s| - i
  {
    if i + |pat| <= |s| {
      assert !MatchAt(s, pat, i);
      ReplaceAllFromWithoutMatch(s, pat, rep, i + 1);
      assert s[i..] == [s[i]] + s[i + 1..];
    }
  }

  /** Reference definition: every non-overlapping occurrence, from the left, becomes `rep` verbatim. */
  function ReplaceEvery(s: string, pat: string, rep: string): string
    requires 0 < |pat|
    decreases |s|
  {
    if |s| < |pat| then s
    else if s[..|pat|] == pat then rep + ReplaceEvery(s[|pat|..], pat, rep)
    else [s[0]] + ReplaceEvery(s[1..], pat, rep)
  }

  /** One step of the runtime's scan at an occurrence. */
  lemma ReplaceAllFromAtMatch(s: string, pat: string, rep: string, i: nat)
    requires 0 < |pat| && i <= |s| && MatchAt(s, pat, i)
    requires '$' !in rep
    ensures ReplaceAllFrom(s, pat, rep, i) == rep + ReplaceAllFrom(s, pat, rep, i + |pat|)
  {
    PlainSubstitution(rep, pat, s[..i], s[i + |pat|..]);
  }

  /** One step of the reference scan, on a suffix of `s`. */
  lemma ReplaceEveryOnSuffix(s: string, pat: string, rep: string, i: nat)
    requires 0 < |pat| && i + |pat| <= |s|
    ensures MatchAt(s, pat, i) ==>
      ReplaceEvery(s[i..], pat, rep) == rep + ReplaceEvery(s[i + |pat|..], pat, rep)
    ensures !MatchAt(s, pat, i) ==>
      ReplaceEvery(s[i..], pat, rep) == [s[i]] + ReplaceEvery(s[i + 1..], pat, rep)
  {
    var t := s[i..];
    assert t[..|pat|] == s[i..i + |pat|];
    assert t[|pat|..] == s[i + |pat|..];
    assert t[1..] == s[i + 1..];
  }

  /** One step of the runtime's scan where no occurrence starts. */
  lemma ReplaceAllFromSkip(s: string, pat: string, rep: string, i: nat)
    requires 0 < |pat| && i + |pat| <= |s| && !MatchAt(s, pat, i)
    ensures ReplaceAllFrom(s, pat, rep, i) == [s[i]] + ReplaceAllFrom(s, pat, rep, i + 1)
  {
  }

  /** The runtime's global replace agrees with the reference when `rep` has no `$`. */
  lemma {:induction false} ReplaceAllFromIsLiteral(s: string, pat: string, rep: string, i: nat)
    requires 0 < |pat| && i <= |s|
    requires '$' !in rep
    ensures ReplaceAllFrom(s, pat, rep, i) == ReplaceEvery(s[i..], pat, rep)
    decreases |s| - i
  {
    if i + |pat| <= |s| {
      ReplaceEveryOnSuffix(s, pat, rep, i);
      if MatchAt(s, pat, i) {
        ReplaceAllFromAtMatch(s, pat, rep, i);
        ReplaceAllFromIsLiteral(s, pat, rep, i + |pat|);
      } else {
        ReplaceAllFromSkip(s, pat, rep, i);
        ReplaceAllFromIsLiteral(s, pat, rep, i + 1);
      }
    } else {
      assert ReplaceAllFrom(s, pat, rep, i) == s[i..];
    }
  }

  lemma ReplaceAllIsLiteral(s: string, pat: string, rep: string)
    requires 0 < |pat|
    requires '$' !in rep
    ensures ReplaceAll(s, pat, rep) == ReplaceEvery(s, pat, rep)
  {
    ReplaceAllFromIsLiteral(s, pat, rep, 0);
    assert s[0..] == s;
  }

  /** Global replacement leaves a string without occurrences unchanged. */
  lemma {:induction false} ReplaceEveryWithoutMatch(s: string, pat: string, rep: string)
    requires 0 < |pat|
    requires !Occurs(s, pat)
    ensures ReplaceEvery(s, pat, rep) == s
    decreases |s|
  {
    if |s| >= |pat| {
      assert !MatchAt(s, pat, 0);
      assert s[0..|pat|] == s[..|pat|];
      forall j: nat | MatchAt(s[1..], pat, j)
        ensures MatchAt(s, pat, j + 1)
      {
        assert s[1..][j..j + |pat|] == s[j + 1..j + 1 + |pat|];
      }
      ReplaceEveryWithoutMatch(s[1..], pat, rep);
      assert s == [s[0]] + s[1..];
    }
  }

  /** A prefix free of the pattern's first character is copied through untouched. */
  lemma {:induction false} ReplaceEveryAfterPlainPrefix(a: string, b: string, pat: string, rep: string)
    requires 0 < |pat|
    requires pat[0] !in a
    ensures ReplaceEvery(a + b, pat, rep) == a + ReplaceEvery(b, pat, rep)
    decreases |a|
  {
    if |a| == 0 {
      assert a + b == b;
    } else if |a + b| >= |pat| {
      var s := a + b;
      assert s[..|pat|][0] == a[0] != pat[0];
      assert s[1..] == a[1..] + b;
      assert ReplaceEvery(s, pat, rep) == [s[0]] + ReplaceEvery(a[1..] + b, pat, rep);
      assert pat[0] !in a[1..];
      ReplaceEveryAfterPlainPrefix(a[1..], b, pat, rep);
      assert a == [a[0]] + a[1..];
    }
  }

  /** An occurrence at the very start is replaced, and the scan resumes after it. */
  lemma ReplaceEveryAtPattern(pat: string, b: string, rep: string)
    requires 0 < |pat|
    ensures ReplaceEvery(pat + b, pat, rep) == rep + ReplaceEvery(b, pat, rep)
  {
    assert (pat + b)[..|pat|] == pat;
    assert (pat + b)[|pat|..] == b;
  }

  /**
   * Global replacement in a text with two occurrences, at known places, among
   * pieces that never contain the pattern's first character.
   */
  lemma ReplaceTwoSlots(head: string, mid: string, tail: string, pat: string, rep: string)
    requires 0 < |pat| && '$' !in rep
    requires pat[0] !in head && pat[0] !in mid && pat[0] !in tail
    ensures ReplaceAll(head + (pat + (mid + (pat + tail))), pat, rep) == head + rep + mid + rep + tail
  {
    ReplaceAllIsLiteral(head + (pat + (mid + (pat + tail))), pat, rep);
    ReplaceOneSlot(head, mid + (pat + tail), pat, rep);
    ReplaceOneSlot(mid, tail, pat, rep);
    NoOccurrenceWithoutFirstChar(tail, pat);
    ReplaceEveryWithoutMatch(tail, pat, rep);
  }

  /** A piece without the pattern's first character, then an occurrence: the piece is kept and the occurrence replaced. */
  lemma ReplaceOneSlot(head: string, rest: string, pat: string, rep: string)
    requires 0 < |pat| && pat[0] !in head
    ensures ReplaceEvery(head + (pat + rest), pat, rep) == head + (rep + ReplaceEvery(rest, pat, rep))
  {
    ReplaceEveryAfterPlainPrefix(head, pat + rest, pat, rep);
    ReplaceEveryAtPattern(pat, rest, rep);
  }

  /** `s` with every `c` dropped and every other character kept in order. */
  function Without(s: string, c: char): (r: string)
    ensures c !in r
    ensures forall x :: x in r <==> x in s && x != c
    ensures |r| <= |s|
    decreases |s|
  {
    if |s| == 0 then ""
    else (if s[0] == c then "" else [s[0]]) + Without(s[1..], c)
  }

  /** Replacing a one-character pattern by nothing drops exactly that character. */
  lemma {:induction false} RemoveCharIsWithout(s: string, c: char)
    ensures ReplaceEvery(s, [c], "") == Without(s, c)
    decreases |s|
  {
    if |s| > 0 {
      assert s[..1] == [c] <==> s[0] == c;
      RemoveCharIsWithout(s[1..], c);
    }
  }

  /**
   * Two pieces without occurrences glue into a string without occurrences,
   * provided no occurrence can straddle the seam: either the left piece never
   * contains the pattern's first character, or the right piece starts with a
   * character the pattern never uses.
   */
  lemma NoOccurrenceAcrossSeam(x: string, y: string, pat: string)
    requires 0 < |pat|
    requires !Occurs(x, pat) && !Occurs(y, pat)
    requires pat[0] !in x || (0 < |y| && y[0] !in pat)
    ensures !Occurs(x + y, pat)
  {
    var s := x + y;
    forall i: nat | i <= |s|
      ensures !MatchAt(s, pat, i)
    {
      if i + |pat| <= |s| {
        var w := s[i..i + |pat|];
        if i + |pat| <= |x| {
          assert w == x[i..i + |pat|];
          assert !MatchAt(x, pat, i);
        } else if |x| <= i {
          assert w == y[i - |x|..i - |x| + |pat|];
          assert !MatchAt(y, pat, i - |x|);
        } else {
          assert w[0] == x[i];
          assert w[|x| - i] == y[0];
          if pat[0] !in x {
            assert x[i] in x;
            assert w[0] != pat[0];
          } else {
            assert pat[|x| - i] in pat;
            assert w[|x| - i] != pat[|x| - i];
          }
        }
      }
    }
  }

  /** The middle piece of a three-piece concatenation is the slice between the other two. */
  lemma MiddleSlice(a: string, b: string, c: string)
    ensures (a + b + c)[|a|..|a| + |b|] == b
  {
  }

  /** A string that ends with `head + tail` ends with `tail`. */
  lemma EndsWithTail(x: string, head: string, tail: string)
    requires |head + tail| <= |x| && x[|x| - |head + tail|..] == head + tail
    ensures |tail| <= |x| && x[|x| - |tail|..] == tail
  {
    assert x[|x| - |tail|..] == x[|x| - |head + tail|..][|head|..];
  }

  /** A string with no character of a non-empty pattern contains no occurrence of it. */
  lemma NoOccurrenceWithoutFirstChar(s: string, pat: string)
    requires 0 < |pat| && pat[0] !in s
    ensures !Occurs(s, pat)
  {
    forall i: nat | i <= |s|
      ensures !MatchAt(s, pat, i)
    {
      if i + |pat| <= |s| {
        assert s[i..i + |pat|][0] == s[i];
      }
    }
  }

  /** The character of one decimal digit. */
  function DigitChar(d: nat): (c: char)
    requires d < 10
    ensures '0' <= c <= '9'
  {
    ('0' as int + d) as char
  }

  /** The numeric value of a decimal digit character. */
  function DigitValue(c: char): nat {
    if '0' <= c <= '9' then c as int - '0' as int else 0
  }

  /** `String(n)` for a non-negative integer: decimal, no leading zeros. */
  function Decimal(n: nat): (r: string)
    ensures 0 < |r|
    ensures forall k :: 0 <= k < |r| ==> '0' <= r[k] <= '9'
    ensures r[0] == '0' ==> n == 0
    decreases n
  {
    if n < 10 then [DigitChar(n)] else Decimal(n / 10) + [DigitChar(n % 10)]
  }

  /** The value a string of decimal digits denotes. */
  function DecimalValue(s: string): nat
    decreases |s|
  {
    if |s| == 0 then 0 else DecimalValue(s[..|s| - 1]) * 10 + DigitValue(s[|s| - 1])
  }

  /** Reading back the digits of `n` gives `n`. */
  lemma {:induction false} DecimalRoundTrip(n: nat)
    ensures DecimalValue(Decimal(n)) == n
    decreases n
  {
    var r := Decimal(n);
    if n < 10 {
      assert r[..0] == "";
    } else {
      DecimalRoundTrip(n / 10);
      assert r[..|r| - 1] == Decimal(n / 10);
    }
  }

  /** Appending "000" to any string of digits multiplies its value by a thousand. */
  lemma DecimalValueAppendsZeros(s: string)
    ensures DecimalValue(s + "000") == DecimalValue(s) * 1000
  {
    var s1 := s + "0";
    var s2 := s1 + "0";
    var s3 := s2 + "0";
    assert s1[..|s1| - 1] == s && s1[|s1| - 1] == '0';
    assert DecimalValue(s1) == DecimalValue(s) * 10;
    assert s2[..|s2| - 1] == s1 && s2[|s2| - 1] == '0';
    assert DecimalValue(s2) == DecimalValue(s1) * 10;
    assert s3[..|s3| - 1] == s2 && s3[|s3| - 1] == '0';
    assert DecimalValue(s3) == DecimalValue(s2) * 10;
    assert s3 == s + "000";
  }

  /** Appending a "0" to the digits of a positive number multiplies it by ten. */
  lemma DecimalTimesTen(n: nat)
    requires 0 < n
    ensures Decimal(n * 10) == Decimal(n) + "0"
  {
    assert n * 10 / 10 == n && n * 10 % 10 == 0;
  }

  /** Appending "000" to the digits of a positive number multiplies it by a thousand. */
  lemma DecimalTimesThousand(n: nat)
    requires 0 < n
    ensures Decimal(n * 1000) == Decimal(n) + "000"
  {
    var a := n * 10;
    var b := a * 10;
    assert b * 10 == n * 1000;
    DecimalTimesTen(n);
    DecimalTimesTen(a);
    DecimalTimesTen(b);
    assert Decimal(n) + "0" + "0" + "0" == Decimal(n) + "000";
  }
}
