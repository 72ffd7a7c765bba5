/**
 * The JavaScript string operations the naming and collection rules use, on `seq<char>`:
 * `split` on one character, `replaceAll` of a non-empty pattern, `padStart`, `String(n)`
 * for a natural number, `includes`, `toLowerCase` and `trim`.
 */
module Strings {

  // ---------------------------------------------------------------------------
  // split and join

  /** `s.split(c)`: the pieces between the occurrences of `c`, built from the left. */
  function Split(s: string, c: char): (parts: seq<string>)
    ensures |parts| >= 1
    ensures forall i :: 0 <= i < |parts| ==> c !in parts[i]
  {
    if s == [] then [""]
    else
      var init := Split(s[..|s| - 1], c);
      var x := s[|s| - 1];
      if x == c then init + [""]
      else init[..|init| - 1] + [init[|init| - 1] + [x]]
  }

  /** `parts.join(c)`. */
  function Join(parts: seq<string>, c: char): string
  {
    if parts == [] then ""
    else if |parts| == 1 then parts[0]
    else Join(parts[..|parts| - 1], c) + [c] + parts[|parts| - 1]
  }

  function Last<T>(xs: seq<T>): T
    requires xs != []
  {
    xs[|xs| - 1]
  }

  /** Joining the pieces with the separator gives back the string. */
  lemma {:induction false} SplitJoin(s: string, c: char)
    ensures Join(Split(s, c), c) == s
  {
    if s != [] {
      var init := Split(s[..|s| - 1], c);
      SplitJoin(s[..|s| - 1], c);
      var x := s[|s| - 1];
      assert s == s[..|s| - 1] + [x];
      if x != c {
        JoinLastAppend(init, c, [x]);
      }
    }
  }

  /** Appending to the last piece appends to the joined string. */
  lemma {:induction false} JoinLastAppend(parts: seq<string>, c: char, t: string)
    requires parts != []
    ensures Join(parts[..|parts| - 1] + [Last(parts) + t], c) == Join(parts, c) + t
  {
    var ps := parts[..|parts| - 1] + [Last(parts) + t];
    assert ps[..|ps| - 1] == parts[..|parts| - 1];
    if |parts| > 1 {
      assert Join(ps, c) == Join(parts[..|parts| - 1], c) + [c] + (Last(parts) + t);
    }
  }

  /**
   * The last piece is the text after the last occurrence of `c`: a suffix of `s` without `c`
   * that is either all of `s` or follows a `c`.
   */
  lemma {:induction false} SplitLast(s: string, c: char)
    ensures var t := Last(Split(s, c));
      && |t| <= |s| && s[|s| - |t|..] == t
      && (|t| == |s| || s[|s| - |t| - 1] == c)
  {
    if s != [] {
      var init := Split(s[..|s| - 1], c);
      SplitLast(s[..|s| - 1], c);
      var x := s[|s| - 1];
      if x != c {
        var t0 := Last(init);
        assert Last(Split(s, c)) == t0 + [x];
        assert s[..|s| - 1][|s| - 1 - |t0|..] == t0;
        assert s[|s| - |t0| - 1..] == t0 + [x];
      } else {
        assert Last(Split(s, c)) == "";
      }
    }
  }

  /** What follows the last `c` is the last piece. */
  lemma {:induction false} LastSplitAfter(a: string, c: char, b: string)
    requires c !in b
    ensures Last(Split(a + [c] + b, c)) == b
    decreases |b|
  {
    var s := a + [c] + b;
    if b == [] {
      assert s[..|s| - 1] == a;
    } else {
      var b' := b[..|b| - 1];
      assert s[..|s| - 1] == a + [c] + b';
      LastSplitAfter(a, c, b');
      assert b == b' + [b[|b| - 1]];
    }
  }

  /** A string without `c` is its own only piece. */
  lemma {:induction false} SplitWithout(s: string, c: char)
    requires c !in s
    ensures Split(s, c) == [s]
  {
    if s != [] {
      assert c !in s[..|s| - 1];
      SplitWithout(s[..|s| - 1], c);
      assert s[..|s| - 1] + [s[|s| - 1]] == s;
    }
  }

  // ---------------------------------------------------------------------------
  // replaceAll

  /** `pat` occurs in `s` at position `i`. */
  predicate OccursAt(s: string, pat: string, i: nat)
  {
    i + |pat| <= |s| && s[i..i + |pat|] == pat
  }

  predicate Occurs(s: string, pat: string)
  {
    exists i :: 0 <= i <= |s| && OccursAt(s, pat, i)
  }

  /**
   * `s.replaceAll(pat, rep)` for a replacement without '$': every occurrence, leftmost first
   * and without overlap, becomes `rep` as written.
   */
  function ReplaceLiteral(s: string, pat: string, rep: string): string
    requires pat != []
    decreases |s|
  {
    if |s| < |pat| then s
    else if s[..|pat|] == pat then rep + ReplaceLiteral(s[|pat|..], pat, rep)
    else [s[0]] + ReplaceLiteral(s[1..], pat, rep)
  }

  /** An occurrence in the tail is an occurrence one position further on in the whole. */
  lemma OccursAtTail(t: string, pat: string, i: nat)
    requires t != []
    ensures OccursAt(t[1..], pat, i) <==> OccursAt(t, pat, i + 1)
  {
    if i + |pat| <= |t[1..]| {
      assert t[1..][i..i + |pat|] == t[i + 1..i + 1 + |pat|];
    }
  }

  /** An occurrence at the front is replaced and the rest is handled on its own. */
  lemma LiteralFront(pat: string, rep: string, b: string)
    requires pat != []
    ensures ReplaceLiteral(pat + b, pat, rep) == rep + ReplaceLiteral(b, pat, rep)
  {
    assert (pat + b)[..|pat|] == pat && (pat + b)[|pat|..] == b;
  }

  /** A prefix that does not contain the pattern's first character is copied as it is. */
  lemma {:induction false} LiteralSkip(a: string, b: string, pat: string, rep: string)
    requires pat != [] && pat[0] !in a
    ensures ReplaceLiteral(a + b, pat, rep) == a + ReplaceLiteral(b, pat, rep)
    decreases |a|
  {
    if a != [] {
      var s := a + b;
      if |s| >= |pat| {
        assert s[..|pat|][0] == a[0];
        assert s[1..] == a[1..] + b;
        LiteralSkip(a[1..], b, pat, rep);
        assert ReplaceLiteral(s, pat, rep) == [a[0]] + (a[1..] + ReplaceLiteral(b, pat, rep));
        assert a == [a[0]] + a[1..];
      } else {
        LiteralShort(s, pat, rep);
        LiteralShort(b, pat, rep);
      }
    } else {
      assert a + b == b;
    }
  }

  lemma LiteralShort(s: string, pat: string, rep: string)
    requires pat != [] && |s| < |pat|
    ensures ReplaceLiteral(s, pat, rep) == s
  {
  }

  /** A first character at which the pattern does not start is copied. */
  lemma LiteralCons(c: char, s: string, pat: string, rep: string)
    requires pat != [] && (|pat| <= |[c] + s| ==> ([c] + s)[..|pat|] != pat)
    ensures ReplaceLiteral([c] + s, pat, rep) == [c] + ReplaceLiteral(s, pat, rep)
  {
    assert ([c] + s)[1..] == s;
    if |pat| > |[c] + s| {
      LiteralShort(s, pat, rep);
    }
  }

  /** Deleting every occurrence never lengthens a string. */
  lemma {:induction false} LiteralDeleteShorter(s: string, pat: string)
    requires pat != []
    ensures |ReplaceLiteral(s, pat, "")| <= |s|
    decreases |s|
  {
    if |s| >= |pat| {
      if s[..|pat|] == pat {
        LiteralDeleteShorter(s[|pat|..], pat);
      } else {
        LiteralDeleteShorter(s[1..], pat);
      }
    }
  }

  /** Deleting every occurrence shortens a string in which the pattern occurs. */
  lemma {:induction false} LiteralDeleteShrinks(s: string, pat: string, i: nat)
    requires pat != [] && OccursAt(s, pat, i)
    ensures |ReplaceLiteral(s, pat, "")| < |s|
    decreases |s|
  {
    if s[..|pat|] == pat {
      LiteralDeleteShorter(s[|pat|..], pat);
    } else {
      assert i != 0;
      OccursAtTail(s, pat, i - 1);
      LiteralDeleteShrinks(s[1..], pat, i - 1);
    }
  }

  /** A string that deleting the pattern leaves unchanged does not contain the pattern. */
  lemma LiteralUnchangedAbsent(s: string, pat: string)
    requires pat != [] && ReplaceLiteral(s, pat, "") == s
    ensures !Occurs(s, pat)
  {
    if i :| 0 <= i <= |s| && OccursAt(s, pat, i) {
      LiteralDeleteShrinks(s, pat, i);
    }
  }

  /**
   * The text that stands for one match, following GetSubstitution of ECMA-262 for a pattern
   * without captures: in `rep`, "$$" is '$', "$&" the matched text, "$`" the whole string
   * before the match and "$'" the whole string after it; any other '$' is kept as written.
   */
  function Substitute(rep: string, matched: string, before: string, after: string): (r: string)
    ensures '$' !in rep ==> r == rep
    decreases |rep|
  {
    if rep == [] then []
    else if rep[0] == '$' && |rep| >= 2 && rep[1] in "$&`'" then
      (if rep[1] == '$' then "$" else if rep[1] == '&' then matched
       else if rep[1] == '`' then before else after)
      + Substitute(rep[2..], matched, before, after)
    else [rep[0]] + Substitute(rep[1..], matched, before, after)
  }

  /** "$$" stands for one '$'. */
  lemma SubstituteDollar(rest: string, matched: string, before: string, after: string)
    ensures Substitute("$$" + rest, matched, before, after) == "$" + Substitute(rest, matched, before, after)
  {
    assert ("$$" + rest)[2..] == rest;
  }

  /** "$&" stands for the matched text. */
  lemma SubstituteMatched(rest: string, matched: string, before: string, after: string)
    ensures Substitute("$&" + rest, matched, before, after) == matched + Substitute(rest, matched, before, after)
  {
    assert ("$&" + rest)[2..] == rest;
  }

  /** A character that does not open a substitution code is kept. */
  lemma SubstituteKeep(c: char, rest: string, matched: string, before: string, after: string)
    requires c != '$' || rest == [] || rest[0] !in "$&`'"
    ensures Substitute([c] + rest, matched, before, after) == [c] + Substitute(rest, matched, before, after)
  {
    assert ([c] + rest)[1..] == rest;
  }

  /** "$$" then a '$' before a plain rest: the pair gives one '$' and the lone '$' stays. */
  lemma DollarCodes(rest: string, m: string)
    requires '$' !in rest && rest != [] && rest[0] !in "$&`'"
    ensures Substitute("$$" + ("$" + rest), m, "", "") == "$$" + rest
  {
    SubstituteDollar("$" + rest, m, "", "");
    assert "$" + rest == ['$'] + rest;
    SubstituteKeep('$', rest, m, "", "");
  }

  /**
   * `replaceAll` from position `at` of `s` on. Each match's substitution is computed against
   * the whole of `s`, with `s[..i]` before and `s[i + |pat|..]` after a match at `i`.
   */
  function ReplaceFrom(s: string, at: nat, pat: string, rep: string): (r: string)
    requires pat != [] && at <= |s|
    ensures (forall i :: at <= i <= |s| ==> !OccursAt(s, pat, i)) ==> r == s[at..]
    ensures pat[0] !in s[at..] ==> r == s[at..]
    ensures '$' !in rep ==> r == ReplaceLiteral(s[at..], pat, rep)
    decreases |s| - at
  {
    if |s| - at < |pat| then s[at..]
    else if s[at..at + |pat|] == pat then
      assert OccursAt(s, pat, at);
      assert s[at..][..|pat|] == pat && s[at..][|pat|..] == s[at + |pat|..];
      Substitute(rep, pat, s[..at], s[at + |pat|..]) + ReplaceFrom(s, at + |pat|, pat, rep)
    else
      assert s[at..][..|pat|] == s[at..at + |pat|] && s[at..][1..] == s[at + 1..];
      assert s[at..] == [s[at]] + s[at + 1..];
      [s[at]] + ReplaceFrom(s, at + 1, pat, rep)
  }

  /**
   * `s.replaceAll(pat, rep)`: every occurrence, leftmost first and without overlap, becomes the
   * substitution of `rep` for that match; with no occurrence, or a replacement without '$',
   * this is the plain textual replacement.
   */
  function ReplaceAll(s: string, pat: string, rep: string): (r: string)
    requires pat != []
    ensures !Occurs(s, pat) ==> r == s
    ensures pat[0] !in s ==> r == s
    ensures '$' !in rep ==> r == ReplaceLiteral(s, pat, rep)
  {
    assert s[0..] == s;
    ReplaceFrom(s, 0, pat, rep)
  }

  /** The pattern alone is replaced by its substitution, with nothing before or after. */
  lemma ReplaceAllWhole(pat: string, rep: string)
    requires pat != []
    ensures ReplaceAll(pat, pat, rep) == Substitute(rep, pat, "", "")
  {
    assert pat[0..|pat|] == pat && pat[..0] == [] && pat[|pat|..] == [];
  }

  /** No occurrence of `pat` starts inside `a`, even one that runs on into a following `pat`. */
  predicate NoMatchStartsIn(a: string, pat: string)
  {
    forall i :: 0 <= i < |a| ==> !OccursAt(a + pat, pat, i)
  }

  /** Too near the end for a match: the rest is copied. */
  lemma ReplaceFromShort(s: string, at: nat, pat: string, rep: string)
    requires pat != [] && at <= |s| < at + |pat|
    ensures ReplaceFrom(s, at, pat, rep) == s[at..]
  {
  }

  /** A position at which the pattern does not occur is copied. */
  lemma ReplaceFromStep(s: string, at: nat, pat: string, rep: string)
    requires pat != [] && at + |pat| <= |s| && !OccursAt(s, pat, at)
    ensures ReplaceFrom(s, at, pat, rep) == [s[at]] + ReplaceFrom(s, at + 1, pat, rep)
  {
  }

  /** A match at `at` is replaced by its substitution and the search goes on after it. */
  lemma ReplaceFromMatch(s: string, at: nat, pat: string, rep: string)
    requires pat != [] && at + |pat| <= |s| && s[at..at + |pat|] == pat
    ensures ReplaceFrom(s, at, pat, rep)
      == Substitute(rep, pat, s[..at], s[at + |pat|..]) + ReplaceFrom(s, at + |pat|, pat, rep)
  {
  }

  /** Where no match starts in `s[at..k]`, that part is copied. */
  lemma {:induction false} ReplaceFromPrefix(s: string, pat: string, rep: string, at: nat, k: nat)
    requires pat != [] && at <= k <= |s|
    requires forall i :: at <= i < k ==> !OccursAt(s, pat, i)
    ensures ReplaceFrom(s, at, pat, rep) == s[at..k] + ReplaceFrom(s, k, pat, rep)
    decreases k - at
  {
    if at < k && at + |pat| <= |s| {
      ReplaceFromStep(s, at, pat, rep);
      ReplaceFromPrefix(s, pat, rep, at + 1, k);
      assert s[at..k] == [s[at]] + s[at + 1..k];
    } else if at < k {
      ReplaceFromShort(s, at, pat, rep);
      ReplaceFromShort(s, k, pat, rep);
      assert s[at..] == s[at..k] + s[k..];
    }
  }

  /**
   * The first occurrence, after a prefix `a` in which none starts, is replaced by the
   * substitution with `a` before it and `b` after it, and the search goes on after it.
   */
  lemma ReplaceAllFirst(a: string, pat: string, rep: string, b: string)
    requires pat != [] && NoMatchStartsIn(a, pat)
    ensures ReplaceAll(a + pat + b, pat, rep)
      == a + Substitute(rep, pat, a, b) + ReplaceFrom(a + pat + b, |a| + |pat|, pat, rep)
  {
    PrefixCopied(a, pat, rep, b);
    MatchAfterPrefix(a, pat, rep, b);
  }

  /** No match starting inside `a`, the whole of `a` is copied. */
  lemma PrefixCopied(a: string, pat: string, rep: string, b: string)
    requires pat != [] && NoMatchStartsIn(a, pat)
    ensures ReplaceFrom(a + pat + b, 0, pat, rep) == a + ReplaceFrom(a + pat + b, |a|, pat, rep)
  {
    var s := a + pat + b;
    forall i | 0 <= i < |a|
      ensures !OccursAt(s, pat, i)
    {
      assert !OccursAt(a + pat, pat, i);
      assert s[i..i + |pat|] == (a + pat)[i..i + |pat|];
    }
    ReplaceFromPrefix(s, pat, rep, 0, |a|);
    assert s[0..|a|] == a;
  }

  /** The occurrence right after `a` is replaced by its substitution, with `a` before and `b` after. */
  lemma MatchAfterPrefix(a: string, pat: string, rep: string, b: string)
    requires pat != []
    ensures ReplaceFrom(a + pat + b, |a|, pat, rep)
      == Substitute(rep, pat, a, b) + ReplaceFrom(a + pat + b, |a| + |pat|, pat, rep)
  {
    var s := a + pat + b;
    assert s[|a|..|a| + |pat|] == pat && s[..|a|] == a && s[|a| + |pat|..] == b;
    ReplaceFromMatch(s, |a|, pat, rep);
  }

  /** A last occurrence after a prefix without the pattern's first character. */
  lemma ReplaceAllLast(a: string, pat: string, rep: string)
    requires pat != [] && pat[0] !in a
    ensures ReplaceAll(a + pat, pat, rep) == a + Substitute(rep, pat, a, "")
  {
    forall i | 0 <= i < |a|
      ensures !OccursAt(a + pat, pat, i)
    {
      assert (a + pat)[i] == a[i];
    }
    ReplaceAllFirst(a, pat, rep, "");
    assert a + pat + "" == a + pat;
  }

  /** A string lacking one of the pattern's characters is left unchanged. */
  lemma ReplaceAllCharAbsent(s: string, pat: string, rep: string, k: nat)
    requires k < |pat| && pat[k] !in s
    ensures ReplaceAll(s, pat, rep) == s
  {
    assert !Occurs(s, pat);
  }

  // ---------------------------------------------------------------------------
  // String(n) and padStart

  function DigitChar(d: nat): char
    requires d < 10
  {
    ['0', '1', '2', '3', '4', '5', '6', '7', '8', '9'][d]
  }

  predicate IsDigit(ch: char)
  {
    '0' <= ch <= '9'
  }

  /** `String(n)`: the decimal digits of `n`, most significant first, without leading zeros. */
  function Decimal(n: nat): (s: string)
    ensures 1 <= |s| && forall i :: 0 <= i < |s| ==> IsDigit(s[i])
    ensures |s| > 1 ==> s[0] != '0'
  {
    if n < 10 then [DigitChar(n)] else Decimal(n / 10) + [DigitChar(n % 10)]
  }

  /** Digits hold neither '$' nor '{', so they are never a substitution code or a placeholder. */
  lemma DigitsHaveNoDollar(s: string)
    requires forall i :: 0 <= i < |s| ==> IsDigit(s[i])
    ensures '$' !in s && '{' !in s
  {
  }

  function DigitValue(ch: char): nat
    requires IsDigit(ch)
  {
    (ch as int) - ('0' as int)
  }

  /** The number a string of decimal digits denotes. */
  function DigitsValue(s: string): nat
    requires forall i :: 0 <= i < |s| ==> IsDigit(s[i])
  {
    if s == [] then 0 else 10 * DigitsValue(s[..|s| - 1]) + DigitValue(s[|s| - 1])
  }

  lemma DigitCharValue(d: nat)
    requires d < 10
    ensures IsDigit(DigitChar(d)) && DigitValue(DigitChar(d)) == d
  {
  }

  /** Reading the digits back gives the number. */
  lemma {:induction false} DecimalValue(n: nat)
    ensures DigitsValue(Decimal(n)) == n
  {
    DigitCharValue(n % 10);
    if n >= 10 {
      DecimalValue(n / 10);
      var s := Decimal(n);
      assert s[..|s| - 1] == Decimal(n / 10);
    } else {
      var s := Decimal(n);
      assert s[..|s| - 1] == [];
    }
  }

  /** Different numbers print differently. */
  lemma DecimalInjective(m: nat, n: nat)
    requires Decimal(m) == Decimal(n)
    ensures m == n
  {
    DecimalValue(m);
    DecimalValue(n);
  }

  function Repeat(ch: char, k: nat): (s: string)
    ensures |s| == k && forall i :: 0 <= i < k ==> s[i] == ch
  {
    if k == 0 then "" else Repeat(ch, k - 1) + [ch]
  }

  /** `s.padStart(width, ch)`. */
  function PadStart(s: string, width: nat, ch: char): (r: string)
    ensures |r| == if |s| < width then width else |s|
    ensures r[|r| - |s|..] == s
    ensures forall i :: 0 <= i < |r| - |s| ==> r[i] == ch
  {
    if |s| < width then Repeat(ch, width - |s|) + s else s
  }

  /** Leading zeros leave the value of a digit string unchanged. */
  lemma {:induction false} ZerosValue(k: nat, s: string)
    requires forall i :: 0 <= i < |s| ==> IsDigit(s[i])
    ensures forall i :: 0 <= i < |Repeat('0', k) + s| ==> IsDigit((Repeat('0', k) + s)[i])
    ensures DigitsValue(Repeat('0', k) + s) == DigitsValue(s)
    decreases |s|, k
  {
    var z := Repeat('0', k);
    if s == [] {
      if k > 0 {
        assert z + s == Repeat('0', k - 1) + ['0'];
        ZerosValue(k - 1, s);
        assert Repeat('0', k - 1) + s == Repeat('0', k - 1);
      }
    } else {
      var init := s[..|s| - 1];
      ZerosValue(k, init);
      assert (z + s)[..|z + s| - 1] == z + init;
    }
  }

  // ---------------------------------------------------------------------------
  // includes, toLowerCase, trim

  /** `s.includes(sub)`: `sub` is a stretch of `s`, and the empty string is in every string. */
  function Includes(s: string, sub: string): (r: bool)
    ensures sub == [] ==> r
    ensures |sub| > |s| ==> !r
    ensures r <==> exists a, b :: 0 <= a <= b <= |s| && s[a..b] == sub
  {
    assert OccursAt(s, [], 0);
    assert forall a, b :: 0 <= a <= b <= |s| && s[a..b] == sub ==> OccursAt(s, sub, a);
    Occurs(s, sub)
  }

  /** ASCII letters A-Z mapped to a-z. */
  function LowerChar(ch: char): char
  {
    if 'A' <= ch <= 'Z' then (ch as int + 32) as char else ch
  }

  /** `s.toLowerCase()` on the ASCII letters. */
  function ToLower(s: string): (r: string)
    ensures |r| == |s| && forall i :: 0 <= i < |s| ==> r[i] == LowerChar(s[i])
  {
    if s == [] then "" else ToLower(s[..|s| - 1]) + [LowerChar(s[|s| - 1])]
  }

  lemma ToLowerIdempotent(s: string)
    ensures ToLower(ToLower(s)) == ToLower(s)
  {
  }

  /**
   * What `trim` removes: the WhiteSpace and LineTerminator code points of ECMA-262 (tab, vertical
   * tab, form feed, space, no-break space, the byte-order mark, every space separator of
   * category Zs, line feed, carriage return, and the line and paragraph separators).
   */
  predicate IsSpace(ch: char)
  {
    ch == '\t' || ch == '\U{000B}' || ch == '\U{000C}' || ch == ' ' || ch == '\U{00A0}'
    || ch == '\U{FEFF}'
    || ch == '\U{1680}' || ('\U{2000}' <= ch <= '\U{200A}') || ch == '\U{202F}' || ch == '\U{205F}'
    || ch == '\U{3000}'
    || ch == '\n' || ch == '\r' || ch == '\U{2028}' || ch == '\U{2029}'
  }

  function TrimStart(s: string): (r: string)
    ensures |r| <= |s| && r == s[|s| - |r|..]
    ensures r != [] ==> !IsSpace(r[0])
    ensures forall i :: 0 <= i < |s| - |r| ==> IsSpace(s[i])
  {
    if s != [] && IsSpace(s[0]) then TrimStart(s[1..]) else s
  }

  function TrimEnd(s: string): (r: string)
    ensures |r| <= |s| && r == s[..|r|]
    ensures r != [] ==> !IsSpace(r[|r| - 1])
    ensures forall i :: |r| <= i < |s| ==> IsSpace(s[i])
  {
    if s != [] && IsSpace(s[|s| - 1]) then TrimEnd(s[..|s| - 1]) else s
  }

  /**
   * `s.trim()`: a slice of `s` with only white space around it, empty exactly when `s` is all
   * white space.
   */
  function Trim(s: string): (r: string)
    ensures exists i, j ::
      && 0 <= i <= j <= |s| && r == s[i..j]
      && (forall k :: 0 <= k < i ==> IsSpace(s[k]))
      && (forall k :: j <= k < |s| ==> IsSpace(s[k]))
    ensures r == [] <==> forall k :: 0 <= k < |s| ==> IsSpace(s[k])
  {
    var t := TrimStart(s);
    var r := TrimEnd(t);
    TrimParts(s, t, r);
    r
  }

  lemma PrefixOfSuffix(s: string, i: nat, n: nat)
    requires i + n <= |s|
    ensures s[i..][..n] == s[i..i + n]
  {
  }

  /** The two passes of `trim`, by their contracts: the kept part is a slice of `s` with white space on both sides. */
  lemma TrimParts(s: string, t: string, r: string)
    requires |t| <= |s| && t == s[|s| - |t|..] && forall k :: 0 <= k < |s| - |t| ==> IsSpace(s[k])
    requires |r| <= |t| && r == t[..|r|] && forall k :: |r| <= k < |t| ==> IsSpace(t[k])
    requires r != [] ==> !IsSpace(r[|r| - 1])
    ensures var i := |s| - |t|;
      && i + |r| <= |s| && r == s[i..i + |r|]
      && (forall k :: 0 <= k < i ==> IsSpace(s[k]))
      && (forall k :: i + |r| <= k < |s| ==> IsSpace(s[k]))
      && (r == [] <==> forall k :: 0 <= k < |s| ==> IsSpace(s[k]))
  {
    var i := |s| - |t|;
    assert t == s[i..];
    assert r == s[i..i + |r|] by {
      assert r == t[..|r|];
      PrefixOfSuffix(s, i, |r|);
    }
    forall k | i + |r| <= k < |s|
      ensures IsSpace(s[k])
    {
      assert s[k] == t[k - i];
    }
    if r != [] {
      assert r[|r| - 1] == s[i + |r| - 1];
    }
  }

  /** A non-empty trimmed string neither starts nor ends with white space. */
  lemma TrimEnds(s: string)
    ensures var r := Trim(s); r != [] ==> !IsSpace(r[0]) && !IsSpace(r[|r| - 1])
  {
    var t := TrimStart(s);
    var r := TrimEnd(t);
    if r != [] {
      assert r[0] == t[0];
    }
  }
}
