/** The string operations of the scorer, with Python's meaning: `endswith`,
    the substring test `in`, `join`, `replace` and `strip(chars)`, plus the
    decimal rendering of an integer in an f-string. */
module Strings {

  predicate EndsWith(s: string, suffix: string)
  {
    |suffix| <= |s| && s[|s| - |suffix|..] == suffix
  }

  /** `sub` occupies positions `i .. i + |sub|` of `s`. */
  predicate OccursAt(s: string, sub: string, i: int)
  {
    0 <= i && i + |sub| <= |s| && s[i..i + |sub|] == sub
  }

  /** Python's `sub in s`, scanning from the left. */
  function Contains(s: string, sub: string): bool
    decreases |s|
  {
    if |s| < |sub| then false
    else s[..|sub|] == sub || Contains(s[1..], sub)
  }

  lemma {:induction false} ContainsIffOccurs(s: string, sub: string)
    ensures Contains(s, sub) <==> exists i :: OccursAt(s, sub, i)
    decreases |s|
  {
    if |s| < |sub| {
      // no position leaves room for `sub`
    } else if s[..|sub|] == sub {
      assert OccursAt(s, sub, 0);
    } else {
      ContainsIffOccurs(s[1..], sub);
      if Contains(s[1..], sub) {
        var i :| OccursAt(s[1..], sub, i);
        assert s[i + 1..i + 1 + |sub|] == s[1..][i..i + |sub|];
        assert OccursAt(s, sub, i + 1);
      }
      if exists i :: OccursAt(s, sub, i) {
        var i :| OccursAt(s, sub, i);
        if i > 0 {
          assert s[1..][i - 1..i - 1 + |sub|] == s[i..i + |sub|];
          assert OccursAt(s[1..], sub, i - 1);
        }
      }
    }
  }

  /** An occurrence inside an occurrence is an occurrence. */
  lemma OccursAtWithin(s: string, m: string, i: int, r: string, k: int)
    requires OccursAt(s, m, i) && OccursAt(m, r, k)
    ensures OccursAt(s, r, i + k)
  {
    forall j | 0 <= j < |r| ensures s[i + k + j] == r[j] {
      assert s[i + k + j] == s[i..i + |m|][k + j];
      assert m[k + j] == m[k..k + |r|][j];
    }
  }

  /** A text holding `sub` also holds every prefix of `sub`. */
  lemma ContainsPrefixOf(s: string, sub: string, pre: string)
    requires Contains(s, sub) && |pre| <= |sub| && sub[..|pre|] == pre
    ensures Contains(s, pre)
  {
    ContainsIffOccurs(s, sub);
    var i :| OccursAt(s, sub, i);
    assert OccursAt(sub, pre, 0);
    OccursAtWithin(s, sub, i, pre, 0);
    ContainsAt(s, pre, i);
  }

  /** A witness position is enough to establish `Contains`. */
  lemma ContainsAt(s: string, sub: string, i: int)
    requires OccursAt(s, sub, i)
    ensures Contains(s, sub)
  {
    ContainsIffOccurs(s, sub);
  }

  /** A text contains whatever is written in its middle. */
  lemma ContainsMiddle(a: string, sub: string, b: string)
    ensures Contains(a + sub + b, sub)
  {
    assert (a + sub + b)[|a|..|a| + |sub|] == sub;
    ContainsAt(a + sub + b, sub, |a|);
  }

  /** A text contains both pieces written in it. */
  lemma ContainsBoth(a: string, x: string, b: string, y: string, c: string)
    ensures Contains(a + x + b + y + c, x) && Contains(a + x + b + y + c, y)
  {
    assert a + x + b + y + c == a + x + (b + y + c);
    ContainsMiddle(a, x, b + y + c);
    ContainsMiddle(a + x + b, y, c);
  }

  /** The texts `f` gives for the elements of `s`, one after the other. */
  function ConcatMap<T>(s: seq<T>, f: T -> string): string
    decreases |s|
  {
    if s == [] then "" else ConcatMap(s[..|s| - 1], f) + f(s[|s| - 1])
  }

  lemma {:induction false} ConcatMapAppend<T>(a: seq<T>, b: seq<T>, f: T -> string)
    ensures ConcatMap(a + b, f) == ConcatMap(a, f) + ConcatMap(b, f)
    decreases |b|
  {
    if b == [] {
      assert a + b == a;
    } else {
      var init := b[..|b| - 1];
      assert (a + b)[..|a + b| - 1] == a + init;
      assert (a + b)[|a + b| - 1] == b[|b| - 1];
      ConcatMapAppend(a, init, f);
    }
  }

  /** Python's `sep.join(parts)`. */
  function Join(parts: seq<string>, sep: string): string
    decreases |parts|
  {
    if |parts| == 0 then ""
    else if |parts| == 1 then parts[0]
    else Join(parts[..|parts| - 1], sep) + sep + parts[|parts| - 1]
  }

  /** Joining one more part adds the separator and that part. */
  lemma JoinSnoc(parts: seq<string>, k: nat, sep: string)
    requires 0 < k < |parts|
    ensures Join(parts[..k + 1], sep) == Join(parts[..k], sep) + sep + parts[k]
  {
    assert parts[..k + 1][..k] == parts[..k];
  }

  /** Python's `''.join(parts)`: the parts themselves, concatenated in order. */
  function Concat(parts: seq<string>): string
  {
    ConcatMap(parts, (p: string) => p)
  }

  /** Python's `s.replace(pat, replacement)`: every non-overlapping occurrence of `pat`,
      found left to right, is replaced. */
  function ReplaceAll(s: string, pat: string, replacement: string): string
    requires |pat| > 0
    decreases |s|
  {
    if |s| < |pat| then s
    else if s[..|pat|] == pat then replacement + ReplaceAll(s[|pat|..], pat, replacement)
    else [s[0]] + ReplaceAll(s[1..], pat, replacement)
  }

  /** Text that lacks a character of the pattern is left unchanged. */
  lemma {:induction false} ReplaceAllWithoutOccurrence(s: string, pat: string, replacement: string, c: char)
    requires |pat| > 0 && c in pat && c !in s
    ensures ReplaceAll(s, pat, replacement) == s
    decreases |s|
  {
    if |s| >= |pat| {
      var k :| 0 <= k < |pat| && pat[k] == c;
      assert s[..|pat|][k] == s[k] != c;
      assert c !in s[1..];
      ReplaceAllWithoutOccurrence(s[1..], pat, replacement, c);
    }
  }

  /** An occurrence at the very start is replaced and the scan resumes after it. */
  lemma ReplaceAllAtStart(pat: string, rest: string, replacement: string)
    requires |pat| > 0
    ensures ReplaceAll(pat + rest, pat, replacement) == replacement + ReplaceAll(rest, pat, replacement)
  {
    assert (pat + rest)[..|pat|] == pat;
    assert (pat + rest)[|pat|..] == rest;
  }

  /** A leading occurrence is the only one rewritten when the rest of the text
      lacks one of the pattern's characters. */
  lemma ReplaceLeadingOnly(pat: string, rest: string, replacement: string, c: char)
    requires |pat| > 0 && c in pat && c !in rest
    ensures ReplaceAll(pat + rest, pat, replacement) == replacement + rest
  {
    ReplaceAllAtStart(pat, rest, replacement);
    ReplaceAllWithoutOccurrence(rest, pat, replacement, c);
  }

  /** Python's `s.lstrip(chars)`: drops the longest prefix made of `chars`. */
  function LStrip(s: string, chars: set<char>): (r: string)
    ensures |r| <= |s| && r == s[|s| - |r|..]
    ensures forall i :: 0 <= i < |s| - |r| ==> s[i] in chars
    ensures r != [] ==> r[0] !in chars
    decreases |s|
  {
    if s != [] && s[0] in chars then LStrip(s[1..], chars) else s
  }

  /** Python's `s.rstrip(chars)`: drops the longest suffix made of `chars`. */
  function RStrip(s: string, chars: set<char>): (r: string)
    ensures |r| <= |s| && r == s[..|r|]
    ensures forall i :: |r| <= i < |s| ==> s[i] in chars
    ensures r != [] ==> r[|r| - 1] !in chars
    decreases |s|
  {
    if s != [] && s[|s| - 1] in chars then RStrip(s[..|s| - 1], chars) else s
  }

  /** Python's `s.strip(chars)`: `chars` is a set of characters, not a word. */
  function Strip(s: string, chars: set<char>): string
  {
    RStrip(LStrip(s, chars), chars)
  }

  /** `strip` leaves a text whose first and last characters are outside `chars`. */
  lemma StripEdges(s: string, chars: set<char>)
    ensures var r := Strip(s, chars);
      r == [] || (r[0] !in chars && r[|r| - 1] !in chars)
  {
    var l := LStrip(s, chars);
    var r := RStrip(l, chars);
    if r != [] {
      assert r[0] == l[0];
    }
  }

  /** `strip` cuts only characters of `chars`, from the front and from the back
      of the piece it keeps at position `|s| - |LStrip(s, chars)|`. */
  lemma StripCutsOnlyChars(s: string, chars: set<char>)
    ensures forall k :: 0 <= k < |s| - |LStrip(s, chars)| ==> s[k] in chars
    ensures forall k :: |s| - |LStrip(s, chars)| + |Strip(s, chars)| <= k < |s| ==> s[k] in chars
  {
    var l := LStrip(s, chars);
    var i := |s| - |l|;
    assert l == s[i..];
    var n := |RStrip(l, chars)|;
    forall k | i + n <= k < |s| ensures s[k] in chars {
      assert l[k - i] in chars;
      assert s[k] == l[k - i];
    }
  }

  /** One character of `chars` on each side of a trimmed text is stripped. */
  lemma StripOneEachSide(c: char, mid: string, chars: set<char>)
    requires c in chars
    requires mid == [] || (mid[0] !in chars && mid[|mid| - 1] !in chars)
    ensures Strip([c] + mid + [c], chars) == mid
  {
    assert [c] + mid + [c] == [c] + (mid + [c]);
    LStripSkipsPrefix([c], mid + [c], chars);
    if mid == [] {
      LStripSkipsPrefix([c], [], chars);
      assert [c] + [] == [c];
    } else {
      assert (mid + [c])[0] == mid[0];
      RStripSkipsSuffix(mid, [c], chars);
    }
  }

  /** Where the stripped text sits in the original: it starts where `lstrip`
      stopped. */
  lemma StripOccurs(s: string, chars: set<char>) returns (i: int)
    ensures i == |s| - |LStrip(s, chars)|
    ensures OccursAt(s, Strip(s, chars), i)
  {
    var l := LStrip(s, chars);
    var r := RStrip(l, chars);
    i := |s| - |l|;
    assert l == s[i..];
    assert r == l[..|r|];
    assert s[i..i + |r|] == s[i..][..|r|];
  }

  /** Stripping twice, with any two sets, still leaves a piece of the input. */
  lemma StripTwiceContained(s: string, first: set<char>, second: set<char>)
    ensures Contains(s, Strip(Strip(s, first), second))
  {
    var m := Strip(s, first);
    var i := StripOccurs(s, first);
    var k := StripOccurs(m, second);
    OccursAtWithin(s, m, i, Strip(m, second), k);
    ContainsAt(s, Strip(m, second), i + k);
  }

  /** A text whose edge characters are outside `chars` is left as it is. */
  lemma StripLeavesTrimmed(s: string, chars: set<char>)
    requires s == [] || (s[0] !in chars && s[|s| - 1] !in chars)
    ensures Strip(s, chars) == s
  {
  }

  lemma StripIdempotent(s: string, chars: set<char>)
    ensures Strip(Strip(s, chars), chars) == Strip(s, chars)
  {
    StripEdges(s, chars);
    StripLeavesTrimmed(Strip(s, chars), chars);
  }

  /** Characters of `chars` in front of `s` are all dropped by `lstrip`. */
  lemma {:induction false} LStripSkipsPrefix(p: string, s: string, chars: set<char>)
    requires forall i :: 0 <= i < |p| ==> p[i] in chars
    ensures LStrip(p + s, chars) == LStrip(s, chars)
    decreases |p|
  {
    if p == [] {
      assert p + s == s;
    } else {
      assert (p + s)[1..] == p[1..] + s;
      LStripSkipsPrefix(p[1..], s, chars);
    }
  }

  /** Characters of `chars` after `s` are all dropped by `rstrip`. */
  lemma {:induction false} RStripSkipsSuffix(s: string, p: string, chars: set<char>)
    requires forall i :: 0 <= i < |p| ==> p[i] in chars
    ensures RStrip(s + p, chars) == RStrip(s, chars)
    decreases |p|
  {
    if p == [] {
      assert s + p == s;
    } else {
      assert (s + p)[..|s + p| - 1] == s + p[..|p| - 1];
      RStripSkipsSuffix(s, p[..|p| - 1], chars);
    }
  }

  function DigitChar(d: int): char
    requires 0 <= d < 10
  {
    (48 + d) as char
  }

  /** The decimal numeral of `n`, as Python's `str(n)` writes it: no sign,
      and no leading zero except for zero itself. */
  function NatToDecimal(n: nat): (r: string)
    ensures |r| > 0
    ensures forall i :: 0 <= i < |r| ==> '0' <= r[i] <= '9'
    ensures (r[0] == '0') <==> n == 0
    decreases n
  {
    if n < 10 then [DigitChar(n)] else NatToDecimal(n / 10) + [DigitChar(n % 10)]
  }

  /** The value of a numeral of decimal digits. */
  function DecimalValue(s: string): nat
    requires forall i :: 0 <= i < |s| ==> '0' <= s[i] <= '9'
    decreases |s|
  {
    if s == [] then 0 else DecimalValue(s[..|s| - 1]) * 10 + (s[|s| - 1] as int - 48)
  }

  /** Reading the numeral back gives the number: the rendering loses nothing. */
  lemma {:induction false} DecimalRoundTrip(n: nat)
    ensures DecimalValue(NatToDecimal(n)) == n
    decreases n
  {
    if n >= 10 {
      DecimalRoundTrip(n / 10);
      var r := NatToDecimal(n);
      assert r[..|r| - 1] == NatToDecimal(n / 10);
    }
  }
}
