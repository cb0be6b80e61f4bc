/**
  The JavaScript String built-ins the analyzer uses: `indexOf`,
  `lastIndexOf`, `substr`, `substring`, `replace` with a string pattern,
  `trim`, `join("")` and the rendering of numbers in template literals.
  A string is a sequence of Dafny characters (Unicode scalar values);
  offsets index that sequence. UTF-16 surrogate pairs are not modelled.
*/
module JsString {

  /** `pat` occurs in `s` at index `k`. */
  predicate OccursAt(s: string, pat: string, k: int)
  {
    0 <= k && k + |pat| <= |s| && s[k..k + |pat|] == pat
  }

  ghost predicate Contains(s: string, pat: string)
  {
    exists k :: OccursAt(s, pat, k)
  }

  /** An index argument clamped into `[0, n]`, as the String built-ins clamp it. */
  function Clamp(i: int, n: nat): nat
  {
    if i < 0 then 0 else if i > n then n else i
  }

  /** The first occurrence of `pat` at or after `k`, or -1. */
  function FindFrom(s: string, pat: string, k: nat): (r: int)
    requires k <= |s|
    ensures r == -1 || (k <= r && r + |pat| <= |s|)
    decreases |s| - k
  {
    if OccursAt(s, pat, k) then k
    else if k == |s| then -1
    else FindFrom(s, pat, k + 1)
  }

  lemma {:induction false} FindFromSpec(s: string, pat: string, k: nat)
    requires k <= |s|
    ensures var r := FindFrom(s, pat, k); r == -1 || OccursAt(s, pat, r)
    ensures var r := FindFrom(s, pat, k); forall j :: k <= j && (r == -1 || j < r) ==> !OccursAt(s, pat, j)
    decreases |s| - k
  {
    if !OccursAt(s, pat, k) && k < |s| {
      FindFromSpec(s, pat, k + 1);
    }
  }

  /** `s.indexOf(pat, from)`. */
  function IndexOf(s: string, pat: string, from: int): (r: int)
    ensures r == -1 || (Clamp(from, |s|) <= r && r + |pat| <= |s|)
  {
    FindFrom(s, pat, Clamp(from, |s|))
  }

  /**
    `indexOf` gives -1 exactly when `pat` does not occur at or after the
    clamped start, and otherwise the first occurrence there.
  */
  lemma IndexOfSpec(s: string, pat: string, from: int)
    ensures var r := IndexOf(s, pat, from);
      r == -1 <==> forall j :: Clamp(from, |s|) <= j ==> !OccursAt(s, pat, j)
    ensures var r := IndexOf(s, pat, from);
      r != -1 ==> OccursAt(s, pat, r) && forall j :: Clamp(from, |s|) <= j < r ==> !OccursAt(s, pat, j)
  {
    FindFromSpec(s, pat, Clamp(from, |s|));
  }

  /** The last occurrence of `pat` at or before `k`, or -1. */
  function FindBack(s: string, pat: string, k: int): (r: int)
    requires k <= |s|
    ensures r == -1 || (0 <= r <= k && r + |pat| <= |s|)
    decreases k + 1
  {
    if k < 0 then -1
    else if OccursAt(s, pat, k) then k
    else FindBack(s, pat, k - 1)
  }

  lemma {:induction false} FindBackSpec(s: string, pat: string, k: int)
    requires k <= |s|
    ensures var r := FindBack(s, pat, k); r == -1 || OccursAt(s, pat, r)
    ensures var r := FindBack(s, pat, k); forall j :: r < j <= k ==> !OccursAt(s, pat, j)
    decreases k + 1
  {
    if k >= 0 && !OccursAt(s, pat, k) {
      FindBackSpec(s, pat, k - 1);
    }
  }

  /** `s.lastIndexOf(pat)`. */
  function LastIndexOf(s: string, pat: string): (r: int)
    ensures r == -1 || (0 <= r && r + |pat| <= |s|)
  {
    FindBack(s, pat, |s|)
  }

  /** `lastIndexOf` gives -1 exactly when `pat` does not occur, and otherwise the last occurrence. */
  lemma LastIndexOfSpec(s: string, pat: string)
    ensures var r := LastIndexOf(s, pat); r == -1 <==> !Contains(s, pat)
    ensures var r := LastIndexOf(s, pat); r != -1 ==> OccursAt(s, pat, r) && forall j :: r < j ==> !OccursAt(s, pat, j)
  {
    FindBackSpec(s, pat, |s|);
    assert forall k :: OccursAt(s, pat, k) ==> k <= |s|;
  }

  /** `s.substr(start, len)` for a non-negative start. */
  function Substr(s: string, start: nat, len: nat): string
  {
    if start >= |s| then "" else s[start..if start + len <= |s| then start + len else |s|]
  }

  /** `s.substring(a, b)`: both ends clamped, swapped when out of order. */
  function Substring(s: string, a: int, b: int): string
  {
    var x, y := Clamp(a, |s|), Clamp(b, |s|);
    if x <= y then s[x..y] else s[y..x]
  }

  /**
    `s.replace(pat, rep)` with a string pattern and a replacement that holds
    no `$` (JavaScript expands `$&`, `$$`, `` $` `` and `$'` in it).
  */
  function ReplaceFirst(s: string, pat: string, rep: string): string
  {
    var k := IndexOf(s, pat, 0);
    if k < 0 then s else s[..k] + rep + s[k + |pat|..]
  }

  /**
    `replace` with a string pattern changes only the first occurrence, and
    leaves a string without one as it is.
  */
  lemma ReplaceFirstSpec(s: string, pat: string, rep: string)
    ensures !Contains(s, pat) ==> ReplaceFirst(s, pat, rep) == s
    ensures Contains(s, pat) ==>
      exists k :: OccursAt(s, pat, k) && (forall j :: 0 <= j < k ==> !OccursAt(s, pat, j))
                  && ReplaceFirst(s, pat, rep) == s[..k] + rep + s[k + |pat|..]
  {
    IndexOfSpec(s, pat, 0);
    var k := IndexOf(s, pat, 0);
    if k >= 0 {
      assert OccursAt(s, pat, k) && (forall j :: 0 <= j < k ==> !OccursAt(s, pat, j))
             && ReplaceFirst(s, pat, rep) == s[..k] + rep + s[k + |pat|..];
    }
  }

  /** The result of `replace` is made of characters of `s` and of `rep`. */
  lemma ReplaceFirstCharacters(s: string, pat: string, rep: string)
    ensures forall c :: c in ReplaceFirst(s, pat, rep) ==> c in s || c in rep
  {
    var k := IndexOf(s, pat, 0);
    if k >= 0 {
      assert forall c :: c in s[..k] || c in s[k + |pat|..] ==> c in s;
    }
  }

  /** The characters `trim` removes: ECMAScript WhiteSpace and LineTerminator code points. */
  predicate IsWhiteSpace(c: char)
  {
    var n := c as int;
    n == 0x09 || n == 0x0A || n == 0x0B || n == 0x0C || n == 0x0D || n == 0x20 ||
    n == 0xA0 || n == 0x1680 || (0x2000 <= n <= 0x200A) || n == 0x2028 || n == 0x2029 ||
    n == 0x202F || n == 0x205F || n == 0x3000 || n == 0xFEFF
  }

  predicate AllWhiteSpace(s: string)
  {
    forall i :: 0 <= i < |s| ==> IsWhiteSpace(s[i])
  }

  function TrimStart(s: string): (r: string)
    ensures |r| <= |s|
  {
    if s != [] && IsWhiteSpace(s[0]) then TrimStart(s[1..]) else s
  }

  /** `trimStart` keeps a suffix, cuts only white space, and leaves none in front. */
  lemma {:induction false} TrimStartSpec(s: string)
    ensures var r := TrimStart(s); r == s[|s| - |r|..] && AllWhiteSpace(s[..|s| - |r|])
    ensures var r := TrimStart(s); r == [] || !IsWhiteSpace(r[0])
    decreases |s|
  {
    if s != [] && IsWhiteSpace(s[0]) {
      var t := s[1..];
      TrimStartSpec(t);
      var r := TrimStart(t);
      assert s[|s| - |r|..] == t[|t| - |r|..];
      forall i | 0 <= i < |s| - |r| ensures IsWhiteSpace(s[i]) {
        if i > 0 {
          assert s[i] == t[..|t| - |r|][i - 1];
        }
      }
    }
  }

  function TrimEnd(s: string): (r: string)
    ensures |r| <= |s|
  {
    if s != [] && IsWhiteSpace(s[|s| - 1]) then TrimEnd(s[..|s| - 1]) else s
  }

  /** `trimEnd` keeps a prefix, cuts only white space, and leaves none at the back. */
  lemma {:induction false} TrimEndSpec(s: string)
    ensures var r := TrimEnd(s); r == s[..|r|] && AllWhiteSpace(s[|r|..])
    ensures var r := TrimEnd(s); r == [] || !IsWhiteSpace(r[|r| - 1])
    decreases |s|
  {
    if s != [] && IsWhiteSpace(s[|s| - 1]) {
      var t := s[..|s| - 1];
      TrimEndSpec(t);
      var r := TrimEnd(t);
      assert s[..|r|] == t[..|r|];
      forall i | |r| <= i < |s| ensures IsWhiteSpace(s[i]) {
        if i < |s| - 1 {
          assert s[i] == t[|r|..][i - |r|];
        }
      }
    }
  }

  /** `s.trim()`. */
  function Trim(s: string): string
  {
    TrimEnd(TrimStart(s))
  }

  /** A prefix of a suffix is a slice, and what lies beyond it is what lay beyond it in the suffix. */
  lemma SliceOfSuffix(s: string, t: string, r: string)
    requires |t| <= |s| && t == s[|s| - |t|..]
    requires |r| <= |t| && r == t[..|r|]
    requires AllWhiteSpace(t[|r|..])
    ensures var a := |s| - |t|; r == s[a..a + |r|] && AllWhiteSpace(s[a + |r|..])
  {
    var a := |s| - |t|;
    assert s[a..a + |r|] == t[..|r|];
    assert s[a + |r|..] == t[|r|..];
  }

  /** `trim` cuts off leading and trailing white space and nothing else, and leaves none at either end. */
  lemma TrimSpec(s: string)
    ensures var r := Trim(s);
      exists a :: 0 <= a <= |s| - |r| && r == s[a..a + |r|]
                  && AllWhiteSpace(s[..a]) && AllWhiteSpace(s[a + |r|..])
    ensures var r := Trim(s); r == [] || (!IsWhiteSpace(r[0]) && !IsWhiteSpace(r[|r| - 1]))
  {
    var t := TrimStart(s);
    var r := TrimEnd(t);
    var a := |s| - |t|;
    TrimStartSpec(s);
    TrimEndSpec(t);
    SliceOfSuffix(s, t, r);
    assert AllWhiteSpace(s[..a]) && AllWhiteSpace(s[a + |r|..]);
  }

  /** `parts.join("")`, folded from the left. */
  function Join(parts: seq<string>): string
  {
    if parts == [] then "" else Join(parts[..|parts| - 1]) + parts[|parts| - 1]
  }

  predicate IsDigit(c: char)
  {
    '0' <= c <= '9'
  }

  predicate AllDigits(s: string)
  {
    forall i :: 0 <= i < |s| ==> IsDigit(s[i])
  }

  function DigitChar(d: nat): char
    requires d < 10
  {
    ('0' as int + d) as char
  }

  /** `${n}` for a non-negative integer: its decimal digits, without leading zeros. */
  function NatToString(n: nat): (s: string)
    ensures |s| >= 1 && AllDigits(s)
    ensures s[0] == '0' ==> n == 0 && s == "0"
    decreases n
  {
    if n < 10 then [DigitChar(n)] else NatToString(n / 10) + [DigitChar(n % 10)]
  }

  /** `${i}` for any integer: a minus sign before the digits of a negative value. */
  function IntToString(i: int): string
  {
    if i < 0 then "-" + NatToString(-i) else NatToString(i)
  }

  /** The number a string of decimal digits denotes. */
  function DigitsValue(s: string): nat
    requires AllDigits(s)
  {
    if s == [] then 0 else DigitsValue(s[..|s| - 1]) * 10 + (s[|s| - 1] as int - '0' as int)
  }

  /** Reading the rendered digits back gives the number. */
  lemma {:induction false} NatToStringRoundTrip(n: nat)
    ensures DigitsValue(NatToString(n)) == n
    decreases n
  {
    if n >= 10 {
      var s := NatToString(n);
      assert s[..|s| - 1] == NatToString(n / 10);
      NatToStringRoundTrip(n / 10);
    }
  }

  /** Distinct numbers render differently. */
  lemma NatToStringInjective(a: nat, b: nat)
    ensures NatToString(a) == NatToString(b) ==> a == b
  {
    NatToStringRoundTrip(a);
    NatToStringRoundTrip(b);
  }

  /** A one-character pattern occurs exactly where that character stands. */
  lemma OccursAtChar(s: string, c: char, k: int)
    ensures OccursAt(s, [c], k) <==> 0 <= k < |s| && s[k] == c
  {
    if 0 <= k < |s| {
      assert s[k..k + 1] == [s[k]];
    }
  }

  /** A pattern cannot occur in a string that lacks one of its characters. */
  lemma AbsentCharExcludes(s: string, pat: string, c: char)
    requires c in pat && c !in s
    ensures !Contains(s, pat)
  {
  }

  /** An occurrence fixes each character it covers. */
  lemma OccursAtIndex(s: string, pat: string, k: int, i: nat)
    requires OccursAt(s, pat, k) && i < |pat|
    ensures s[k + i] == pat[i]
  {
    assert s[k..k + |pat|][i] == pat[i];
  }

  /** `replace` acts on the first occurrence. */
  lemma FirstOccurrence(s: string, pat: string, rep: string, k: int)
    requires OccursAt(s, pat, k) && forall j :: 0 <= j < k ==> !OccursAt(s, pat, j)
    ensures IndexOf(s, pat, 0) == k
    ensures ReplaceFirst(s, pat, rep) == s[..k] + rep + s[k + |pat|..]
  {
    IndexOfSpec(s, pat, 0);
  }

  /** `lastIndexOf` finds the last occurrence. */
  lemma LastOccurrence(s: string, pat: string, k: int)
    requires OccursAt(s, pat, k) && forall j :: k < j ==> !OccursAt(s, pat, j)
    ensures LastIndexOf(s, pat) == k
  {
    LastIndexOfSpec(s, pat);
  }

  /** A mismatching character rules an occurrence out. */
  lemma MismatchExcludes(s: string, pat: string, k: nat, i: nat)
    requires i < |pat| && k + i < |s| && s[k + i] != pat[i]
    ensures !OccursAt(s, pat, k)
  {
    if k + |pat| <= |s| {
      assert s[k..k + |pat|][i] == s[k + i];
    }
  }

  /** Occurrences in a suffix are the occurrences in the whole string, shifted. */
  lemma OccursInSuffix(s: string, pat: string, a: nat, k: int)
    requires a <= |s| && a <= k
    ensures OccursAt(s, pat, k) <==> OccursAt(s[a..], pat, k - a)
  {
    if k + |pat| <= |s| {
      assert s[k..k + |pat|] == s[a..][k - a..k - a + |pat|];
    }
  }
}
