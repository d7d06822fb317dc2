/**
 * The JavaScript string primitives the simulator's line handling relies on,
 * stated over Dafny strings (one `char` per Unicode scalar value):
 * the white-space class shared by `String.prototype.trim` and the regular
 * expression class `\s`, `trim`, `replace` with a string pattern (which
 * replaces the FIRST occurrence only), the `^(\S+)` match, and the decimal
 * rendering of a non-negative integer.
 */
module Text {
  import opened Wrappers

  /** ECMAScript WhiteSpace and LineTerminator code points. ESC (U+001B) is not one of them. */
  predicate IsWhite(c: char) {
    || c == '\t' || c == '\n' || c == '\U{B}' || c == '\U{C}' || c == '\r' || c == ' '
    || c == '\U{A0}' || c == '\U{1680}' || ('\U{2000}' <= c <= '\U{200A}')
    || c == '\U{2028}' || c == '\U{2029}' || c == '\U{202F}' || c == '\U{205F}'
    || c == '\U{3000}' || c == '\U{FEFF}'
  }

  predicate AllWhite(s: string) {
    forall i :: 0 <= i < |s| ==> IsWhite(s[i])
  }

  predicate NoWhite(s: string) {
    forall i :: 0 <= i < |s| ==> !IsWhite(s[i])
  }

  lemma NoWhiteConcat(a: string, b: string)
    requires NoWhite(a) && NoWhite(b)
    ensures NoWhite(a + b)
  {
    forall i | 0 <= i < |a + b| ensures !IsWhite((a + b)[i]) {
      if i >= |a| { assert (a + b)[i] == b[i - |a|]; }
    }
  }

  // ---------------------------------------------------------------------
  // trim
  // ---------------------------------------------------------------------

  /** Drops leading white space. */
  function TrimStart(s: string): string
  {
    if |s| > 0 && IsWhite(s[0]) then TrimStart(s[1..]) else s
  }

  /** `TrimStart` keeps the suffix of `s` that starts at its first non-white character. */
  lemma {:induction false} TrimStartSpec(s: string)
    ensures var r := TrimStart(s); |r| <= |s| && r == s[|s| - |r|..]
    ensures var r := TrimStart(s); AllWhite(s[..|s| - |r|])
    ensures var r := TrimStart(s); r == [] || !IsWhite(r[0])
  {
    if |s| > 0 && IsWhite(s[0]) {
      var tail := s[1..];
      var r := TrimStart(tail);
      TrimStartSpec(tail);
      assert tail[|tail| - |r|..] == s[|s| - |r|..];
      var dropped, rest := s[..|s| - |r|], tail[..|tail| - |r|];
      forall i | 0 <= i < |dropped| ensures IsWhite(dropped[i]) {
        if i > 0 {
          assert dropped[i] == rest[i - 1];
        }
      }
    }
  }

  /** Drops trailing white space. */
  function TrimEnd(s: string): string
  {
    if |s| > 0 && IsWhite(s[|s| - 1]) then TrimEnd(s[..|s| - 1]) else s
  }

  /** `TrimEnd` keeps the prefix of `s` that ends at its last non-white character. */
  lemma {:induction false} TrimEndSpec(s: string)
    ensures var r := TrimEnd(s); |r| <= |s| && r == s[..|r|]
    ensures var r := TrimEnd(s); AllWhite(s[|r|..])
    ensures var r := TrimEnd(s); r == [] || !IsWhite(r[|r| - 1])
  {
    if |s| > 0 && IsWhite(s[|s| - 1]) {
      var r := TrimEnd(s[..|s| - 1]);
      TrimEndSpec(s[..|s| - 1]);
      assert s[..|s| - 1][..|r|] == s[..|r|];
      assert s[|r|..] == s[..|s| - 1][|r|..] + [s[|s| - 1]];
    }
  }

  /** `s.trim()` */
  function Trim(s: string): string
  {
    TrimEnd(TrimStart(s))
  }

  /** A trimmed string neither starts nor ends with white space. */
  lemma TrimSpec(s: string)
    ensures var r := Trim(s); r == [] || (!IsWhite(r[0]) && !IsWhite(r[|r| - 1]))
  {
    TrimStartSpec(s);
    TrimEndSpec(TrimStart(s));
  }

  /** Trimming leaves the empty string exactly when the input is all white space. */
  lemma TrimEmptyIffAllWhite(s: string)
    ensures Trim(s) == [] <==> AllWhite(s)
  {
    var t := TrimStart(s);
    TrimStartSpec(s);
    TrimEndSpec(t);
    if Trim(s) == [] {
      assert AllWhite(t[0..]);
      assert s == s[..|s| - |t|] + t;
    }
  }

  /** Trimming a string that does not start or end with white space changes nothing, so `Trim` is idempotent. */
  lemma {:induction false} TrimIdempotent(s: string)
    ensures Trim(Trim(s)) == Trim(s)
  {
    var r := Trim(s);
    TrimSpec(s);
    if r != [] {
      assert TrimStart(r) == r;
      assert TrimEnd(r) == r;
    }
  }

  /** A non-white prefix shields the rest of the string from `TrimEnd` only through its last character. */
  lemma {:induction false} TrimEndAfterWord(x: string, v: string)
    requires x != [] && !IsWhite(x[|x| - 1])
    ensures TrimEnd(x + v) == x + TrimEnd(v)
    decreases |v|
  {
    if v == [] {
      assert x + v == x;
    } else if IsWhite(v[|v| - 1]) {
      assert (x + v)[..|x + v| - 1] == x + v[..|v| - 1];
      TrimEndAfterWord(x, v[..|v| - 1]);
    } else {
      assert (x + v)[|x + v| - 1] == v[|v| - 1];
    }
  }

  // ---------------------------------------------------------------------
  // replace(pattern, replacement) with a string pattern
  // ---------------------------------------------------------------------

  /** `pat` occurs in `s` starting at index `i`. */
  predicate OccursAt(s: string, pat: string, i: int) {
    0 <= i && i + |pat| <= |s| && s[i..i + |pat|] == pat
  }

  /** `pat` occurs at `i` and nowhere before. */
  predicate FirstOccurrence(s: string, pat: string, i: int) {
    OccursAt(s, pat, i) && forall j :: 0 <= j < i ==> !OccursAt(s, pat, j)
  }

  predicate Absent(s: string, pat: string) {
    forall j :: 0 <= j <= |s| ==> !OccursAt(s, pat, j)
  }

  /** Occurrences in `s` past its first character are the occurrences in `s[1..]`, shifted by one. */
  lemma OccursAtTail(s: string, pat: string)
    requires s != []
    ensures forall j :: 0 <= j < |s| ==> (OccursAt(s[1..], pat, j) <==> OccursAt(s, pat, j + 1))
  {
    forall j | 0 <= j < |s| ensures OccursAt(s[1..], pat, j) <==> OccursAt(s, pat, j + 1) {
      if j + 1 + |pat| <= |s| {
        assert s[1..][j..j + |pat|] == s[j + 1..j + 1 + |pat|];
      }
    }
  }

  /** The replacement in `s[1..]`, behind an unmatched first character, is the replacement in `s`. */
  lemma ReplaceFirstStep(s: string, pat: string, rep: string, tail: string)
    requires s != [] && !OccursAt(s, pat, 0)
    requires Absent(s[1..], pat) ==> tail == s[1..]
    requires forall i {:trigger FirstOccurrence(s[1..], pat, i)} ::
               FirstOccurrence(s[1..], pat, i) ==> tail == s[1..][..i] + rep + s[1..][i + |pat|..]
    ensures Absent(s, pat) ==> [s[0]] + tail == s
    ensures forall i {:trigger FirstOccurrence(s, pat, i)} ::
              FirstOccurrence(s, pat, i) ==> [s[0]] + tail == s[..i] + rep + s[i + |pat|..]
  {
    OccursAtTail(s, pat);
    if Absent(s, pat) {
      assert Absent(s[1..], pat);
      assert [s[0]] + s[1..] == s;
    }
    forall i | FirstOccurrence(s, pat, i) ensures [s[0]] + tail == s[..i] + rep + s[i + |pat|..] {
      FirstOccurrenceTail(s, pat, i);
      ReplaceAtTail(s, pat, rep, i);
    }
  }

  /** A first occurrence past index 0 is the first occurrence of the tail, one index earlier. */
  lemma FirstOccurrenceTail(s: string, pat: string, i: int)
    requires s != [] && !OccursAt(s, pat, 0) && FirstOccurrence(s, pat, i)
    ensures i > 0 && FirstOccurrence(s[1..], pat, i - 1)
  {
    OccursAtTail(s, pat);
  }

  lemma ReplaceAtTail(s: string, pat: string, rep: string, i: int)
    requires 0 < i && i + |pat| <= |s|
    ensures [s[0]] + (s[1..][..i - 1] + rep + s[1..][i - 1 + |pat|..]) == s[..i] + rep + s[i + |pat|..]
  {
    assert s[..i] == [s[0]] + s[1..][..i - 1];
    assert s[i + |pat|..] == s[1..][i - 1 + |pat|..];
  }

  /** `s.replace(pat, rep)` for a string pattern. */
  function ReplaceFirst(s: string, pat: string, rep: string): string
  {
    if |s| < |pat| then s
    else if s[..|pat|] == pat then rep + s[|pat|..]
    else [s[0]] + ReplaceFirst(s[1..], pat, rep)
  }

  /**
   * Only the first occurrence of `pat` is replaced, and a string without
   * `pat` is returned unchanged.
   */
  lemma {:induction false} ReplaceFirstSpec(s: string, pat: string, rep: string)
    ensures Absent(s, pat) ==> ReplaceFirst(s, pat, rep) == s
    ensures forall i {:trigger FirstOccurrence(s, pat, i)} ::
              FirstOccurrence(s, pat, i) ==> ReplaceFirst(s, pat, rep) == s[..i] + rep + s[i + |pat|..]
    decreases |s|
  {
    if |s| < |pat| {
    } else if s[..|pat|] == pat {
      assert OccursAt(s, pat, 0) && s[..0] == [];
    } else {
      ReplaceFirstSpec(s[1..], pat, rep);
      ReplaceFirstStep(s, pat, rep, ReplaceFirst(s[1..], pat, rep));
    }
  }

  /** Some occurrence exists at or before `i` that has none before it. */
  lemma {:induction false} FirstIndex(s: string, pat: string, i: nat) returns (k: nat)
    requires OccursAt(s, pat, i)
    ensures k <= i && FirstOccurrence(s, pat, k)
    decreases i
  {
    if j :| 0 <= j < i && OccursAt(s, pat, j) {
      k := FirstIndex(s, pat, j);
    } else {
      k := i;
    }
  }

  /** The one-character multiset `{c}` when `c` occurs in `s`, else the empty multiset. */
  function Once(s: string, c: char): (m: multiset<char>)
    ensures m <= multiset{c} && (m == multiset{} <==> c !in s)
  {
    if c in s then multiset{c} else multiset{}
  }

  /** Replacing the first occurrence of a character by nothing removes exactly one copy of it, if there is one. */
  lemma RemoveFirstChar(s: string, c: char)
    ensures multiset(ReplaceFirst(s, [c], "")) == multiset(s) - Once(s, c)
  {
    if c in s {
      var i :| 0 <= i < |s| && s[i] == c;
      RemovePresentChar(s, c, i);
    } else {
      CharAbsent(s, c);
      ReplaceFirstSpec(s, [c], "");
    }
  }

  lemma RemovePresentChar(s: string, c: char, i: nat)
    requires i < |s| && s[i] == c
    ensures multiset(ReplaceFirst(s, [c], "")) == multiset(s) - multiset{c}
  {
    var k := FirstCharIndex(s, c, i);
    RemoveAt(s, c, k);
    MultisetSplit(s, k);
  }

  /** The first `c` in `s`, given one at index `i`. */
  lemma FirstCharIndex(s: string, c: char, i: nat) returns (k: nat)
    requires i < |s| && s[i] == c
    ensures k < |s| && s[k] == c && FirstOccurrence(s, [c], k)
  {
    assert OccursAt(s, [c], i) by { assert s[i..i + 1] == [c]; }
    k := FirstIndex(s, [c], i);
    assert s[k..k + 1][0] == s[k];
  }

  lemma RemoveAt(s: string, c: char, k: nat)
    requires FirstOccurrence(s, [c], k)
    ensures ReplaceFirst(s, [c], "") == s[..k] + s[k + 1..]
  {
    ReplaceFirstSpec(s, [c], "");
  }

  lemma MultisetSplit(s: string, k: nat)
    requires k < |s|
    ensures multiset(s) == multiset(s[..k] + s[k + 1..]) + multiset{s[k]}
  {
    assert s == s[..k] + [s[k]] + s[k + 1..];
  }

  /** A character that does not occur in `t` is absent from it as a one-character pattern. */
  lemma CharAbsent(t: string, c: char)
    requires c !in t
    ensures Absent(t, [c])
  {
    forall j | 0 <= j <= |t| ensures !OccursAt(t, [c], j) {
      if j + 1 <= |t| { assert t[j..j + 1][0] == t[j]; }
    }
  }

  /** Removing the first `c` leaves the presence of every other character as it was. */
  lemma RemoveFirstCharKeepsOthers(s: string, c: char, d: char)
    requires c != d
    ensures Once(ReplaceFirst(s, [c], ""), d) == Once(s, d)
  {
    var r := ReplaceFirst(s, [c], "");
    RemoveFirstChar(s, c);
    assert multiset(r)[d] == multiset(s)[d];
    assert d in r <==> d in multiset(r);
    assert d in s <==> d in multiset(s);
  }

  /** A single-character pattern absent from a prefix is replaced in the rest only. */
  lemma {:induction false} ReplaceFirstSkipsPrefix(x: string, u: string, pat: string, rep: string)
    requires |pat| == 1 && pat[0] !in x
    ensures ReplaceFirst(x + u, pat, rep) == x + ReplaceFirst(u, pat, rep)
    decreases |x|
  {
    if x == [] {
      assert x + u == u;
    } else {
      assert (x + u)[..1] != pat by { assert (x + u)[..1][0] == x[0]; }
      assert (x + u)[1..] == x[1..] + u;
      ReplaceFirstSkipsPrefix(x[1..], u, pat, rep);
    }
  }

  // ---------------------------------------------------------------------
  // s.match(/^(\S+)/)
  // ---------------------------------------------------------------------

  /** The capture of `^(\S+)`; the match fails exactly when this is empty. */
  function FirstWord(s: string): string
  {
    if |s| == 0 || IsWhite(s[0]) then "" else [s[0]] + FirstWord(s[1..])
  }

  /** The capture is the longest prefix of `s` made of non-white characters. */
  lemma {:induction false} FirstWordSpec(s: string)
    ensures var w := FirstWord(s); |w| <= |s| && w == s[..|w|]
    ensures NoWhite(FirstWord(s))
    ensures var w := FirstWord(s); |w| < |s| ==> IsWhite(s[|w|])
  {
    if |s| > 0 && !IsWhite(s[0]) {
      var w := FirstWord(s[1..]);
      FirstWordSpec(s[1..]);
      assert s[..1 + |w|] == [s[0]] + s[1..][..|w|];
      NoWhiteConcat([s[0]], w);
      if 1 + |w| < |s| {
        assert s[1 + |w|] == s[1..][|w|];
      }
    }
  }

  /** The `^(\S+)` match succeeds on every string that starts with a non-white character. */
  lemma FirstWordNonEmpty(s: string)
    requires s != [] && !IsWhite(s[0])
    ensures FirstWord(s) != [] && FirstWord(s)[0] == s[0]
  {
  }

  // ---------------------------------------------------------------------
  // Decimal rendering of naturals (Number.prototype.toFixed's integer part)
  // ---------------------------------------------------------------------

  function DigitChar(d: nat): (c: char)
    requires d < 10
    ensures '0' <= c <= '9' && c as int - '0' as int == d
  {
    ['0', '1', '2', '3', '4', '5', '6', '7', '8', '9'][d]
  }

  predicate IsDigits(s: string) {
    forall i :: 0 <= i < |s| ==> '0' <= s[i] <= '9'
  }

  /** Decimal notation of `n`. */
  function NatToString(n: nat): string
  {
    if n < 10 then [DigitChar(n)] else NatToString(n / 10) + [DigitChar(n % 10)]
  }

  /** The notation is the shortest one: digits only, and no leading zero unless `n` is 0. */
  lemma {:induction false} NatToStringSpec(n: nat)
    ensures var r := NatToString(n); r != [] && IsDigits(r)
    ensures var r := NatToString(n); r[0] == '0' ==> n == 0 && r == "0"
  {
    if n >= 10 {
      NatToStringSpec(n / 10);
      var r := NatToString(n);
      assert r[0] == NatToString(n / 10)[0];
    }
  }

  /** Reads a string of decimal digits back into a number. */
  function ParseNat(s: string): nat
    requires IsDigits(s)
  {
    if s == [] then 0 else 10 * ParseNat(s[..|s| - 1]) + (s[|s| - 1] as int - '0' as int)
  }

  /** Rendering and reading back are inverse: the decimal text denotes exactly `n`. */
  lemma {:induction false} ParseNatToString(n: nat)
    ensures IsDigits(NatToString(n))
    ensures ParseNat(NatToString(n)) == n
  {
    NatToStringSpec(n);
    var r := NatToString(n);
    if n < 10 {
      assert r[..|r| - 1] == [];
    } else {
      ParseNatToString(n / 10);
      assert r[..|r| - 1] == NatToString(n / 10);
    }
  }
}
