/** The Python string built-ins that the query pipeline relies on: `str.upper`,
    `str.strip`, `in`, `str.find`, `str.split(sep)[1]`, `str.replace(pat, "")`,
    `sep.join(parts)` and `f"{n}"` for integers. */
module Text {

  /** Python's `str.isspace()` on one code point. */
  predicate IsSpace(c: char) {
    c == ' ' || ('\t' <= c <= '\r') || ('\U{1C}' <= c <= '\U{1F}')
    || c == '\U{85}' || c == '\U{A0}' || c == '\U{1680}'
    || ('\U{2000}' <= c <= '\U{200A}') || c == '\U{2028}' || c == '\U{2029}'
    || c == '\U{202F}' || c == '\U{205F}' || c == '\U{3000}'
  }

  /** `str.upper()` on one code point, for the ASCII letters. */
  function UpperChar(c: char): char {
    if 'a' <= c <= 'z' then (c as int - 'a' as int + 'A' as int) as char else c
  }

  /** `str.upper()`: maps each character on its own, so length and positions
      are kept, and no lower-case ASCII letter is left. */
  function Upper(s: string): (r: string)
    ensures |r| == |s|
    ensures forall i :: 0 <= i < |s| ==> r[i] == UpperChar(s[i])
    ensures forall i :: 0 <= i < |r| ==> !('a' <= r[i] <= 'z')
  {
    seq(|s|, i requires 0 <= i < |s| => UpperChar(s[i]))
  }

  /** Upper-casing twice is upper-casing once. */
  lemma UpperIdempotent(s: string)
    ensures Upper(Upper(s)) == Upper(s)
  {
    var u := Upper(s);
    forall i | 0 <= i < |u|
      ensures Upper(u)[i] == u[i]
    {
      assert !('a' <= u[i] <= 'z');
    }
  }

  /** Upper-casing commutes with taking a slice. */
  lemma UpperSlice(s: string, i: int, j: int)
    requires 0 <= i <= j <= |s|
    ensures Upper(s)[i..j] == Upper(s[i..j])
  {
  }

  /** `pat` sits in `s` at position `i`. */
  predicate OccursAt(pat: string, s: string, i: int) {
    0 <= i && i + |pat| <= |s| && s[i..i + |pat|] == pat
  }

  /** `pat in s`, stated as a position. */
  ghost predicate Occurs(pat: string, s: string) {
    exists i :: OccursAt(pat, s, i)
  }

  /** `s.find(pat)`: the first position of `pat` in `s`, or -1 when there is none. */
  function Find(s: string, pat: string): (r: int)
    ensures -1 <= r <= |s|
    ensures r >= 0 ==> OccursAt(pat, s, r)
    ensures forall j :: 0 <= j && (r < 0 || j < r) ==> !OccursAt(pat, s, j)
    decreases |s|
  {
    if |s| < |pat| then -1
    else if s[..|pat|] == pat then 0
    else
      var k := Find(s[1..], pat);
      assert forall j :: 1 <= j && OccursAt(pat, s, j) ==> OccursAt(pat, s[1..], j - 1);
      if k < 0 then -1 else k + 1
  }

  /** `pat in s`. */
  predicate Contains(s: string, pat: string) {
    Find(s, pat) >= 0
  }

  lemma ContainsIff(s: string, pat: string)
    ensures Contains(s, pat) <==> Occurs(pat, s)
  {
  }

  /** A pattern that extends `pat` can only occur where `pat` occurs. */
  lemma OccursPrefix(pat: string, more: string, s: string)
    ensures Occurs(pat + more, s) ==> Occurs(pat, s)
  {
    if i :| OccursAt(pat + more, s, i) {
      assert s[i..i + |pat|] == (pat + more)[..|pat|];
      assert OccursAt(pat, s, i);
    }
  }

  /** A pattern is absent from a text that lacks one of its characters. */
  lemma CharAbsent(k: string, s: string, j: nat)
    requires j < |k| && k[j] !in s
    ensures !Occurs(k, s)
  {
    forall i | 0 <= i && i + |k| <= |s|
      ensures !OccursAt(k, s, i)
    {
      assert s[i + j] in s;
    }
  }

  /** A pattern is absent from a text that lacks one of its pairs of adjacent characters. */
  lemma PairAbsent(k: string, s: string, j: nat)
    requires j + 1 < |k|
    requires forall i :: 0 <= i < |s| - 1 ==> !(s[i] == k[j] && s[i + 1] == k[j + 1])
    ensures !Occurs(k, s)
  {
    forall i | 0 <= i && i + |k| <= |s|
      ensures !OccursAt(k, s, i)
    {
      assert 0 <= i + j < |s| - 1;
      assert !(s[i + j] == k[j] && s[i + j + 1] == k[j + 1]);
      assert s[i..i + |k|][j] == s[i + j] && s[i..i + |k|][j + 1] == s[i + j + 1];
    }
  }


  /** A slice past the first character of `[c] + t` is a slice of `t`. */
  lemma ConsSlice(c: char, t: string, i: int, j: int)
    requires 1 <= i <= j <= |t| + 1
    ensures ([c] + t)[i..j] == t[i - 1..j - 1]
  {
    forall k | 0 <= k < j - i
      ensures ([c] + t)[i..j][k] == t[i - 1..j - 1][k]
    {
      assert ([c] + t)[i + k] == t[i - 1 + k];
    }
  }

  /** A prefix no longer than `s` is the same in `s` and in `s + t`. */
  lemma PrefixThroughAppend(s: string, t: string, n: nat)
    ensures n <= |s| ==> (s + t)[..n] == s[..n]
  {
  }

  /** A contiguous slice of `s` holds no pattern that `s` does not hold. */
  lemma OccursInSlice(pat: string, s: string, i: int, j: int)
    requires 0 <= i <= j <= |s|
    requires Occurs(pat, s[i..j])
    ensures Occurs(pat, s)
  {
    var k :| OccursAt(pat, s[i..j], k);
    assert 0 <= k && k + |pat| <= j - i;
    forall m | 0 <= m < |pat|
      ensures s[i + k..i + k + |pat|][m] == pat[m]
    {
      assert s[i..j][k..k + |pat|][m] == pat[m];
    }
    assert OccursAt(pat, s, i + k);
  }

  /** A prefix of `s` holds no occurrence of `pat` that does not start,
      within the prefix, at a position of `s` holding one. */
  lemma NoOccurrenceInPrefix(pat: string, s: string, n: int)
    requires |pat| > 0 && 0 <= n <= |s|
    requires forall k :: 0 <= k < n ==> !OccursAt(pat, s, k)
    ensures !Occurs(pat, s[..n])
  {
    forall k | 0 <= k && k + |pat| <= n
      ensures !OccursAt(pat, s[..n], k)
    {
      assert !OccursAt(pat, s, k);
      assert s[..n][k..k + |pat|] == s[k..k + |pat|];
    }
  }

  /** Cutting `s` at the first occurrence of `sep`: the text before it holds
      no `sep`, and the pieces put back together give `s`. */
  lemma FirstCut(s: string, sep: string)
    requires |sep| > 0 && Contains(s, sep)
    ensures var i := Find(s, sep);
      && i + |sep| <= |s|
      && s == s[..i] + sep + s[i + |sep|..] && !Occurs(sep, s[..i])
  {
    var i := Find(s, sep);
    NoOccurrenceInPrefix(sep, s, i);
    assert OccursAt(sep, s, i);
    assert s[i..i + |sep|] == sep;
    assert s == s[..i] + s[i..i + |sep|] + s[i + |sep|..];
  }

  /** Cutting `s` before the first occurrence of `sep`, if any: the text before
      it holds no `sep`, and what follows opens with `sep`. */
  lemma NextCut(s: string, sep: string)
    requires |sep| > 0
    ensures var j := Find(s, sep);
      && (j < 0 ==> !Occurs(sep, s))
      && (j >= 0 ==> && s == s[..j] + s[j..] && !Occurs(sep, s[..j])
                     && |sep| <= |s[j..]| && s[j..][..|sep|] == sep)
  {
    var j := Find(s, sep);
    if j >= 0 {
      NoOccurrenceInPrefix(sep, s, j);
      assert s == s[..j] + s[j..];
      assert s[j..][..|sep|] == s[j..j + |sep|];
    }
  }

  /** `s.split(sep)[1]`: the text between the first and the second occurrence
      of `sep`, or to the end of `s` when there is no second one. */
  function SplitSecond(s: string, sep: string): (r: string)
    requires |sep| > 0 && Contains(s, sep)
    ensures !Occurs(sep, r)
  {
    var tail := s[Find(s, sep) + |sep|..];
    var j := Find(tail, sep);
    if j < 0 then tail
    else
      assert forall k :: OccursAt(sep, tail[..j], k) ==> OccursAt(sep, tail, k);
      tail[..j]
  }

  /** Where `lstrip` stops: the first position from `i` on that does not
      hold white space, or the end. */
  function SpaceEnd(s: string, i: nat): (j: nat)
    requires i <= |s|
    ensures i <= j <= |s|
    ensures j == |s| || !IsSpace(s[j])
    decreases |s| - i
  {
    if i == |s| || !IsSpace(s[i]) then i else SpaceEnd(s, i + 1)
  }

  /** Where `rstrip` stops, scanning back from `j` but not past `lo`: the
      first position whose predecessor is not white space, or `lo`. */
  function SpaceStart(s: string, lo: nat, j: nat): (k: nat)
    requires lo <= j <= |s|
    ensures lo <= k <= j
    ensures k == lo || !IsSpace(s[k - 1])
    decreases j
  {
    if j == lo || !IsSpace(s[j - 1]) then j else SpaceStart(s, lo, j - 1)
  }

  /** Text with no white space at either end. */
  predicate Stripped(s: string) {
    s == [] || (!IsSpace(s[0]) && !IsSpace(s[|s| - 1]))
  }

  /** Where the text kept by `strip` starts. */
  function StripStart(s: string): (i: nat)
    ensures i <= |s|
  {
    SpaceEnd(s, 0)
  }

  /** `s.strip()`: drops the white space at both ends and keeps the middle. */
  function Strip(s: string): (r: string)
    ensures Stripped(r)
    ensures StripStart(s) + |r| <= |s| && r == s[StripStart(s)..StripStart(s) + |r|]
  {
    var lo := SpaceEnd(s, 0);
    s[lo..SpaceStart(s, lo, |s|)]
  }

  /** `lstrip` drops only white space. */
  lemma {:induction false} SpaceEndSkipsSpace(s: string, i: nat)
    requires i <= |s|
    ensures forall k :: i <= k < SpaceEnd(s, i) ==> IsSpace(s[k])
    decreases |s| - i
  {
    if i < |s| && IsSpace(s[i]) {
      SpaceEndSkipsSpace(s, i + 1);
    }
  }

  /** `rstrip` drops only white space. */
  lemma {:induction false} SpaceStartSkipsSpace(s: string, lo: nat, j: nat)
    requires lo <= j <= |s|
    ensures forall k :: SpaceStart(s, lo, j) <= k < j ==> IsSpace(s[k])
    decreases j
  {
    if j > lo && IsSpace(s[j - 1]) {
      SpaceStartSkipsSpace(s, lo, j - 1);
    }
  }

  /** What `strip` drops, at either end, is white space. */
  lemma StripDropsOnlySpace(s: string)
    ensures forall k :: 0 <= k < StripStart(s) ==> IsSpace(s[k])
    ensures forall k :: StripStart(s) + |Strip(s)| <= k < |s| ==> IsSpace(s[k])
  {
    SpaceEndSkipsSpace(s, 0);
    SpaceStartSkipsSpace(s, StripStart(s), |s|);
  }

  /** Stripping text that is already stripped changes nothing. */
  lemma StripStripped(s: string)
    requires Stripped(s)
    ensures Strip(s) == s
  {
    if s != [] {
      assert SpaceEnd(s, 0) == 0;
      assert SpaceStart(s, 0, |s|) == |s|;
    }
  }

  /** Stripping never introduces a pattern. */
  lemma OccursInStrip(pat: string, s: string)
    ensures Occurs(pat, Strip(s)) ==> Occurs(pat, s)
  {
    if Occurs(pat, Strip(s)) {
      OccursInSlice(pat, s, StripStart(s), StripStart(s) + |Strip(s)|);
    }
  }

  /** `s.replace(pat, "")`: deletes the occurrences of `pat` found scanning left to right. */
  function RemoveAll(s: string, pat: string): (r: string)
    requires |pat| > 0
    ensures |r| <= |s|
    decreases |s|
  {
    if s == [] then []
    else if |pat| <= |s| && s[..|pat|] == pat then RemoveAll(s[|pat|..], pat)
    else [s[0]] + RemoveAll(s[1..], pat)
  }

  /** With nothing to delete, `replace` returns its input. */
  lemma {:induction false} RemoveAllAbsent(s: string, pat: string)
    requires |pat| > 0 && !Occurs(pat, s)
    ensures RemoveAll(s, pat) == s
    decreases |s|
  {
    if s != [] {
      assert !OccursAt(pat, s, 0);
      if Occurs(pat, s[1..]) {
        assert s[1..] == s[1..|s|];
        OccursInSlice(pat, s, 1, |s|);
      }
      RemoveAllAbsent(s[1..], pat);
    }
  }

  /** `sep.join(parts)`. */
  function Join(parts: seq<string>, sep: string): (r: string)
    ensures parts == [] ==> r == []
    ensures |parts| == 1 ==> r == parts[0]
  {
    if parts == [] then []
    else if |parts| == 1 then parts[0]
    else parts[0] + sep + Join(parts[1..], sep)
  }

  /** Joining one more part adds the separator and that part at the end. */
  lemma {:induction false} JoinAppend(parts: seq<string>, p: string, sep: string)
    requires parts != []
    ensures Join(parts + [p], sep) == Join(parts, sep) + sep + p
    decreases |parts|
  {
    var all := parts + [p];
    if |parts| == 1 {
      assert all[1..] == [p];
    } else {
      assert all[1..] == parts[1..] + [p];
      JoinAppend(parts[1..], p, sep);
    }
  }

  /** The decimal digit for 0 <= d < 10. */
  function Digit(d: int): (c: char)
    requires 0 <= d < 10
    ensures '0' <= c <= '9'
  {
    ('0' as int + d) as char
  }

  /** The number a string of decimal digits denotes, most significant first. */
  function DigitsValue(r: string): int {
    if r == [] then 0 else DigitsValue(r[..|r| - 1]) * 10 + (r[|r| - 1] as int - '0' as int)
  }

  /** `f"{n}"` for a natural number. */
  function NatToString(n: nat): (r: string)
    ensures |r| >= 1
    ensures forall i :: 0 <= i < |r| ==> '0' <= r[i] <= '9'
  {
    if n < 10 then [Digit(n)] else NatToString(n / 10) + [Digit(n % 10)]
  }

  /** The digits of `n` denote `n`. */
  lemma {:induction false} NatToStringValue(n: nat)
    ensures DigitsValue(NatToString(n)) == n
  {
    var r := NatToString(n);
    if n < 10 {
      assert r[..|r| - 1] == [];
    } else {
      NatToStringValue(n / 10);
      assert r[..|r| - 1] == NatToString(n / 10);
    }
  }

  /** `f"{n}"` for an integer: a minus sign before the digits of a negative number. */
  function IntToString(n: int): (r: string)
    ensures |r| >= 1
    ensures (r[0] == '-') == (n < 0)
    ensures forall i :: 0 < i < |r| ==> '0' <= r[i] <= '9'
    ensures '0' <= r[0] <= '9' || r[0] == '-'
  {
    if n < 0 then "-" + NatToString(-n) else NatToString(n)
  }

  /** The text of `n` gives `n` back: its digits denote `n`, or `-n` after
      the sign of a negative number. */
  lemma IntToStringValue(n: int)
    ensures n >= 0 ==> DigitsValue(IntToString(n)) == n
    ensures n < 0 ==> DigitsValue(IntToString(n)[1..]) == -n
  {
    if n < 0 {
      NatToStringValue(-n);
      assert IntToString(n)[1..] == NatToString(-n);
    } else {
      NatToStringValue(n);
    }
  }

  /** Different integers have different texts. */
  lemma IntToStringInjective(m: int, n: int)
    requires IntToString(m) == IntToString(n)
    ensures m == n
  {
    IntToStringValue(m);
    IntToStringValue(n);
  }
}
