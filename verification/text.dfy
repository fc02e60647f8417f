/**
 * Python string operations used by the converter, restricted to ASCII text
 * (plus characters such as the box-drawing '─' that no operation here
 * treats specially).  Strings are `seq<char>`.
 */
module Text {

  /** Python's `str.isspace` on ASCII: tab, line feed, vertical tab, form
      feed, carriage return, the four information separators 0x1C-0x1F and
      space.  The regular-expression class `\s` agrees on these characters. */
  predicate IsSpace(c: char) {
    var n := c as int;
    9 <= n <= 13 || 28 <= n <= 32
  }

  /** `\d` restricted to ASCII. */
  predicate IsDigit(c: char) {
    '0' as int <= c as int <= '9' as int
  }

  predicate AllSpace(s: string) {
    forall i :: 0 <= i < |s| ==> IsSpace(s[i])
  }

  /** `s.lstrip()`: drops the longest all-whitespace prefix. */
  function LStrip(s: string): (r: string)
    ensures |r| <= |s| && r == s[|s| - |r|..]
    ensures AllSpace(s[..|s| - |r|])
    ensures r != [] ==> !IsSpace(r[0])
  {
    if |s| > 0 && IsSpace(s[0]) then
      var r := LStrip(s[1..]);
      assert s[..|s| - |r|] == [s[0]] + s[1..][..|s| - 1 - |r|];
      r
    else s
  }

  /** `lstrip` removes at least a whitespace prefix of any length. */
  lemma {:induction false} LStripPastSpaces(s: string, a: nat)
    requires a <= |s| && AllSpace(s[..a])
    ensures |LStrip(s)| <= |s| - a
  {
    if a > 0 {
      assert s[..a][0] == s[0];
      assert s[1..][..a - 1] == s[..a][1..];
      LStripPastSpaces(s[1..], a - 1);
    }
  }

  /** `lstrip` stops at the first character that is not whitespace. */
  lemma {:induction false} LStripStopsAt(s: string, a: nat)
    requires a < |s| && !IsSpace(s[a])
    ensures |s| - |LStrip(s)| <= a
  {
    if IsSpace(s[0]) {
      LStripStopsAt(s[1..], a - 1);
    }
  }

  /** `s.rstrip()`: drops the longest all-whitespace suffix. */
  function RStrip(s: string): (r: string)
    ensures |r| <= |s| && r == s[..|r|]
    ensures AllSpace(s[|r|..])
    ensures r != [] ==> !IsSpace(r[|r| - 1])
  {
    if |s| > 0 && IsSpace(s[|s| - 1]) then
      var r := RStrip(s[..|s| - 1]);
      assert s[|r|..] == s[..|s| - 1][|r|..] + [s[|s| - 1]];
      r
    else s
  }

  /** `s.strip()`. */
  function Strip(s: string): string {
    RStrip(LStrip(s))
  }

  /** `s.strip()` is empty exactly when `s` is all whitespace (Python's
      truth test on a stripped line). */
  lemma StripEmptyIff(s: string)
    ensures Strip(s) == [] <==> AllSpace(s)
  {
    var l := LStrip(s);
    if RStrip(l) == [] {
      assert AllSpace(l[0..]);
      assert s == s[..|s| - |l|] + l;
    }
  }

  /** A string whose last character is not whitespace is its own `rstrip()`. */
  lemma RStripIdem(s: string)
    ensures RStrip(RStrip(s)) == RStrip(s)
  {
  }

  /** `rstrip()` of a string with one more character in front. */
  lemma {:induction false} RStripCons(c: char, t: string)
    ensures RStrip([c] + t) == if IsSpace(c) && RStrip(t) == [] then [] else [c] + RStrip(t)
    decreases |t|
  {
    var s := [c] + t;
    if t == [] {
    } else if IsSpace(t[|t| - 1]) {
      assert s[..|s| - 1] == [c] + t[..|t| - 1];
      RStripCons(c, t[..|t| - 1]);
    }
  }

  /** `lstrip()` and `rstrip()` commute. */
  lemma {:induction false} LStripRStrip(s: string)
    ensures LStrip(RStrip(s)) == RStrip(LStrip(s))
    decreases |s|
  {
    if s != [] {
      var t := s[1..];
      assert s == [s[0]] + t;
      RStripCons(s[0], t);
      if IsSpace(s[0]) {
        LStripRStrip(t);
      } else {
        assert LStrip(s) == s;
      }
    }
  }

  /** Stripping ignores a previous `rstrip()`. */
  lemma StripRStrip(s: string)
    ensures Strip(RStrip(s)) == Strip(s)
  {
    LStripRStrip(s);
    RStripIdem(LStrip(s));
  }

  /** A stripped string starts where its `lstrip()` starts. */
  lemma StripHead(s: string)
    requires Strip(s) != []
    ensures LStrip(s) != [] && Strip(s)[0] == LStrip(s)[0]
  {
  }

  /** A string starting with a non-space character keeps that character
      first when stripped. */
  lemma StripKeepsHead(s: string)
    requires s != [] && !IsSpace(s[0])
    ensures Strip(s) != [] && Strip(s)[0] == s[0]
  {
    assert LStrip(s) == s;
  }

  /** A string starting with a non-space character is its own `lstrip()`. */
  lemma LStripNoLead(s: string)
    requires s != [] && !IsSpace(s[0])
    ensures LStrip(s) == s
  {
  }

  /** `rstrip()` keeps every character up to a non-space one. */
  lemma RStripKeeps(s: string, k: nat)
    requires k < |s| && !IsSpace(s[k])
    ensures k < |RStrip(s)| && RStrip(s)[k] == s[k]
  {
  }

  /** The first character that is not whitespace is `c`. */
  predicate StrippedStartsWith(s: string, c: char)
    decreases |s|
  {
    s != [] && if IsSpace(s[0]) then StrippedStartsWith(s[1..], c) else s[0] == c
  }

  /** `StrippedStartsWith` is `s.strip().startswith(c)`. */
  lemma {:induction false} StrippedStartsWithIff(s: string, c: char)
    requires !IsSpace(c)
    ensures StrippedStartsWith(s, c) <==> StartsWith(Strip(s), [c])
    decreases |s|
  {
    if s != [] {
      if IsSpace(s[0]) {
        StrippedStartsWithIff(s[1..], c);
        assert LStrip(s) == LStrip(s[1..]);
      } else {
        StripKeepsHead(s);
      }
    }
  }

  lemma AllSpaceAppend(a: string, b: string)
    ensures AllSpace(a + b) <==> AllSpace(a) && AllSpace(b)
  {
    if AllSpace(a + b) {
      forall i | 0 <= i < |a| ensures IsSpace(a[i]) {
        assert a[i] == (a + b)[i];
      }
      forall i | 0 <= i < |b| ensures IsSpace(b[i]) {
        assert b[i] == (a + b)[|a| + i];
      }
    }
  }

  /** `s.lstrip(c)` for a single character `c`. */
  function LStripChar(s: string, c: char): (r: string)
    ensures |r| <= |s| && r == s[|s| - |r|..]
    ensures forall i :: 0 <= i < |s| - |r| ==> s[i] == c
    ensures r != [] ==> r[0] != c
  {
    if |s| > 0 && s[0] == c then LStripChar(s[1..], c) else s
  }

  /** `s.lstrip(c)` removes exactly the leading run of `c`. */
  lemma {:induction false} LStripCharRun(s: string, c: char, n: nat)
    requires n <= |s| && forall k :: 0 <= k < n ==> s[k] == c
    requires n == |s| || s[n] != c
    ensures LStripChar(s, c) == s[n..]
  {
    if n > 0 {
      LStripCharRun(s[1..], c, n - 1);
    }
  }

  /** ASCII `str.lower` on one character. */
  function LowerChar(c: char): char {
    if 'A' <= c <= 'Z' then (c as int + 32) as char else c
  }

  /** ASCII `str.lower`. */
  function Lower(s: string): (r: string)
    ensures |r| == |s|
    ensures forall i :: 0 <= i < |s| ==> r[i] == LowerChar(s[i])
  {
    if s == [] then [] else [LowerChar(s[0])] + Lower(s[1..])
  }

  /** `s.replace(a, b)` for single characters. */
  function ReplaceChar(s: string, a: char, b: char): (r: string)
    ensures |r| == |s|
    ensures forall i :: 0 <= i < |s| ==> r[i] == if s[i] == a then b else s[i]
  {
    if s == [] then [] else [if s[0] == a then b else s[0]] + ReplaceChar(s[1..], a, b)
  }

  /** `c * n`. */
  function Repeat(c: char, n: nat): (r: string)
    ensures |r| == n
    ensures forall i :: 0 <= i < n ==> r[i] == c
  {
    if n == 0 then [] else [c] + Repeat(c, n - 1)
  }

  /** `s.count(c)` for a single character. */
  function CountChar(s: string, c: char): nat {
    if s == [] then 0 else (if s[0] == c then 1 else 0) + CountChar(s[1..], c)
  }

  lemma {:induction false} CountCharAppend(a: string, b: string, c: char)
    ensures CountChar(a + b, c) == CountChar(a, c) + CountChar(b, c)
  {
    if a == [] {
      assert a + b == b;
    } else {
      assert (a + b)[1..] == a[1..] + b;
      CountCharAppend(a[1..], b, c);
    }
  }

  lemma {:induction false} CountCharAbsent(s: string, c: char)
    requires c !in s
    ensures CountChar(s, c) == 0
  {
    if s != [] {
      assert s[0] != c;
      CountCharAbsent(s[1..], c);
    }
  }

  predicate StartsWith(s: string, p: string) {
    |p| <= |s| && s[..|p|] == p
  }

  /** A string starting with `p` starts with `p`'s first character. */
  lemma HeadStartsWith(s: string, c: char)
    requires s != [] && s[0] == c
    ensures StartsWith(s, [c])
  {
    assert s[..1] == [c];
  }

  lemma StartsWithHead(s: string, p: string)
    requires p != []
    ensures StartsWith(s, p) ==> s != [] && s[0] == p[0]
  {
    if StartsWith(s, p) {
      assert s[..|p|][0] == s[0];
    }
  }

  predicate EndsWith(s: string, p: string) {
    |p| <= |s| && s[|s| - |p|..] == p
  }

  /** `p` occurs in `s` at index `i`. */
  predicate OccursAt(s: string, p: string, i: int) {
    0 <= i && i + |p| <= |s| && s[i..i + |p|] == p
  }

  /** `s.find(p, start)`: the least index at or after `start` where `p`
      occurs, or -1. */
  function Find(s: string, p: string, start: nat): (r: int)
    decreases |s| - start
    ensures r == -1 || (start <= r && OccursAt(s, p, r))
    ensures forall j :: start <= j && (r == -1 || j < r) ==> !OccursAt(s, p, j)
  {
    if start + |p| > |s| then -1
    else if s[start..start + |p|] == p then start
    else Find(s, p, start + 1)
  }

  /** Python's `p in s`. */
  predicate Contains(s: string, p: string) {
    Find(s, p, 0) >= 0
  }

  lemma ContainsIff(s: string, p: string)
    ensures Contains(s, p) <==> exists i :: OccursAt(s, p, i)
  {
    if exists i :: OccursAt(s, p, i) {
      var i :| OccursAt(s, p, i);
      assert 0 <= i;
    }
  }

  /** One mismatching character rules out an occurrence. */
  lemma Mismatch(s: string, p: string, j: nat, k: nat)
    requires k < |p| && j + k < |s| && s[j + k] != p[k]
    ensures !OccursAt(s, p, j)
  {
    assert j + |p| <= |s| ==> s[j + k] == s[j..j + |p|][k];
  }

  /** An occurrence inside a prefix is an occurrence in the whole string. */
  lemma OccursInPrefix(x: string, y: string, p: string, j: nat)
    requires j + |p| <= |x|
    ensures OccursAt(x + y, p, j) <==> OccursAt(x, p, j)
  {
    assert (x + y)[j..j + |p|] == x[j..j + |p|];
  }

  /** An occurrence inside a middle part is an occurrence in that part. */
  lemma OccursInMiddle(x: string, y: string, z: string, p: string, j: nat)
    requires |x| <= j && j + |p| <= |x| + |y|
    ensures OccursAt(x + y + z, p, j) <==> OccursAt(y, p, j - |x|)
  {
    assert (x + y + z)[j..j + |p|] == y[j - |x|..j - |x| + |p|];
  }

  /** A prefix of the second part occurs where that part starts. */
  lemma OccursAtStart(x: string, z: string, p: string)
    requires StartsWith(z, p)
    ensures OccursAt(x + z, p, |x|)
  {
    assert (x + z)[|x|..|x| + |p|] == z[..|p|];
  }

  /** An occurrence of `p + q` is an occurrence of `p`. */
  lemma OccursOfPrefix(s: string, p: string, q: string, j: nat)
    ensures OccursAt(s, p + q, j) ==> OccursAt(s, p, j)
  {
    if OccursAt(s, p + q, j) {
      assert s[j..j + |p|] == s[j..j + |p + q|][..|p|];
    }
  }

  /** `sep.join(parts)`. */
  function Join(sep: string, parts: seq<string>): string {
    if parts == [] then []
    else if |parts| == 1 then parts[0]
    else parts[0] + sep + Join(sep, parts[1..])
  }

  /** A character in neither the separator nor the parts is not in the join. */
  lemma {:induction false} JoinAbsent(sep: string, parts: seq<string>, c: char)
    requires c !in sep
    requires forall k :: 0 <= k < |parts| ==> c !in parts[k]
    ensures c !in Join(sep, parts)
  {
    if |parts| > 1 {
      JoinAbsent(sep, parts[1..], c);
    }
  }

  /** Joining n parts free of `c` with `c` puts n - 1 copies of `c` in. */
  lemma {:induction false} JoinCount(parts: seq<string>, c: char)
    requires |parts| >= 1
    requires forall k :: 0 <= k < |parts| ==> c !in parts[k]
    ensures CountChar(Join([c], parts), c) == |parts| - 1
  {
    CountCharAbsent(parts[0], c);
    if |parts| > 1 {
      JoinCount(parts[1..], c);
      CountCharAppend(parts[0] + [c], Join([c], parts[1..]), c);
      CountCharAppend(parts[0], [c], c);
    }
  }

  /** Splitting a join of parts free of the separator gives the parts back. */
  lemma {:induction false} SplitJoin(parts: seq<string>, c: char)
    requires |parts| >= 1
    requires forall k :: 0 <= k < |parts| ==> c !in parts[k]
    ensures Split(Join([c], parts), c) == parts
  {
    if |parts| == 1 {
      SplitAbsent(parts[0], c);
    } else {
      SplitJoin(parts[1..], c);
      SplitCons(parts[0], Join([c], parts[1..]), c);
      assert parts == [parts[0]] + parts[1..];
    }
  }

  /** The index of the first `c` in `s`, or `|s|`. */
  function IndexOf(s: string, c: char): (r: nat)
    ensures r <= |s|
    ensures r < |s| ==> s[r] == c
    ensures c !in s[..r]
  {
    if s == [] then 0
    else if s[0] == c then 0
    else
      var k := IndexOf(s[1..], c);
      assert s[..1 + k] == [s[0]] + s[1..][..k];
      1 + k
  }

  /** `s.rfind(c)` for a single character: the greatest index of `c`, or -1. */
  function LastIndexOf(s: string, c: char): (r: int)
    ensures -1 <= r < |s|
    ensures r >= 0 ==> s[r] == c
    ensures forall j :: r < j < |s| ==> s[j] != c
    ensures r == -1 <==> c !in s
  {
    if s == [] then -1
    else if s[|s| - 1] == c then |s| - 1
    else LastIndexOf(s[..|s| - 1], c)
  }

  lemma {:induction false} LastIndexOfAppend(x: string, y: string, c: char)
    ensures LastIndexOf(x + y, c) ==
              if c in y then |x| + LastIndexOf(y, c) else LastIndexOf(x, c)
  {
    if y == [] {
      assert x + y == x;
    } else {
      assert (x + y)[..|x + y| - 1] == x + y[..|y| - 1];
      LastIndexOfAppend(x, y[..|y| - 1], c);
      if y[|y| - 1] != c {
        assert c in y <==> c in y[..|y| - 1] by {
          assert y == y[..|y| - 1] + [y[|y| - 1]];
        }
      }
    }
  }

  /** `s.split(c)` for a single-character separator. */
  function Split(s: string, c: char): (r: seq<string>)
    decreases |s|
    ensures |r| >= 1
    ensures forall k :: 0 <= k < |r| ==> c !in r[k]
    ensures Join([c], r) == s
  {
    var i := IndexOf(s, c);
    if i == |s| then
      assert s[..i] == s;
      [s]
    else
      var rest := Split(s[i + 1..], c);
      assert s == s[..i] + [c] + s[i + 1..];
      [s[..i]] + rest
  }

  /** Splitting a string free of the separator gives the string itself. */
  lemma SplitAbsent(s: string, c: char)
    requires c !in s
    ensures Split(s, c) == [s]
  {
  }

  /** Splitting `a + [c] + b` where `a` is free of `c`. */
  lemma SplitCons(a: string, b: string, c: char)
    requires c !in a
    ensures Split(a + [c] + b, c) == [a] + Split(b, c)
  {
    var s := a + [c] + b;
    assert s[..|a|] == a;
    assert s[|a|] == c;
    assert forall j :: 0 <= j < |a| ==> s[j] != c;
    var i := IndexOf(s, c);
    assert s[..|a| + 1][|a|] == c;
    assert i == |a|;
    assert s[i + 1..] == b;
  }

  // ---------------------------------------------------------------------
  // Decimal numerals (`str(n)` and `int(s)` for non-negative integers)

  /** The longest prefix of `s` made of digits. */
  function DigitPrefix(s: string): (r: string)
    ensures |r| <= |s| && r == s[..|r|]
    ensures forall i :: 0 <= i < |r| ==> IsDigit(r[i])
    ensures |r| == |s| || !IsDigit(s[|r|])
  {
    if s != [] && IsDigit(s[0]) then [s[0]] + DigitPrefix(s[1..]) else []
  }

  /** No run of digits at the start is longer than `DigitPrefix`. */
  lemma {:induction false} DigitPrefixLongest(s: string, k: nat)
    requires k <= |s|
    requires forall i :: 0 <= i < k ==> IsDigit(s[i])
    ensures k <= |DigitPrefix(s)|
  {
    if k > 0 {
      assert forall i :: 0 <= i < k - 1 ==> s[1..][i] == s[i + 1];
      DigitPrefixLongest(s[1..], k - 1);
    }
  }

  function DigitChar(d: nat): char
    requires d < 10
  {
    ('0' as int + d) as char
  }

  /** `str(n)`. */
  function NatToString(n: nat): (r: string)
    ensures |r| >= 1
    ensures forall i :: 0 <= i < |r| ==> IsDigit(r[i])
    ensures n >= 10 ==> r[0] != '0'
    ensures n < 10 ==> |r| == 1
  {
    if n < 10 then [DigitChar(n)] else NatToString(n / 10) + [DigitChar(n % 10)]
  }

  /** `int(s)` for a string of ASCII digits. */
  function DecimalValue(s: string): nat
    requires forall i :: 0 <= i < |s| ==> IsDigit(s[i])
  {
    if s == [] then 0
    else
      assert IsDigit(s[|s| - 1]);
      10 * DecimalValue(s[..|s| - 1]) + (s[|s| - 1] as int - '0' as int)
  }

  /** `int(str(n)) == n`. */
  lemma {:induction false} DecimalRoundTrip(n: nat)
    ensures DecimalValue(NatToString(n)) == n
  {
    var s := NatToString(n);
    if n >= 10 {
      DecimalRoundTrip(n / 10);
      assert s[..|s| - 1] == NatToString(n / 10);
    }
  }

  /** Distinct numbers have distinct decimal numerals. */
  lemma NatToStringInjective(m: nat, n: nat)
    requires NatToString(m) == NatToString(n)
    ensures m == n
  {
    DecimalRoundTrip(m);
    DecimalRoundTrip(n);
  }

  lemma AppendAssoc<T>(a: seq<T>, b: seq<T>, c: seq<T>)
    ensures a + (b + c) == a + b + c
  {
  }

  lemma AppendRegroup<T>(a: seq<T>, b: seq<T>, c: seq<T>, d: seq<T>)
    ensures a + b + c + d == a + (b + c + d)
  {
  }

  /** The middle part of a concatenation occurs where it starts. */
  lemma OccursInConcat(x: string, p: string, z: string)
    ensures OccursAt(x + p + z, p, |x|)
  {
    assert (x + p + z)[|x|..|x| + |p|] == p;
  }
}
