/** The string operations the quiz client relies on, over `seq<char>`:
    whitespace trimming and lower-casing (ASCII only), substring search,
    `split`/`join` on a literal separator, and decimal rendering of integers. */
module Strings {

  /** The characters `String.prototype.trim` removes, restricted to ASCII. */
  predicate IsSpace(c: char) {
    c == ' ' || c == '\t' || c == '\n' || c == '\r' || c == '\U{B}' || c == '\U{C}'
  }

  /** No leading and no trailing whitespace. */
  predicate Trimmed(s: string) {
    s == [] || (!IsSpace(s[0]) && !IsSpace(s[|s| - 1]))
  }

  predicate AllSpace(s: string) {
    forall i :: 0 <= i < |s| ==> IsSpace(s[i])
  }

  /** `s.trimStart()` */
  function TrimStart(s: string): string {
    if s != [] && IsSpace(s[0]) then TrimStart(s[1..]) else s
  }

  /** `trimStart` drops the leading whitespace and nothing else. */
  lemma {:induction false} TrimStartSpec(s: string)
    ensures var r := TrimStart(s);
            && |r| <= |s| && r == s[|s| - |r|..] && AllSpace(s[..|s| - |r|])
            && (r != [] ==> !IsSpace(r[0]))
  {
    if s != [] && IsSpace(s[0]) {
      var t := s[1..];
      TrimStartSpec(t);
      var r := TrimStart(t);
      assert r == s[|s| - |r|..];
      var dropped := s[..|s| - |r|];
      forall j | 0 <= j < |dropped| ensures IsSpace(dropped[j]) {
        if j > 0 {
          assert dropped[j] == t[..|t| - |r|][j - 1];
        }
      }
    }
  }

  /** `s.trimEnd()` */
  function TrimEnd(s: string): string {
    if s != [] && IsSpace(s[|s| - 1]) then TrimEnd(s[..|s| - 1]) else s
  }

  /** `trimEnd` drops the trailing whitespace and nothing else. */
  lemma {:induction false} TrimEndSpec(s: string)
    ensures var r := TrimEnd(s);
            && |r| <= |s| && r == s[..|r|] && AllSpace(s[|r|..])
            && (r != [] ==> !IsSpace(r[|r| - 1]))
  {
    if s != [] && IsSpace(s[|s| - 1]) {
      var t := s[..|s| - 1];
      TrimEndSpec(t);
      var r := TrimEnd(t);
      assert r == s[..|r|];
      var dropped := s[|r|..];
      forall j | 0 <= j < |dropped| ensures IsSpace(dropped[j]) {
        if |r| + j < |t| {
          assert dropped[j] == t[|r|..][j];
        }
      }
    }
  }

  /** `s.trim()`: the result has whitespace at neither end, and it is empty
      exactly when `s` is blank. */
  function Trim(s: string): (r: string)
    ensures |r| <= |s|
    ensures Trimmed(r)
    ensures r == [] <==> AllSpace(s)
  {
    var a := TrimStart(s);
    TrimStartSpec(s);
    TrimEndSpec(a);
    var r := TrimEnd(a);
    if r == [] then
      assert AllSpace(a);
      assert s == s[..|s| - |a|] + a;
      r
    else
      assert !IsSpace(s[|s| - |a|]);
      r
  }

  lemma {:induction false} TrimStartOfTrimmed(s: string)
    requires Trimmed(s)
    ensures TrimStart(s) == s
  {
  }

  /** Trimming twice is trimming once. */
  lemma TrimIdempotent(s: string)
    ensures Trim(Trim(s)) == Trim(s)
  {
    var t := Trim(s);
    if t != [] {
      assert TrimStart(t) == t;
      assert TrimEnd(t) == t;
    }
  }

  function LowerChar(c: char): char {
    if 'A' <= c <= 'Z' then (c as int + 32) as char else c
  }

  /** `s.toLowerCase()` on ASCII letters: same length, no upper-case letter
      left, every other character kept. */
  function ToLower(s: string): (r: string)
    ensures |r| == |s|
    ensures forall i :: 0 <= i < |r| ==> !('A' <= r[i] <= 'Z')
    ensures forall i :: 0 <= i < |s| && !('A' <= s[i] <= 'Z') ==> r[i] == s[i]
  {
    seq(|s|, i requires 0 <= i < |s| => LowerChar(s[i]))
  }

  /** `pat` occurs in `s` starting at index `k`. */
  predicate OccursAt(s: string, pat: string, k: int) {
    0 <= k && k + |pat| <= |s| && s[k..k + |pat|] == pat
  }

  /** `s.indexOf(pat, from)`: the first occurrence at or after `from`, or -1. */
  function IndexOf(s: string, pat: string, from: nat): (r: int)
    ensures r == -1 || from <= r
    ensures r == -1 ==> forall k :: from <= k ==> !OccursAt(s, pat, k)
    ensures r != -1 ==> OccursAt(s, pat, r) && forall k :: from <= k < r ==> !OccursAt(s, pat, k)
    decreases |s| - from
  {
    if from + |pat| > |s| then -1
    else if s[from..from + |pat|] == pat then from
    else IndexOf(s, pat, from + 1)
  }

  /** `s.includes(pat)` */
  predicate Contains(s: string, pat: string) {
    IndexOf(s, pat, 0) >= 0
  }

  lemma ContainsWhenOccurs(s: string, pat: string, k: int)
    requires OccursAt(s, pat, k)
    ensures Contains(s, pat)
  {
  }

  /** A pattern whose first character never appears in `s` does not occur in `s`. */
  lemma NotContainsWithoutFirstChar(s: string, pat: string)
    requires pat != [] && pat[0] !in s
    ensures !Contains(s, pat)
  {
  }

  /** An occurrence inside a prefix is an occurrence in the whole string. */
  lemma OccursInPrefix(s: string, pat: string, n: nat, k: int)
    requires n <= |s| && OccursAt(s[..n], pat, k)
    ensures OccursAt(s, pat, k)
  {
    assert s[..n][k..k + |pat|] == s[k..k + |pat|];
  }

  lemma OccursInSuffix(s: string, pat: string, n: nat, k: int)
    requires n <= |s| && OccursAt(s[n..], pat, k)
    ensures OccursAt(s, pat, n + k)
  {
    assert s[n..][k..k + |pat|] == s[n + k..n + k + |pat|];
  }

  /** `s.split(sep)` for a non-empty literal separator: the pieces between
      the leftmost non-overlapping occurrences of `sep`. */
  function Split(s: string, sep: string): (parts: seq<string>)
    requires sep != []
    ensures |parts| >= 1
    ensures forall i :: 0 <= i < |parts| ==> !Contains(parts[i], sep)
    decreases |s|
  {
    var k := IndexOf(s, sep, 0);
    if k < 0 then [s]
    else
      var head := s[..k];
      assert !Contains(head, sep) by {
        if Contains(head, sep) {
          OccursInPrefix(s, sep, k, IndexOf(head, sep, 0));
        }
      }
      [head] + Split(s[k + |sep|..], sep)
  }

  /** `parts.join(sep)` */
  function Join(parts: seq<string>, sep: string): string {
    if |parts| == 0 then ""
    else if |parts| == 1 then parts[0]
    else parts[0] + sep + Join(parts[1..], sep)
  }

  /** Joining the pieces of a split with the same separator gives back the
      original string. */
  lemma {:induction false} JoinSplit(s: string, sep: string)
    requires sep != []
    ensures Join(Split(s, sep), sep) == s
    decreases |s|
  {
    var k := IndexOf(s, sep, 0);
    if k >= 0 {
      var rest := s[k + |sep|..];
      JoinSplit(rest, sep);
      var parts := Split(s, sep);
      assert parts == [s[..k]] + Split(rest, sep);
      DropHead(s[..k], Split(rest, sep));
      assert Join(parts, sep) == s[..k] + sep + rest;
      assert s[k..k + |sep|] == sep;
      SliceAround(s, k, |sep|);
    }
  }

  lemma Assoc<T>(p: seq<T>, q: seq<T>, r: seq<T>)
    ensures p + (q + r) == p + q + r
  {
  }

  lemma Regroup<T>(p: seq<T>, q: seq<T>, r: seq<T>, t: seq<T>, u: seq<T>)
    ensures p + q + r + t + u == p + q + (r + t + u)
  {
  }

  lemma SliceAround<T>(s: seq<T>, k: nat, n: nat)
    requires k + n <= |s|
    ensures s == s[..k] + s[k..k + n] + s[k + n..]
  {
  }

  /** Splitting `a + sep + b`, where `a` does not contain the one-character
      separator, yields `a` followed by the pieces of `b`. */
  lemma SplitAfterFirst(a: string, c: char, b: string)
    requires c !in a
    ensures Split(a + [c] + b, [c]) == [a] + Split(b, [c])
  {
    var s := a + [c] + b;
    var k := IndexOf(s, [c], 0);
    assert OccursAt(s, [c], |a|);
    forall j | 0 <= j < |a| ensures !OccursAt(s, [c], j) {
      assert s[j] == a[j];
    }
    assert k == |a|;
    assert s[..k] == a;
    assert s[k + 1..] == b;
  }

  /** A string without the one-character separator splits into itself. */
  lemma SplitWithout(a: string, c: char)
    requires c !in a
    ensures Split(a, [c]) == [a]
  {
    forall k | 0 <= k < |a| ensures !OccursAt(a, [c], k) {
      assert a[k..k + 1][0] == a[k];
    }
  }

  /** A string that does not contain the separator is a single piece. */
  lemma SplitNotContained(s: string, sep: string)
    requires sep != [] && !Contains(s, sep)
    ensures Split(s, sep) == [s]
  {
  }

  /** A leading separator yields an empty first piece. */
  lemma SplitLeading(sep: string, x: string)
    requires sep != []
    ensures Split(sep + x, sep) == [""] + Split(x, sep)
  {
    var s := sep + x;
    assert s[0..|sep|] == sep;
    assert IndexOf(s, sep, 0) == 0;
    assert s[|sep|..] == x;
  }

  /** For a one-character separator that no piece contains, split undoes
      join. */
  lemma {:induction false} SplitJoin(xs: seq<string>, c: char)
    requires |xs| >= 1
    requires forall i :: 0 <= i < |xs| ==> c !in xs[i]
    ensures Split(Join(xs, [c]), [c]) == xs
    decreases |xs|
  {
    if |xs| == 1 {
      SplitWithout(xs[0], c);
    } else {
      SplitJoin(xs[1..], c);
      SplitAfterFirst(xs[0], c, Join(xs[1..], [c]));
      assert [xs[0]] + xs[1..] == xs;
    }
  }

  /** Splitting distributes over a separator placed between two strings. */
  lemma {:induction false} SplitConcat(a: string, c: char, b: string)
    ensures Split(a + [c] + b, [c]) == Split(a, [c]) + Split(b, [c])
    decreases |a|
  {
    var k := IndexOf(a, [c], 0);
    if k < 0 {
      assert c !in a by {
        if c in a {
          var j :| 0 <= j < |a| && a[j] == c;
          assert OccursAt(a, [c], j);
        }
      }
      SplitAfterFirst(a, c, b);
      SplitWithout(a, c);
    } else {
      var a1 := a[..k];
      var a2 := a[k + 1..];
      assert a[k..k + 1] == [c];
      assert c !in a1 by {
        if c in a1 {
          var j :| 0 <= j < |a1| && a1[j] == c;
          assert OccursAt(a, [c], j);
        }
      }
      SliceAround(a, k, 1);
      assert a == a1 + [c] + a2;
      Regroup(a1, [c], a2, [c], b);
      SplitConcat(a2, c, b);
      calc {
        Split(a + [c] + b, [c]);
        Split(a1 + [c] + (a2 + [c] + b), [c]);
        { SplitAfterFirst(a1, c, a2 + [c] + b); }
        [a1] + (Split(a2, [c]) + Split(b, [c]));
        { Assoc([a1], Split(a2, [c]), Split(b, [c])); }
        [a1] + Split(a2, [c]) + Split(b, [c]);
        { SplitAfterFirst(a1, c, a2); }
        Split(a, [c]) + Split(b, [c]);
      }
    }
  }

  predicate IsDigit(c: char) {
    '0' <= c <= '9'
  }

  predicate AllDigits(s: string) {
    forall i :: 0 <= i < |s| ==> IsDigit(s[i])
  }

  function DigitChar(d: nat): (c: char)
    requires d < 10
    ensures IsDigit(c) && c as int - '0' as int == d
  {
    ('0' as int + d) as char
  }

  /** The value of a string of decimal digits. */
  function DigitsValue(s: string): nat
    requires AllDigits(s)
  {
    if s == [] then 0
    else DigitsValue(s[..|s| - 1]) * 10 + (s[|s| - 1] as int - '0' as int)
  }

  /** `n.toString()` for a non-negative integer: the shortest decimal
      numeral, which starts with `0` only for zero itself. */
  function NatToString(n: nat): (r: string)
    ensures |r| >= 1 && AllDigits(r)
    ensures r[0] == '0' <==> n == 0
    ensures n < 10 <==> |r| == 1
  {
    if n < 10 then [DigitChar(n)]
    else NatToString(n / 10) + [DigitChar(n % 10)]
  }

  /** Reading back the numeral gives the number. */
  lemma {:induction false} NatToStringValue(n: nat)
    ensures DigitsValue(NatToString(n)) == n
  {
    if n >= 10 {
      NatToStringValue(n / 10);
      var r := NatToString(n);
      assert r[..|r| - 1] == NatToString(n / 10);
    }
  }

  /** A leading zero does not change the value of a numeral. */
  lemma {:induction false} LeadingZeroValue(s: string)
    requires AllDigits(s)
    ensures AllDigits("0" + s) && DigitsValue("0" + s) == DigitsValue(s)
    decreases |s|
  {
    if s != [] {
      var t := "0" + s;
      assert t[..|t| - 1] == "0" + s[..|s| - 1];
      LeadingZeroValue(s[..|s| - 1]);
    }
  }

  /** `i.toString()` for any integer. */
  function IntToString(i: int): (r: string)
    ensures r != []
  {
    if i < 0 then "-" + NatToString(-i) else NatToString(i)
  }

  /** Distinct integers have distinct renderings. */
  lemma IntToStringInjective(a: int, b: int)
    requires IntToString(a) == IntToString(b)
    ensures a == b
  {
    if a < 0 && b < 0 {
      var m: nat, n: nat := -a, -b;
      DropHead('-', NatToString(m));
      DropHead('-', NatToString(n));
      assert NatToString(m) == NatToString(n);
      NatToStringValue(m);
      NatToStringValue(n);
    } else if a >= 0 && b >= 0 {
      NatToStringValue(a);
      NatToStringValue(b);
      assert a == b;
    } else {
      assert false;
    }
  }

  lemma DropHead<T>(c: T, s: seq<T>)
    ensures ([c] + s)[1..] == s
  {
  }

  /** Integer renderings never contain the given non-digit, non-minus character. */
  lemma IntToStringAvoids(i: int, c: char)
    requires !IsDigit(c) && c != '-'
    ensures c !in IntToString(i)
  {
    if i < 0 {
      assert IntToString(i) == "-" + NatToString(-i);
    }
  }
}
