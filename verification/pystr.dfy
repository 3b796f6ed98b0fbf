/** The Python `str` operations the service layer relies on, over `string` (= `seq<char>`):
    `str.strip()`, `str.split(sep)` with a one-character separator, `sep.join(...)`,
    substring containment and `str(n)` for an integer `n` of at most 4300 digits. */
module PyStr {

  /** Python's `str.isspace()` for one code point: the characters `str.strip()` with no
      argument removes (ASCII tab to carriage return, the four information separators,
      space, NEL, no-break space and the Unicode space separators). */
  predicate IsSpace(c: char) {
    var n := c as int;
    || 0x09 <= n <= 0x0D
    || 0x1C <= n <= 0x20
    || n == 0x85 || n == 0xA0 || n == 0x1680
    || 0x2000 <= n <= 0x200A
    || n == 0x2028 || n == 0x2029 || n == 0x202F || n == 0x205F || n == 0x3000
  }

  predicate AllSpace(s: string) {
    forall k :: 0 <= k < |s| ==> IsSpace(s[k])
  }

  /** Neither begins nor ends with whitespace. */
  predicate Trimmed(s: string) {
    s == [] || (!IsSpace(s[0]) && !IsSpace(s[|s| - 1]))
  }

  /** Length of the longest all-whitespace prefix. */
  function LeadLen(s: string): (n: nat)
    ensures n <= |s| && AllSpace(s[..n])
    ensures n < |s| ==> !IsSpace(s[n])
  {
    if |s| > 0 && IsSpace(s[0]) then
      var t := s[1..];
      var m := LeadLen(t);
      var u := s[..m + 1];
      assert AllSpace(u) by {
        forall k | 0 <= k < |u|
          ensures IsSpace(u[k])
        {
          if k > 0 {
            assert u[k] == t[..m][k - 1];
          }
        }
      }
      assert m + 1 < |s| ==> s[m + 1] == t[m];
      m + 1
    else 0
  }

  /** Length of the longest all-whitespace suffix. */
  function TrailLen(s: string): (n: nat)
    ensures n <= |s| && AllSpace(s[|s| - n..])
    ensures n < |s| ==> !IsSpace(s[|s| - n - 1])
  {
    if |s| > 0 && IsSpace(s[|s| - 1]) then
      var t := s[..|s| - 1];
      var m := TrailLen(t);
      var u := s[|s| - (m + 1)..];
      assert AllSpace(u) by {
        forall k | 0 <= k < |u|
          ensures IsSpace(u[k])
        {
          if k < m {
            assert u[k] == t[|t| - m..][k];
          }
        }
      }
      assert m + 1 < |s| ==> s[|s| - (m + 1) - 1] == t[|t| - m - 1];
      m + 1
    else 0
  }

  /** Python's `s.strip()`: `s` without its leading and trailing whitespace. */
  function Strip(s: string): (r: string)
    ensures Trimmed(r)
    ensures |r| <= |s|
    ensures r == [] <==> AllSpace(s)
  {
    var i := LeadLen(s);
    var t := s[i..];
    var j := TrailLen(t);
    assert AllSpace(s) ==> i == |s|;
    assert i < |s| ==> t[0] == s[i];
    t[..|t| - j]
  }

  /** Strip characterised without reference to how it scans: whatever whitespace
      surrounds a trimmed middle, stripping returns exactly that middle. */
  lemma StripPadded(a: string, m: string, b: string)
    requires AllSpace(a) && AllSpace(b) && Trimmed(m)
    ensures Strip(a + m + b) == m
  {
    var s := a + m + b;
    if m == [] {
      assert AllSpace(s) by {
        forall k | 0 <= k < |s| ensures IsSpace(s[k]) {
          if k < |a| { assert s[k] == a[k]; } else { assert s[k] == b[k - |a|]; }
        }
      }
    } else {
      var i := LeadLen(s);
      assert s[|a|] == m[0];
      assert i == |a|;
      var t := s[i..];
      assert t == m + b;
      var j := TrailLen(t);
      assert t[|t| - |b| - 1] == m[|m| - 1];
      assert j == |b|;
      assert t[..|t| - j] == m;
    }
  }

  /** Every string is its strip surrounded by whitespace. */
  lemma StripDecomposes(s: string) returns (a: string, b: string)
    ensures s == a + Strip(s) + b
    ensures AllSpace(a) && AllSpace(b)
  {
    var i := LeadLen(s);
    var t := s[i..];
    var j := TrailLen(t);
    a, b := s[..i], t[|t| - j..];
    Recombine(s, i, |t| - j);
  }

  /** Cutting a string at `i` and its tail at `n` loses nothing. */
  lemma Recombine(s: string, i: nat, n: nat)
    requires i <= |s| && n <= |s| - i
    ensures s == s[..i] + s[i..][..n] + s[i..][n..]
  {
    assert s[i..] == s[i..][..n] + s[i..][n..];
    assert s == s[..i] + s[i..];
  }

  /** Stripping twice is stripping once. */
  lemma StripIdempotent(s: string)
    ensures Strip(Strip(s)) == Strip(s)
  {
    StripPadded([], Strip(s), []);
    assert [] + Strip(s) + [] == Strip(s);
  }

  /** Number of occurrences of `c` in `s`. */
  function Occurrences(s: string, c: char): nat {
    if |s| == 0 then 0 else (if s[0] == c then 1 else 0) + Occurrences(s[1..], c)
  }

  /** `sep.join(parts)`. */
  function Join(parts: seq<string>, sep: char): string {
    if |parts| == 0 then ""
    else if |parts| == 1 then parts[0]
    else parts[0] + [sep] + Join(parts[1..], sep)
  }

  /** Python's `s.split(sep)` for a one-character `sep`: the maximal `sep`-free pieces
      between occurrences of `sep`, including empty ones, so `"".split(sep) == [""]`. */
  function Split(s: string, sep: char): (parts: seq<string>)
    ensures |parts| == Occurrences(s, sep) + 1
    ensures forall k :: 0 <= k < |parts| ==> sep !in parts[k]
    ensures Join(parts, sep) == s
  {
    if |s| == 0 then [""]
    else
      var rest := Split(s[1..], sep);
      assert s == [s[0]] + s[1..];
      if s[0] == sep then
        var parts := [""] + rest;
        assert parts[1..] == rest;
        parts
      else
        var parts := [[s[0]] + rest[0]] + rest[1..];
        assert parts[1..] == rest[1..];
        assert |rest| > 1 ==> Join(rest, sep) == rest[0] + [sep] + Join(rest[1..], sep);
        parts
  }

  function Last<T>(xs: seq<T>): T
    requires |xs| > 0
  {
    xs[|xs| - 1]
  }

  /** A string without the separator splits into itself alone. */
  lemma {:induction false} SplitWithoutSep(s: string, sep: char)
    requires sep !in s
    ensures Split(s, sep) == [s]
  {
    if |s| > 0 {
      SplitWithoutSep(s[1..], sep);
      assert [s[0]] + s[1..] == s;
    }
  }

  /** Splitting is a homomorphism from `+ [sep] +` to sequence concatenation. */
  lemma {:induction false} SplitConcat(a: string, b: string, sep: char)
    ensures Split(a + [sep] + b, sep) == Split(a, sep) + Split(b, sep)
  {
    var s := a + [sep] + b;
    if |a| == 0 {
      assert s == [sep] + b;
      assert s[1..] == b;
    } else {
      assert s[1..] == a[1..] + [sep] + b;
      SplitConcat(a[1..], b, sep);
    }
  }

  /** Splitting undoes joining pieces that do not contain the separator. */
  lemma {:induction false} SplitJoin(parts: seq<string>, sep: char)
    requires |parts| > 0
    requires forall k :: 0 <= k < |parts| ==> sep !in parts[k]
    ensures Split(Join(parts, sep), sep) == parts
  {
    if |parts| == 1 {
      SplitWithoutSep(parts[0], sep);
    } else {
      SplitJoin(parts[1..], sep);
      SplitConcat(parts[0], Join(parts[1..], sep), sep);
      SplitWithoutSep(parts[0], sep);
      assert [parts[0]] + parts[1..] == parts;
    }
  }

  /** The last piece of a split is whatever follows a prefix that is empty or ends
      with the separator, provided it is free of the separator. */
  lemma SplitLastAfterSep(p: string, q: string, sep: char)
    requires sep !in q
    requires p == [] || p[|p| - 1] == sep
    ensures Last(Split(p + q, sep)) == q
  {
    if p == [] {
      assert p + q == q;
      SplitWithoutSep(q, sep);
    } else {
      var p' := p[..|p| - 1];
      assert p + q == p' + [sep] + q;
      SplitConcat(p', q, sep);
      SplitWithoutSep(q, sep);
    }
  }

  /** Where the `sep`-free tail of `s` begins: just after the last `sep`, or at 0. */
  function TailStart(s: string, sep: char): (i: nat)
    ensures i <= |s|
    ensures sep !in s[i..]
    ensures i == 0 || s[i - 1] == sep
  {
    if |s| == 0 || s[|s| - 1] == sep then |s|
    else
      var t := s[..|s| - 1];
      var i := TailStart(t, sep);
      assert s[i..] == t[i..] + [s[|s| - 1]];
      i
  }

  /** `sub` occurs in `s` starting at position `i`. */
  predicate OccursAt(s: string, sub: string, i: int) {
    0 <= i <= |s| - |sub| && s[i..i + |sub|] == sub
  }

  /** `sub` occurs in `s` as a contiguous substring (Python's `sub in s`). */
  predicate Contains(s: string, sub: string) {
    exists i | 0 <= i <= |s| - |sub| :: OccursAt(s, sub, i)
  }

  lemma ContainsMiddle(a: string, m: string, b: string)
    ensures Contains(a + m + b, m)
  {
    var s := a + m + b;
    assert s[|a|..|a| + |m|] == m;
    assert OccursAt(s, m, |a|);
  }

  lemma ContainsPrepend(a: string, s: string, sub: string)
    requires Contains(s, sub)
    ensures Contains(a + s, sub)
  {
    var i :| 0 <= i <= |s| - |sub| && OccursAt(s, sub, i);
    assert (a + s)[|a| + i..|a| + i + |sub|] == s[i..i + |sub|];
    assert OccursAt(a + s, sub, |a| + i);
  }

  /** Containment is transitive. */
  lemma ContainsTransitive(s: string, mid: string, sub: string)
    requires Contains(s, mid) && Contains(mid, sub)
    ensures Contains(s, sub)
  {
    var i :| 0 <= i <= |s| - |mid| && OccursAt(s, mid, i);
    var j :| 0 <= j <= |mid| - |sub| && OccursAt(mid, sub, j);
    forall k | 0 <= k < |sub|
      ensures s[i + j + k] == sub[k]
    {
      assert s[i..i + |mid|][j + k] == s[i + j + k];
      assert mid[j..j + |sub|][k] == mid[j + k];
    }
    assert s[i + j..i + j + |sub|] == sub;
    assert OccursAt(s, sub, i + j);
  }

  /** An f-string: the literal parts with the rendered replacement fields between them,
      `parts[0] + fields[0] + parts[1] + ... + fields[n-1] + parts[n]`. */
  function FString(parts: seq<string>, fields: seq<string>): string
    requires |parts| == |fields| + 1
  {
    if |fields| == 0 then parts[0]
    else parts[0] + fields[0] + FString(parts[1..], fields[1..])
  }

  /** Every replacement field and every literal part appears verbatim in the f-string. */
  lemma {:induction false} FStringContains(parts: seq<string>, fields: seq<string>)
    requires |parts| == |fields| + 1
    ensures forall k :: 0 <= k < |fields| ==> Contains(FString(parts, fields), fields[k])
    ensures forall k :: 0 <= k < |parts| ==> Contains(FString(parts, fields), parts[k])
  {
    var s := FString(parts, fields);
    if |fields| == 0 {
      ContainsMiddle([], parts[0], []);
      assert [] + parts[0] + [] == parts[0];
    } else {
      var rest := FString(parts[1..], fields[1..]);
      FStringContains(parts[1..], fields[1..]);
      assert s == parts[0] + fields[0] + rest;
      ContainsMiddle(parts[0], fields[0], rest);
      ContainsMiddle([], parts[0], fields[0] + rest);
      assert [] + parts[0] + (fields[0] + rest) == s;
      forall k | 1 <= k < |fields|
        ensures Contains(s, fields[k])
      {
        assert fields[1..][k - 1] == fields[k];
        ContainsPrepend(parts[0] + fields[0], rest, fields[k]);
      }
      forall k | 1 <= k < |parts|
        ensures Contains(s, parts[k])
      {
        assert parts[1..][k - 1] == parts[k];
        ContainsPrepend(parts[0] + fields[0], rest, parts[k]);
      }
    }
  }

  predicate IsDigit(c: char) {
    '0' <= c <= '9'
  }

  function DigitChar(d: nat): (c: char)
    requires d < 10
    ensures IsDigit(c) && c as int - '0' as int == d
  {
    (d + '0' as int) as char
  }

  /** Decimal digits of `n`, most significant first, without leading zeros. */
  function NatToString(n: nat): (r: string)
    ensures |r| > 0
    ensures forall k :: 0 <= k < |r| ==> IsDigit(r[k])
    ensures r[0] == '0' ==> n == 0 && |r| == 1
  {
    if n < 10 then [DigitChar(n)] else NatToString(n / 10) + [DigitChar(n % 10)]
  }

  /** Python's `str(n)` for an integer `n`, within Python's default limit of 4300 decimal
      digits (`sys.int_max_str_digits`); beyond it Python raises `ValueError`. */
  function IntToString(n: int): (r: string)
    ensures |r| > 0
    ensures r[0] == '-' <==> n < 0
    ensures var d := if n < 0 then 1 else 0;
            |r| > d && (r[d] == '0' ==> n == 0 && |r| == 1)
  {
    if n < 0 then "-" + NatToString(-n) else NatToString(n)
  }

  /** The value of a string of decimal digits. */
  function DigitsValue(s: string): nat
    requires forall k :: 0 <= k < |s| ==> IsDigit(s[k])
  {
    if |s| == 0 then 0
    else
      assert IsDigit(s[|s| - 1]);
      DigitsValue(s[..|s| - 1]) * 10 + (s[|s| - 1] as int - '0' as int)
  }

  /** Python's `int(s)` restricted to the strings `str` produces: an optional minus sign, then digits. */
  function DecimalValue(s: string): int
    requires |s| > 0
    requires forall k :: (if s[0] == '-' then 1 else 0) <= k < |s| ==> IsDigit(s[k])
  {
    if s[0] == '-' then -(DigitsValue(s[1..]) as int) else DigitsValue(s)
  }

  lemma {:induction false} NatToStringRoundTrip(n: nat)
    ensures DigitsValue(NatToString(n)) == n
  {
    if n >= 10 {
      var s := NatToString(n);
      NatToStringRoundTrip(n / 10);
      assert s[..|s| - 1] == NatToString(n / 10);
    }
  }

  /** Reading back `str(n)` gives `n`. */
  lemma IntToStringRoundTrip(n: int)
    ensures var s := IntToString(n);
            (forall k :: (if s[0] == '-' then 1 else 0) <= k < |s| ==> IsDigit(s[k]))
            && DecimalValue(s) == n
  {
    var s := IntToString(n);
    if n < 0 {
      NatToStringRoundTrip(-n);
      assert s[1..] == NatToString(-n);
    } else {
      NatToStringRoundTrip(n);
    }
  }
}
