/** The PHP string built-ins the routing core relies on, over `string` (= `seq<char>`):
    `strpos`, `substr_count`, `trim`/`ltrim`/`rtrim`, `strtoupper`, `ucfirst`,
    `explode`/`implode`, `str_replace` and decimal integer rendering. Characters are
    single-byte ASCII as far as case mapping and `\w` are concerned. */
module Strings {

  /** `t` occurs in `s` starting at index `i`. */
  predicate OccursAt(s: string, t: string, i: int) {
    0 <= i && i + |t| <= |s| && s[i..i + |t|] == t
  }

  /** PHP `strpos($s, $t) !== false`. */
  predicate Contains(s: string, t: string) {
    exists i :: 0 <= i <= |s| - |t| && OccursAt(s, t, i)
  }

  /** A one-character needle occurs exactly when the character does. */
  lemma ContainsChar(s: string, c: char)
    ensures Contains(s, [c]) <==> c in s
  {
    if c in s {
      var i :| 0 <= i < |s| && s[i] == c;
      assert s[i..i + 1] == [c];
      assert OccursAt(s, [c], i);
    }
    if Contains(s, [c]) {
      var i :| 0 <= i <= |s| - 1 && OccursAt(s, [c], i);
      assert s[i] == s[i..i + 1][0];
    }
  }

  /** PHP `empty($s)` for a string: the empty string and `"0"` are both falsy. */
  predicate PhpEmpty(s: string) {
    s == "" || s == "0"
  }

  /** Number of occurrences of the character `c` (PHP `substr_count` with a one-character needle). */
  function CountChar(s: string, c: char): (n: nat)
    ensures n <= |s|
    ensures n == 0 <==> c !in s
  {
    if |s| == 0 then 0 else (if s[0] == c then 1 else 0) + CountChar(s[1..], c)
  }

  /** Counting is additive over concatenation. */
  lemma {:induction false} CountCharAppend(a: string, b: string, c: char)
    ensures CountChar(a + b, c) == CountChar(a, c) + CountChar(b, c)
  {
    if |a| > 0 {
      assert (a + b)[1..] == a[1..] + b;
      CountCharAppend(a[1..], b, c);
    } else {
      assert a + b == b;
    }
  }

  /** Index of the first `c` in `s` (PHP `strpos` with a one-character needle). */
  function FirstIndex(s: string, c: char): (i: nat)
    requires c in s
    ensures i < |s| && s[i] == c && c !in s[..i]
  {
    if s[0] == c then 0 else 1 + FirstIndex(s[1..], c)
  }

  /** Index of the last `c` in `s` (PHP `strrpos` with a one-character needle). */
  function LastIndex(s: string, c: char): (i: nat)
    requires c in s
    ensures i < |s| && s[i] == c && c !in s[i + 1..]
  {
    if s[|s| - 1] == c then |s| - 1
    else
      assert c in s[..|s| - 1];
      var i := LastIndex(s[..|s| - 1], c);
      assert s[i + 1..] == s[..|s| - 1][i + 1..] + [s[|s| - 1]];
      i
  }

  /** The position of a `c` followed by no other `c` is the last index. */
  lemma LastIndexUnique(s: string, c: char, i: nat)
    requires i < |s| && s[i] == c && c !in s[i + 1..]
    ensures LastIndex(s, c) == i
  {
  }

  /** A suffix of a sequence ends where the sequence does. */
  lemma DropLast<T>(s: seq<T>, j: int)
    requires 0 <= j < |s|
    ensures |s[j..]| > 0 && s[j..][|s[j..]| - 1] == s[|s| - 1]
  {
  }

  /** Dropping the head of a concatenation with a non-empty left part. */
  lemma AppendTail<T>(a: seq<T>, b: seq<T>)
    requires |a| > 0
    ensures (a + b)[0] == a[0] && (a + b)[1..] == a[1..] + b
  {
  }

  /** A non-empty sequence is its head followed by its tail. */
  lemma ConsAssoc<T>(a: seq<T>, r: seq<T>)
    requires |a| > 0
    ensures [a[0]] + (a[1..] + r) == a + r
  {
    assert a == [a[0]] + a[1..];
  }

  /** Dropping a prefix from a concatenation leaves the rest. */
  lemma DropPrefix<T>(p: seq<T>, r: seq<T>)
    ensures |p + r| == |p| + |r| && (p + r)[|p|..] == r
    ensures forall i :: 0 <= i < |p| ==> (p + r)[i] == p[i]
  {
  }

  /** A non-empty sequence is its first element followed by the rest. */
  lemma HeadTail<T>(s: seq<T>)
    requires |s| > 0
    ensures [s[0]] + s[1..] == s
  {
  }

  /** A sequence is its prefix up to `k` followed by the rest. */
  lemma TakeDrop<T>(s: seq<T>, k: int)
    requires 0 <= k <= |s|
    ensures s[..k] + s[k..] == s
  {
  }

  // ---------------------------------------------------------------------------
  // trim / ltrim / rtrim

  /** The characters PHP's `trim` strips when no character list is given. */
  const Whitespace: set<char> := {' ', '\t', '\n', '\r', '\0', '\U{0B}'}

  /** Length of the longest prefix of `s` made of characters of `cs`. */
  function LeadCount(s: string, cs: set<char>): (n: nat)
    ensures n <= |s|
    ensures forall i :: 0 <= i < n ==> s[i] in cs
    ensures n == |s| || s[n] !in cs
  {
    if |s| == 0 || s[0] !in cs then 0 else 1 + LeadCount(s[1..], cs)
  }

  /** Length of the longest suffix of `s` made of characters of `cs`. */
  function TrailCount(s: string, cs: set<char>): (n: nat)
    ensures n <= |s|
    ensures forall i :: |s| - n <= i < |s| ==> s[i] in cs
    ensures n == |s| || s[|s| - n - 1] !in cs
  {
    if |s| == 0 || s[|s| - 1] !in cs then 0 else 1 + TrailCount(s[..|s| - 1], cs)
  }

  /** When `q` consists of `cs` characters and `p` does not end with one, the trailing run is `q`. */
  lemma TrailCountExact(p: string, q: string, cs: set<char>)
    requires |p| > 0 && p[|p| - 1] !in cs
    requires forall i :: 0 <= i < |q| ==> q[i] in cs
    ensures TrailCount(p + q, cs) == |q|
    ensures TrimRight(p + q, cs) == p
  {
    var s := p + q;
    assert s[..|s| - |q|] == p;
  }

  /** PHP `ltrim($s, $cs)`. */
  function TrimLeft(s: string, cs: set<char>): string {
    s[LeadCount(s, cs)..]
  }

  /** PHP `rtrim($s, $cs)`. */
  function TrimRight(s: string, cs: set<char>): string {
    s[..|s| - TrailCount(s, cs)]
  }

  /** PHP `trim($s, $cs)`. */
  function Trim(s: string, cs: set<char>): (r: string)
    ensures |r| <= |s|
    ensures |r| > 0 ==> r[0] !in cs && r[|r| - 1] !in cs
    ensures (forall i :: 0 <= i < |s| ==> s[i] !in cs) ==> r == s
  {
    var l := TrimLeft(s, cs);
    TrimRight(l, cs)
  }

  /** A string that neither starts nor ends with a character of `cs` is left as it is. */
  lemma TrimEndsKept(s: string, cs: set<char>)
    requires |s| > 0 ==> s[0] !in cs && s[|s| - 1] !in cs
    ensures Trim(s, cs) == s
  {
    assert LeadCount(s, cs) == 0;
    assert TrailCount(s, cs) == 0;
  }

  /** Trimming the characters of `cs` leaves a contiguous piece of `s` whose removed ends
      consist of `cs` characters only. */
  lemma TrimIsInfix(s: string, cs: set<char>)
    ensures exists i, j :: 0 <= i <= j <= |s| && Trim(s, cs) == s[i..j]
                           && (forall k :: 0 <= k < i ==> s[k] in cs)
                           && (forall k :: j <= k < |s| ==> s[k] in cs)
  {
    var i := LeadCount(s, cs);
    var l := s[i..];
    var m := |l| - TrailCount(l, cs);
    var j := i + m;
    assert Trim(s, cs) == l[..m];
    SliceOfSlice(s, i, m);
    assert forall k :: j <= k < |s| ==> s[k] in cs by {
      forall k | j <= k < |s| ensures s[k] in cs {
        assert s[k] == l[k - i];
      }
    }
    assert Trim(s, cs) == s[i..j];
  }

  lemma SliceOfSlice<T>(s: seq<T>, i: int, m: int)
    requires 0 <= i <= |s| && 0 <= m <= |s| - i
    ensures s[i..][..m] == s[i..i + m]
  {
  }

  // ---------------------------------------------------------------------------
  // case mapping and character classes

  predicate IsLower(c: char) { 'a' <= c <= 'z' }

  /** PHP `strtoupper` on one character (ASCII only). */
  function UpperChar(c: char): (u: char)
    ensures IsLower(c) ==> u as int == c as int - 32 && 'A' <= u <= 'Z'
    ensures !IsLower(c) ==> u == c
  {
    if IsLower(c) then (c as int - 32) as char else c
  }

  /** PHP `strtoupper`. */
  function Upper(s: string): (r: string)
    ensures |r| == |s|
    ensures forall i :: 0 <= i < |s| ==> r[i] == UpperChar(s[i])
  {
    seq(|s|, i requires 0 <= i < |s| => UpperChar(s[i]))
  }

  /** PHP `ucfirst`. */
  function Ucfirst(s: string): (r: string)
    ensures |r| == |s|
    ensures |s| > 0 ==> r[0] == UpperChar(s[0]) && r[1..] == s[1..]
  {
    if |s| == 0 then s else [UpperChar(s[0])] + s[1..]
  }

  /** PCRE `\w` without the `u` flag. */
  predicate IsWordChar(c: char) {
    'a' <= c <= 'z' || 'A' <= c <= 'Z' || '0' <= c <= '9' || c == '_'
  }

  // ---------------------------------------------------------------------------
  // explode / implode

  /** PHP `implode($sep, $parts)`. */
  function Join(parts: seq<string>, sep: string): string
  {
    if |parts| == 0 then ""
    else if |parts| == 1 then parts[0]
    else parts[0] + sep + Join(parts[1..], sep)
  }

  /** PHP `explode($c, $s)` for a one-character delimiter: never empty, no piece holds the
      delimiter, and joining the pieces back gives `s`. */
  function Split(s: string, c: char): (r: seq<string>)
    ensures |r| >= 1
    ensures forall i :: 0 <= i < |r| ==> c !in r[i]
    ensures Join(r, [c]) == s
    decreases |s|
  {
    if c !in s then [s]
    else
      var i := FirstIndex(s, c);
      assert s == s[..i] + [c] + s[i + 1..];
      [s[..i]] + Split(s[i + 1..], c)
  }

  /** `explode` inverts `implode` when no piece contains the delimiter. */
  lemma {:induction false} SplitJoin(parts: seq<string>, c: char)
    requires |parts| >= 1
    requires forall i :: 0 <= i < |parts| ==> c !in parts[i]
    ensures Split(Join(parts, [c]), c) == parts
  {
    if |parts| == 1 {
    } else {
      var rest := Join(parts[1..], [c]);
      var s := parts[0] + [c] + rest;
      assert s[|parts[0]|] == c;
      assert s[..|parts[0]|] == parts[0];
      assert FirstIndex(s, c) == |parts[0]| by {
        FirstIndexUnique(s, c, |parts[0]|);
      }
      assert s[|parts[0]| + 1..] == rest;
      SplitJoin(parts[1..], c);
    }
  }

  /** The first piece of `explode` is the text before the first delimiter. */
  lemma SplitHead(a: string, b: string, c: char)
    requires c !in a
    ensures Split(a + [c] + b, c)[0] == a
  {
    var s := a + [c] + b;
    assert s[|a|] == c && s[..|a|] == a;
    FirstIndexUnique(s, c, |a|);
  }

  lemma FirstIndexUnique(s: string, c: char, i: nat)
    requires i < |s| && s[i] == c && c !in s[..i]
    ensures FirstIndex(s, c) == i
  {
  }

  /** Every character of an occurrence is a character of the needle. */
  lemma OccurrenceChars(s: string, t: string, i: int)
    requires OccursAt(s, t, i)
    ensures forall p :: i <= p < i + |t| ==> s[p] in t
  {
    forall p | i <= p < i + |t|
      ensures s[p] in t
    {
      assert s[i..i + |t|][p - i] == s[p];
    }
  }

  /** A needle without the delimiter occurs in `a + c + b` exactly when it occurs in `a` or in `b`. */
  lemma ContainsAroundSeparator(a: string, b: string, c: char, t: string)
    requires |t| > 0 && c !in t
    ensures Contains(a + [c] + b, t) <==> Contains(a, t) || Contains(b, t)
  {
    if Contains(a + [c] + b, t) {
      ContainsAroundSplit(a, b, c, t);
    }
    if Contains(a, t) {
      ContainsLeftOf(a, b, c, t);
    }
    if Contains(b, t) {
      ContainsRightOf(a, b, c, t);
    }
  }

  lemma ContainsAroundSplit(a: string, b: string, c: char, t: string)
    requires |t| > 0 && c !in t && Contains(a + [c] + b, t)
    ensures Contains(a, t) || Contains(b, t)
  {
    var s := a + [c] + b;
    var i :| 0 <= i <= |s| - |t| && OccursAt(s, t, i);
    OccurrenceChars(s, t, i);
    assert s[|a|] == c;
    if i + |t| <= |a| {
      assert s[i..i + |t|] == a[i..i + |t|];
      assert OccursAt(a, t, i);
    } else {
      assert i > |a|;
      var k := i - |a| - 1;
      assert s[i..i + |t|] == b[k..k + |t|];
      assert OccursAt(b, t, k);
    }
  }

  lemma ContainsLeftOf(a: string, b: string, c: char, t: string)
    requires Contains(a, t)
    ensures Contains(a + [c] + b, t)
  {
    var s := a + [c] + b;
    var i :| 0 <= i <= |a| - |t| && OccursAt(a, t, i);
    assert s[i..i + |t|] == a[i..i + |t|];
    assert OccursAt(s, t, i);
  }

  lemma ContainsRightOf(a: string, b: string, c: char, t: string)
    requires Contains(b, t)
    ensures Contains(a + [c] + b, t)
  {
    var s := a + [c] + b;
    var i :| 0 <= i <= |b| - |t| && OccursAt(b, t, i);
    var k := |a| + 1 + i;
    assert s[|a| + 1..] == b;
    assert s[k..k + |t|] == b[i..i + |t|];
    assert OccursAt(s, t, k);
  }

  /** A needle without the delimiter occurs in the joined string exactly when it occurs in one piece. */
  lemma {:induction false} ContainsJoin(parts: seq<string>, c: char, t: string)
    requires |t| > 0 && c !in t
    ensures Contains(Join(parts, [c]), t) <==> exists i :: 0 <= i < |parts| && Contains(parts[i], t)
  {
    if |parts| == 0 {
    } else if |parts| == 1 {
    } else {
      ContainsAroundSeparator(parts[0], Join(parts[1..], [c]), c, t);
      ContainsJoin(parts[1..], c, t);
      if exists i :: 0 <= i < |parts| && Contains(parts[i], t) {
        var i :| 0 <= i < |parts| && Contains(parts[i], t);
        if i > 0 {
          assert parts[1..][i - 1] == parts[i];
        }
      }
    }
  }

  // ---------------------------------------------------------------------------
  // str_replace

  /** PHP `str_replace($from, $to, $s)` for one search string: a left-to-right scan replacing
      non-overlapping occurrences; an empty search string leaves `s` unchanged. */
  function ReplaceAll(s: string, from: string, to: string): string
    decreases |s|
  {
    if |from| == 0 || |s| < |from| then s
    else if s[..|from|] == from then to + ReplaceAll(s[|from|..], from, to)
    else [s[0]] + ReplaceAll(s[1..], from, to)
  }

  /** Replacing a string that does not occur changes nothing. */
  lemma {:induction false} ReplaceAllAbsent(s: string, from: string, to: string)
    requires !Contains(s, from)
    ensures ReplaceAll(s, from, to) == s
    decreases |s|
  {
    if |from| == 0 {
      assert OccursAt(s, from, 0);
    } else if |s| < |from| {
    } else {
      assert !OccursAt(s, from, 0);
      assert !Contains(s[1..], from) by {
        forall i | 0 <= i <= |s[1..]| - |from| && OccursAt(s[1..], from, i)
          ensures false
        {
          assert s[1..][i..i + |from|] == s[i + 1..i + 1 + |from|];
          assert OccursAt(s, from, i + 1);
        }
      }
      ReplaceAllAbsent(s[1..], from, to);
    }
  }

  /** A leading occurrence is replaced and the scan resumes right after it. */
  lemma ReplaceAllLeading(s: string, from: string, to: string)
    requires |from| > 0
    ensures ReplaceAll(from + s, from, to) == to + ReplaceAll(s, from, to)
  {
    var w := from + s;
    assert w[..|from|] == from;
    assert w[|from|..] == s;
  }

  // ---------------------------------------------------------------------------
  // decimal integers

  predicate IsDigit(c: char) { '0' <= c <= '9' }

  function DigitChar(d: nat): (c: char)
    requires d < 10
    ensures IsDigit(c)
  {
    ('0' as int + d) as char
  }

  /** Decimal rendering of a natural number, as PHP converts an int to a string. */
  function NatStr(n: nat): (r: string)
    ensures |r| >= 1
    ensures forall i :: 0 <= i < |r| ==> IsDigit(r[i])
  {
    if n < 10 then [DigitChar(n)] else NatStr(n / 10) + [DigitChar(n % 10)]
  }

  /** Value of a string of decimal digits. */
  function ParseNat(s: string): nat
    requires forall i :: 0 <= i < |s| ==> IsDigit(s[i])
  {
    if |s| == 0 then 0 else ParseNat(s[..|s| - 1]) * 10 + DigitValue(s[|s| - 1])
  }

  function DigitValue(c: char): (d: nat)
    requires IsDigit(c)
    ensures d < 10 && DigitChar(d) == c
  {
    c as int - '0' as int
  }

  /** Reading back a rendered number gives the number. */
  lemma {:induction false} ParseNatStr(n: nat)
    ensures ParseNat(NatStr(n)) == n
  {
    if n >= 10 {
      var s := NatStr(n);
      assert s[..|s| - 1] == NatStr(n / 10);
      ParseNatStr(n / 10);
    }
  }
}
