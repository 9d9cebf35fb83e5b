/**
 * Byte-level string operations the case-conversion engine and its helpers are
 * built from.  A Go string is modelled as a sequence of characters, one
 * character per byte; every transformation here looks only at ASCII values.
 */
module Text {

  predicate IsLower(c: char) { 'a' <= c <= 'z' }

  predicate IsUpper(c: char) { 'A' <= c <= 'Z' }

  predicate IsDigit(c: char) { '0' <= c <= '9' }

  /** Subtracting 32 from an ASCII lowercase letter gives its uppercase form. */
  function ToUpper(c: char): char
  {
    if IsLower(c) then (c as int - 32) as char else c
  }

  /** ASCII-only lowering of a whole string. */
  function ToLowerAscii(s: string): (r: string)
    ensures |r| == |s|
  {
    seq(|s|, i requires 0 <= i < |s| => if IsUpper(s[i]) then (s[i] as int + 32) as char else s[i])
  }

  lemma ToUpperFacts(c: char)
    ensures !IsLower(ToUpper(c))
    ensures ToUpper(c) == c <==> !IsLower(c)
    ensures IsLower(c) ==> IsUpper(ToUpper(c))
  {
  }

  /** Index of the first `c` in `s`, or `|s|` when `s` has none. */
  function Find(s: string, c: char): (k: nat)
    ensures k <= |s|
    ensures forall j :: 0 <= j < k ==> s[j] != c
    ensures k < |s| ==> s[k] == c
  {
    if s == [] then 0 else if s[0] == c then 0 else 1 + Find(s[1..], c)
  }

  /** The characterisation in Find's contract singles out one index. */
  lemma FindUnique(s: string, c: char, k: nat)
    requires k <= |s|
    requires forall j :: 0 <= j < k ==> s[j] != c
    requires k < |s| ==> s[k] == c
    ensures Find(s, c) == k
  {
  }

  lemma FindAppend(a: string, b: string, c: char)
    ensures Find(a + b, c) == if Find(a, c) < |a| then Find(a, c) else |a| + Find(b, c)
  {
    var k := if Find(a, c) < |a| then Find(a, c) else |a| + Find(b, c);
    assert forall j :: 0 <= j < k ==> (a + b)[j] != c by {
      forall j | 0 <= j < k ensures (a + b)[j] != c {
        if j >= |a| { assert (a + b)[j] == b[j - |a|]; }
      }
    }
    FindUnique(a + b, c, k);
  }

  /** strings.IndexByte: the first index of `c` in `s`, or -1. */
  function IndexByte(s: string, c: char): (i: int)
    ensures -1 <= i < |s|
    ensures i == -1 <==> c !in s
    ensures 0 <= i ==> s[i] == c && c !in s[..i]
  {
    var k := Find(s, c);
    if k == |s| then -1 else k
  }

  /** Number of occurrences of `c` in `s`. */
  function Count(s: string, c: char): (n: nat)
    ensures n <= |s|
  {
    if s == [] then 0 else (if s[0] == c then 1 else 0) + Count(s[1..], c)
  }

  /** No occurrence is counted exactly when the byte does not occur. */
  lemma {:induction false} CountZero(s: string, c: char)
    ensures Count(s, c) == 0 <==> c !in s
  {
    if s != [] {
      CountZero(s[1..], c);
      assert s == [s[0]] + s[1..];
    }
  }

  lemma {:induction false} CountAppend(a: string, b: string, c: char)
    ensures Count(a + b, c) == Count(a, c) + Count(b, c)
  {
    if a == [] {
      assert a + b == b;
    } else {
      assert (a + b)[1..] == a[1..] + b;
      CountAppend(a[1..], b, c);
    }
  }

  /** `s` with its leading run of `c` removed. */
  function StripLeading(s: string, c: char): (t: string)
    ensures |t| <= |s|
    ensures t == [] || t[0] != c
  {
    if s != [] && s[0] == c then StripLeading(s[1..], c) else s
  }

  /** Where the leading run of `c` ends, the strip stops: what is left is the rest of `s`. */
  lemma {:induction false} StripLeadingAt(s: string, c: char, i: nat)
    requires i <= |s|
    requires forall j :: 0 <= j < i ==> s[j] == c
    requires i == |s| || s[i] != c
    ensures StripLeading(s, c) == s[i..]
  {
    if i > 0 {
      StripLeadingAt(s[1..], c, i - 1);
      assert s[1..][i - 1..] == s[i..];
    }
  }

  /** strings.Split with a one-byte separator: always at least one part, none holding `c`. */
  function Split(s: string, c: char): (parts: seq<string>)
    ensures |parts| >= 1
    decreases |s|
  {
    var k := Find(s, c);
    if k == |s| then [s] else [s[..k]] + Split(s[k + 1..], c)
  }

  /** No part of a split holds the separator. */
  lemma {:induction false} SplitParts(s: string, c: char)
    ensures forall i :: 0 <= i < |Split(s, c)| ==> c !in Split(s, c)[i]
    decreases |s|
  {
    var k := Find(s, c);
    if k < |s| {
      SplitParts(s[k + 1..], c);
    }
  }

  lemma Reassociate<T>(a: seq<T>, b: seq<T>, c: seq<T>)
    ensures a + (b + c) == (a + b) + c
  {
  }

  /** strings.Join: the parts with `sep` between each adjacent pair. */
  function Join(parts: seq<string>, sep: string): string
  {
    if parts == [] then "" else if |parts| == 1 then parts[0] else parts[0] + sep + Join(parts[1..], sep)
  }

  /** Where the field starting at `i` ends: the next `c` at or after `i`, or the end of `s`. */
  function FieldEnd(s: string, i: nat, c: char): (j: nat)
    requires i <= |s|
    ensures i <= j <= |s|
    decreases |s| - i
  {
    if i == |s| || s[i] == c then i else FieldEnd(s, i + 1, c)
  }

  /** The field holds no `c`, and a `c` ends it unless the string does. */
  lemma {:induction false} FieldEndFacts(s: string, i: nat, c: char)
    requires i <= |s|
    ensures forall k :: i <= k < FieldEnd(s, i, c) ==> s[k] != c
    ensures FieldEnd(s, i, c) < |s| ==> s[FieldEnd(s, i, c)] == c
    decreases |s| - i
  {
    if i < |s| && s[i] != c {
      FieldEndFacts(s, i + 1, c);
    }
  }

  lemma {:induction false} FieldEndUnique(s: string, i: nat, j: nat, c: char)
    requires i <= j <= |s|
    requires forall k :: i <= k < j ==> s[k] != c
    requires j < |s| ==> s[j] == c
    ensures FieldEnd(s, i, c) == j
    decreases j - i
  {
    if i < j {
      FieldEndUnique(s, i + 1, j, c);
    }
  }

  /** The end of the field starting at `i` is `i` plus the index of the first `c` in the suffix. */
  lemma {:induction false} FieldEndFind(s: string, i: nat, c: char)
    requires i <= |s|
    ensures FieldEnd(s, i, c) == i + Find(s[i..], c)
    decreases |s| - i
  {
    if i < |s| && s[i] != c {
      FieldEndFind(s, i + 1, c);
      assert s[i..][1..] == s[i + 1..];
    }
  }

  /** IndexByte on the suffix from `i` locates the end of the field starting at `i`. */
  lemma FieldEndIndexByte(s: string, i: nat, c: char)
    requires i <= |s|
    ensures var k := IndexByte(s[i..], c); FieldEnd(s, i, c) == if k >= 0 then i + k else |s|
  {
    FieldEndFind(s, i, c);
  }

  /** Split by positions: the fields of `s` from index `i` on, read left to right. */
  function SplitFrom(s: string, i: nat, c: char): seq<string>
    requires i <= |s|
    decreases |s| - i
  {
    var j := FieldEnd(s, i, c);
    [s[i..j]] + (if j < |s| then SplitFrom(s, j + 1, c) else [])
  }

  lemma SplitFromNext(s: string, i: nat, c: char)
    requires i <= |s| && FieldEnd(s, i, c) < |s|
    ensures SplitFrom(s, i, c) == [s[i..FieldEnd(s, i, c)]] + SplitFrom(s, FieldEnd(s, i, c) + 1, c)
  {
  }

  lemma SplitFromLast(s: string, i: nat, c: char)
    requires i <= |s| && FieldEnd(s, i, c) == |s|
    ensures SplitFrom(s, i, c) == [s[i..FieldEnd(s, i, c)]]
  {
  }

  /** One step of Split: the text before the first `c`, then the split of the rest. */
  lemma SplitAt(t: string, k: nat, c: char)
    requires k == Find(t, c) < |t|
    ensures Split(t, c) == [t[..k]] + Split(t[k + 1..], c)
  {
  }

  lemma SuffixSlices(s: string, i: nat, j: nat)
    requires i <= j < |s|
    ensures s[i..][..j - i] == s[i..j] && s[i..][j - i + 1..] == s[j + 1..]
  {
  }

  /** Splitting the suffix from `i` peels off the field that starts there. */
  lemma SplitSuffixNext(s: string, i: nat, c: char)
    requires i <= |s| && FieldEnd(s, i, c) < |s|
    ensures Split(s[i..], c) == [s[i..FieldEnd(s, i, c)]] + Split(s[FieldEnd(s, i, c) + 1..], c)
  {
    var j := FieldEnd(s, i, c);
    FieldEndFind(s, i, c);
    SplitAt(s[i..], j - i, c);
    SuffixSlices(s, i, j);
  }

  lemma SplitSuffixLast(s: string, i: nat, c: char)
    requires i <= |s| && FieldEnd(s, i, c) == |s|
    ensures Split(s[i..], c) == [s[i..FieldEnd(s, i, c)]]
  {
    FieldEndFind(s, i, c);
    assert s[i..|s|] == s[i..];
  }

  /** The positional split from `i` is the split of the suffix from `i`. */
  lemma {:induction false} SplitFromSuffix(s: string, i: nat, c: char)
    requires i <= |s|
    ensures SplitFrom(s, i, c) == Split(s[i..], c)
    decreases |s| - i
  {
    var j := FieldEnd(s, i, c);
    if j < |s| {
      SplitFromSuffix(s, j + 1, c);
      SplitSuffixNext(s, i, c);
      SplitFromNext(s, i, c);
    } else {
      SplitSuffixLast(s, i, c);
      SplitFromLast(s, i, c);
    }
  }

  /** Appending one more part adds one separator and the part. */
  lemma {:induction false} JoinSnoc(parts: seq<string>, p: string, sep: string)
    ensures Join(parts + [p], sep) == if parts == [] then p else Join(parts, sep) + sep + p
  {
    if |parts| > 1 {
      assert (parts + [p])[1..] == parts[1..] + [p];
      JoinSnoc(parts[1..], p, sep);
    } else if |parts| == 1 {
      assert (parts + [p])[1..] == [p];
    } else {
      assert parts + [p] == [p];
    }
  }

  /** Joining the parts of a split on the same byte gives back the original string. */
  lemma {:induction false} JoinSplit(s: string, c: char)
    ensures Join(Split(s, c), [c]) == s
    decreases |s|
  {
    var k := Find(s, c);
    if k < |s| {
      var rest := Split(s[k + 1..], c);
      JoinSplit(s[k + 1..], c);
      SplitAt(s, k, c);
      var parts := [s[..k]] + rest;
      assert parts[0] == s[..k] && parts[1..] == rest && |parts| > 1;
      assert Join(parts, [c]) == s[..k] + [c] + s[k + 1..];
      AroundIndex(s, k);
    }
  }

  /** A string is the text before index `k`, the byte at `k`, and the text after it. */
  lemma AroundIndex(s: string, k: nat)
    requires k < |s|
    ensures s == s[..k] + [s[k]] + s[k + 1..]
  {
    assert s[..k] + [s[k]] == s[..k + 1];
  }

  /** Splitting a join of separator-free parts gives back the parts. */
  lemma {:induction false} SplitJoin(parts: seq<string>, c: char)
    requires |parts| >= 1
    requires forall i :: 0 <= i < |parts| ==> c !in parts[i]
    ensures Split(Join(parts, [c]), c) == parts
    decreases |parts|
  {
    var p := parts[0];
    FindUnique(p, c, |p|);
    if |parts| > 1 {
      var rest := parts[1..];
      var t := Join(rest, [c]);
      SplitJoin(rest, c);
      assert Join(parts, [c]) == p + ([c] + t);
      FindAppend(p, [c] + t, c);
      assert (p + ([c] + t))[..|p|] == p;
      assert (p + ([c] + t))[|p| + 1..] == t;
      assert parts == [p] + rest;
    }
  }

  /** A string holding n copies of the separator splits into n + 1 parts. */
  lemma {:induction false} SplitCount(s: string, c: char)
    ensures |Split(s, c)| == Count(s, c) + 1
    decreases |s|
  {
    var k := Find(s, c);
    if k < |s| {
      assert Split(s, c) == [s[..k]] + Split(s[k + 1..], c);
      SplitCount(s[k + 1..], c);
      CountFrom(s, c, k);
    } else {
      CountZero(s, c);
    }
  }

  /** Up to and including the first `c`, a string holds exactly one `c`. */
  lemma {:induction false} CountFrom(s: string, c: char, k: nat)
    requires k < |s| && s[k] == c
    requires forall j :: 0 <= j < k ==> s[j] != c
    ensures Count(s, c) == 1 + Count(s[k + 1..], c)
    decreases k
  {
    if k > 0 {
      CountFrom(s[1..], c, k - 1);
      assert s[1..][k..] == s[k + 1..];
    }
  }

  /** A separator in the middle splits the string into the parts on either side. */
  lemma {:induction false} SplitAround(a: string, b: string, c: char)
    ensures Split(a + [c] + b, c) == Split(a, c) + Split(b, c)
    decreases |a|
  {
    var s := a + [c] + b;
    var k := Find(a, c);
    FindAppend(a, [c] + b, c);
    assert s == a + ([c] + b);
    SplitAt(s, k, c);
    SeparatorSlices(a, b, c, k);
    if k == |a| {
      FindUnique(a, c, |a|);
      assert a[..|a|] == a;
    } else {
      SplitAt(a, k, c);
      SplitAround(a[k + 1..], b, c);
      Reassociate([a[..k]], Split(a[k + 1..], c), Split(b, c));
    }
  }

  lemma SeparatorSlices(a: string, b: string, c: char, k: nat)
    requires k <= |a|
    ensures (a + [c] + b)[..k] == a[..k]
    ensures k == |a| ==> (a + [c] + b)[k + 1..] == b
    ensures k < |a| ==> (a + [c] + b)[k + 1..] == a[k + 1..] + [c] + b
  {
  }

  /** The parts that are not empty, in order. */
  function NonEmpty(parts: seq<string>): (r: seq<string>)
    ensures forall i :: 0 <= i < |r| ==> r[i] != []
  {
    if parts == [] then [] else if parts[0] == [] then NonEmpty(parts[1..]) else [parts[0]] + NonEmpty(parts[1..])
  }

  /** The parts concatenated with nothing between them. */
  function Concat(parts: seq<string>): string
  {
    if parts == [] then "" else parts[0] + Concat(parts[1..])
  }

  /** `s` with every `c` removed. */
  function Remove(s: string, c: char): (r: string)
    ensures |r| == |s| - Count(s, c)
  {
    if s == [] then "" else (if s[0] == c then "" else [s[0]]) + Remove(s[1..], c)
  }

  lemma {:induction false} RemoveAppend(a: string, b: string, c: char)
    ensures Remove(a + b, c) == Remove(a, c) + Remove(b, c)
  {
    if a == [] {
      assert a + b == b;
    } else {
      assert (a + b)[1..] == a[1..] + b;
      RemoveAppend(a[1..], b, c);
    }
  }

  lemma {:induction false} RemoveAbsent(s: string, c: char)
    requires c !in s
    ensures Remove(s, c) == s
  {
    if s != [] {
      RemoveAbsent(s[1..], c);
    }
  }

  /** The character for one decimal digit. */
  function DigitChar(d: nat): (c: char)
    requires d < 10
    ensures IsDigit(c)
  {
    ('0' as int + d) as char
  }

  /** The value of one decimal digit character. */
  function DigitValue(c: char): (d: nat)
    requires IsDigit(c)
    ensures d < 10
  {
    c as int - '0' as int
  }

  /** Decimal notation of a natural number, most significant digit first. */
  function NatToDecimal(n: nat): (s: string)
    ensures |s| >= 1 && IsDigit(s[0])
    ensures s[0] == '0' ==> n == 0
  {
    if n < 10 then [DigitChar(n)] else NatToDecimal(n / 10) + [DigitChar(n % 10)]
  }

  /** Decimal notation is made of digits only. */
  lemma {:induction false} NatToDecimalDigits(n: nat)
    ensures forall i :: 0 <= i < |NatToDecimal(n)| ==> IsDigit(NatToDecimal(n)[i])
  {
    if n >= 10 {
      NatToDecimalDigits(n / 10);
    }
  }

  /** fmt's %d of an integer: a minus sign before the digits of a negative value. */
  function IntToDecimal(n: int): (s: string)
    ensures |s| >= 1
    ensures s[0] == '-' <==> n < 0
  {
    if n < 0 then "-" + NatToDecimal(-n) else NatToDecimal(n)
  }

  /** Only the leading byte may be something other than a digit, and then it is `-`. */
  lemma IntToDecimalChars(n: int)
    ensures var s := IntToDecimal(n);
      forall i :: 0 <= i < |s| ==> IsDigit(s[i]) || (i == 0 && s[i] == '-')
  {
    NatToDecimalDigits(if n < 0 then -n else n);
  }

  /** The value of a string of decimal digits, most significant first (a non-digit counts 0). */
  function DecimalValue(s: string): nat
  {
    if s == [] then 0
    else DecimalValue(s[..|s| - 1]) * 10 + (if IsDigit(s[|s| - 1]) then DigitValue(s[|s| - 1]) else 0)
  }

  /** Reading back the digits NatToDecimal writes gives the number. */
  lemma {:induction false} DecimalRoundTrip(n: nat)
    ensures DecimalValue(NatToDecimal(n)) == n
    decreases n
  {
    if n >= 10 {
      var s := NatToDecimal(n);
      DecimalRoundTrip(n / 10);
      assert s[..|s| - 1] == NatToDecimal(n / 10);
    }
  }
}
