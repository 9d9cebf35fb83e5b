/**
 * The slice helpers: element-wise maps into a fresh array, the pairwise
 * join of two slices, and the two membership searches.
 */
module Slices {
  import opened Wrappers

  const JoinSlicesPanic: string := "joinSlices: can only merge slices of same length"

  // ---------------------------------------------------------------------------
  // Element-wise maps

  /** `modifier` applied to each string, in order. */
  function MapStrings(modifier: string -> string, strs: seq<string>): seq<string>
  {
    seq(|strs|, i requires 0 <= i < |strs| => modifier(strs[i]))
  }

  method StringMap(modifier: string -> string, strs: seq<string>) returns (ret: seq<string>)
    ensures ret == MapStrings(modifier, strs)
  {
    var out := new string[|strs|];
    for i := 0 to |strs|
      invariant forall j :: 0 <= j < i ==> out[j] == modifier(strs[j])
    {
      out[i] := modifier(strs[i]);
    }
    ret := out[..];
  }

  /** Mapping distributes over concatenation: each element is mapped on its own. */
  lemma MapStringsAppend(modifier: string -> string, x: seq<string>, y: seq<string>)
    ensures MapStrings(modifier, x + y) == MapStrings(modifier, x) + MapStrings(modifier, y)
  {
    var l, r := MapStrings(modifier, x + y), MapStrings(modifier, x) + MapStrings(modifier, y);
    assert |l| == |r|;
    forall i | 0 <= i < |l| ensures l[i] == r[i] {
      if i < |x| {
        assert (x + y)[i] == x[i];
      } else {
        assert (x + y)[i] == y[i - |x|];
      }
    }
  }

  /** Two maps in a row are one map by the composed function. */
  lemma MapStringsCompose(f: string -> string, g: string -> string, strs: seq<string>)
    ensures MapStrings(f, MapStrings(g, strs)) == MapStrings(s => f(g(s)), strs)
  {
  }

  /** Each string with `str` in front. */
  function Prefixed(str: string, strs: seq<string>): seq<string>
  {
    seq(|strs|, i requires 0 <= i < |strs| => str + strs[i])
  }

  method PrefixStringSlice(str: string, strs: seq<string>) returns (ret: seq<string>)
    ensures ret == Prefixed(str, strs)
  {
    var out := new string[|strs|];
    for i := 0 to |strs|
      invariant forall j :: 0 <= j < i ==> out[j] == str + strs[j]
    {
      out[i] := str + strs[i];
    }
    ret := out[..];
  }

  /** Cutting the prefix off again gives back each original string. */
  lemma PrefixedStrip(str: string, strs: seq<string>)
    ensures |Prefixed(str, strs)| == |strs|
    ensures forall i :: 0 <= i < |strs| ==>
      Prefixed(str, strs)[i][..|str|] == str && Prefixed(str, strs)[i][|str|..] == strs[i]
  {
    var p := Prefixed(str, strs);
    forall i | 0 <= i < |strs| ensures p[i][..|str|] == str && p[i][|str|..] == strs[i] {
      assert p[i] == str + strs[i];
    }
  }

  // ---------------------------------------------------------------------------
  // Pairwise join

  /** `a[i] + sep + b[i]` for each index; slices of different lengths are refused. */
  function JoinSlicesOf(sep: string, a: seq<string>, b: seq<string>): Result<seq<string>>
  {
    if |a| != |b| then Err(JoinSlicesPanic)
    else Ok(seq(|a|, i requires 0 <= i < |a| => a[i] + sep + b[i]))
  }

  method JoinSlices(sep: string, a: seq<string>, b: seq<string>) returns (r: Result<seq<string>>)
    ensures r == JoinSlicesOf(sep, a, b)
    ensures r.Err? <==> |a| != |b|
  {
    if |a| != |b| {
      return Err(JoinSlicesPanic);
    } else if |a| == 0 {
      assert JoinSlicesOf(sep, a, b).value == [];
      return Ok([]);
    }
    var out := new string[|a|];
    for i := 0 to |a|
      invariant forall j :: 0 <= j < i ==> out[j] == a[j] + sep + b[j]
    {
      out[i] := a[i] + sep + b[i];
    }
    assert out[..] == JoinSlicesOf(sep, a, b).value;
    return Ok(out[..]);
  }

  /** Each joined element splits back, by length, into its two halves and the separator. */
  lemma JoinSlicesUnzip(sep: string, a: seq<string>, b: seq<string>)
    requires |a| == |b|
    ensures JoinSlicesOf(sep, a, b).Ok?
    ensures var r := JoinSlicesOf(sep, a, b).value;
      |r| == |a| &&
      forall i :: 0 <= i < |a| ==>
        |r[i]| == |a[i]| + |sep| + |b[i]| &&
        r[i][..|a[i]|] == a[i] &&
        r[i][|a[i]|..|a[i]| + |sep|] == sep &&
        r[i][|a[i]| + |sep|..] == b[i]
  {
    var r := JoinSlicesOf(sep, a, b).value;
    forall i | 0 <= i < |a|
      ensures r[i][..|a[i]|] == a[i]
      ensures r[i][|a[i]|..|a[i]| + |sep|] == sep
      ensures r[i][|a[i]| + |sep|..] == b[i]
    {
      assert r[i] == a[i] + sep + b[i];
    }
  }

  // ---------------------------------------------------------------------------
  // Searches

  /** What the slice match tests: equal lengths and every element of `a` somewhere in `b`. */
  predicate SameLengthAndMembers(a: seq<string>, b: seq<string>)
  {
    |a| == |b| && forall i :: 0 <= i < |a| ==> a[i] in b
  }

  method StringSliceMatch(a: seq<string>, b: seq<string>) returns (r: bool)
    ensures r <==> SameLengthAndMembers(a, b)
  {
    if |a| != |b| {
      return false;
    }
    for i := 0 to |a|
      invariant forall k :: 0 <= k < i ==> a[k] in b
    {
      // The inner scan stops at the first equal element.
      var j := 0;
      while j < |b| && b[j] != a[i]
        invariant 0 <= j <= |b|
        invariant a[i] !in b[..j]
      {
        assert b[..j + 1] == b[..j] + [b[j]];
        j := j + 1;
      }
      var found := j < |b|;
      if !found {
        assert b[..|b|] == b;
        return false;
      }
    }
    return true;
  }

  /**
   * The test counts no duplicates: `["x", "x"]` matches `["x", "y"]` although
   * the two do not hold the same elements.
   */
  lemma StringSliceMatchIgnoresDuplicates()
    ensures SameLengthAndMembers(["x", "x"], ["x", "y"])
    ensures multiset(["x", "x"]) != multiset(["x", "y"])
  {
    var b := ["x", "y"];
    assert b[0] == "x";
    assert multiset(["x", "x"])["x"] == 2;
    assert multiset(["x", "y"])["x"] == 1;
  }

  /** Removing `b[j]` from `b` takes one copy of it out of the multiset. */
  lemma RemoveAt(b: seq<string>, j: nat)
    requires j < |b|
    ensures multiset(b[..j] + b[j + 1..]) == multiset(b) - multiset{b[j]}
  {
    assert b == b[..j] + [b[j]] + b[j + 1..];
  }

  /**
   * The match the documentation describes: the same elements, in any order,
   * each as often in `a` as in `b`. Each element of `a` uses up one equal
   * element of what is left of `b`.
   */
  method StringSliceMatchMultiset(a: seq<string>, b: seq<string>) returns (r: bool)
    ensures r <==> multiset(a) == multiset(b)
  {
    if |a| != |b| {
      assert |multiset(a)| != |multiset(b)|;
      return false;
    }
    var rest := b;
    for i := 0 to |a|
      invariant multiset(a[..i]) + multiset(rest) == multiset(b)
      invariant |rest| == |b| - i
    {
      var j := 0;
      while j < |rest| && rest[j] != a[i]
        invariant 0 <= j <= |rest|
        invariant a[i] !in rest[..j]
      {
        assert rest[..j + 1] == rest[..j] + [rest[j]];
        j := j + 1;
      }
      if j == |rest| {
        assert rest[..j] == rest;
        MissingCopy(a, i, rest, b);
        return false;
      }
      UseCopy(a, i, rest, j, b);
      rest := rest[..j] + rest[j + 1..];
    }
    assert a[..|a|] == a;
    assert rest == [];
    return true;
  }

  /** Taking the copy `rest[j]` of `a[i]` out of `rest` keeps the multiset balance. */
  lemma UseCopy(a: seq<string>, i: nat, rest: seq<string>, j: nat, b: seq<string>)
    requires i < |a| && j < |rest| && rest[j] == a[i]
    requires multiset(a[..i]) + multiset(rest) == multiset(b)
    ensures multiset(a[..i + 1]) + multiset(rest[..j] + rest[j + 1..]) == multiset(b)
  {
    RemoveAt(rest, j);
    assert a[..i + 1] == a[..i] + [a[i]];
  }

  /** An element of `a` with no copy left over in `b` shows the multisets differ. */
  lemma MissingCopy(a: seq<string>, i: nat, rest: seq<string>, b: seq<string>)
    requires i < |a|
    requires multiset(a[..i]) + multiset(rest) == multiset(b)
    requires a[i] !in rest
    ensures multiset(a) != multiset(b)
  {
    var x := a[i];
    assert a == a[..i] + [x] + a[i + 1..];
    assert multiset(a)[x] >= multiset(a[..i])[x] + 1;
    assert multiset(b)[x] == multiset(a[..i])[x];
  }

  /** Holding the same elements implies the weaker test the source performs. */
  lemma MultisetMatchImpliesMembers(a: seq<string>, b: seq<string>)
    requires multiset(a) == multiset(b)
    ensures SameLengthAndMembers(a, b)
  {
    assert |a| == |multiset(a)| == |multiset(b)| == |b|;
    forall i | 0 <= i < |a| ensures a[i] in b {
      assert a[i] in multiset(a);
    }
  }

  /** Some element of `a` equals one of `finds`. */
  predicate Shares(a: seq<string>, finds: seq<string>)
  {
    exists i :: 0 <= i < |a| && a[i] in finds
  }

  method ContainsAny(a: seq<string>, finds: seq<string>) returns (r: bool)
    ensures r <==> Shares(a, finds)
  {
    for i := 0 to |a|
      invariant forall k :: 0 <= k < i ==> a[k] !in finds
    {
      for j := 0 to |finds|
        invariant a[i] !in finds[..j]
      {
        if a[i] == finds[j] {
          return true;
        }
        assert finds[..j + 1] == finds[..j] + [finds[j]];
      }
      assert finds[..|finds|] == finds;
    }
    return false;
  }

  /** The test does not depend on which slice is searched and which is looked for. */
  lemma SharesSymmetric(a: seq<string>, finds: seq<string>)
    ensures Shares(a, finds) <==> Shares(finds, a)
  {
    if Shares(a, finds) {
      var i :| 0 <= i < |a| && a[i] in finds;
      var j :| 0 <= j < |finds| && finds[j] == a[i];
    }
    if Shares(finds, a) {
      var j :| 0 <= j < |finds| && finds[j] in a;
      var i :| 0 <= i < |a| && a[i] == finds[j];
    }
  }
}
