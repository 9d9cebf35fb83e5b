/**
 * The cached, byte-scanning implementation of the case conversions.  The
 * package-level title-case cache is an object holding a map; each operation
 * is proved to compute the value the definitions in module Casing give, and
 * to keep the cache's one invariant: every entry maps a name to its TitleCase.
 */
module Strmangle {
  import opened Text
  import opened Casing

  /**
   * The per-word step of TitleCase: find whether the word has a vowel and where
   * its first digit is, then take the acronym path or the normal path.
   */
  method RenderWord(word: string) returns (out: string)
    ensures out == RenderedWord(word)
  {
    var wordLen := |word|;
    var vowels := false;
    var numStart: nat := wordLen;
    for i := 0 to wordLen
      invariant vowels <==> exists j :: 0 <= j < i && IsVowel(word[j])
      invariant numStart == wordLen || (numStart < i && IsDigit(word[numStart]))
      invariant forall j :: 0 <= j < i && j < numStart ==> !IsDigit(word[j])
    {
      var c := word[i];
      vowels := vowels || IsVowel(c);
      if IsDigit(c) && numStart == wordLen {
        numStart := i;
      }
    }
    FirstDigitUnique(word, numStart);
    var listed := word[..numStart] in UppercaseWords;
    if listed || !vowels {
      out := "";
      for i := 0 to wordLen
        invariant |out| == i
        invariant forall j :: 0 <= j < i ==> out[j] == ToUpper(word[j])
      {
        var c := word[i];
        if IsLower(c) {
          out := out + [(c as int - 32) as char];
        } else {
          out := out + [c];
        }
      }
    } else {
      var c := word[0];
      if IsLower(c) {
        out := [(c as int - 32) as char] + word[1..];
      } else {
        out := word;
      }
    }
  }

  /**
   * The uncached part of TitleCase: two cursors walk the name, skipping `_`
   * runs and rendering each word between them into the output.
   */
  method ScanTitleCase(n: string) returns (r: string)
    ensures r == TitleCaseOf(n)
  {
    var ln := |n|;
    var buf := "";
    var start, end := 0, 0;
    // `buf` followed by what the rest of the scan renders never changes.
    while start < ln
      invariant start <= end <= ln + 1
      invariant end == ln + 1 ==> start == end
      invariant buf + ScanFrom(n, start, end) == ScanFrom(n, 0, 0)
      decreases ln + 1 - start, ln - end
    {
      if end < ln {
        if n[start] == '_' {
          start := start + 1;
          end := end + 1;
          continue;
        } else if n[end] != '_' {
          end := end + 1;
          continue;
        }
      }
      var w := RenderWord(n[start..end]);
      Reassociate(buf, w, ScanFrom(n, end + 1, end + 1));
      buf := buf + w;
      start := end + 1;
      end := start;
    }
    ScanFromStart(n);
    r := buf;
  }

  class TitleCaser {
    /** Every name converted so far, with its conversion. */
    var cache: map<string, string>

    /** A cached value is always the conversion of its key. */
    ghost predicate Valid()
      reads this
    {
      forall k :: k in cache ==> cache[k] == TitleCaseOf(k)
    }

    constructor ()
      ensures Valid()
      ensures cache == map[]
    {
      cache := map[];
    }

    /**
     * TitleCase with its cache: a hit returns the cached value; otherwise the
     * name is scanned word by word and the result is stored under the name.
     */
    method TitleCase(n: string) returns (r: string)
      requires Valid()
      modifies this
      ensures Valid()
      ensures r == TitleCaseOf(n)
      ensures n in old(cache) ==> r == old(cache)[n] && cache == old(cache)
      ensures cache == old(cache)[n := r]
    {
      if n in cache {
        r := cache[n];
        assert cache[n := r] == cache;
        return;
      }
      r := ScanTitleCase(n);
      cache := cache[n := r];
    }

    /**
     * CamelCase: the leading `_` run dropped, the first word kept as it is and
     * the text after the `_` that ends it converted by TitleCase (which caches it).
     */
    method CamelCase(name: string) returns (r: string)
      requires Valid()
      modifies this
      ensures Valid()
      ensures r == CamelCaseOf(name)
      ensures var t := StripLeading(name, '_'); var k := Find(t, '_');
        cache == if k < |t| then old(cache)[t[k + 1..] := TitleCaseOf(t[k + 1..])] else old(cache)
    {
      var index := -1;
      for i := 0 to |name|
        invariant index == -1
        invariant forall j :: 0 <= j < i ==> name[j] == '_'
      {
        if name[i] != '_' {
          index := i;
          break;
        }
      }
      if index == -1 {
        CamelCaseOfSeparators(name);
        StripLeadingAt(name, '_', |name|);
        return "";
      }
      assert 0 <= index < |name| && name[index] != '_';
      StripLeadingAt(name, '_', index);
      var t := name[index..];

      index := -1;
      for i := 0 to |t|
        invariant index == -1
        invariant forall j :: 0 <= j < i ==> t[j] != '_'
      {
        if t[i] == '_' {
          index := i;
          break;
        }
      }
      if index == -1 {
        FindUnique(t, '_', |t|);
        r := t;
      } else {
        FindUnique(t, '_', index);
        var titled := TitleCase(t[index + 1..]);
        r := t[..index] + titled;
      }
    }

    /**
     * TitleCaseIdentifier: every `.`-separated fragment converted by TitleCase
     * (which caches it), the results joined again with `.`.
     */
    method TitleCaseIdentifier(id: string) returns (r: string)
      requires Valid()
      modifies this
      ensures Valid()
      ensures r == TitleCaseIdentifierOf(id)
      ensures cache.Keys == old(cache).Keys + set f | f in Split(id, '.')
    {
      var nextDot := IndexByte(id, '.');
      if nextDot < 0 {
        TitleCaseIdentifierNoDot(id);
        FindUnique(id, '.', |id|);
        assert Split(id, '.') == [id];
        r := TitleCase(id);
        return;
      }
      FieldEndIndexByte(id, 0, '.');
      assert id[0..] == id;
      r := TitleCaseFragments(id, nextDot);
      SplitFromSuffix(id, 0, '.');
    }

    /**
     * The loop of TitleCaseIdentifier once the first `.` has been found at `firstDot`:
     * fragment by fragment, each converted and appended after a `.`.
     */
    method TitleCaseFragments(id: string, firstDot: nat) returns (r: string)
      requires Valid()
      requires firstDot == FieldEnd(id, 0, '.')
      modifies this
      ensures Valid()
      ensures r == Join(TitleCaseEach(SplitFrom(id, 0, '.')), ".")
      ensures cache.Keys == old(cache).Keys + set f | f in SplitFrom(id, 0, '.')
    {
      var nextDot := firstDot;
      var buf := "";
      var lastDot := 0;
      var ln := |id|;
      var addDots := false;
      ghost var done: seq<string> := [];
      while nextDot >= 0
        invariant 0 <= lastDot <= nextDot <= ln
        invariant nextDot == FieldEnd(id, lastDot, '.')
        invariant addDots <==> done != []
        invariant buf == Join(TitleCaseEach(done), ".")
        invariant SplitFrom(id, 0, '.') == done + SplitFrom(id, lastDot, '.')
        invariant Valid()
        invariant cache.Keys == old(cache).Keys + set f | f in done
        decreases ln - lastDot
      {
        var fragment := id[lastDot..nextDot];
        buf := AppendFragment(buf, addDots, fragment, done, old(cache).Keys);
        addDots := true;
        FragmentDone(id, lastDot, nextDot, done);
        done := done + [fragment];
        if nextDot == ln {
          break;
        }
        lastDot := nextDot + 1;
        nextDot := NextDot(id, lastDot);
      }
      r := buf;
    }

    /** Converts one fragment and appends it to `buf`, after a `.` unless it is the first. */
    method AppendFragment(buf: string, addDots: bool, fragment: string, ghost done: seq<string>, ghost seen: set<string>)
      returns (out: string)
      requires Valid()
      requires addDots <==> done != []
      requires buf == Join(TitleCaseEach(done), ".")
      requires cache.Keys == seen + set f | f in done
      modifies this
      ensures Valid()
      ensures out == Join(TitleCaseEach(done + [fragment]), ".")
      ensures cache == old(cache)[fragment := TitleCaseOf(fragment)]
      ensures cache.Keys == seen + set f | f in done + [fragment]
    {
      FragmentKeys(done, fragment);
      var titled := TitleCase(fragment);
      out := buf;
      if addDots {
        out := out + ".";
      }
      out := out + titled;
      JoinTitledSnoc(done, fragment);
    }
  }

  /** One more converted fragment adds a `.` (unless it is the first) and the fragment's conversion. */
  lemma JoinTitledSnoc(done: seq<string>, fragment: string)
    ensures Join(TitleCaseEach(done + [fragment]), ".")
      == (if done == [] then "" else Join(TitleCaseEach(done), ".") + ".") + TitleCaseOf(fragment)
  {
    TitleCaseEachParts(done + [fragment]);
    TitleCaseEachParts(done);
    assert TitleCaseEach(done + [fragment]) == TitleCaseEach(done) + [TitleCaseOf(fragment)];
    JoinSnoc(TitleCaseEach(done), TitleCaseOf(fragment), ".");
  }

  /** The fragments seen grow by exactly the one just done. */
  lemma FragmentKeys(done: seq<string>, fragment: string)
    ensures (set f | f in done + [fragment]) == (set f | f in done) + {fragment}
  {
  }

  /** The end of the fragment starting at `lastDot`: the next `.` after it, or the end of `id`. */
  method NextDot(id: string, lastDot: nat) returns (nextDot: nat)
    requires lastDot <= |id|
    ensures nextDot == FieldEnd(id, lastDot, '.')
  {
    var k := IndexByte(id[lastDot..], '.');
    if k >= 0 {
      nextDot := k + lastDot;
    } else {
      nextDot := |id|;
    }
    FieldEndIndexByte(id, lastDot, '.');
  }

  /** One fragment moves from the fields still to scan to the fragments done. */
  lemma FragmentDone(id: string, lastDot: nat, nextDot: nat, done: seq<string>)
    requires lastDot <= |id| && nextDot == FieldEnd(id, lastDot, '.')
    requires SplitFrom(id, 0, '.') == done + SplitFrom(id, lastDot, '.')
    ensures nextDot == |id| ==> SplitFrom(id, 0, '.') == done + [id[lastDot..nextDot]]
    ensures nextDot < |id| ==> SplitFrom(id, 0, '.') == (done + [id[lastDot..nextDot]]) + SplitFrom(id, nextDot + 1, '.')
  {
    if nextDot < |id| {
      SplitFromNext(id, lastDot, '.');
      Reassociate(done, [id[lastDot..nextDot]], SplitFrom(id, nextDot + 1, '.'));
    } else {
      SplitFromLast(id, lastDot, '.');
    }
  }
}
