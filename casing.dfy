/**
 * The case-conversion engine as pure functions: splitting a snake-case name
 * into words, rendering each word, and the three public conversions
 * (TitleCase, CamelCase, TitleCaseIdentifier) as values of their inputs.
 * The cached, loop-based implementation in module Strmangle is proved
 * against these definitions.
 */
module Casing {
  import opened Text

  /** Alphabetic prefixes that force a word to be rendered fully uppercase. */
  const UppercaseWords: set<string> := {"guid", "id", "uid", "uuid"}

  /** The lowercase vowels the acronym heuristic looks for (y counts). */
  predicate IsVowel(c: char)
  {
    c == 'a' || c == 'e' || c == 'i' || c == 'o' || c == 'u' || c == 'y'
  }

  /** Index of the first ASCII digit of `w`, or `|w|` when it has none. */
  function FirstDigit(w: string): (k: nat)
    ensures k <= |w|
  {
    if w == [] then 0 else if IsDigit(w[0]) then 0 else 1 + FirstDigit(w[1..])
  }

  /** The first digit is a digit, and none comes before it. */
  lemma {:induction false} FirstDigitFacts(w: string)
    ensures forall j :: 0 <= j < FirstDigit(w) ==> !IsDigit(w[j])
    ensures FirstDigit(w) < |w| ==> IsDigit(w[FirstDigit(w)])
  {
    if w != [] && !IsDigit(w[0]) {
      FirstDigitFacts(w[1..]);
    }
  }

  /** That characterisation singles out one index. */
  lemma {:induction false} FirstDigitUnique(w: string, k: nat)
    requires k <= |w|
    requires forall j :: 0 <= j < k ==> !IsDigit(w[j])
    requires k < |w| ==> IsDigit(w[k])
    ensures FirstDigit(w) == k
  {
    if k > 0 {
      FirstDigitUnique(w[1..], k - 1);
    }
  }

  /** The part of a word before its first digit. */
  function AlphaPrefix(w: string): string
  {
    w[..FirstDigit(w)]
  }

  predicate HasVowel(w: string)
  {
    exists i :: 0 <= i < |w| && IsVowel(w[i])
  }

  /** A word takes the acronym path when its alphabetic prefix is a listed token or it has no vowel. */
  predicate IsAcronym(w: string)
  {
    AlphaPrefix(w) in UppercaseWords || !HasVowel(w)
  }

  /** Every a-z byte uppercased, every other byte unchanged. */
  function UpperAll(w: string): string
  {
    seq(|w|, i requires 0 <= i < |w| => ToUpper(w[i]))
  }

  /** Only a lowercase first byte uppercased. */
  function Capitalize(w: string): string
  {
    if w != [] && IsLower(w[0]) then [ToUpper(w[0])] + w[1..] else w
  }

  function RenderedWord(w: string): string
  {
    if IsAcronym(w) then UpperAll(w) else Capitalize(w)
  }

  /**
   * Byte by byte: an acronym has each byte uppercased, any other word only its
   * first; nothing is added or dropped.
   */
  lemma RenderedWordBytes(w: string)
    ensures |RenderedWord(w)| == |w|
    ensures forall i :: 0 <= i < |w| ==>
      RenderedWord(w)[i] == if IsAcronym(w) || i == 0 then ToUpper(w[i]) else w[i]
  {
  }

  /** A word with no lowercase letter is rendered as it is. */
  lemma RenderedWordNoLower(w: string)
    requires forall i :: 0 <= i < |w| ==> !IsLower(w[i])
    ensures RenderedWord(w) == w
  {
    RenderedWordBytes(w);
  }

  /** A byte that is neither a letter nor `_` appears in a rendered word exactly when it appears in the word. */
  lemma RenderedWordKeeps(w: string, c: char)
    requires !IsLower(c) && !IsUpper(c)
    ensures c in RenderedWord(w) <==> c in w
  {
    var r := RenderedWord(w);
    RenderedWordBytes(w);
    forall i | 0 <= i < |w| ensures r[i] == c <==> w[i] == c {
      ToUpperFacts(w[i]);
    }
    if c in w {
      var i :| 0 <= i < |w| && w[i] == c;
      assert r[i] == c;
    }
    if c in r {
      var i :| 0 <= i < |r| && r[i] == c;
      assert w[i] == c;
    }
  }

  /** The maximal runs of non-`_` bytes of `s`, left to right. */
  function Words(s: string): (ws: seq<string>)
    ensures forall i :: 0 <= i < |ws| ==> ws[i] != [] && '_' !in ws[i]
    decreases |s|
  {
    if s == [] then []
    else if s[0] == '_' then Words(s[1..])
    else var k := Find(s, '_'); [s[..k]] + Words(s[k..])
  }

  /** The rendered words, concatenated with no separator. */
  function RenderAll(ws: seq<string>): string
  {
    if ws == [] then "" else RenderedWord(ws[0]) + RenderAll(ws[1..])
  }

  /** The TitleCase rendering of a snake-case name. */
  function TitleCaseOf(n: string): string
  {
    RenderAll(Words(n))
  }

  /** A leading `_` contributes nothing. */
  lemma TitleCaseSkip(s: string)
    requires s != [] && s[0] == '_'
    ensures TitleCaseOf(s) == TitleCaseOf(s[1..])
  {
  }

  /** A name starting with a word renders as that word followed by the rendering of the rest. */
  lemma TitleCaseFirstWord(s: string, k: nat)
    requires 0 < k <= |s|
    requires forall j :: 0 <= j < k ==> s[j] != '_'
    requires k < |s| ==> s[k] == '_'
    ensures TitleCaseOf(s) == RenderedWord(s[..k]) + TitleCaseOf(s[k..])
  {
    FindUnique(s, '_', k);
  }

  /** The words are exactly the non-empty pieces of a split on `_`. */
  lemma {:induction false} WordsFromSplit(s: string)
    ensures Words(s) == NonEmpty(Split(s, '_'))
    decreases |s|
  {
    if s == [] {
    } else if s[0] == '_' {
      FindUnique(s, '_', 0);
      WordsFromSplit(s[1..]);
      assert Split(s, '_') == [[]] + Split(s[1..], '_');
    } else {
      var k := Find(s, '_');
      if k == |s| {
        assert s[..k] == s && s[k..] == [];
        assert Words(s) == [s];
        assert Split(s, '_') == [s];
        assert NonEmpty([s]) == [s] + NonEmpty([]);
      } else {
        var rest := Split(s[k + 1..], '_');
        WordsFromSplit(s[k + 1..]);
        assert s[k..][1..] == s[k + 1..];
        assert Words(s[k..]) == Words(s[k + 1..]);
        assert Split(s, '_') == [s[..k]] + rest;
        assert NonEmpty([s[..k]] + rest) == [s[..k]] + NonEmpty(rest);
      }
    }
  }

  /** Read together, the words hold every non-`_` byte of the name, in order. */
  lemma {:induction false} WordsCoverName(s: string)
    ensures Concat(Words(s)) == Remove(s, '_')
    decreases |s|
  {
    if s == [] {
    } else if s[0] == '_' {
      WordsCoverName(s[1..]);
    } else {
      var k := Find(s, '_');
      WordsCoverName(s[k..]);
      assert s == s[..k] + s[k..];
      RemoveAppend(s[..k], s[k..], '_');
      RemoveAbsent(s[..k], '_');
      assert ([s[..k]] + Words(s[k..]))[1..] == Words(s[k..]);
    }
  }

  /** Each non-`_` byte yields exactly one output byte. */
  lemma {:induction false} TitleCaseLength(s: string)
    ensures |TitleCaseOf(s)| == |s| - Count(s, '_')
    decreases |s|
  {
    if s == [] {
    } else if s[0] == '_' {
      TitleCaseLength(s[1..]);
    } else {
      var k := Find(s, '_');
      TitleCaseFirstWord(s, k);
      RenderedWordBytes(s[..k]);
      TitleCaseLength(s[k..]);
      assert s == s[..k] + s[k..];
      CountAppend(s[..k], s[k..], '_');
      assert '_' !in s[..k];
      CountZero(s[..k], '_');
    }
  }

  /** An empty or all-`_` name renders as the empty string. */
  lemma TitleCaseOfSeparators(s: string)
    requires forall i :: 0 <= i < |s| ==> s[i] == '_'
    ensures TitleCaseOf(s) == ""
  {
    StripLeadingAt(s, '_', |s|);
    assert Count(s, '_') == |s| by {
      CountAllLemma(s, '_');
    }
    TitleCaseLength(s);
  }

  lemma {:induction false} CountAllLemma(s: string, c: char)
    requires forall i :: 0 <= i < |s| ==> s[i] == c
    ensures Count(s, c) == |s|
  {
    if s != [] {
      CountAllLemma(s[1..], c);
    }
  }

  /** A name with no `_` and no lowercase letter is its own TitleCase. */
  lemma TitleCaseNoLower(s: string)
    requires '_' !in s
    requires forall i :: 0 <= i < |s| ==> !IsLower(s[i])
    ensures TitleCaseOf(s) == s
  {
    if s != [] {
      TitleCaseFirstWord(s, |s|);
      assert s[..|s|] == s;
      RenderedWordNoLower(s);
    }
  }

  /** Bytes that are neither letters nor `_` survive TitleCase, and none appear from nowhere. */
  lemma {:induction false} TitleCaseKeeps(s: string, c: char)
    requires c != '_' && !IsLower(c) && !IsUpper(c)
    ensures c in TitleCaseOf(s) <==> c in s
    decreases |s|
  {
    if s == [] {
    } else if s[0] == '_' {
      TitleCaseKeeps(s[1..], c);
      assert s == [s[0]] + s[1..];
    } else {
      var k := Find(s, '_');
      TitleCaseFirstWord(s, k);
      RenderedWordKeeps(s[..k], c);
      TitleCaseKeeps(s[k..], c);
      assert s == s[..k] + s[k..];
    }
  }

  /** Leading underscores do not change the TitleCase rendering. */
  lemma TitleCaseStripped(s: string)
    ensures TitleCaseOf(s) == TitleCaseOf(StripLeading(s, '_'))
    decreases |s|
  {
    if s != [] && s[0] == '_' {
      TitleCaseStripped(s[1..]);
    }
  }

  /** The CamelCase rendering: first word verbatim, the text after its `_` in TitleCase. */
  function CamelCaseOf(name: string): string
  {
    var t := StripLeading(name, '_');
    var k := Find(t, '_');
    if t == [] then "" else if k == |t| then t else t[..k] + TitleCaseOf(t[k + 1..])
  }

  /** An empty or all-`_` name gives the empty string. */
  lemma CamelCaseOfSeparators(name: string)
    requires forall i :: 0 <= i < |name| ==> name[i] == '_'
    ensures CamelCaseOf(name) == ""
  {
    StripLeadingAt(name, '_', |name|);
  }

  /** A name with no `_` after its leading ones is returned verbatim, without those. */
  lemma CamelCaseSingleWord(name: string)
    requires '_' !in StripLeading(name, '_')
    ensures CamelCaseOf(name) == StripLeading(name, '_')
  {
  }

  /**
   * CamelCase and TitleCase agree after the first word: the first word is kept
   * verbatim by one and rendered by the other.
   */
  lemma CamelCaseVersusTitleCase(name: string)
    requires StripLeading(name, '_') != []
    ensures var t := StripLeading(name, '_'); var k := Find(t, '_');
      && 0 < k
      && CamelCaseOf(name) == t[..k] + TitleCaseOf(t[k..])
      && TitleCaseOf(name) == RenderedWord(t[..k]) + TitleCaseOf(t[k..])
  {
    var t := StripLeading(name, '_');
    TitleCaseStripped(name);
    FirstWordOfStripped(name, t, Find(t, '_'));
  }

  lemma FirstWordOfStripped(name: string, t: string, k: nat)
    requires t == StripLeading(name, '_') && t != [] && k == Find(t, '_')
    ensures 0 < k
    ensures CamelCaseOf(name) == t[..k] + TitleCaseOf(t[k..])
    ensures TitleCaseOf(t) == RenderedWord(t[..k]) + TitleCaseOf(t[k..])
  {
    TitleCaseFirstWord(t, k);
    if k < |t| {
      CamelCaseRest(name, t, k);
    } else {
      assert t[..k] == t;
      assert t[k..] == [];
    }
  }

  lemma CamelCaseRest(name: string, t: string, k: nat)
    requires t == StripLeading(name, '_') && t != [] && k == Find(t, '_') && k < |t|
    ensures CamelCaseOf(name) == t[..k] + TitleCaseOf(t[k..])
  {
    var rest := t[k..];
    assert rest[0] == t[k] == '_';
    TitleCaseSkip(rest);
    assert rest[1..] == t[k + 1..];
    assert CamelCaseOf(name) == t[..k] + TitleCaseOf(t[k + 1..]);
  }

  /** TitleCase of every part, in order. */
  function TitleCaseEach(parts: seq<string>): (r: seq<string>)
    ensures |r| == |parts|
  {
    if parts == [] then [] else [TitleCaseOf(parts[0])] + TitleCaseEach(parts[1..])
  }

  /** TitleCaseEach converts each part in place. */
  lemma {:induction false} TitleCaseEachParts(parts: seq<string>)
    ensures forall i :: 0 <= i < |parts| ==> TitleCaseEach(parts)[i] == TitleCaseOf(parts[i])
  {
    if parts != [] {
      TitleCaseEachParts(parts[1..]);
    }
  }

  /** The TitleCaseIdentifier rendering: split on `.`, TitleCase each part, join with `.`. */
  function TitleCaseIdentifierOf(id: string): string
  {
    Join(TitleCaseEach(Split(id, '.')), ".")
  }

  /**
   * Splitting the result on `.` gives the TitleCase of each part of the input:
   * the number of parts, empty ones included, is preserved.
   */
  lemma TitleCaseIdentifierParts(id: string)
    ensures Split(TitleCaseIdentifierOf(id), '.') == TitleCaseEach(Split(id, '.'))
  {
    var parts := TitleCaseEach(Split(id, '.'));
    TitleCaseEachParts(Split(id, '.'));
    SplitParts(id, '.');
    forall i | 0 <= i < |parts| ensures '.' !in parts[i] {
      TitleCaseKeeps(Split(id, '.')[i], '.');
    }
    SplitJoin(parts, '.');
  }

  /** A name with no `.` is rendered exactly as TitleCase renders it. */
  lemma TitleCaseIdentifierNoDot(id: string)
    requires '.' !in id
    ensures TitleCaseIdentifierOf(id) == TitleCaseOf(id)
  {
    FindUnique(id, '.', |id|);
  }

  /** The words on either side of a `_` are the words of the whole, in order. */
  lemma {:induction false} WordsAround(a: string, b: string)
    ensures Words(a + "_" + b) == Words(a) + Words(b)
    decreases |a|
  {
    var s := a + "_" + b;
    if a == [] {
      assert s[1..] == b;
    } else if a[0] == '_' {
      AroundSlices(a, b, 1);
      WordsAround(a[1..], b);
    } else {
      var k := Find(a, '_');
      FindAround(a, b);
      WordsStep(s, k);
      WordsStep(a, k);
      AroundSlices(a, b, k);
      if k == |a| {
        assert s[k..][1..] == b;
        assert a[k..] == [];
      } else {
        WordsAround(a[k..], b);
        Reassociate([a[..k]], Words(a[k..]), Words(b));
      }
    }
  }

  /** A name that starts with a word: that word, then the words of the rest. */
  lemma WordsStep(s: string, k: nat)
    requires s != [] && s[0] != '_' && k == Find(s, '_')
    ensures Words(s) == [s[..k]] + Words(s[k..])
  {
  }

  lemma AroundSlices(a: string, b: string, k: nat)
    requires k <= |a|
    ensures (a + "_" + b)[..k] == a[..k]
    ensures (a + "_" + b)[k..] == a[k..] + "_" + b
  {
  }

  /** The first `_` of `a + "_" + b` is the first of `a`, or the one added. */
  lemma FindAround(a: string, b: string)
    ensures Find(a + "_" + b, '_') == Find(a, '_')
  {
    assert a + "_" + b == a + ("_" + b);
    FindAppend(a, "_" + b, '_');
  }

  lemma {:induction false} RenderAllAppend(x: seq<string>, y: seq<string>)
    ensures RenderAll(x + y) == RenderAll(x) + RenderAll(y)
  {
    if x == [] {
      assert x + y == y;
    } else {
      assert (x + y)[0] == x[0] && (x + y)[1..] == x[1..] + y;
      RenderAllAppend(x[1..], y);
      Reassociate(RenderedWord(x[0]), RenderAll(x[1..]), RenderAll(y));
    }
  }

  /** TitleCase distributes over a `_`: each side is rendered on its own and the `_` is dropped. */
  lemma TitleCaseAround(a: string, b: string)
    ensures TitleCaseOf(a + "_" + b) == TitleCaseOf(a) + TitleCaseOf(b)
  {
    WordsAround(a, b);
    RenderAllAppend(Words(a), Words(b));
  }

  /** A name that is a single word is rendered as that word. */
  lemma TitleCaseOfWord(w: string)
    requires w != [] && '_' !in w
    ensures TitleCaseOf(w) == RenderedWord(w)
  {
    TitleCaseFirstWord(w, |w|);
    assert w[..|w|] == w && w[|w|..] == [];
  }

  /** Joining underscore-free words with `_` and splitting them again gives the words back. */
  lemma {:induction false} WordsOfJoin(ws: seq<string>)
    requires forall i :: 0 <= i < |ws| ==> ws[i] != [] && '_' !in ws[i]
    ensures Words(Join(ws, "_")) == ws
  {
    if |ws| >= 1 {
      var w := ws[0];
      FindUnique(w, '_', |w|);
      assert w[..|w|] == w && w[|w|..] == [];
      if |ws| > 1 {
        WordsOfJoin(ws[1..]);
        WordsAround(w, Join(ws[1..], "_"));
        assert ws == [w] + ws[1..];
      }
    }
  }

  /** Joining dot-free parts with `.` and converting gives the converted parts joined with `.`. */
  lemma TitleCaseIdentifierOfJoin(parts: seq<string>)
    requires |parts| >= 1
    requires forall i :: 0 <= i < |parts| ==> '.' !in parts[i]
    ensures TitleCaseIdentifierOf(Join(parts, ".")) == Join(TitleCaseEach(parts), ".")
  {
    SplitJoin(parts, '.');
  }

  /**
   * TitleCase as a left-to-right scan from index `i`, the way the cursor-based
   * loop walks the name: a `_` is skipped, a word is rendered and the scan
   * resumes where the word ends.
   */
  function TitleCaseFrom(n: string, i: nat): string
    requires i <= |n|
    decreases |n| - i
  {
    if i == |n| then ""
    else if n[i] == '_' then TitleCaseFrom(n, i + 1)
    else var j := FieldEnd(n, i, '_'); RenderedWord(n[i..j]) + TitleCaseFrom(n, j)
  }

  /** The scan from `i` renders exactly the suffix of the name that starts at `i`. */
  lemma {:induction false} TitleCaseFromSuffix(n: string, i: nat)
    requires i <= |n|
    ensures TitleCaseFrom(n, i) == TitleCaseOf(n[i..])
    decreases |n| - i
  {
    if i < |n| {
      var s := n[i..];
      if n[i] == '_' {
        TitleCaseFromSuffix(n, i + 1);
        TitleCaseSkip(s);
        assert s[1..] == n[i + 1..];
      } else {
        var j := FieldEnd(n, i, '_');
        FieldEndFacts(n, i, '_');
        TitleCaseFromSuffix(n, j);
        TitleCaseFirstWord(s, j - i);
        assert s[..j - i] == n[i..j];
        assert s[j - i..] == n[j..];
      }
    }
  }

  /** The scan from the start is TitleCase. */
  lemma TitleCaseFromStart(n: string)
    ensures TitleCaseFrom(n, 0) == TitleCaseOf(n)
  {
    TitleCaseFromSuffix(n, 0);
    assert n[0..] == n;
  }

  /**
   * The byte-at-a-time scan: `n[start..end]` is the word read so far (empty
   * while skipping `_`); a word is rendered once a `_` or the end of the name
   * closes it, and the scan resumes after that byte.
   */
  function ScanFrom(n: string, start: nat, end: nat): string
    requires start <= end <= |n| + 1
    requires end == |n| + 1 ==> start == end
    decreases |n| + 1 - start, |n| - end
  {
    if start >= |n| then ""
    else if end < |n| && n[start] == '_' then ScanFrom(n, start + 1, end + 1)
    else if end < |n| && n[end] != '_' then ScanFrom(n, start, end + 1)
    else RenderedWord(n[start..end]) + ScanFrom(n, end + 1, end + 1)
  }

  /** From any reachable scan state, the byte scan renders the same as the word scan. */
  lemma {:induction false} ScanFromWords(n: string, start: nat, end: nat)
    requires start <= end <= |n|
    requires forall k :: start <= k < end ==> n[k] != '_'
    ensures ScanFrom(n, start, end) == TitleCaseFrom(n, start)
    decreases |n| + 1 - start, |n| - end
  {
    if start == |n| {
    } else if end < |n| && n[start] == '_' {
      assert start == end;
      ScanFromWords(n, start + 1, end + 1);
    } else if end < |n| && n[end] != '_' {
      ScanFromWords(n, start, end + 1);
    } else {
      FieldEndUnique(n, start, end, '_');
      if end < |n| {
        ScanFromWords(n, end + 1, end + 1);
      }
    }
  }

  /** The byte scan over a whole name is TitleCase. */
  lemma ScanFromStart(n: string)
    ensures ScanFrom(n, 0, 0) == TitleCaseOf(n)
  {
    ScanFromWords(n, 0, 0);
    TitleCaseFromStart(n);
  }
}
