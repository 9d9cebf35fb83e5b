/**
 * Worked conversions, proved from the definitions: the doc-comment examples
 * `column_name_id` and `var_name_id`, and further cases that exercise each branch.
 */
module CasingSamples {
  import opened Text
  import opened Casing

  /** A digit-free, unlisted word with a vowel only has its first byte uppercased. */
  lemma RenderedPlainWord(w: string, v: nat)
    requires v < |w| && IsVowel(w[v])
    requires forall j :: 0 <= j < |w| ==> !IsDigit(w[j])
    requires w !in UppercaseWords
    ensures RenderedWord(w) == Capitalize(w)
  {
    FirstDigitUnique(w, |w|);
    assert w[..|w|] == w;
  }

  /** A word whose letters before its first digit form a listed token is uppercased throughout. */
  lemma RenderedListedWord(w: string, k: nat)
    requires k <= |w| && (k < |w| ==> IsDigit(w[k]))
    requires forall j :: 0 <= j < k ==> !IsDigit(w[j])
    requires w[..k] in UppercaseWords
    ensures RenderedWord(w) == UpperAll(w)
  {
    FirstDigitUnique(w, k);
  }

  /** A word without a vowel is uppercased throughout. */
  lemma RenderedVowelFreeWord(w: string)
    requires forall j :: 0 <= j < |w| ==> !IsVowel(w[j])
    ensures RenderedWord(w) == UpperAll(w)
  {
  }

  /** Ordinary words: the first letter capitalised, y counting as a vowel. */
  lemma RenderedPlainSamples()
    ensures RenderedWord("column") == "Column"
    ensures RenderedWord("name") == "Name"
    ensures RenderedWord("xyz") == "Xyz"
  {
    RenderedColumn();
    RenderedName();
    RenderedXyz();
  }

  lemma RenderedColumn()
    ensures RenderedWord("column") == "Column"
  {
    RenderedPlainWord("column", 1);
  }

  lemma RenderedName()
    ensures RenderedWord("name") == "Name"
  {
    RenderedPlainWord("name", 1);
  }

  lemma RenderedXyz()
    ensures RenderedWord("xyz") == "Xyz"
  {
    RenderedPlainWord("xyz", 1);
  }

  lemma RenderedId()
    ensures RenderedWord("id") == "ID"
  {
    assert "id"[..2] == "id";
    RenderedListedWord("id", 2);
  }

  /** Listed tokens, alone or followed by digits, and a vowel-free word are uppercased throughout. */
  lemma RenderedAcronymSamples()
    ensures RenderedWord("id") == "ID"
    ensures RenderedWord("uuid") == "UUID"
    ensures RenderedWord("id12") == "ID12"
    ensures RenderedWord("xml") == "XML"
  {
    assert "id"[..2] == "id";
    RenderedListedWord("id", 2);
    assert "uuid"[..4] == "uuid";
    RenderedListedWord("uuid", 4);
    assert "id12"[..2] == "id";
    RenderedListedWord("id12", 2);
    RenderedVowelFreeWord("xml");
  }

  /** Two underscore-free words joined by `_` render as the two rendered words. */
  lemma TitleCaseTwoWords(a: string, b: string)
    requires a != [] && '_' !in a && b != [] && '_' !in b
    ensures TitleCaseOf(a + "_" + b) == RenderedWord(a) + RenderedWord(b)
  {
    TitleCaseAround(a, b);
    TitleCaseOfWord(a);
    TitleCaseOfWord(b);
  }

  lemma TitleCaseThreeWords(a: string, b: string, c: string)
    requires a != [] && '_' !in a && b != [] && '_' !in b && c != [] && '_' !in c
    ensures TitleCaseOf(a + "_" + (b + "_" + c)) == RenderedWord(a) + (RenderedWord(b) + RenderedWord(c))
  {
    TitleCaseAround(a, b + "_" + c);
    TitleCaseOfWord(a);
    TitleCaseTwoWords(b, c);
  }

  /** A word that the renderer only capitalises: a vowel, no digit, not a listed token. */
  predicate PlainWord(w: string)
  {
    w != [] && '_' !in w && w !in UppercaseWords
    && (forall j :: 0 <= j < |w| ==> !IsDigit(w[j]))
    && exists v :: 0 <= v < |w| && IsVowel(w[v])
  }

  /**
   * The shape of the documented sample `column_name_id` -> `ColumnNameID`:
   * underscores dropped, plain words capitalised, the trailing id token uppercased.
   */
  lemma TitleCaseSampleShape(a: string, b: string)
    requires PlainWord(a) && PlainWord(b)
    ensures TitleCaseOf(a + "_" + (b + "_" + "id")) == Capitalize(a) + (Capitalize(b) + "ID")
  {
    TitleCaseThreeWords(a, b, "id");
    PlainWordRendered(a);
    PlainWordRendered(b);
    RenderedId();
  }

  /** The documented sample itself: `column_name_id` becomes `ColumnNameID`. */
  lemma ColumnNameId(n: string)
    requires n == "column_name_id"
    ensures TitleCaseOf(n) == "ColumnNameID"
  {
    var a, b := "column", "name";
    assert IsVowel(a[1]) && IsVowel(b[1]);
    assert a + "_" + (b + "_" + "id") == n;
    TitleCaseSampleShape(a, b);
    CapitalizedSampleWords();
  }

  lemma CapitalizedSampleWords()
    ensures Capitalize("column") == "Column" && Capitalize("name") == "Name"
  {
  }

  lemma PlainWordRendered(w: string)
    requires PlainWord(w)
    ensures RenderedWord(w) == Capitalize(w)
  {
    var v :| 0 <= v < |w| && IsVowel(w[v]);
    RenderedPlainWord(w, v);
  }

  /** Single-word names are rendered as their word. */
  lemma TitleCaseSampleWords(s: string)
    requires s in {"uuid", "xml", "xyz", "id12"}
    ensures TitleCaseOf(s) == RenderedWord(s)
    ensures s == "xyz" ==> TitleCaseOf(s) == "Xyz"
    ensures s == "xml" ==> TitleCaseOf(s) == "XML"
  {
    TitleCaseOfWord(s);
    RenderedPlainSamples();
    RenderedAcronymSamples();
  }

  /** CamelCase of three words: the first kept as it is, the other two rendered. */
  lemma CamelCaseThreeWords(a: string, b: string, c: string)
    requires a != [] && '_' !in a && b != [] && '_' !in b && c != [] && '_' !in c
    ensures CamelCaseOf(a + "_" + (b + "_" + c)) == a + (RenderedWord(b) + RenderedWord(c))
  {
    var s := a + "_" + (b + "_" + c);
    StripLeadingAt(s, '_', 0);
    assert s[0..] == s;
    FindUnique(s, '_', |a|);
    CamelCaseRest(s, s, |a|);
    assert s[..|a|] == a;
    assert s[|a|..] == "_" + (b + "_" + c);
    TitleCaseSkip(s[|a|..]);
    assert s[|a|..][1..] == b + "_" + c;
    TitleCaseTwoWords(b, c);
  }

  /** The shape of the documented sample `var_name_id` -> `varNameID`: the first word kept. */
  lemma CamelCaseSampleShape(a: string, b: string)
    requires a != [] && '_' !in a && PlainWord(b)
    ensures CamelCaseOf(a + "_" + (b + "_" + "id")) == a + (Capitalize(b) + "ID")
  {
    CamelCaseThreeWords(a, b, "id");
    PlainWordRendered(b);
    RenderedId();
  }

  lemma CamelCaseSamples()
    ensures CamelCaseOf("___") == ""
    ensures CamelCaseOf("noUnderscore") == "noUnderscore"
  {
    CamelCaseOfSeparators("___");
    StripLeadingAt("noUnderscore", '_', 0);
    CamelCaseSingleWord("noUnderscore");
  }

  /** A one-letter name renders as that letter in upper case. */
  lemma TitleCaseOfLetter(w: string)
    requires |w| == 1 && w[0] != '_'
    ensures TitleCaseOf(w) == [ToUpper(w[0])]
  {
    TitleCaseOfWord(w);
    RenderedWordBytes(w);
  }

  /** Three dot-free parts joined by `.` convert part by part. */
  lemma TitleCaseIdentifierThreeParts(a: string, b: string, c: string)
    requires '.' !in a && '.' !in b && '.' !in c
    ensures TitleCaseIdentifierOf(a + "." + (b + "." + c)) == TitleCaseOf(a) + "." + (TitleCaseOf(b) + "." + TitleCaseOf(c))
  {
    var parts := [a, b, c];
    assert parts[1..] == [b, c] && parts[1..][1..] == [c];
    assert Join(parts[1..], ".") == b + "." + c;
    assert Join(parts, ".") == a + "." + (b + "." + c);
    TitleCaseIdentifierOfJoin(parts);
    var r := TitleCaseEach(parts);
    TitleCaseEachParts(parts);
    assert r[1..][1..] == [TitleCaseOf(c)];
    assert Join(r[1..], ".") == TitleCaseOf(b) + "." + TitleCaseOf(c);
  }

  /** Three one-letter fragments are each uppercased. */
  lemma TitleCaseIdentifierLetters(a: char, b: char, c: char)
    requires a != '_' && a != '.' && b != '_' && b != '.' && c != '_' && c != '.'
    ensures TitleCaseIdentifierOf([a] + "." + ([b] + "." + [c])) == [ToUpper(a)] + "." + ([ToUpper(b)] + "." + [ToUpper(c)])
  {
    TitleCaseIdentifierThreeParts([a], [b], [c]);
    TitleCaseOfLetter([a]);
    TitleCaseOfLetter([b]);
    TitleCaseOfLetter([c]);
  }

  lemma TitleCaseIdentifierSample(id: string)
    requires id == "a.b.c"
    ensures TitleCaseIdentifierOf(id) == "A.B.C"
  {
    assert id == ['a'] + "." + (['b'] + "." + ['c']);
    TitleCaseIdentifierLetters('a', 'b', 'c');
  }
}
