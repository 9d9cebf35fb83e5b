/**
 * Worked SQL builder outputs, proved from the definitions: the doc-comment examples
 * for grouped placeholders and the WHERE clause, and further cases that exercise each branch.
 */
module SqlSamples {
  import opened Wrappers
  import opened Text
  import opened Sql

  lemma SmallDecimals()
    ensures IntToDecimal(1) == "1" && IntToDecimal(2) == "2" && IntToDecimal(3) == "3"
    ensures IntToDecimal(4) == "4" && IntToDecimal(5) == "5" && IntToDecimal(6) == "6"
  {
  }

  /** Without groups: comma-separated, numbered from `start`. */
  lemma PlaceholdersSampleFlat()
    ensures PlaceholdersOf(3, 2, 1) == Ok("$2,$3,$4")
  {
    SmallDecimals();
    assert PlaceholderList(1, 2, 1) == "$2";
    assert PlaceholderList(2, 2, 1) == "$2,$3";
    assert PlaceholderList(3, 2, 1) == "$2,$3,$4";
  }

  lemma FirstGroupOfThree()
    ensures PlaceholderList(3, 1, 3) == "$1,$2,$3"
  {
    SmallDecimals();
    assert PlaceholderList(1, 1, 3) == "$1";
    assert PlaceholderList(2, 1, 3) == "$1,$2";
  }

  lemma TwoGroupsOfThree()
    ensures PlaceholderList(6, 1, 3) == "$1,$2,$3),($4,$5,$6"
  {
    SmallDecimals();
    FirstGroupOfThree();
    assert 3 % 3 == 0 && 4 % 3 == 1 && 5 % 3 == 2;
    assert PlaceholderList(4, 1, 3) == "$1,$2,$3" + "),($4";
    assert PlaceholderList(5, 1, 3) == "$1,$2,$3),($4" + ",$5";
    assert PlaceholderList(6, 1, 3) == "$1,$2,$3),($4,$5" + ",$6";
  }

  /** The documented grouped sample: six placeholders in groups of three. */
  lemma PlaceholdersSampleGrouped(count: int, start: int, group: int)
    requires count == 6 && start == 1 && group == 3
    ensures PlaceholdersOf(count, start, group) == Ok("($1,$2,$3),($4,$5,$6)")
  {
    TwoGroupsOfThree();
    assert "(" + "$1,$2,$3),($4,$5,$6" + ")" == "($1,$2,$3),($4,$5,$6)";
  }

  /** The documented WHERE sample: numbering from 2. */
  lemma WhereClauseSample()
    ensures WhereClauseOf(2, ["colthing", "colstuff"]) == Ok("\"colthing\"=$2 AND \"colstuff\"=$3")
  {
    SmallDecimals();
    var cols := ["colthing", "colstuff"];
    assert cols[..1] == ["colthing"];
    assert Params(cols[..1][..0], 2) == [];
    var ps := Params(cols, 2);
    assert ps == [Param("colthing", 2), Param("colstuff", 3)];
    assert Param("colthing", 2) == "\"colthing\"=$2";
    assert Param("colstuff", 3) == "\"colstuff\"=$3";
    assert ps[1..] == [ps[1]];
    assert Join(ps, " AND ") == ps[0] + " AND " + ps[1];
    assert "\"colthing\"=$2" + " AND " + "\"colstuff\"=$3" == "\"colthing\"=$2 AND \"colstuff\"=$3";
  }

  /** A start of 0 and a group of 0 are refused with the source's messages. */
  lemma RefusedArguments(count: int, start: int, cols: seq<string>)
    ensures PlaceholdersOf(count, 0, 1) == Err("Invalid start or group numbers supplied.")
    ensures PlaceholdersOf(count, 1, 0) == Err("Invalid start or group numbers supplied.")
    ensures WhereClauseOf(0, cols) == Err("0 is not a valid start number for whereClause")
  {
  }

  /** Each dotted component is quoted when the identifier pattern accepts the whole. */
  lemma IdentQuoteSampleDotted(id: string, smartQuote: string -> bool)
    requires id == "a.b" && smartQuote(id)
    ensures IdentQuoteOf(id, smartQuote) == "\"a\".\"b\""
  {
    assert "a" + "." + "b" == id;
    IdentQuoteTwo("a", "b", smartQuote);
    assert QuoteFragment("a") == "\"a\"" && QuoteFragment("b") == "\"b\"";
  }

  /** A `*` component is kept as it is. */
  lemma IdentQuoteSampleStar(id: string, smartQuote: string -> bool)
    requires id == "t.*" && smartQuote(id)
    ensures IdentQuoteOf(id, smartQuote) == "\"t\".*"
  {
    assert "t" + "." + "*" == id;
    IdentQuoteTwo("t", "*", smartQuote);
    assert QuoteFragment("t") == "\"t\"" && QuoteFragment("*") == "*";
  }

  /** `name.id`, whose first component starts like `null`, is quoted like any other. */
  lemma IdentQuoteSampleName(id: string, smartQuote: string -> bool)
    requires id == "name.id" && smartQuote(id)
    ensures IdentQuoteOf(id, smartQuote) == "\"name\".\"id\""
  {
    assert "name" + "." + "id" == id;
    IdentQuoteTwo("name", "id", smartQuote);
    assert QuoteFragment("name") == "\"name\"" && QuoteFragment("id") == "\"id\"";
  }

  /** `null`, in any case, and anything the pattern rejects are returned unchanged. */
  lemma IdentQuoteSampleKept(smartQuote: string -> bool)
    ensures IdentQuoteOf("NuLL", smartQuote) == "NuLL"
    ensures !smartQuote("a b") ==> IdentQuoteOf("a b", smartQuote) == "a b"
  {
    assert ToLowerAscii("NuLL") == "null";
  }

  /** Two dot-free components: each is quoted on its own. */
  lemma IdentQuoteTwo(x: string, y: string, smartQuote: string -> bool)
    requires '.' !in x && '.' !in y && smartQuote(x + "." + y)
    ensures IdentQuoteOf(x + "." + y, smartQuote) == QuoteFragment(x) + "." + QuoteFragment(y)
  {
    var s := x + "." + y;
    assert s[|x|] == '.';
    LowerKeeps(s, '.');
    assert ToLowerAscii(s) != "null";
    SplitJoin([x, y], '.');
    assert [x, y][1..] == [y];
    assert Join([x, y], ".") == s;
    var q := [QuoteFragment(x), QuoteFragment(y)];
    assert QuoteEach([x, y]) == q by {
      assert [x, y][..1] == [x];
    }
    assert q[1..] == [q[1]];
    assert Join(q, ".") == q[0] + "." + q[1];
  }
}
