/**
 * The SQL text builders: numbered placeholders for IN lists, the
 * `"col"=$n` parameter lists of WHERE and SET clauses, and the quoting of
 * dotted identifiers. Each builder is a loop over a buffer, proved against
 * a function that states the whole output.
 */
module Sql {
  import opened Wrappers
  import opened Text

  const PlaceholdersPanic: string := "Invalid start or group numbers supplied."
  const WhereClausePanic: string := "0 is not a valid start number for whereClause"

  // ---------------------------------------------------------------------------
  // Placeholders

  /** `i` is a multiple of `group`, by repeated subtraction (see IsMultipleMod). */
  function IsMultiple(i: nat, group: int): bool
    requires group > 1
  {
    if i < group then i == 0 else IsMultiple(i - group, group)
  }

  /** Index `i > 0` opens a new group exactly when groups are asked for and `group` divides it. */
  predicate OpensGroup(i: nat, group: int)
  {
    i > 0 && group > 1 && IsMultiple(i, group)
  }

  /** What precedes placeholder `i`: nothing for the first, `),(` where a new group opens, `,` otherwise. */
  function PlaceholderSep(i: nat, group: int): string
  {
    if i == 0 then "" else if OpensGroup(i, group) then "),(" else ","
  }

  /** Placeholder `i` with its separator: `$` and the number `start + i`. */
  function Placeholder(i: nat, start: int, group: int): string
  {
    PlaceholderSep(i, group) + ("$" + IntToDecimal(start + i))
  }

  /** The first `n` placeholders, in order. */
  function PlaceholderList(n: nat, start: int, group: int): string
  {
    if n == 0 then "" else PlaceholderList(n - 1, start, group) + Placeholder(n - 1, start, group)
  }

  /** The whole output is wrapped in parentheses exactly when groups are asked for. */
  function Parenthesised(group: int, body: string): string
  {
    if group > 1 then "(" + body + ")" else body
  }

  /** A negative count emits nothing, like a count of zero. */
  function Emitted(count: int): nat
  {
    if count > 0 then count else 0
  }

  function PlaceholdersOf(count: int, start: int, group: int): Result<string>
  {
    if start == 0 || group == 0 then Err(PlaceholdersPanic)
    else Ok(Parenthesised(group, PlaceholderList(Emitted(count), start, group)))
  }

  /** Writes `count` placeholders numbered from `start`, `group` to a parenthesised group. */
  method Placeholders(count: int, start: int, group: int) returns (r: Result<string>)
    ensures r == PlaceholdersOf(count, start, group)
    ensures r.Err? <==> start == 0 || group == 0
  {
    if start == 0 || group == 0 {
      return Err(PlaceholdersPanic);
    }
    var open := if group > 1 then "(" else "";
    var buf := open;
    var i := 0;
    while i < count
      invariant 0 <= i && i <= Emitted(count)
      invariant buf == open + PlaceholderList(i, start, group)
    {
      var sep := "";
      if i != 0 {
        if group > 1 {
          IsMultipleMod(i, group);
        }
        if group > 1 && i % group == 0 {
          sep := "),(";
        } else {
          sep := ",";
        }
      }
      var item := "$" + IntToDecimal(start + i);
      Reassociate(open, PlaceholderList(i, start, group), sep + item);
      Reassociate(buf, sep, item);
      buf := buf + sep + item;
      i := i + 1;
    }
    assert i == Emitted(count);
    if group > 1 {
      buf := buf + ")";
      assert buf == "(" + PlaceholderList(i, start, group) + ")";
    } else {
      assert buf == PlaceholderList(i, start, group);
    }
    return Ok(buf);
  }

  /** Decimal notation never holds `$`, `(` or `,`. */
  lemma DecimalPlain(k: int, c: char)
    requires !IsDigit(c) && c != '-'
    ensures Count(IntToDecimal(k), c) == 0
  {
    var s := IntToDecimal(k);
    IntToDecimalChars(k);
    assert forall i :: 0 <= i < |s| ==> s[i] != c;
    CountZero(s, c);
  }

  /** A placeholder holds the bytes of its separator, one `$`, and digits. */
  lemma PlaceholderCount(i: nat, start: int, group: int, c: char)
    requires !IsDigit(c) && c != '-'
    ensures Count(Placeholder(i, start, group), c)
      == Count(PlaceholderSep(i, group), c) + (if c == '$' then 1 else 0)
  {
    var d := IntToDecimal(start + i);
    CountAppend(PlaceholderSep(i, group), "$" + d, c);
    CountAppend("$", d, c);
    DecimalPlain(start + i, c);
  }

  /** A separator holds no `$`, and a `(` exactly where a new group opens. */
  lemma SepCount(i: nat, group: int)
    ensures Count(PlaceholderSep(i, group), '$') == 0
    ensures Count(PlaceholderSep(i, group), '(') == if OpensGroup(i, group) then 1 else 0
  {
    assert Count("),(", '(') == 1;
  }

  /** Appending placeholder `n` adds one `$` and no other `$`. */
  lemma DollarStep(n: nat, start: int, group: int)
    requires n > 0
    ensures Count(PlaceholderList(n, start, group), '$') == Count(PlaceholderList(n - 1, start, group), '$') + 1
  {
    CountAppend(PlaceholderList(n - 1, start, group), Placeholder(n - 1, start, group), '$');
    PlaceholderCount(n - 1, start, group, '$');
    SepCount(n - 1, group);
  }

  /** Exactly one `$` per placeholder. */
  lemma {:induction false} PlaceholderDollars(n: nat, start: int, group: int)
    ensures Count(PlaceholderList(n, start, group), '$') == n
  {
    if n > 0 {
      PlaceholderDollars(n - 1, start, group);
      DollarStep(n, start, group);
    }
  }

  /** How many of the indices `1 .. n - 1` open a new group. */
  function Boundaries(n: nat, group: int): nat
  {
    if n <= 1 then 0
    else Boundaries(n - 1, group) + (if OpensGroup(n - 1, group) then 1 else 0)
  }

  /** Appending placeholder `n` adds a `(` exactly when it opens a new group. */
  lemma OpenStep(n: nat, start: int, group: int)
    requires n > 0
    ensures Count(PlaceholderList(n, start, group), '(')
      == Count(PlaceholderList(n - 1, start, group), '(') + (if OpensGroup(n - 1, group) then 1 else 0)
  {
    CountAppend(PlaceholderList(n - 1, start, group), Placeholder(n - 1, start, group), '(');
    PlaceholderCount(n - 1, start, group, '(');
    SepCount(n - 1, group);
  }

  /** Opening parentheses inside the list: one per group boundary crossed. */
  lemma {:induction false} PlaceholderOpens(n: nat, start: int, group: int)
    ensures Count(PlaceholderList(n, start, group), '(') == Boundaries(n, group)
  {
    if n > 0 {
      PlaceholderOpens(n - 1, start, group);
      OpenStep(n, start, group);
    }
  }

  /** With groups, the boundaries before `n` number `(n - 1) / group`. */
  lemma {:induction false} BoundariesDiv(n: nat, group: int)
    requires group > 1 && n >= 1
    ensures Boundaries(n, group) == (n - 1) / group
  {
    if n > 1 {
      BoundariesDiv(n - 1, group);
      GroupStep(n - 1, group);
      IsMultipleMod(n - 1, group);
    }
  }

  /** Repeated subtraction agrees with the remainder the source tests. */
  lemma {:induction false} IsMultipleMod(i: nat, group: int)
    requires group > 1
    ensures IsMultiple(i, group) <==> i % group == 0
    decreases i
  {
    if i < group {
      DivModUnique(i, group, 0, i);
    } else {
      IsMultipleMod(i - group, group);
      DivModUnique(i, group, (i - group) / group + 1, (i - group) % group);
    }
  }

  /** Moving from `i - 1` to `i` crosses a group boundary exactly when `group` divides `i`. */
  lemma GroupStep(i: nat, group: int)
    requires group > 1 && i >= 1
    ensures i / group == (i - 1) / group + (if i % group == 0 then 1 else 0)
  {
    var q, m := (i - 1) / group, (i - 1) % group;
    assert i == q * group + m + 1;
    if m + 1 == group {
      DivModUnique(i, group, q + 1, 0);
    } else {
      DivModUnique(i, group, q, m + 1);
    }
  }

  lemma DivModUnique(n: int, d: int, q: int, m: int)
    requires d > 0 && 0 <= m < d && n == q * d + m
    ensures n / d == q && n % d == m
  {
    var q', m' := n / d, n % d;
    assert q' * d + m' == q * d + m;
    assert (q - q') * d == m' - m;
    MulSign(q - q', d);
  }

  /** A non-zero multiple of `d` is at least `d` away from zero. */
  lemma {:induction false} MulSign(e: int, d: int)
    requires d > 0
    ensures e >= 1 ==> e * d >= d
    ensures e <= -1 ==> e * d <= -d
    decreases if e < 0 then -e else e
  {
    if e > 1 {
      MulSign(e - 1, d);
      assert e * d == (e - 1) * d + d;
    } else if e < -1 {
      MulSign(e + 1, d);
      assert e * d == (e + 1) * d - d;
    }
  }

  /**
   * With groups, the output holds one parenthesised group per `group`
   * placeholders, the last one possibly shorter: ceil(count / group) groups,
   * and a single empty pair of parentheses when nothing is emitted.
   */
  lemma PlaceholderGroups(count: int, start: int, group: int)
    requires start != 0 && group > 1
    ensures PlaceholdersOf(count, start, group).Ok?
    ensures var v := PlaceholdersOf(count, start, group).value;
      v[0] == '(' && v[|v| - 1] == ')'
      && Count(v, '(') == (if count <= 0 then 1 else (count - 1) / group + 1)
      && Count(v, '$') == Emitted(count)
  {
    var body := PlaceholderList(Emitted(count), start, group);
    CountAppend("(" + body, ")", '(');
    CountAppend("(", body, '(');
    CountAppend("(" + body, ")", '$');
    CountAppend("(", body, '$');
    PlaceholderDollars(Emitted(count), start, group);
    PlaceholderOpens(Emitted(count), start, group);
    if count > 0 {
      BoundariesDiv(count, group);
    }
  }

  /** The placeholders `$start`, ..., `$(start + n - 1)` as separate strings. */
  function Numbered(n: nat, start: int): (r: seq<string>)
    ensures |r| == n
  {
    if n == 0 then [] else Numbered(n - 1, start) + ["$" + IntToDecimal(start + n - 1)]
  }

  /** Without groups, the output is the numbered placeholders joined with commas. */
  lemma {:induction false} PlaceholdersFlat(count: int, start: int, group: int)
    requires start != 0 && group != 0 && group <= 1
    ensures PlaceholdersOf(count, start, group) == Ok(Join(Numbered(Emitted(count), start), ","))
  {
    FlatList(Emitted(count), start, group);
  }

  lemma {:induction false} FlatList(n: nat, start: int, group: int)
    requires group <= 1
    ensures PlaceholderList(n, start, group) == Join(Numbered(n, start), ",")
  {
    if n > 0 {
      var x := "$" + IntToDecimal(start + n - 1);
      FlatList(n - 1, start, group);
      FlatStep(n, start, group);
      assert Numbered(n, start) == Numbered(n - 1, start) + [x];
      JoinSnoc(Numbered(n - 1, start), x, ",");
    }
  }

  /** Without groups, every placeholder after the first is preceded by a comma. */
  lemma FlatStep(n: nat, start: int, group: int)
    requires group <= 1 && n > 0
    ensures PlaceholderList(n, start, group)
      == PlaceholderList(n - 1, start, group) + (if n == 1 then "" else ",") + ("$" + IntToDecimal(start + n - 1))
  {
  }

  // ---------------------------------------------------------------------------
  // WHERE and SET parameter lists

  /** One `"col"=$k` assignment. */
  function Param(col: string, k: int): string
  {
    "\"" + col + "\"=$" + IntToDecimal(k)
  }

  /** The assignments for `cols`, numbered from `start`. */
  function Params(cols: seq<string>, start: int): (r: seq<string>)
    ensures |r| == |cols|
  {
    if cols == [] then []
    else Params(cols[..|cols| - 1], start) + [Param(cols[|cols| - 1], start + |cols| - 1)]
  }

  /** Column `i` is assigned placeholder number `start + i`. */
  lemma {:induction false} ParamsAt(cols: seq<string>, start: int)
    ensures forall i :: 0 <= i < |cols| ==> Params(cols, start)[i] == Param(cols[i], start + i)
  {
    if cols != [] {
      var init := cols[..|cols| - 1];
      ParamsAt(init, start);
      var ps := Params(cols, start);
      assert ps == Params(init, start) + [Param(cols[|cols| - 1], start + |cols| - 1)];
      forall i | 0 <= i < |cols| ensures ps[i] == Param(cols[i], start + i) {
        if i < |init| {
          assert init[i] == cols[i];
        }
      }
    }
  }

  /** One more column appends one more assignment and nothing else changes. */
  lemma ParamsSnoc(cols: seq<string>, c: string, start: int)
    ensures Params(cols + [c], start) == Params(cols, start) + [Param(c, start + |cols|)]
  {
    assert (cols + [c])[..|cols|] == cols;
  }

  function WhereClauseOf(start: int, cols: seq<string>): Result<string>
  {
    if start == 0 then Err(WhereClausePanic) else Ok(Join(Params(cols, start), " AND "))
  }

  function SetParamNamesOf(cols: seq<string>): string
  {
    Join(Params(cols, 1), ", ")
  }

  /** The shared loop: each assignment, with `sep` after every one but the last. */
  method JoinParams(cols: seq<string>, start: int, sep: string) returns (s: string)
    ensures s == Join(Params(cols, start), sep)
  {
    var buf := "";
    for i := 0 to |cols|
      invariant buf == Join(Params(cols[..i], start), sep) + (if 0 < i < |cols| then sep else "")
    {
      JoinParamsStep(cols, i, start, sep);
      buf := buf + Param(cols[i], start + i);
      if i < |cols| - 1 {
        buf := buf + sep;
      }
    }
    assert cols[..|cols|] == cols;
    s := buf;
  }

  /** Column `i` adds its assignment, after `sep` unless it is the first. */
  lemma JoinParamsStep(cols: seq<string>, i: nat, start: int, sep: string)
    requires i < |cols|
    ensures Join(Params(cols[..i + 1], start), sep)
      == (if i == 0 then "" else Join(Params(cols[..i], start), sep) + sep) + Param(cols[i], start + i)
  {
    ParamsSnoc(cols[..i], cols[i], start);
    assert cols[..i + 1] == cols[..i] + [cols[i]];
    JoinSnoc(Params(cols[..i], start), Param(cols[i], start + i), sep);
  }

  /** The WHERE clause `"c0"=$start AND "c1"=$(start+1) ...`; a start of 0 is refused. */
  method WhereClause(start: int, cols: seq<string>) returns (r: Result<string>)
    ensures r == WhereClauseOf(start, cols)
    ensures r.Err? <==> start == 0
  {
    if start == 0 {
      return Err(WhereClausePanic);
    }
    var s := JoinParams(cols, start, " AND ");
    return Ok(s);
  }

  /** The SET list `"c0"=$1, "c1"=$2, ...`. */
  method SetParamNames(cols: seq<string>) returns (s: string)
    ensures s == SetParamNamesOf(cols)
  {
    s := JoinParams(cols, 1, ", ");
  }

  /** An assignment holds one `$` when its column holds none. */
  lemma ParamDollar(col: string, k: int)
    requires '$' !in col
    ensures Count(Param(col, k), '$') == 1
  {
    CountAppend("\"" + col, "\"=$", '$');
    CountAppend("\"", col, '$');
    CountZero(col, '$');
    CountAppend("\"" + col + "\"=$", IntToDecimal(k), '$');
    DecimalPlain(k, '$');
  }

  /** Joined with a `$`-free separator, parts holding one `$` each give one `$` per part. */
  lemma {:induction false} CountJoinOnce(parts: seq<string>, sep: string, c: char)
    requires c !in sep
    requires forall i :: 0 <= i < |parts| ==> Count(parts[i], c) == 1
    ensures Count(Join(parts, sep), c) == |parts|
  {
    if |parts| > 1 {
      CountJoinOnce(parts[1..], sep, c);
      CountAppend(parts[0] + sep, Join(parts[1..], sep), c);
      CountAppend(parts[0], sep, c);
      CountZero(sep, c);
    }
  }

  /** With `$`-free column names, the clause numbers exactly one placeholder per column. */
  lemma WhereClauseDollars(start: int, cols: seq<string>)
    requires start != 0
    requires forall i :: 0 <= i < |cols| ==> '$' !in cols[i]
    ensures WhereClauseOf(start, cols).Ok?
    ensures Count(WhereClauseOf(start, cols).value, '$') == |cols|
  {
    var ps := Params(cols, start);
    ParamsAt(cols, start);
    forall i | 0 <= i < |ps| ensures Count(ps[i], '$') == 1 {
      ParamDollar(cols[i], start + i);
    }
    CountJoinOnce(ps, " AND ", '$');
  }

  /** Adding a column appends ` AND ` and its assignment to a non-empty clause. */
  lemma WhereClauseSnoc(start: int, cols: seq<string>, c: string)
    requires start != 0 && cols != []
    ensures WhereClauseOf(start, cols + [c]).Ok? && WhereClauseOf(start, cols).Ok?
    ensures WhereClauseOf(start, cols + [c]).value
      == WhereClauseOf(start, cols).value + " AND " + Param(c, start + |cols|)
  {
    ParamsSnoc(cols, c, start);
    JoinSnoc(Params(cols, start), Param(c, start + |cols|), " AND ");
  }

  // ---------------------------------------------------------------------------
  // Identifier quoting

  /** A fragment already quoted at either end, or `*`, is kept; any other is wrapped in quotes. */
  function QuoteFragment(f: string): string
  {
    if (f != [] && (f[0] == '"' || f[|f| - 1] == '"')) || f == "*" then f else "\"" + f + "\""
  }

  function QuoteEach(parts: seq<string>): (r: seq<string>)
    ensures |r| == |parts|
  {
    if parts == [] then [] else QuoteEach(parts[..|parts| - 1]) + [QuoteFragment(parts[|parts| - 1])]
  }

  /**
   * The quoting of a dotted identifier. `smartQuote` stands for the
   * identifier pattern the source tests with a regular expression; the
   * literal `null`, in any ASCII case, is never quoted.
   */
  function IdentQuoteOf(s: string, smartQuote: string -> bool): string
  {
    if ToLowerAscii(s) == "null" || !smartQuote(s) then s
    else Join(QuoteEach(Split(s, '.')), ".")
  }

  method IdentQuote(s: string, smartQuote: string -> bool) returns (r: string)
    ensures r == IdentQuoteOf(s, smartQuote)
  {
    if ToLowerAscii(s) == "null" {
      return s;
    }
    if !smartQuote(s) {
      return s;
    }
    var splits := Split(s, '.');
    var buf := "";
    for i := 0 to |splits|
      invariant buf == Join(QuoteEach(splits[..i]), ".")
    {
      var split := splits[i];
      QuoteStep(splits, i);
      if i != 0 {
        buf := buf + ".";
      }
      ghost var before := buf;
      if (split != [] && (split[0] == '"' || split[|split| - 1] == '"')) || split == "*" {
        buf := buf + split;
      } else {
        buf := buf + "\"" + split + "\"";
        Reassociate(before, "\"", split);
        Reassociate(before, "\"" + split, "\"");
      }
    }
    assert splits[..|splits|] == splits;
    r := buf;
  }

  /** Fragment `i` adds its quoted form, after a `.` unless it is the first. */
  lemma QuoteStep(splits: seq<string>, i: nat)
    requires i < |splits|
    ensures Join(QuoteEach(splits[..i + 1]), ".")
      == (if i == 0 then "" else Join(QuoteEach(splits[..i]), ".") + ".") + QuoteFragment(splits[i])
  {
    assert splits[..i + 1] == splits[..i] + [splits[i]];
    JoinSnoc(QuoteEach(splits[..i]), QuoteFragment(splits[i]), ".");
  }

  /** Quoting a fragment twice is quoting it once. */
  lemma QuoteFragmentIdempotent(f: string)
    ensures QuoteFragment(QuoteFragment(f)) == QuoteFragment(f)
  {
  }

  /** A quoted fragment is marked at one end, or is `*`, and quoting adds no `.`. */
  lemma QuoteFragmentFacts(f: string)
    ensures var q := QuoteFragment(f); (q != [] && (q[0] == '"' || q[|q| - 1] == '"')) || q == "*"
    ensures '.' in QuoteFragment(f) <==> '.' in f
  {
  }

  lemma {:induction false} QuoteEachAt(parts: seq<string>)
    ensures forall i :: 0 <= i < |parts| ==> QuoteEach(parts)[i] == QuoteFragment(parts[i])
  {
    if parts != [] {
      var init := parts[..|parts| - 1];
      QuoteEachAt(init);
      var qs := QuoteEach(parts);
      assert qs == QuoteEach(init) + [QuoteFragment(parts[|parts| - 1])];
      forall i | 0 <= i < |parts| ensures qs[i] == QuoteFragment(parts[i]) {
        if i < |init| {
          assert init[i] == parts[i];
        }
      }
    }
  }

  lemma {:induction false} QuoteEachIdempotent(parts: seq<string>)
    ensures QuoteEach(QuoteEach(parts)) == QuoteEach(parts)
  {
    if parts != [] {
      var init := parts[..|parts| - 1];
      QuoteEachIdempotent(init);
      var q := QuoteEach(parts);
      assert q[..|q| - 1] == QuoteEach(init);
      QuoteFragmentIdempotent(parts[|parts| - 1]);
    }
  }

  /**
   * When quoting applies, the result has exactly the components of the
   * input, each quoted: splitting on `.` gives the quoted fragments back.
   */
  lemma IdentQuoteParts(s: string, smartQuote: string -> bool)
    requires ToLowerAscii(s) != "null" && smartQuote(s)
    ensures Split(IdentQuoteOf(s, smartQuote), '.') == QuoteEach(Split(s, '.'))
  {
    var parts := Split(s, '.');
    var q := QuoteEach(parts);
    SplitParts(s, '.');
    QuoteEachAt(parts);
    forall i | 0 <= i < |q| ensures '.' !in q[i] {
      QuoteFragmentFacts(parts[i]);
    }
    SplitJoin(q, '.');
  }

  /** A quoted result is never mistaken for the literal `null`. */
  lemma QuotedNotNull(s: string, smartQuote: string -> bool)
    requires ToLowerAscii(s) != "null" && smartQuote(s)
    ensures ToLowerAscii(IdentQuoteOf(s, smartQuote)) != "null"
  {
    var t := IdentQuoteOf(s, smartQuote);
    var parts := Split(s, '.');
    var q := QuoteEach(parts);
    if |parts| > 1 {
      IdentQuoteParts(s, smartQuote);
      SplitCount(t, '.');
      LowerKeeps(t, '.');
      assert '.' in ToLowerAscii(t);
    } else {
      QuoteEachAt(parts);
      QuoteFragmentFacts(parts[0]);
      assert t == q[0];
      if q[0] == "*" {
        LowerKeeps(t, '*');
        assert '*' in ToLowerAscii(t);
      } else if q[0][0] == '"' {
        LowerKeeps(t, '"');
        assert '"' in ToLowerAscii(t);
      } else {
        LowerKeeps(t, '"');
        assert t[|t| - 1] == '"';
        assert '"' in ToLowerAscii(t);
      }
    }
  }

  /** Lowering keeps every byte that is not a letter. */
  lemma LowerKeeps(t: string, c: char)
    requires !IsUpper(c) && !IsLower(c)
    ensures c in t <==> c in ToLowerAscii(t)
  {
    var l := ToLowerAscii(t);
    forall i | 0 <= i < |t| ensures t[i] == c <==> l[i] == c {
    }
    if c in t {
      var i :| 0 <= i < |t| && t[i] == c;
      assert l[i] == c;
    }
    if c in l {
      var i :| 0 <= i < |l| && l[i] == c;
      assert t[i] == c;
    }
  }

  /** Quoting an identifier a second time changes nothing, whatever the pattern accepts. */
  lemma IdentQuoteIdempotent(s: string, smartQuote: string -> bool)
    ensures IdentQuoteOf(IdentQuoteOf(s, smartQuote), smartQuote) == IdentQuoteOf(s, smartQuote)
  {
    var t := IdentQuoteOf(s, smartQuote);
    if ToLowerAscii(s) != "null" && smartQuote(s) && smartQuote(t) {
      QuotedNotNull(s, smartQuote);
      IdentQuoteParts(s, smartQuote);
      QuoteEachIdempotent(Split(s, '.'));
    }
  }

  /** IdentQuote applied to each identifier of a slice. */
  function IdentQuoteAll(ss: seq<string>, smartQuote: string -> bool): seq<string>
  {
    seq(|ss|, i requires 0 <= i < |ss| => IdentQuoteOf(ss[i], smartQuote))
  }

  method IdentQuoteSlice(ss: seq<string>, smartQuote: string -> bool) returns (r: seq<string>)
    ensures r == IdentQuoteAll(ss, smartQuote)
  {
    if |ss| == 0 {
      return ss;
    }
    var out := new string[|ss|];
    for i := 0 to |ss|
      invariant forall j :: 0 <= j < i ==> out[j] == IdentQuoteOf(ss[j], smartQuote)
    {
      out[i] := IdentQuote(ss[i], smartQuote);
    }
    r := out[..];
  }

  /** Quoting a slice twice is quoting it once. */
  lemma IdentQuoteAllIdempotent(ss: seq<string>, smartQuote: string -> bool)
    ensures IdentQuoteAll(IdentQuoteAll(ss, smartQuote), smartQuote) == IdentQuoteAll(ss, smartQuote)
  {
    var once := IdentQuoteAll(ss, smartQuote);
    forall i | 0 <= i < |ss| ensures IdentQuoteOf(once[i], smartQuote) == once[i] {
      IdentQuoteIdempotent(ss[i], smartQuote);
    }
  }
}
