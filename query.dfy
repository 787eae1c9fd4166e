/**
 * The SELECT statement that `list_tasks` builds (app.py, lines 60-80): the
 * condition list and the parameter list grow together, and a WHERE clause
 * joined with AND is added only when some condition exists.
 */
module Query {
  import opened Tasks
  import opened Pattern

  /** The two conditions the page can ask for. */
  datatype Condition = TitleILike | FavoriteIs

  /** A positional parameter bound to one `%s`. */
  datatype Param = Text(text: string) | Flag(flag: bool)

  const Placeholder := "%s"
  // Written as two pieces: the verifier reasons about the characters of short literals cheaply.
  const BaseQuery := "SELECT id, title, description, " + "is_favorite FROM tasks"
  const WhereKeyword := " WHERE "
  const AndKeyword := " AND "

  function Sql(c: Condition): string {
    match c
    case TitleILike => "title ILIKE " + Placeholder
    case FavoriteIs => "is_favorite = " + Placeholder
  }

  function SqlAll(conds: seq<Condition>): (r: seq<string>)
    ensures |r| == |conds|
  {
    seq(|conds|, i requires 0 <= i < |conds| => Sql(conds[i]))
  }

  /** `sep.join(parts)` */
  function Join(parts: seq<string>, sep: string): string {
    if |parts| == 0 then ""
    else if |parts| == 1 then parts[0]
    else parts[0] + sep + Join(parts[1..], sep)
  }

  function QueryText(conds: seq<Condition>): string {
    if conds == [] then BaseQuery
    else BaseQuery + WhereKeyword + Join(SqlAll(conds), AndKeyword)
  }

  /** The number of `%s` placeholders in a statement's text. */
  function Placeholders(s: string): nat {
    if |s| < 2 then 0
    else (if s[0] == '%' && s[1] == 's' then 1 else 0) + Placeholders(s[1..])
  }

  /** Python truthiness of the search argument: neither None nor "". */
  predicate Truthy(search: Option<string>) {
    search.Some? && search.value != ""
  }

  function SearchPattern(q: string): string {
    "%" + q + "%"
  }

  /** What one condition, bound to its parameter, demands of a row. */
  predicate Holds(c: Condition, p: Param, row: Row) {
    match c
    case TitleILike => p.Text? && ILike(row.title, p.text)
    case FavoriteIs => p.Flag? && row.isFavorite == p.flag
  }

  /** The WHERE clause: the k-th condition bound to the k-th parameter, all of them. */
  predicate Where(conds: seq<Condition>, params: seq<Param>, row: Row)
    requires |conds| == |params|
    ensures conds == [] ==> Where(conds, params, row)
    ensures |conds| > 0 ==>
      (Where(conds, params, row) <==> Holds(conds[0], params[0], row) && Where(conds[1..], params[1..], row))
  {
    forall k :: 0 <= k < |conds| ==> Holds(conds[k], params[k], row)
  }

  /**
   * The filter the page promises: a title matching the search pattern when a
   * search text is given, and an exact favourite flag when one is chosen.
   */
  predicate Matches(search: Option<string>, favorite: Option<bool>, row: Row)
    ensures !Truthy(search) && favorite.None? ==> Matches(search, favorite, row)
    ensures favorite.Some? && row.isFavorite != favorite.value ==> !Matches(search, favorite, row)
  {
    && (!Truthy(search) || ILike(row.title, SearchPattern(search.value)))
    && (favorite.None? || row.isFavorite == favorite.value)
  }

  /** For a search text without pattern characters, the title test is a case-insensitive substring test. */
  lemma MatchesPlainSearch(search: Option<string>, favorite: Option<bool>, row: Row)
    requires Truthy(search) && Plain(search.value)
    ensures Matches(search, favorite, row) <==>
      && Contains(Fold(row.title), Fold(search.value))
      && (favorite.None? || row.isFavorite == favorite.value)
  {
    SearchIsSubstring(row.title, search.value);
  }

  method BuildQuery(search: Option<string>, favorite: Option<bool>)
    returns (query: string, conditions: seq<Condition>, params: seq<Param>)
    ensures conditions ==
      (if Truthy(search) then [TitleILike] else []) + (if favorite.Some? then [FavoriteIs] else [])
    ensures params ==
      (if Truthy(search) then [Text(SearchPattern(search.value))] else [])
      + (if favorite.Some? then [Flag(favorite.value)] else [])
    ensures query == QueryText(conditions)
    ensures |conditions| == |params| == Placeholders(query)
    ensures Contains(query, WhereKeyword) <==> Truthy(search) || favorite.Some?
    ensures !Truthy(search) && favorite.None? ==> query == BaseQuery && params == []
    ensures Truthy(search) ==> |conditions| > 0 && conditions[0] == TitleILike && params[0] == Text(SearchPattern(search.value))
    ensures favorite.Some? ==>
      && |conditions| > 0
      && conditions[|conditions| - 1] == FavoriteIs
      && params[|params| - 1] == Flag(favorite.value)
    ensures forall row :: Where(conditions, params, row) <==> Matches(search, favorite, row)
  {
    query := BaseQuery;
    conditions, params := [], [];
    if search.Some? && search.value != "" {
      conditions := conditions + [TitleILike];
      params := params + [Text(SearchPattern(search.value))];
    }
    if favorite.Some? {
      conditions := conditions + [FavoriteIs];
      params := params + [Flag(favorite.value)];
    }
    if conditions != [] {
      query := query + WhereKeyword + Join(SqlAll(conditions), AndKeyword);
    }
    QueryPlaceholders(conditions);
    WhereOnlyWithConditions(conditions);
  }

  /** The character facts about the fixed pieces of text that the proofs below use. */
  lemma FixedTextFacts()
    ensures '%' !in BaseQuery && '%' !in WhereKeyword && '%' !in AndKeyword
    ensures 'W' !in BaseQuery && BaseQuery[|BaseQuery| - 1] == 's'
  {
  }

  lemma {:induction false} NoPercentNoPlaceholders(s: string)
    requires '%' !in s
    ensures Placeholders(s) == 0
  {
    if |s| >= 2 {
      assert s[0] in s;
      NoPercentNoPlaceholders(s[1..]);
    }
  }

  /** Joining two texts adds no placeholder when the left one does not end in `%`. */
  lemma {:induction false} PlaceholdersConcat(a: string, b: string)
    requires a == [] || a[|a| - 1] != '%'
    ensures Placeholders(a + b) == Placeholders(a) + Placeholders(b)
  {
    if a == [] {
      assert a + b == b;
    } else {
      assert (a + b)[1..] == a[1..] + b;
      PlaceholdersConcat(a[1..], b);
    }
  }

  lemma SqlHasOnePlaceholder(c: Condition)
    ensures Placeholders(Sql(c)) == 1
    ensures Sql(c) != [] && Sql(c)[|Sql(c)| - 1] == 's'
  {
    var head := if c == TitleILike then "title ILIKE " else "is_favorite = ";
    assert Sql(c) == head + Placeholder;
    NoPercentNoPlaceholders(head);
    PlaceholdersConcat(head, Placeholder);
  }

  lemma {:induction false} JoinPlaceholders(conds: seq<Condition>)
    ensures Placeholders(Join(SqlAll(conds), AndKeyword)) == |conds|
    ensures var j := Join(SqlAll(conds), AndKeyword); conds != [] ==> j != [] && j[|j| - 1] == 's'
  {
    var parts := SqlAll(conds);
    if |conds| == 1 {
      SqlHasOnePlaceholder(conds[0]);
    } else if |conds| > 1 {
      assert parts[1..] == SqlAll(conds[1..]);
      JoinPlaceholders(conds[1..]);
      SqlHasOnePlaceholder(conds[0]);
      var rest := Join(parts[1..], AndKeyword);
      assert Join(parts, AndKeyword) == (parts[0] + AndKeyword) + rest;
      PlaceholdersConcat(parts[0], AndKeyword);
      FixedTextFacts();
      NoPercentNoPlaceholders(AndKeyword);
      PlaceholdersConcat(parts[0] + AndKeyword, rest);
    }
  }

  /** The statement carries one placeholder per condition. */
  lemma QueryPlaceholders(conds: seq<Condition>)
    ensures Placeholders(QueryText(conds)) == |conds|
  {
    FixedTextFacts();
    NoPercentNoPlaceholders(BaseQuery);
    if conds != [] {
      JoinPlaceholders(conds);
      NoPercentNoPlaceholders(WhereKeyword);
      PlaceholdersConcat(BaseQuery, WhereKeyword);
      PlaceholdersConcat(BaseQuery + WhereKeyword, Join(SqlAll(conds), AndKeyword));
    }
  }

  /** The WHERE keyword appears in the statement exactly when there is a condition. */
  lemma WhereOnlyWithConditions(conds: seq<Condition>)
    ensures Contains(QueryText(conds), WhereKeyword) <==> conds != []
  {
    var q := QueryText(conds);
    if conds != [] {
      var j := Join(SqlAll(conds), AndKeyword);
      assert q[|BaseQuery|..] == WhereKeyword + j;
    } else if Contains(q, WhereKeyword) {
      var i :| 0 <= i <= |q| && WhereKeyword <= q[i..];
      assert q[i + 1] == 'W';
      FixedTextFacts();
      assert false;
    }
  }
}
