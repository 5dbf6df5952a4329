/** The match query of `find_character`: keyword rows joined with symbols,
    filtered by `LIKE '%query%'`, made distinct, ordered by descending
    priority and cut to the first 100 rows. */
module Matcher {
  import opened Text
  import opened Lists
  import opened Catalog

  /** `LIMIT 100`. */
  const LIMIT: nat := 100

  /** Which columns the query term is matched against. */
  datatype Plan = KeywordOnly(term: Str) | KeywordOrGlyph(term: Str)

  /** The glyph column is searched too when the query is one code point long
      (a pasted character) or holds a code point above 127. */
  function PlanFor(query: Str): (p: Plan)
    ensures p.term == query
    ensures p.KeywordOrGlyph? <==> (|query| == 1 || exists i :: 0 <= i < |query| && query[i] > 127)
  {
    if |query| == 1 || HasNonAscii(query) then KeywordOrGlyph(query) else KeywordOnly(query)
  }

  /** The `WHERE` clause on one joined (keyword row, symbol) pair. */
  predicate Where(plan: Plan, row: KeywordRow, s: Symbol)
    ensures plan.KeywordOnly? ==> (Where(plan, row, s) <==> exists i: nat :: FoldedAt(plan.term, row.keyword, i))
    ensures plan.KeywordOrGlyph? ==>
              (Where(plan, row, s) <==>
                 (exists i: nat :: FoldedAt(plan.term, row.keyword, i)) || (exists i: nat :: FoldedAt(plan.term, s.glyph, i)))
  {
    Like(row.keyword, plan.term) || (plan.KeywordOrGlyph? && Like(s.glyph, plan.term))
  }

  /** The `ON keywords.glyph = symbols.glyph` join condition and the `WHERE` clause. */
  function JoinsWith(plan: Plan, row: KeywordRow): Symbol -> bool
  {
    (s: Symbol) => row.glyph == s.glyph && Where(plan, row, s)
  }

  /** A symbol matches when one of its keyword rows passes the `WHERE` clause;
      a symbol without keyword rows never matches. */
  ghost predicate Matches(keywords: seq<KeywordRow>, plan: Plan, s: Symbol)
  {
    exists row :: row in keywords && row.glyph == s.glyph && Where(plan, row, s)
  }

  /** The joined rows that pass the `WHERE` clause, keyword row by keyword row. */
  function JoinRows(keywords: seq<KeywordRow>, catalog: seq<Symbol>, plan: Plan): (r: seq<Symbol>)
    ensures forall s :: s in r <==> s in catalog && Matches(keywords, plan, s)
  {
    if keywords == [] then []
    else
      var here := Filter(catalog, JoinsWith(plan, keywords[0]));
      var rest := JoinRows(keywords[1..], catalog, plan);
      assert forall row :: row in keywords <==> row == keywords[0] || row in keywords[1..];
      here + rest
  }

  /** `ORDER BY -symbols.priority`. */
  function PriorityKey(s: Symbol): Rank
  {
    Rank(-s.priority, 0)
  }

  /** All distinct matches, highest priority first; ties keep join order. */
  function Ranked(query: Str, catalog: seq<Symbol>, keywords: seq<KeywordRow>): seq<Symbol>
  {
    SortBy(Dedup(JoinRows(keywords, catalog, PlanFor(query))), PriorityKey)
  }

  /** The rows `find_character` fetches, as whole symbols. */
  function FetchSymbols(query: Str, catalog: seq<Symbol>, keywords: seq<KeywordRow>): (r: seq<Symbol>)
    ensures |r| <= LIMIT
    ensures forall s :: s in r ==> s in catalog && Matches(keywords, PlanFor(query), s)
    ensures Distinct(r)
    ensures forall i, j :: 0 <= i < j < |r| ==> r[i].priority >= r[j].priority
    ensures forall s :: s in catalog && Matches(keywords, PlanFor(query), s) && s !in r ==>
              |r| == LIMIT && forall t :: t in r ==> t.priority >= s.priority
  {
    var ranked := Ranked(query, catalog, keywords);
    RankedFacts(query, catalog, keywords);
    if |ranked| <= LIMIT then ranked else ranked[..LIMIT]
  }

  lemma RankedFacts(query: Str, catalog: seq<Symbol>, keywords: seq<KeywordRow>)
    ensures forall s :: s in Ranked(query, catalog, keywords) <==> s in catalog && Matches(keywords, PlanFor(query), s)
    ensures Distinct(Ranked(query, catalog, keywords))
    ensures forall i, j :: 0 <= i < j < |Ranked(query, catalog, keywords)| ==>
              Ranked(query, catalog, keywords)[i].priority >= Ranked(query, catalog, keywords)[j].priority
  {
    var d := Dedup(JoinRows(keywords, catalog, PlanFor(query)));
    var r := SortBy(d, PriorityKey);
    forall s ensures s in r <==> s in d {
      assert s in r <==> s in multiset(r);
    }
    SortByDistinct(d, PriorityKey);
    forall i, j | 0 <= i < j < |r| ensures r[i].priority >= r[j].priority {
      assert RankLe(PriorityKey(r[i]), PriorityKey(r[j]));
    }
  }

  /** The `(name, glyph)` rows `find_character` fetches, before personalization. */
  function Fetch(query: Str, catalog: seq<Symbol>, keywords: seq<KeywordRow>): (r: seq<Pair>)
    ensures |r| <= LIMIT
    ensures forall p :: p in r ==> exists s :: s in catalog && Matches(keywords, PlanFor(query), s) && p == PairOf(s)
    ensures forall s :: s in catalog && Matches(keywords, PlanFor(query), s) && PairOf(s) !in r ==> |r| == LIMIT
  {
    var f := FetchSymbols(query, catalog, keywords);
    var r := Pairs(f);
    forall p | p in r ensures exists s :: s in catalog && Matches(keywords, PlanFor(query), s) && p == PairOf(s) {
      var i :| 0 <= i < |r| && r[i] == p;
      assert f[i] in f;
    }
    r
  }

  /** A pasted character finds every symbol whose glyph contains it, ignoring
      ASCII case, as long as the symbol has a keyword row to join with. */
  lemma PastedGlyphMatches(query: Str, keywords: seq<KeywordRow>, s: Symbol, row: KeywordRow)
    requires |query| == 1 && row in keywords && row.glyph == s.glyph
    requires exists i: nat :: FoldedAt(query, s.glyph, i)
    ensures Matches(keywords, PlanFor(query), s)
  {
    assert Where(PlanFor(query), row, s);
  }

  /** In a catalog keyed by glyph, no glyph (so no `(name, glyph)` pair) is fetched twice. */
  lemma FetchDistinct(query: Str, catalog: seq<Symbol>, keywords: seq<KeywordRow>)
    requires UniqueGlyphs(catalog)
    ensures forall i, j :: 0 <= i < j < |Fetch(query, catalog, keywords)| ==>
              Fetch(query, catalog, keywords)[i].1 != Fetch(query, catalog, keywords)[j].1
  {
    var s := FetchSymbols(query, catalog, keywords);
    var r := Fetch(query, catalog, keywords);
    forall i, j | 0 <= i < j < |r| ensures r[i].1 != r[j].1 {
      if r[i].1 == r[j].1 {
        GlyphDeterminesSymbol(catalog, s[i], s[j]);
        assert false;
      }
    }
  }
}
