/** The search entry point: `find_character` (match, then personalize) and the
    routing in `on_input_changed` (empty input shows the history instead). */
module Search {
  import opened Text
  import opened Lists
  import opened Catalog
  import opened Ledger
  import opened Matcher
  import opened Personalizer

  /** `copied_before = set(get_character_cache())`, one ledger snapshot per search. */
  function CopiedBefore(rows: Rows, catalog: seq<Symbol>): (c: set<Pair>)
    ensures forall s :: s in catalog ==> (PairOf(s) in c <==> s.glyph in rows)
  {
    var h := History(rows, catalog);
    var c := set p | p in h;
    assert forall s :: s in catalog && s.glyph in rows ==> PairOf(s) in h;
    c
  }

  /** `find_character(query)`: the fetched matches, previously copied ones first. */
  function FindCharacter(query: Str, catalog: seq<Symbol>, keywords: seq<KeywordRow>, rows: Rows): (r: seq<Pair>)
    ensures |r| <= LIMIT
    ensures multiset(r) == multiset(Fetch(query, catalog, keywords))
    ensures forall p :: p in r ==> exists s :: s in catalog && Matches(keywords, PlanFor(query), s) && p == PairOf(s)
    ensures forall i, j :: 0 <= i < j < |r| && r[j].1 in rows ==> r[i].1 in rows
    ensures Filter(r, Copied(CopiedBefore(rows, catalog))) ==
              Filter(Fetch(query, catalog, keywords), Copied(CopiedBefore(rows, catalog)))
    ensures Filter(r, NotCopied(CopiedBefore(rows, catalog))) ==
              Filter(Fetch(query, catalog, keywords), NotCopied(CopiedBefore(rows, catalog)))
  {
    FindFacts(query, catalog, keywords, rows);
    Personalize(Fetch(query, catalog, keywords), CopiedBefore(rows, catalog))
  }

  lemma FindFacts(query: Str, catalog: seq<Symbol>, keywords: seq<KeywordRow>, rows: Rows)
    ensures var r := Personalize(Fetch(query, catalog, keywords), CopiedBefore(rows, catalog));
            && |r| <= LIMIT
            && (forall p :: p in r ==> exists s :: s in catalog && Matches(keywords, PlanFor(query), s) && p == PairOf(s))
            && (forall i, j :: 0 <= i < j < |r| && r[j].1 in rows ==> r[i].1 in rows)
  {
    var fetched := Fetch(query, catalog, keywords);
    var copied := CopiedBefore(rows, catalog);
    var r := Personalize(fetched, copied);
    assert |r| == |fetched| by {
      assert |multiset(r)| == |multiset(fetched)|;
    }
    forall p | p in r
      ensures exists s :: s in catalog && Matches(keywords, PlanFor(query), s) && p == PairOf(s)
      ensures p in copied <==> p.1 in rows
    {
      assert p in multiset(fetched);
    }
    forall i, j | 0 <= i < j < |r| && r[j].1 in rows ensures r[i].1 in rows {
      assert r[j] in r && r[i] in r;
    }
  }

  /** In a catalog keyed by glyph, `find_character` never lists a glyph twice. */
  lemma FindDistinct(query: Str, catalog: seq<Symbol>, keywords: seq<KeywordRow>, rows: Rows)
    requires UniqueGlyphs(catalog)
    ensures forall i, j :: 0 <= i < j < |FindCharacter(query, catalog, keywords, rows)| ==>
              FindCharacter(query, catalog, keywords, rows)[i].1 != FindCharacter(query, catalog, keywords, rows)[j].1
  {
    var fetched := Fetch(query, catalog, keywords);
    var copied := CopiedBefore(rows, catalog);
    var r := FindCharacter(query, catalog, keywords, rows);
    FetchDistinct(query, catalog, keywords);
    assert Distinct(fetched);
    SortByDistinct(fetched, CopiedKey(copied));
    assert Distinct(r);
    forall i, j | 0 <= i < j < |r| ensures r[i].1 != r[j].1 {
      assert r[i] in r && r[j] in r;
      var s :| s in catalog && Matches(keywords, PlanFor(query), s) && r[i] == PairOf(s);
      var t :| t in catalog && Matches(keywords, PlanFor(query), t) && r[j] == PairOf(t);
      if r[i].1 == r[j].1 {
        GlyphDeterminesSymbol(catalog, s, t);
        assert false;
      }
    }
  }

  /** `on_input_changed`: a non-empty input searches, an empty one lists the history. */
  function OnInputChanged(query: Str, catalog: seq<Symbol>, keywords: seq<KeywordRow>, rows: Rows): (r: seq<Pair>)
    ensures forall p :: p in r ==> exists s :: s in catalog && p == PairOf(s)
    ensures query == [] ==> forall p :: p in r ==> p.1 in rows
    ensures query != [] ==> multiset(r) == multiset(Fetch(query, catalog, keywords))
  {
    if query == [] then History(rows, catalog) else FindCharacter(query, catalog, keywords, rows)
  }

  /** Once a fetched glyph has been copied, the next search with the same query
      lists it ahead of every result that has never been copied, whatever its priority. */
  lemma CopyThenSearch(query: Str, catalog: seq<Symbol>, keywords: seq<KeywordRow>, rows: Rows,
                       name: Str, glyph: Str, now: int)
    requires query != []
    requires (name, glyph) in Fetch(query, catalog, keywords)
    ensures var r := OnInputChanged(query, catalog, keywords, Upsert(rows, glyph, now));
            exists i :: 0 <= i < |r| && r[i] == (name, glyph) &&
              forall j :: 0 <= j < |r| && r[j].1 !in Upsert(rows, glyph, now) ==> i < j
  {
    SearchListsCopiedFirst(query, catalog, keywords, Upsert(rows, glyph, now), (name, glyph));
  }

  /** A fetched pair whose glyph has a ledger row is listed ahead of every result
      without one. */
  lemma SearchListsCopiedFirst(query: Str, catalog: seq<Symbol>, keywords: seq<KeywordRow>, rows: Rows, p: Pair)
    requires query != [] && p in Fetch(query, catalog, keywords) && p.1 in rows
    ensures var r := OnInputChanged(query, catalog, keywords, rows);
            exists i :: 0 <= i < |r| && r[i] == p && forall j :: 0 <= j < |r| && r[j].1 !in rows ==> i < j
  {
    SearchNonEmpty(query, catalog, keywords, rows, p);
    CopiedListedFirst(OnInputChanged(query, catalog, keywords, rows), rows, p);
  }

  /** A copied entry of a list in which copied glyphs come first sits ahead of
      every uncopied entry. */
  lemma CopiedListedFirst(r: seq<Pair>, rows: Rows, p: Pair)
    requires p in r && p.1 in rows
    requires forall a, b :: 0 <= a < b < |r| && r[b].1 in rows ==> r[a].1 in rows
    ensures exists i :: 0 <= i < |r| && r[i] == p && forall j :: 0 <= j < |r| && r[j].1 !in rows ==> i < j
  {
    var i :| 0 <= i < |r| && r[i] == p;
    CopiedPrecedeUncopied(r, rows, i);
  }

  /** A non-empty input is searched with `find_character`: a fetched pair is
      listed, and copied glyphs come first. */
  lemma SearchNonEmpty(query: Str, catalog: seq<Symbol>, keywords: seq<KeywordRow>, rows: Rows, p: Pair)
    requires query != [] && p in Fetch(query, catalog, keywords)
    ensures p in OnInputChanged(query, catalog, keywords, rows)
    ensures var r := OnInputChanged(query, catalog, keywords, rows);
            forall a, b :: 0 <= a < b < |r| && r[b].1 in rows ==> r[a].1 in rows
  {
    assert p in multiset(OnInputChanged(query, catalog, keywords, rows));
  }

  /** In a list where copied glyphs come first, a copied glyph precedes every uncopied one. */
  lemma CopiedPrecedeUncopied(r: seq<Pair>, rows: Rows, i: nat)
    requires i < |r| && r[i].1 in rows
    requires forall a, b :: 0 <= a < b < |r| && r[b].1 in rows ==> r[a].1 in rows
    ensures forall j :: 0 <= j < |r| && r[j].1 !in rows ==> i < j
  {
    forall j | 0 <= j <= i ensures r[j].1 in rows {
      if j < i {
        assert r[j].1 in rows;
      }
    }
  }
}
