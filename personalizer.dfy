/** Personalization by copy history: the history listing shown for an empty
    query (`get_character_cache`) and the reordering that pulls previously
    copied results ahead of the others. */
module Personalizer {
  import opened Text
  import opened Lists
  import opened Catalog
  import opened Ledger

  /** `a` is listed before `b`: more copies, or as many and copied no earlier. */
  predicate ListedBefore(a: Usage, b: Usage)
  {
    a.copies > b.copies || (a.copies == b.copies && a.lastCopied >= b.lastCopied)
  }

  /** The inner join condition: the symbol's glyph has a ledger row. */
  function InLedger(rows: Rows): Symbol -> bool
  {
    (s: Symbol) => s.glyph in rows
  }

  /** `ORDER BY -copies, -last_copied`. */
  function UsageKey(rows: Rows): Symbol -> Rank
  {
    (s: Symbol) =>
      if s.glyph in rows then Rank(-(rows[s.glyph].copies as int), -rows[s.glyph].lastCopied) else Rank(0, 0)
  }

  /** The joined rows, most used first; ties keep catalog order. */
  function HistorySymbols(rows: Rows, catalog: seq<Symbol>): seq<Symbol>
  {
    SortBy(Filter(catalog, InLedger(rows)), UsageKey(rows))
  }

  /** `get_character_cache()`: the copied glyphs that the catalog knows, with
      their names, most copied first and, among equals, most recently copied first.
      Ledger rows whose glyph is not in the catalog are left out. */
  function History(rows: Rows, catalog: seq<Symbol>): (r: seq<Pair>)
    ensures forall p :: p in r <==> exists s :: s in catalog && s.glyph in rows && p == PairOf(s)
    ensures forall p :: p in r ==> p.1 in rows
    ensures forall i, j :: 0 <= i < j < |r| ==> ListedBefore(rows[r[i].1], rows[r[j].1])
  {
    var h := HistorySymbols(rows, catalog);
    HistoryFacts(rows, catalog);
    Pairs(h)
  }

  lemma HistoryFacts(rows: Rows, catalog: seq<Symbol>)
    ensures forall s :: s in HistorySymbols(rows, catalog) <==> s in catalog && s.glyph in rows
    ensures forall i, j :: 0 <= i < j < |HistorySymbols(rows, catalog)| ==>
              ListedBefore(rows[HistorySymbols(rows, catalog)[i].glyph], rows[HistorySymbols(rows, catalog)[j].glyph])
  {
    var f := Filter(catalog, InLedger(rows));
    var h := HistorySymbols(rows, catalog);
    forall s ensures s in h <==> s in f {
      assert s in h <==> s in multiset(h);
    }
    forall i, j | 0 <= i < j < |h|
      ensures h[i].glyph in rows && h[j].glyph in rows && ListedBefore(rows[h[i].glyph], rows[h[j].glyph])
    {
      assert h[i] in f && h[j] in f;
      assert RankLe(UsageKey(rows)(h[i]), UsageKey(rows)(h[j]));
    }
  }

  /** In a catalog keyed by glyph, each listed glyph appears once. */
  lemma HistoryDistinct(rows: Rows, catalog: seq<Symbol>)
    requires UniqueGlyphs(catalog)
    ensures forall i, j :: 0 <= i < j < |History(rows, catalog)| ==>
              History(rows, catalog)[i].1 != History(rows, catalog)[j].1
  {
    var h := HistorySymbols(rows, catalog);
    var r := History(rows, catalog);
    assert Distinct(catalog) by {
      forall i, j | 0 <= i < j < |catalog| ensures catalog[i] != catalog[j] {
        assert catalog[i].glyph != catalog[j].glyph;
      }
    }
    FilterDistinct(catalog, InLedger(rows));
    SortByDistinct(Filter(catalog, InLedger(rows)), UsageKey(rows));
    HistoryFacts(rows, catalog);
    forall i, j | 0 <= i < j < |r| ensures r[i].1 != r[j].1 {
      if r[i].1 == r[j].1 {
        GlyphDeterminesSymbol(catalog, h[i], h[j]);
        assert false;
      }
    }
  }

  /** The order the query actually applies: `last_copied` holds `datetime('now')`
      text, and negating it keeps only its leading number, the year. `yearOf` gives
      the calendar year of a clock reading. */
  function YearKey(rows: Rows, yearOf: int -> int): Symbol -> Rank
  {
    (s: Symbol) =>
      if s.glyph in rows then Rank(-(rows[s.glyph].copies as int), -yearOf(rows[s.glyph].lastCopied)) else Rank(0, 0)
  }

  /** The joined rows in the order the query as written applies. */
  function HistorySymbolsAsWritten(rows: Rows, catalog: seq<Symbol>, yearOf: int -> int): seq<Symbol>
  {
    SortBy(Filter(catalog, InLedger(rows)), YearKey(rows, yearOf))
  }

  /** `get_character_cache()` with the ordering as written. */
  function HistoryAsWritten(rows: Rows, catalog: seq<Symbol>, yearOf: int -> int): (r: seq<Pair>)
    ensures forall i, j :: 0 <= i < j < |r| ==>
              && r[i].1 in rows && r[j].1 in rows
              && ListedBeforeByYear(rows[r[i].1], rows[r[j].1], yearOf)
  {
    YearOrderFacts(rows, catalog, yearOf);
    Pairs(HistorySymbolsAsWritten(rows, catalog, yearOf))
  }

  lemma YearOrderFacts(rows: Rows, catalog: seq<Symbol>, yearOf: int -> int)
    ensures forall i, j :: 0 <= i < j < |HistorySymbolsAsWritten(rows, catalog, yearOf)| ==>
              && HistorySymbolsAsWritten(rows, catalog, yearOf)[i].glyph in rows
              && HistorySymbolsAsWritten(rows, catalog, yearOf)[j].glyph in rows
              && ListedBeforeByYear(rows[HistorySymbolsAsWritten(rows, catalog, yearOf)[i].glyph],
                                    rows[HistorySymbolsAsWritten(rows, catalog, yearOf)[j].glyph], yearOf)
  {
    var f := Filter(catalog, InLedger(rows));
    var h := HistorySymbolsAsWritten(rows, catalog, yearOf);
    forall s ensures s in h <==> s in f {
      assert s in h <==> s in multiset(h);
    }
    forall i | 0 <= i < |h| ensures h[i].glyph in rows {
      assert h[i] in f;
    }
    forall i, j | 0 <= i < j < |h|
      ensures ListedBeforeByYear(rows[h[i].glyph], rows[h[j].glyph], yearOf)
    {
      assert RankLe(YearKey(rows, yearOf)(h[i]), YearKey(rows, yearOf)(h[j]));
    }
  }

  /** The as-written order: more copies, or as many and copied in no earlier year. */
  predicate ListedBeforeByYear(a: Usage, b: Usage, yearOf: int -> int)
  {
    a.copies > b.copies || (a.copies == b.copies && yearOf(a.lastCopied) >= yearOf(b.lastCopied))
  }

  /** Two glyphs copied equally often within one year: as written, the one copied
      earlier is listed first when the catalog has it first, while the intended
      order lists the later copy first. */
  lemma RecencyIgnoredWithinYear(yearOf: int -> int, older: Symbol, newer: Symbol, early: int, late: int)
    requires older.glyph != newer.glyph && early < late && yearOf(early) == yearOf(late)
    ensures var rows := map[older.glyph := Usage(1, early), newer.glyph := Usage(1, late)];
            && HistoryAsWritten(rows, [older, newer], yearOf) == [PairOf(older), PairOf(newer)]
            && !ListedBefore(rows[older.glyph], rows[newer.glyph])
            && History(rows, [older, newer]) == [PairOf(newer), PairOf(older)]
  {
    var rows := map[older.glyph := Usage(1, early), newer.glyph := Usage(1, late)];
    BothInLedger(rows, older, newer);
    SameYearKeepsOrder(rows, older, newer, yearOf);
    LaterCopyFirst(rows, older, newer);
  }

  lemma SameYearKeepsOrder(rows: Rows, a: Symbol, b: Symbol, yearOf: int -> int)
    requires a.glyph in rows && b.glyph in rows && Filter([a, b], InLedger(rows)) == [a, b]
    requires rows[a.glyph].copies == rows[b.glyph].copies
    requires yearOf(rows[a.glyph].lastCopied) == yearOf(rows[b.glyph].lastCopied)
    ensures HistoryAsWritten(rows, [a, b], yearOf) == [PairOf(a), PairOf(b)]
  {
    SortTwo(a, b, YearKey(rows, yearOf));
    assert RankLe(YearKey(rows, yearOf)(a), YearKey(rows, yearOf)(b));
  }

  lemma LaterCopyFirst(rows: Rows, a: Symbol, b: Symbol)
    requires a.glyph in rows && b.glyph in rows && Filter([a, b], InLedger(rows)) == [a, b]
    requires rows[a.glyph].copies == rows[b.glyph].copies
    requires rows[a.glyph].lastCopied < rows[b.glyph].lastCopied
    ensures History(rows, [a, b]) == [PairOf(b), PairOf(a)]
  {
    SortTwo(a, b, UsageKey(rows));
    assert !RankLe(UsageKey(rows)(a), UsageKey(rows)(b));
  }

  lemma BothInLedger(rows: Rows, a: Symbol, b: Symbol)
    requires a.glyph in rows && b.glyph in rows
    ensures Filter([a, b], InLedger(rows)) == [a, b]
  {
    assert [a, b][1..] == [b];
    assert Filter([b], InLedger(rows)) == [b];
  }

  function Copied(copied: set<Pair>): Pair -> bool
  {
    p => p in copied
  }

  function NotCopied(copied: set<Pair>): Pair -> bool
  {
    p => p !in copied
  }

  /** `key=lambda r: r not in copied_before`, with False sorting before True. */
  function CopiedKey(copied: set<Pair>): Pair -> Rank
  {
    p => if p in copied then Rank(0, 0) else Rank(1, 0)
  }

  /** `sorted(results, key=lambda r: r not in copied_before)`: a stable partition
      that puts the previously copied results first. */
  function Personalize(results: seq<Pair>, copied: set<Pair>): (r: seq<Pair>)
    ensures multiset(r) == multiset(results)
    ensures forall i, j :: 0 <= i < j < |r| && r[j] in copied ==> r[i] in copied
    ensures Filter(r, Copied(copied)) == Filter(results, Copied(copied))
    ensures Filter(r, NotCopied(copied)) == Filter(results, NotCopied(copied))
  {
    PartitionFacts(results, copied);
    SortBy(results, CopiedKey(copied))
  }

  lemma PartitionFacts(results: seq<Pair>, copied: set<Pair>)
    ensures forall i, j :: 0 <= i < j < |SortBy(results, CopiedKey(copied))| && SortBy(results, CopiedKey(copied))[j] in copied ==>
              SortBy(results, CopiedKey(copied))[i] in copied
    ensures Filter(SortBy(results, CopiedKey(copied)), Copied(copied)) == Filter(results, Copied(copied))
    ensures Filter(SortBy(results, CopiedKey(copied)), NotCopied(copied)) == Filter(results, NotCopied(copied))
  {
    var yes, no := Copied(copied), NotCopied(copied);
    var a, b := Filter(results, yes), Filter(results, no);
    var r := SortBy(results, CopiedKey(copied));
    SortByTwoValued(results, CopiedKey(copied), yes, no);
    assert r == a + b;
    FilterAppend(a, b, yes);
    FilterAppend(a, b, no);
    FilterFilter(results, yes, yes);
    FilterFilter(results, no, no);
    FilterNone(a, no);
    FilterNone(b, yes);
    assert a + [] == a && [] + b == b;
    forall i, j | 0 <= i < j < |r| && r[j] in copied ensures r[i] in copied {
      assert r[i] == a[i];
      assert r[i] in a;
    }
  }
}
