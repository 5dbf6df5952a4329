/** The symbol catalog: the `symbols` and `keywords` tables, read-only at query time. */
module Catalog {
  import opened Text

  /** A row of `symbols`. */
  datatype Symbol = Symbol(glyph: Str, name: Str, priority: int)

  /** A row of `keywords`: one search term for one glyph. */
  datatype KeywordRow = KeywordRow(keyword: Str, glyph: Str)

  /** What the searches return: a `(name, glyph)` tuple. */
  type Pair = (Str, Str)

  function PairOf(s: Symbol): Pair
  {
    (s.name, s.glyph)
  }

  function Pairs(s: seq<Symbol>): (r: seq<Pair>)
    ensures |r| == |s|
    ensures forall i :: 0 <= i < |s| ==> r[i] == PairOf(s[i])
  {
    if s == [] then [] else [PairOf(s[0])] + Pairs(s[1..])
  }

  /** `glyph` is the key of `symbols`: no two rows share a glyph. */
  ghost predicate UniqueGlyphs(catalog: seq<Symbol>)
  {
    forall i, j :: 0 <= i < j < |catalog| ==> catalog[i].glyph != catalog[j].glyph
  }

  /** In a keyed catalog a glyph determines its row. */
  lemma GlyphDeterminesSymbol(catalog: seq<Symbol>, s: Symbol, t: Symbol)
    requires UniqueGlyphs(catalog)
    requires s in catalog && t in catalog && s.glyph == t.glyph
    ensures s == t
  {
    var i :| 0 <= i < |catalog| && catalog[i] == s;
    var j :| 0 <= j < |catalog| && catalog[j] == t;
    assert catalog[i].glyph == catalog[j].glyph;
  }
}
