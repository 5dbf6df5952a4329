# utf-cli search core, in Dafny

`utf` is a terminal application for finding Unicode characters. You type a
query. It lists matching characters as result cards in a grid, and it can copy
a character, its name, its code point or its HTML entity. This project models
the core of `utf/__init__.py`:

- **Matching** (`find_character`). Keyword rows are joined with the symbol
  catalog and filtered by `LIKE '%query%'`. The glyph column is searched too
  when the query is one code point or contains a code point above 127. The
  rows are then made distinct, ordered by descending priority and cut to 100.
  Finally, results copied before are moved to the front by a stable sort.
- **The usage ledger** (`increment_copy_count`). This is an insert-or-update
  of the `copied` table: one row per glyph, holding a copy count and the time
  of the last copy.
- **The history** (`get_character_cache`), shown when the query is empty
  (`on_input_changed`). It lists the copied glyphs the catalog knows, most
  copied first, then most recently copied. That is the intended order: as
  written, only the year of the last copy is compared (see Findings).
- **Card labels** (`Result.get_html_entity`, `Result.compose`). The HTML
  entity is `&name;` or `&#decimal;` for each code point. The code label is
  upper-case hexadecimal, zero-filled to 4 digits, or to 8 when it needs more
  than 4.
- **Grid navigation** (`on_resize`, `action_move_*`). The column count
  follows the window width, and the arrow keys move focus between cards and
  the search box.

## Modelling choices

- A string is a sequence of code points (`Text.Str`).
- `LIKE` with a `%q%` pattern is a substring test that ignores ASCII case,
  which is what SQLite's default `LIKE` does.
- The database is passed in as values:
  - the catalog is a `seq<Symbol>`;
  - the keyword table is a `seq<KeywordRow>`;
  - the `copied` table is a `map` from glyph to `Usage`.
- SQL leaves the order of equal sort keys open. The model fixes it:
  - matches keep join order (keyword row by keyword row, then catalog order);
  - history ties keep catalog order.
- All sorting goes through one insertion sort, `Lists.SortBy`, over a
  lexicographic `Rank` key. It is proved stable (`Lists.SortByKeyClass`).
  It serves `ORDER BY -priority`, `ORDER BY -copies, -last_copied`, and
  Python's `sorted(key=r not in copied)`, where `False` sorts before `True`.
- The clock is an integer argument (`now`), with later meaning larger.
- The ledger (`Ledger.Ledger`) and the navigation state (`Grid.Navigator`) are
  classes, because the source updates them in place. Each method is proved
  equal to a pure function (`Ledger.Upsert`, `Grid.MoveUp`, …), and the
  properties are proved about those functions.
- The HTML entity round trip uses a ghost decoder, `Format.DecodeEntities`.
  The entity-name table is a parameter. It is assumed to have the shape of
  Python's `codepoint2name`: non-empty alphanumeric names, no name used
  twice.
- The catalog is taken to be keyed by glyph, as the `symbols` table is
  (`Catalog.UniqueGlyphs`).
  - `SELECT DISTINCT symbols.name, symbols.glyph` removes repeated
    `(name, glyph)` pairs. The model removes repeated symbol rows
    (`Lists.Dedup` in `Matcher.Ranked`).
  - In a catalog keyed by glyph, a pair determines its row, so the two agree.
  - In a catalog with a repeated glyph, the model's fetch could hold the same
    pair twice where SQL holds it once. The distinctness results
    (`Matcher.FetchDistinct`, `Search.FindDistinct`,
    `Personalizer.HistoryDistinct`) therefore state the key as a
    precondition.

## Model

| member | source | states |
|---|---|---|
| Text.Contains | utf/__init__.py:27-28 | the case-sensitive substring test under `%q%`: true exactly when `q` occurs at some position of the text (the ASCII case folding is done in `Text.Like`) |
| Text.Like | utf/__init__.py:27-30 | `LIKE '%q%'` holds exactly when `q` occurs at some position of the text once ASCII letter case is ignored |
| Text.HasNonAscii | utf/__init__.py:29 | true exactly when some code point of the query is above 127 |
| Matcher.PlanFor | utf/__init__.py:29-31 | the glyph column is added to the search exactly when the query is one code point long or has a code point above 127; the term is the query itself |
| Matcher.Where | utf/__init__.py:27-31 | for a keyword-only query, the clause holds exactly when the term occurs in the keyword, ignoring ASCII case; with the glyph branch on, exactly when it occurs in the keyword or in the glyph |
| Matcher.PastedGlyphMatches | utf/__init__.py:29-36 | a one-code-point query matches every symbol whose glyph contains it, ignoring ASCII case, as long as the symbol has a keyword row |
| Matcher.JoinRows | utf/__init__.py:33-36 | a symbol appears in the joined, filtered rows exactly when it is in the catalog and one of its keyword rows passes the `WHERE` clause |
| Catalog.Pairs | utf/__init__.py:41-44 | the `(name, glyph)` projection of fetched rows (also used for the history at :71-74): same length, and each entry is the name and glyph of the row at the same position |
| Matcher.FetchSymbols | utf/__init__.py:32-39 | at most 100 rows; each is a matching catalog symbol; no row twice; priorities never increase; a matching symbol left out means 100 rows were kept, each of priority at least its own |
| Matcher.Fetch | utf/__init__.py:32-44 | the `(name, glyph)` rows fetched: at most 100; each is the pair of a matching catalog symbol; a matching symbol whose pair is missing means the 100-row limit was reached |
| Matcher.FetchDistinct | utf/__init__.py:33-38 | in a catalog keyed by glyph, no glyph is fetched twice |
| Lists.Dedup | utf/__init__.py:33 | `DISTINCT` keeps the same elements, each once |
| Lists.SortBy | utf/__init__.py:37 | the result is a permutation of the input, ordered by key |
| Lists.SortByKeyClass | utf/__init__.py:37-45 | the sort is stable: the elements with any one key keep their input order |
| Lists.SortByTwoValued | utf/__init__.py:45 | a stable sort by a two-valued key returns the elements with the smaller key, in input order, followed by the others in input order |
| Personalizer.Personalize | utf/__init__.py:40-45 | a permutation of the fetched results in which every copied result precedes every uncopied one, and each group keeps its fetched order |
| Personalizer.History | utf/__init__.py:63-74 | lists exactly the `(name, glyph)` pairs of catalog symbols that have a ledger row; more copies first, and among equal counts the more recent copy first |
| Personalizer.HistoryDistinct | utf/__init__.py:63-74 | in a catalog keyed by glyph, no glyph is listed twice |
| Personalizer.HistoryAsWritten | utf/__init__.py:63-70 | the order the query as written applies: more copies first, and among equal counts only a later calendar year comes first |
| Personalizer.RecencyIgnoredWithinYear | utf/__init__.py:69 | two glyphs copied once each within one year: as written, the earlier copy can be listed first, while the intended order puts the later one first |
| Search.CopiedBefore | utf/__init__.py:40 | a catalog symbol's pair is in the snapshot exactly when its glyph has a ledger row |
| Search.FindCharacter | utf/__init__.py:26-45 | at most 100 results; a permutation of the fetched rows; every result is a matching catalog symbol; results with a ledger row come first; each group keeps fetched order |
| Search.FindDistinct | utf/__init__.py:26-45 | in a catalog keyed by glyph, no glyph is returned twice |
| Search.OnInputChanged | utf/__init__.py:264-268 | every result is a catalog pair; an empty input lists only copied glyphs; a non-empty input returns the fetched matches, reordered |
| Search.CopyThenSearch | utf/__init__.py:26-60 | after a fetched glyph is copied, the same query lists it ahead of every never-copied result, whatever the priorities |
| Ledger.Upsert | utf/__init__.py:48-60 | the glyph gains a row with count 1, or its count goes up by one; its time becomes `now`; no other row changes; every count stays at least 1 |
| Ledger.Ledger.RecordCopy | utf/__init__.py:48-60 | updates the table in place to `Upsert` of the old table and keeps every count positive |
| Ledger.ReplayFromEmpty | utf/__init__.py:48-60 | after any sequence of copies into an empty table, a glyph has a row exactly when it was copied; the row holds its copy count and the time of its latest copy |
| Ledger.RepeatedCopies | utf/__init__.py:48-60 | copying one glyph N times gives exactly one row, with count N and the time of the N-th copy |
| Format.HtmlEntity | utf/__init__.py:99-104 | the concatenation, over the glyph's code points, of `&name;` when the code point is named and `&#decimal;` otherwise; `HtmlEntityShape`, `HtmlEntityAppend` and `HtmlEntityRoundTrip` state its shape, its behaviour on concatenation and its round trip |
| Format.HtmlEntityShape | utf/__init__.py:99-104 | `get_html_entity` returns at least two characters per code point; it is empty only for the empty glyph and otherwise starts with `&` and ends with `;` |
| Format.HtmlEntityAppend | utf/__init__.py:99-104 | the entity of a concatenation is the concatenation of the entities, one reference per code point |
| Format.HtmlEntityRoundTrip | utf/__init__.py:99-104 | decoding the concatenated `&name;` / `&#decimal;` references gives back the glyph's code points |
| Format.CodeLabel | utf/__init__.py:108-113 | empty unless the glyph is one code point; otherwise 4 digits up to U+FFFF and 8 above, all hexadecimal, and they read back as the code point |
| Format.EntityLabel | utf/__init__.py:108-114 | empty unless the glyph is one code point; otherwise a reference that starts with `&` and ends with `;` |
| Format.EntityLabelDecodes | utf/__init__.py:110-114 | the entity label of a one-code-point glyph decodes to that code point |
| Numerals.ToNumeral | utf/__init__.py:112 | the digits are non-empty and valid in the base, with no leading zero |
| Numerals.ParseToNumeral | utf/__init__.py:112 | reading the digits back gives the number |
| Numerals.NumeralLength | utf/__init__.py:112-113 | the numeral has at most k digits exactly when the number is below base^k |
| Numerals.ZFill | utf/__init__.py:113 | pads on the left with zeros to the width, keeping the text as a suffix; a longer text is returned unchanged |
| Numerals.ParseLeadingZeros | utf/__init__.py:113 | leading zeros do not change the value read |
| Grid.GridSizeFor | utf/__init__.py:239-254 | one to five columns |
| Grid.GridSizeMonotone | utf/__init__.py:239-254 | a wider window never has fewer columns |
| Grid.Navigator.OnResize | utf/__init__.py:239-254 | sets the column count for the width and leaves focus alone |
| Grid.MoveUp | utf/__init__.py:204-213 | nothing changes off the grid; from the first row, focus goes to the search box; otherwise one row up, same column |
| Grid.Navigator.ActionMoveUp | utf/__init__.py:204-213 | the new focus is `MoveUp` of the old one; the column count is unchanged |
| Grid.MoveDown | utf/__init__.py:215-223 | from outside the grid, focus goes to the first card; with no card below, nothing changes; otherwise one row down, same column |
| Grid.Navigator.ActionMoveDown | utf/__init__.py:215-223 | the new focus is `MoveDown` of the old one; the column count is unchanged |
| Grid.MoveLeft | utf/__init__.py:225-230 | stays in the row; moves exactly when the card is not first in its row, and then to the previous card |
| Grid.Navigator.ActionMoveLeft | utf/__init__.py:225-230 | the new focus is `MoveLeft` of the old one; the column count is unchanged |
| Grid.MoveRight | utf/__init__.py:232-237 | stays in the row; moves exactly when a next card exists and this one is not last in its row, and then to the next card |
| Grid.NextInRow | utf/__init__.py:236 | the next position is in the same row exactly when this one is not in the last column |
| Grid.Navigator.ActionMoveRight | utf/__init__.py:232-237 | the new focus is `MoveRight` of the old one; the column count is unchanged |

## Findings

| source | as written | input that shows it | evidently intended | confidence | as-written member | corrected member |
|---|---|---|---|---|---|---|
| utf/__init__.py:69 | `ORDER BY -copies, -last_copied`, where `last_copied` is `datetime('now')` text; SQLite negates text through its leading number, so only the year is compared | two glyphs each copied once, the first copied on 2024-01-01 and the second on 2024-06-01, with the first earlier in table order: the older copy is listed first | among equal copy counts, the most recently copied glyph first | high; not executed | Personalizer.RecencyIgnoredWithinYear | Personalizer.History |

The rest of the model uses the intended order: `Search.CopiedBefore` and
`Search.OnInputChanged` call `Personalizer.History`.

## Where the code and its documentation differ

The model follows the code in both cases.

- **The glyph branch uses `LIKE` too.** A one-code-point query therefore finds
  every symbol whose glyph contains it, ignoring ASCII case. It does not
  compare glyphs for equality.
- **The glyph branch still goes through the keyword join.** A symbol with no
  keyword rows is never found, even by its own glyph (`Matcher.Matches`).

## Left out

- `LIKE` wildcards: `%` and `_` in the query act as wildcards in SQLite and are not escaped. The model treats the query as a plain substring.
- Timestamps are text in the source. The model uses an integer clock passed in as `now`, and the date text and `datetime('now')` are not modelled. The year-only comparison is modelled separately (see Findings).
- Ties in SQL ordering are unspecified. The model fixes them to join order or catalog order.
- `priority` is modelled as an unbounded integer.
- The database setup is not modelled: the `make_database` call, the `sqlite3` connection and `commit`.
- The UI itself is not modelled:
  - `Result.__init__`'s `str.title()` on the name;
  - the copy actions (clipboard, `unicode_escape` code text, notifications);
  - widget composition, CSS classes and `darkdetect`;
  - `on_search_box_done`, `on_load` and `action_clear_search`.
- Grid.MoveDown: the source raises `IndexError` when focus is off the grid and there are no cards. The model requires at least one card in that case.
- Grid.MoveLeft and Grid.MoveRight: the source raises `ValueError` when focus is not on a card. The model requires focus on a card.
- Grid.Navigator.constructor: the model takes the first width directly. In the source, the column count starts unset until the first resize event.
- `utf.py` is an earlier single-file version and is not part of this model.
- `Result.get_html_entity` relies on Python's `html.entities.codepoint2name`. The model takes it as a parameter and proves the round trip for any table of the same shape.
