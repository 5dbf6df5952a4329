/** The usage ledger: the `copied` table, one row per glyph ever copied,
    written by `increment_copy_count` with an insert-or-update. */
module Ledger {
  import opened Text

  /** A row of `copied`: how often the glyph was copied, and when last.
      The clock is an abstract integer, later meaning larger. */
  datatype Usage = Usage(copies: nat, lastCopied: int)

  /** The table keyed by glyph: at most one row per glyph. */
  type Rows = map<Str, Usage>

  /** Every row was created by a copy, so counts at least one. */
  ghost predicate Positive(rows: Rows)
  {
    forall g :: g in rows ==> rows[g].copies >= 1
  }

  /** `INSERT ... VALUES (glyph, 1, now) ON CONFLICT(glyph) DO UPDATE SET
      copies = copies + 1, last_copied = now`. */
  function Upsert(rows: Rows, glyph: Str, now: int): (r: Rows)
    ensures r.Keys == rows.Keys + {glyph}
    ensures glyph !in rows ==> r[glyph] == Usage(1, now)
    ensures glyph in rows ==> r[glyph] == Usage(rows[glyph].copies + 1, now)
    ensures forall g :: g in rows && g != glyph ==> r[g] == rows[g]
    ensures Positive(rows) ==> Positive(r)
  {
    var copies := if glyph in rows then rows[glyph].copies + 1 else 1;
    rows[glyph := Usage(copies, now)]
  }

  /** A copy event: the glyph copied and the clock reading at that moment. */
  type Event = (Str, int)

  /** The ledger after the events, oldest first, were recorded in turn. */
  function Replay(rows: Rows, events: seq<Event>): Rows
  {
    if events == [] then rows
    else
      var last := events[|events| - 1];
      Upsert(Replay(rows, events[..|events| - 1]), last.0, last.1)
  }

  /** How many events copy `g`. */
  function Count(events: seq<Event>, g: Str): nat
  {
    if events == [] then 0
    else Count(events[..|events| - 1], g) + (if events[|events| - 1].0 == g then 1 else 0)
  }

  /** The clock of the latest event that copies `g`. */
  function LastTime(events: seq<Event>, g: Str): int
    requires Count(events, g) > 0
  {
    var last := events[|events| - 1];
    if last.0 == g then last.1 else LastTime(events[..|events| - 1], g)
  }

  /** Recording events into an empty ledger leaves one row per glyph copied,
      whose count is the number of its copies and whose time is its latest copy. */
  lemma {:induction false} ReplayFromEmpty(events: seq<Event>, g: Str)
    ensures g in Replay(map[], events) <==> Count(events, g) > 0
    ensures g in Replay(map[], events) ==>
              Replay(map[], events)[g] == Usage(Count(events, g), LastTime(events, g))
  {
    if events != [] {
      ReplayFromEmpty(events[..|events| - 1], g);
    }
  }

  /** Copying one glyph N times from an empty ledger gives exactly one row,
      with `copies == N` and the time of the N-th copy. */
  lemma {:induction false} RepeatedCopies(events: seq<Event>, g: Str)
    requires |events| >= 1
    requires forall i :: 0 <= i < |events| ==> events[i].0 == g
    ensures Replay(map[], events).Keys == {g}
    ensures Replay(map[], events)[g] == Usage(|events|, events[|events| - 1].1)
  {
    var init := events[..|events| - 1];
    if |init| >= 1 {
      RepeatedCopies(init, g);
    }
  }

  /** The `copied` table, updated in place. */
  class Ledger {
    var rows: Rows

    ghost predicate Valid()
      reads this
    {
      Positive(rows)
    }

    constructor ()
      ensures Valid() && rows == map[]
    {
      rows := map[];
    }

    /** `increment_copy_count(name, glyph)`; the name is not used. */
    method RecordCopy(name: Str, glyph: Str, now: int)
      requires Valid()
      modifies this
      ensures Valid()
      ensures rows == Upsert(old(rows), glyph, now)
    {
      if glyph in rows {
        var u := rows[glyph];
        rows := rows[glyph := Usage(u.copies + 1, now)];
      } else {
        rows := rows[glyph := Usage(1, now)];
      }
    }
  }
}
