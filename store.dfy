/**
 * The practice table and the handlers that change or read it: create, get by id, partial
 * update and delete (server/src/handlers/create_swimming_practice.ts,
 * get_swimming_practice.ts, update_swimming_practice.ts, delete_swimming_practice.ts),
 * and the read-only listing and statistics over it.
 */
module Store {
  import opened Schema
  import opened Filters
  import Statistics
  import Listing

  /** The rows with ids in [lo, hi), in ascending id order: the order a scan of the table meets them. */
  function Scan(rows: map<int, Practice>, lo: int, hi: int): seq<Practice>
    decreases hi - lo
  {
    if lo >= hi then []
    else (if lo in rows then [rows[lo]] else []) + Scan(rows, lo + 1, hi)
  }

  /**
   * When every row is keyed by its own id, a scan meets exactly the rows whose id lies in
   * the range, with their stored values.
   */
  lemma {:induction false} ScanMembers(rows: map<int, Practice>, lo: int, hi: int)
    requires forall id :: id in rows ==> rows[id].id == id
    ensures forall p :: p in Scan(rows, lo, hi) <==> lo <= p.id < hi && p.id in rows && rows[p.id] == p
    decreases hi - lo
  {
    if lo < hi {
      ScanMembers(rows, lo + 1, hi);
    }
  }

  /**
   * The stored record after a partial update: each field the input supplies replaces the
   * stored one, each absent field keeps its value; `id` and `created_at` are never written.
   */
  function Patched(p: Practice, u: UpdateInput): (r: Practice)
    ensures r.id == p.id && r.createdAt == p.createdAt
    ensures ValidPractice(p) && ValidUpdateInput(u) ==> ValidPractice(r)
  {
    p.(
      date := u.date.GetOr(p.date),
      durationMinutes := u.durationMinutes.GetOr(p.durationMinutes),
      totalDistance := u.totalDistance.GetOr(p.totalDistance),
      mainStroke := u.mainStroke.GetOr(p.mainStroke),
      notes := u.notes.GetOr(p.notes))
  }

  /** `notes: null` clears the notes, and leaving `notes` out keeps them. */
  lemma PatchedNotes(p: Practice, u: UpdateInput)
    ensures u.notes == Some(None) ==> Patched(p, u).notes == None
    ensures u.notes == None ==> Patched(p, u).notes == p.notes
    ensures forall text :: u.notes == Some(Some(text)) ==> Patched(p, u).notes == Some(text)
  {
  }

  /** An update that supplies no field leaves the record as it was. */
  lemma EmptyPatchChangesNothing(p: Practice, u: UpdateInput)
    requires u.date.None? && u.durationMinutes.None? && u.totalDistance.None?
    requires u.mainStroke.None? && u.notes.None?
    ensures Patched(p, u) == p
  {
  }

  /** Every field `earlier` supplies, `later` supplies too. */
  predicate Covers(later: UpdateInput, earlier: UpdateInput) {
    && (earlier.date.Some? ==> later.date.Some?)
    && (earlier.durationMinutes.Some? ==> later.durationMinutes.Some?)
    && (earlier.totalDistance.Some? ==> later.totalDistance.Some?)
    && (earlier.mainStroke.Some? ==> later.mainStroke.Some?)
    && (earlier.notes.Some? ==> later.notes.Some?)
  }

  /**
   * Repeated updates of the same fields leave the last written values: the earlier update
   * leaves no trace once a later one rewrites every field it wrote.
   */
  lemma LastWriteWins(p: Practice, earlier: UpdateInput, later: UpdateInput)
    requires Covers(later, earlier)
    ensures Patched(Patched(p, earlier), later) == Patched(p, later)
  {
  }

  /** The table: rows keyed by id, and the serial counter that supplies the next id. */
  class PracticeStore {
    var rows: map<int, Practice>
    var nextId: int

    /** Every row is keyed by its own id, which the counter has already handed out, and is valid. */
    ghost predicate Valid()
      reads this
    {
      && nextId >= 1
      && forall id :: id in rows ==> 1 <= id < nextId && rows[id].id == id && ValidPractice(rows[id])
    }

    constructor ()
      ensures Valid() && rows == map[] && nextId == 1
    {
      rows := map[];
      nextId := 1;
    }

    /** Every row, in ascending id order. */
    function AllRows(): seq<Practice>
      reads this
    {
      Scan(rows, 1, nextId)
    }

    /** The record with that id, or null (`None`) when there is none, never an error. */
    function Get(id: int): (r: Option<Practice>)
      reads this
      ensures r.Some? <==> id in rows
      ensures r.Some? ==> r.value == rows[id]
      ensures Valid() && r.Some? ==> r.value.id == id && ValidPractice(r.value)
      ensures Valid() && id < 1 ==> r == None
    {
      if id in rows then Some(rows[id]) else None
    }

    /**
     * Inserts the input's fields with a fresh id from the counter and the insertion time
     * `now`, and returns the stored record.
     */
    method Create(input: CreateInput, now: Timestamp) returns (p: Practice)
      requires Valid() && ValidCreateInput(input)
      modifies this
      ensures Valid()
      ensures p.id == old(nextId) && nextId == old(nextId) + 1
      ensures p.id !in old(rows)
      ensures p == Stored(input, p.id, now)
      ensures rows == old(rows)[p.id := p]
      ensures |rows| == |old(rows)| + 1
      ensures Get(p.id) == Some(p)
    {
      p := Stored(input, nextId, now);
      rows := rows[nextId := p];
      nextId := nextId + 1;
    }

    /**
     * Returns null and changes nothing when no record has `input.id`; otherwise writes the
     * supplied fields one by one into that record alone and returns the stored result.
     */
    method Update(input: UpdateInput) returns (r: Option<Practice>)
      requires Valid() && ValidUpdateInput(input)
      modifies this
      ensures Valid() && nextId == old(nextId)
      ensures input.id !in old(rows) ==> r == None && rows == old(rows)
      ensures input.id in old(rows) ==>
        && rows == old(rows)[input.id := Patched(old(rows)[input.id], input)]
        && r == Get(input.id)
    {
      var existing := Get(input.id);
      if existing.None? {
        return None;
      }
      var updated := existing.value;
      if input.date.Some? {
        updated := updated.(date := input.date.value);
      }
      if input.durationMinutes.Some? {
        updated := updated.(durationMinutes := input.durationMinutes.value);
      }
      if input.totalDistance.Some? {
        updated := updated.(totalDistance := input.totalDistance.value);
      }
      if input.mainStroke.Some? {
        updated := updated.(mainStroke := input.mainStroke.value);
      }
      if input.notes.Some? {
        updated := updated.(notes := input.notes.value);
      }
      rows := rows[input.id := updated];
      r := Some(updated);
    }

    /** Removes the record with that id, if any, and reports whether a row was removed. */
    method Delete(id: int) returns (removed: bool)
      requires Valid()
      modifies this
      ensures Valid() && nextId == old(nextId)
      ensures removed <==> id in old(rows)
      ensures rows == old(rows) - {id}
      ensures removed ==> |rows| == |old(rows)| - 1
      ensures !removed ==> rows == old(rows)
      ensures Get(id) == None
    {
      var before := rows;
      rows := rows - {id};
      assert rows.Keys == before.Keys - {id};
      var rowCount := |before.Keys| - |rows.Keys|;
      removed := rowCount > 0;
    }

    /** The statistics of the rows in the date range; only reads the table. */
    method PracticeStatistics(dateFrom: Option<Date>, dateTo: Option<Date>)
      returns (stats: Statistics.PracticeStatistics)
      requires Valid()
      ensures Statistics.Summarizes(stats, Selected(AllRows(), None, dateFrom, dateTo))
    {
      stats := Statistics.GetPracticeStatistics(AllRows(), dateFrom, dateTo);
    }

    /** The listing of the rows for a query; only reads the table, and returns stored records. */
    method ListPractices(q: ListQuery) returns (result: seq<Practice>)
      requires Valid() && ValidListQuery(q)
      ensures result == Listing.Listing(AllRows(), q)
      ensures forall p :: p in result ==> p.id in rows && rows[p.id] == p
    {
      ScanMembers(rows, 1, nextId);
      result := Listing.GetSwimmingPractices(AllRows(), q);
    }
  }
}
