/**
 * Consecutive numbering of the records one call creates: the protocol
 * violations of UpdateParticipant (the `nextPvId++` loop) and the new rows of
 * AddOrUpdateVaccinesAdministered (the `nextId++` loop), and the
 * delete-number-upsert synchronisation of a participant's vaccines.
 *
 * Both loops take their first id from GetNextId and never compare the later
 * ids with the site's MaxIdForSite. `NumberedIdsAsWritten` keeps that
 * behaviour and `ViolationIdsOverrunSite` shows it leaving the range;
 * `BatchStart` is the corrected allocation the rest of the model uses.
 */
module Numbering {
  import opened Wrappers
  import opened Domain
  import opened IdAllocation

  /** The set of ids start, ..., start + n - 1. */
  function Block(start: int, n: nat): (r: set<int>)
    ensures forall x :: x in r <==> start <= x < start + n
  {
    Span(start - 1, n)
  }

  /** The ids start, start + 1, ..., start + n - 1, in order. */
  function Consecutive(start: int, n: nat): (r: seq<int>)
    ensures |r| == n
    ensures forall k :: 0 <= k < n ==> r[k] == start + k
  {
    if n == 0 then [] else Consecutive(start, n - 1) + [start + n - 1]
  }

  /** The ids the source gives n records: GetNextId once, then `next++`. */
  function NumberedIdsAsWritten(ids: set<int>, centreId: int, maxIdForSite: int, n: nat): (r: Result<seq<int>, Error>)
  {
    match NextId(ids, centreId, maxIdForSite)
    case Failure(e) => Failure(e)
    case Success(start) => Success(Consecutive(start, n))
  }

  /**
   * Site 1 owns ids 1..3 and violation 2 is on file. An update that raises
   * three violations numbers them 3, 4 and 5: ids 4 and 5 lie outside the
   * site's range, where another site's records live.
   */
  lemma ViolationIdsOverrunSite()
    ensures NumberedIdsAsWritten({2}, 1, 3, 3) == Success([3, 4, 5])
    ensures exists k :: 0 <= k < 3 && NumberedIdsAsWritten({2}, 1, 3, 3).value[k] > 3
  {
    var used := InRange({2}, 1, 3);
    assert used == {2} by {
      assert forall x :: x in used <==> x == 2;
    }
    assert Max(used) == 2;
    assert NextId({2}, 1, 3) == Success(3);
    assert Consecutive(3, 3) == [3, 4, 5];
    assert NumberedIdsAsWritten({2}, 1, 3, 3).value[2] == 5;
  }

  /**
   * The first of n consecutive ids for a site, with the check the loops
   * leave out: all n ids must fit below MaxIdForSite. Each id handed out is
   * inside the site's range and free.
   */
  function BatchStart(ids: set<int>, centreId: int, maxIdForSite: int, n: nat): (r: Result<int, Error>)
    ensures r.Failure? ==> r.error == RangeExhausted(centreId)
    ensures r.Success? ==> forall x :: x in Block(r.value, n) ==> centreId < x <= maxIdForSite
    ensures r.Success? && 0 <= centreId ==> forall x :: x in Block(r.value, n) ==> x !in ids
  {
    match NextId(ids, centreId, maxIdForSite)
    case Failure(e) => Failure(e)
    case Success(start) =>
      if start + n - 1 > maxIdForSite then Failure(RangeExhausted(centreId)) else Success(start)
  }

  /** The correction changes nothing when the source's ids stay in the range:
      it only turns an overrun into RangeExhausted. */
  lemma BatchStartAgreesWhenInRange(ids: set<int>, centreId: int, maxIdForSite: int, n: nat)
    requires NumberedIdsAsWritten(ids, centreId, maxIdForSite, n).Success?
    ensures var asWritten := NumberedIdsAsWritten(ids, centreId, maxIdForSite, n).value;
            (forall k :: 0 <= k < n ==> asWritten[k] <= maxIdForSite)
            <==> BatchStart(ids, centreId, maxIdForSite, n).Success?
    ensures BatchStart(ids, centreId, maxIdForSite, n).Success? ==>
              NumberedIdsAsWritten(ids, centreId, maxIdForSite, n).value
              == Consecutive(BatchStart(ids, centreId, maxIdForSite, n).value, n)
  {
    var start := NextId(ids, centreId, maxIdForSite).value;
    if n > 0 {
      assert Consecutive(start, n)[n - 1] == start + n - 1;
    }
  }

  /** The violations of one update: this participant's, of type
      MajorWrongAllocation, stamped with the local time and the current user,
      numbered consecutively from `start` in the order they were raised.
      The repository leaves RecordLastModified at its default (0). */
  function NumberViolations(details: seq<ViolationDetail>, participantId: int, start: int, ambient: Ambient): (r: seq<Violation>)
    ensures |r| == |details|
    ensures forall k :: 0 <= k < |r| ==>
              r[k] == Violation(start + k, participantId, MajorWrongAllocation, details[k],
                                ambient.now, ambient.investigator, 0)
  {
    if details == [] then []
    else
      var n := |details| - 1;
      NumberViolations(details[..n], participantId, start, ambient)
      + [Violation(start + n, participantId, MajorWrongAllocation, details[n], ambient.now, ambient.investigator, 0)]
  }

  /** The table after inserting rows under their ids, in order. */
  function InsertViolations(table: map<int, Violation>, rows: seq<Violation>): (r: map<int, Violation>)
    ensures forall id :: id in r <==> id in table || exists k :: 0 <= k < |rows| && rows[k].id == id
    decreases |rows|
  {
    if rows == [] then table
    else
      var n := |rows| - 1;
      assert forall k :: 0 <= k < n ==> rows[..n][k] == rows[k];
      InsertViolations(table, rows[..n])[rows[n].id := rows[n]]
  }

  /** A row whose id no later row repeats is found under its id. */
  lemma {:induction false} InsertedRowStays(table: map<int, Violation>, rows: seq<Violation>, k: nat)
    requires k < |rows|
    requires forall j :: k < j < |rows| ==> rows[j].id != rows[k].id
    ensures rows[k].id in InsertViolations(table, rows) && InsertViolations(table, rows)[rows[k].id] == rows[k]
    decreases |rows|
  {
    var n := |rows| - 1;
    if k < n {
      var init := rows[..n];
      assert forall j :: k < j < n ==> init[j] == rows[j];
      InsertedRowStays(table, init, k);
      assert init[k] == rows[k];
    }
  }

  /** A row of the table no inserted row replaces keeps its value. */
  lemma {:induction false} InsertKeepsRow(table: map<int, Violation>, rows: seq<Violation>, id: int)
    requires id in table
    requires forall j :: 0 <= j < |rows| ==> rows[j].id != id
    ensures id in InsertViolations(table, rows) && InsertViolations(table, rows)[id] == table[id]
    decreases |rows|
  {
    if rows != [] {
      var n := |rows| - 1;
      var init := rows[..n];
      assert forall j :: 0 <= j < n ==> init[j] == rows[j];
      InsertKeepsRow(table, init, id);
    }
  }

  /** Inserting rows numbered start, start + 1, ...: the ids afterwards are
      the table's and the block's. */
  lemma BlockInsertedKeys(table: map<int, Violation>, rows: seq<Violation>, start: int)
    requires forall k :: 0 <= k < |rows| ==> rows[k].id == start + k
    ensures forall x :: x in InsertViolations(table, rows) <==> x in table || x in Block(start, |rows|)
  {
    var t := InsertViolations(table, rows);
    forall x | x in Block(start, |rows|) ensures x in t {
      assert rows[x - start].id == x;
    }
    forall x | x in t && x !in table ensures x in Block(start, |rows|) {
      var k :| 0 <= k < |rows| && rows[k].id == x;
    }
  }

  /** Inserting rows numbered start, start + 1, ... whose ids the table does
      not hold yet keeps every old row. */
  lemma BlockInsertedKeeps(table: map<int, Violation>, rows: seq<Violation>, start: int)
    requires forall k :: 0 <= k < |rows| ==> rows[k].id == start + k
    requires forall x :: x in Block(start, |rows|) ==> x !in table
    ensures forall x :: x in table ==> x in InsertViolations(table, rows) && InsertViolations(table, rows)[x] == table[x]
  {
    forall x | x in table ensures x in InsertViolations(table, rows) && InsertViolations(table, rows)[x] == table[x] {
      forall j | 0 <= j < |rows| ensures rows[j].id != x {
        assert rows[j].id in Block(start, |rows|);
      }
      InsertKeepsRow(table, rows, x);
    }
  }

  /** Inserting rows numbered start, start + 1, ...: the k-th row is found
      under start + k. */
  lemma BlockInsertedRows(table: map<int, Violation>, rows: seq<Violation>, start: int)
    requires forall k :: 0 <= k < |rows| ==> rows[k].id == start + k
    ensures forall x :: x in Block(start, |rows|) ==>
              x in InsertViolations(table, rows) && InsertViolations(table, rows)[x] == rows[x - start]
  {
    forall x | x in Block(start, |rows|)
      ensures x in InsertViolations(table, rows) && InsertViolations(table, rows)[x] == rows[x - start]
    {
      var k := x - start;
      assert 0 <= k < |rows| && rows[k].id == x;
      assert forall j :: k < j < |rows| ==> rows[j].id != rows[k].id;
      InsertedRowStays(table, rows, k);
    }
  }

  /** The violations table after inserting a numbered batch with fresh ids:
      the old rows and the batch's ids, the k-th new row under start + k. */
  lemma NumberedTable(table: map<int, Violation>, details: seq<ViolationDetail>,
                      participantId: int, start: int, ambient: Ambient)
    requires forall x :: x in Block(start, |details|) ==> x !in table
    ensures var t := InsertViolations(table, NumberViolations(details, participantId, start, ambient));
            && (forall x :: x in t <==> x in table || x in Block(start, |details|))
            && (forall x :: x in table ==> t[x] == table[x])
            && (forall x :: x in Block(start, |details|) ==>
                  t[x] == NumberViolations(details, participantId, start, ambient)[x - start])
  {
    var rows := NumberViolations(details, participantId, start, ambient);
    BlockInsertedKeys(table, rows, start);
    BlockInsertedKeeps(table, rows, start);
    BlockInsertedRows(table, rows, start);
  }

  // ---------------------------------------------------------------------
  // Vaccines administered

  /** The number of rows that are new (id 0). */
  function NewCount(rows: seq<VaccineAdministered>): (n: nat)
    ensures n <= |rows|
  {
    if rows == [] then 0
    else NewCount(rows[..|rows| - 1]) + (if rows[|rows| - 1].id == 0 then 1 else 0)
  }

  /** A row as the loop leaves it: re-parented to the participant, and given
      `id` when it is new. */
  function Placed(v: VaccineAdministered, participantId: int, id: int): (r: VaccineAdministered)
    ensures r.participantId == participantId
    ensures v.id != 0 ==> r.id == v.id
    ensures v.id == 0 ==> r.id == id
    ensures r.vaccineId == v.vaccineId && r.administeredAt == v.administeredAt
  {
    v.(participantId := participantId, id := if v.id == 0 then id else v.id)
  }

  /** The rows after the loop: the k-th new row gets next + k. */
  function Assign(rows: seq<VaccineAdministered>, participantId: int, next: int): (r: seq<VaccineAdministered>)
    ensures |r| == |rows|
  {
    if rows == [] then []
    else
      var n := |rows| - 1;
      var init := rows[..n];
      Assign(init, participantId, next) + [Placed(rows[n], participantId, next + NewCount(init))]
  }

  /** Row k of the loop's output is row k re-parented, and numbered by the
      count of new rows before it. */
  lemma {:induction false} AssignAt(rows: seq<VaccineAdministered>, participantId: int, next: int, k: nat)
    requires k < |rows|
    ensures Assign(rows, participantId, next)[k] == Placed(rows[k], participantId, next + NewCount(rows[..k]))
    decreases |rows|
  {
    var n := |rows| - 1;
    var init := rows[..n];
    if k < n {
      AssignAt(init, participantId, next, k);
      assert init[..k] == rows[..k];
    }
  }

  /** The k-th row, if new, gets an id in [next, next + NewCount(rows)). */
  lemma {:induction false} NewCountPrefix(rows: seq<VaccineAdministered>, k: nat)
    requires k <= |rows|
    ensures NewCount(rows[..k]) <= NewCount(rows)
    ensures k < |rows| && rows[k].id == 0 ==> NewCount(rows[..k]) < NewCount(rows)
    decreases |rows|
  {
    if k < |rows| {
      var n := |rows| - 1;
      assert rows[..n][..k] == rows[..k];
      if k < n {
        NewCountPrefix(rows[..n], k);
      } else {
        assert rows[..k] == rows[..n];
      }
    } else {
      assert rows[..k] == rows;
    }
  }

  /** Two new rows get different ids. */
  lemma {:induction false} NewCountStrictlyGrows(rows: seq<VaccineAdministered>, i: nat, j: nat)
    requires i < j <= |rows| && rows[i].id == 0
    ensures NewCount(rows[..i]) < NewCount(rows[..j])
  {
    NewCountPrefix(rows[..j], i);
    assert rows[..j][..i] == rows[..i];
    assert rows[..j][i] == rows[i];
  }

  /** The ids the given rows carry, 0 excluded (the source's includedVaccineAdministeredIds). */
  function IncludedIds(rows: seq<VaccineAdministered>): (r: set<int>)
    ensures forall id :: id in r <==> id != 0 && exists k :: 0 <= k < |rows| && rows[k].id == id
  {
    set k | 0 <= k < |rows| && rows[k].id != 0 :: rows[k].id
  }

  /** The participant's rows whose ids the list does not carry are deleted. */
  function Pruned(table: map<int, VaccineAdministered>, participantId: int, rows: seq<VaccineAdministered>): (r: map<int, VaccineAdministered>)
    ensures forall id :: id in r <==> id in table && (table[id].participantId != participantId || id in IncludedIds(rows))
    ensures forall id :: id in r ==> r[id] == table[id]
  {
    map id | id in table && (table[id].participantId != participantId || id in IncludedIds(rows)) :: table[id]
  }

  /** The table after writing each row under its id, in order. */
  function Upserted(table: map<int, VaccineAdministered>, rows: seq<VaccineAdministered>): (r: map<int, VaccineAdministered>)
    ensures forall id :: id in r <==> id in table || exists k :: 0 <= k < |rows| && rows[k].id == id
    ensures forall id :: id in table && (forall k :: 0 <= k < |rows| ==> rows[k].id != id) ==> r[id] == table[id]
    decreases |rows|
  {
    if rows == [] then table
    else
      var n := |rows| - 1;
      assert forall k :: 0 <= k < n ==> rows[..n][k] == rows[k];
      Upserted(table, rows[..n])[rows[n].id := rows[n]]
  }

  /** A row written by the upsert holds a value of one of the written rows. */
  lemma {:induction false} UpsertedHit(table: map<int, VaccineAdministered>, rows: seq<VaccineAdministered>, id: int)
    requires exists k :: 0 <= k < |rows| && rows[k].id == id
    ensures id in Upserted(table, rows)
    ensures exists k :: 0 <= k < |rows| && rows[k].id == id && Upserted(table, rows)[id] == rows[k]
    decreases |rows|
  {
    var n := |rows| - 1;
    var init := rows[..n];
    if rows[n].id != id {
      assert forall k :: 0 <= k < n ==> init[k] == rows[k];
      UpsertedHit(table, init, id);
      var k :| 0 <= k < |init| && init[k].id == id && Upserted(table, init)[id] == init[k];
      assert rows[k] == init[k];
    }
  }

  /**
   * AddOrUpdateVaccinesAdministered with the corrected numbering. The
   * participant's rows missing from the list are deleted first (the source
   * runs that DELETE at once, so it stands even when a later step fails).
   * Then the participant's site is looked up, NewCount(rows) ids are
   * allocated, and every row is re-parented and written; a listed id the
   * table no longer holds makes the save fail.
   */
  function SyncVaccines(table: map<int, VaccineAdministered>, participants: map<int, Participant>,
                        sites: map<int, Centre>, participantId: int, rows: seq<VaccineAdministered>)
    : (r: (map<int, VaccineAdministered>, Option<Error>))
    ensures r.1.Some? ==> r.0 == Pruned(table, participantId, rows)
    ensures r.1.None? ==>
              var start := SyncStart(Pruned(table, participantId, rows), participants, sites, participantId, NewCount(rows));
              start.Success? && r.0 == Upserted(Pruned(table, participantId, rows), Assign(rows, participantId, start.value))
  {
    var pruned := Pruned(table, participantId, rows);
    match SyncStart(pruned, participants, sites, participantId, NewCount(rows))
    case Failure(e) => (pruned, Some(e))
    case Success(start) =>
      if exists k :: 0 <= k < |rows| && rows[k].id != 0 && rows[k].id !in pruned
      then (pruned, Some(MissingRow(MissingId(rows, pruned))))
      else (Upserted(pruned, Assign(rows, participantId, start)), None)
  }

  /** The first new id of a sync: the participant's site is looked up (both
      lookups fail like the source's `First`) and n ids are allocated there. */
  function SyncStart(pruned: map<int, VaccineAdministered>, participants: map<int, Participant>,
                     sites: map<int, Centre>, participantId: int, n: nat): (r: Result<int, Error>)
    ensures participantId !in participants ==> r == Failure(ParticipantNotFound(participantId))
    ensures participantId in participants && participants[participantId].centreId !in sites ==>
              r == Failure(SiteNotFound(participants[participantId].centreId))
    ensures r.Success? ==>
              participantId in participants && participants[participantId].centreId in sites
              && r == BatchStart(pruned.Keys, participants[participantId].centreId,
                                 sites[participants[participantId].centreId].maxIdForSite, n)
  {
    if participantId !in participants then Failure(ParticipantNotFound(participantId))
    else
      var centreId := participants[participantId].centreId;
      if centreId !in sites then Failure(SiteNotFound(centreId))
      else BatchStart(pruned.Keys, centreId, sites[centreId].maxIdForSite, n)
  }

  /** The first listed non-zero id the table does not hold. */
  function MissingId(rows: seq<VaccineAdministered>, table: map<int, VaccineAdministered>): (id: int)
    requires exists k :: 0 <= k < |rows| && rows[k].id != 0 && rows[k].id !in table
    ensures id != 0 && id !in table
    ensures exists k :: 0 <= k < |rows| && rows[k].id == id
  {
    if rows[0].id != 0 && rows[0].id !in table then rows[0].id
    else
      assert exists k :: 0 <= k < |rows[1..]| && rows[1..][k].id != 0 && rows[1..][k].id !in table by {
        var k :| 0 <= k < |rows| && rows[k].id != 0 && rows[k].id !in table;
        assert rows[1..][k - 1] == rows[k];
      }
      var id := MissingId(rows[1..], table);
      assert exists k :: 0 <= k < |rows| && rows[k].id == id by {
        var k :| 0 <= k < |rows[1..]| && rows[1..][k].id == id;
        assert rows[k + 1] == rows[1..][k];
      }
      id
  }

  /** Every placed row's id is a listed id or one of the new ids. */
  lemma AssignedIdsAreListedOrNew(rows: seq<VaccineAdministered>, participantId: int, start: int, k: nat)
    requires k < |rows|
    ensures var a := Assign(rows, participantId, start)[k];
            a.participantId == participantId
            && (rows[k].id != 0 ==> a.id == rows[k].id)
            && (rows[k].id == 0 ==> a.id in Block(start, NewCount(rows)))
  {
    AssignAt(rows, participantId, start, k);
    NewCountPrefix(rows, k);
  }

  /** A listed or newly numbered id ends up as one of the participant's rows. */
  lemma UpsertHoldsListedRows(pruned: map<int, VaccineAdministered>, participantId: int,
                              rows: seq<VaccineAdministered>, start: int, id: int)
    requires id in IncludedIds(rows) || id in Block(start, NewCount(rows))
    ensures id in Upserted(pruned, Assign(rows, participantId, start))
    ensures Upserted(pruned, Assign(rows, participantId, start))[id].participantId == participantId
  {
    var placed := Assign(rows, participantId, start);
    var k: nat;
    if id in IncludedIds(rows) {
      k :| 0 <= k < |rows| && rows[k].id == id;
    } else {
      k := NewRowAt(rows, id - start);
      AssignAt(rows, participantId, start, k);
    }
    AssignedIdsAreListedOrNew(rows, participantId, start, k);
    assert placed[k].id == id;
    UpsertedHit(pruned, placed, id);
    var j :| 0 <= j < |placed| && placed[j].id == id && Upserted(pruned, placed)[id] == placed[j];
    AssignedIdsAreListedOrNew(rows, participantId, start, j);
  }

  /** A row of the participant after the upsert is a listed or newly numbered one. */
  lemma UpsertHoldsOnlyListedRows(pruned: map<int, VaccineAdministered>, participantId: int,
                                  rows: seq<VaccineAdministered>, start: int, id: int)
    requires forall i :: i in pruned && pruned[i].participantId == participantId ==> i in IncludedIds(rows)
    requires id in Upserted(pruned, Assign(rows, participantId, start))
    requires Upserted(pruned, Assign(rows, participantId, start))[id].participantId == participantId
    ensures id in IncludedIds(rows) || id in Block(start, NewCount(rows))
  {
    var placed := Assign(rows, participantId, start);
    if exists k :: 0 <= k < |placed| && placed[k].id == id {
      var k :| 0 <= k < |placed| && placed[k].id == id;
      AssignedIdsAreListedOrNew(rows, participantId, start, k);
    }
  }

  /**
   * After a successful sync, the participant's rows are exactly the listed
   * rows: a row belongs to the participant iff its id is a listed id or one
   * of the ids handed to the new rows.
   */
  lemma SyncOwnRowsAreListed(table: map<int, VaccineAdministered>, participants: map<int, Participant>,
                             sites: map<int, Centre>, participantId: int, rows: seq<VaccineAdministered>, id: int)
    requires SyncVaccines(table, participants, sites, participantId, rows).1.None?
    ensures var r := SyncVaccines(table, participants, sites, participantId, rows).0;
            var start := SyncStart(Pruned(table, participantId, rows), participants, sites, participantId, NewCount(rows)).value;
            (id in r && r[id].participantId == participantId)
            <==> id in IncludedIds(rows) || id in Block(start, NewCount(rows))
  {
    var pruned := Pruned(table, participantId, rows);
    var start := SyncStart(pruned, participants, sites, participantId, NewCount(rows)).value;
    var r := Upserted(pruned, Assign(rows, participantId, start));
    if id in IncludedIds(rows) || id in Block(start, NewCount(rows)) {
      UpsertHoldsListedRows(pruned, participantId, rows, start, id);
    }
    if id in r && r[id].participantId == participantId {
      UpsertHoldsOnlyListedRows(pruned, participantId, rows, start, id);
    }
  }

  /** The index of the row that receives the `j`-th new id. */
  lemma NewRowAt(rows: seq<VaccineAdministered>, j: int) returns (k: nat)
    requires 0 <= j < NewCount(rows)
    ensures k < |rows| && rows[k].id == 0 && NewCount(rows[..k]) == j
    decreases |rows|
  {
    var n := |rows| - 1;
    var init := rows[..n];
    if j < NewCount(init) {
      k := NewRowAt(init, j);
      assert rows[..k] == init[..k];
    } else {
      k := n;
    }
  }

  /**
   * A successful sync leaves every other participant's row alone unless the
   * list names it, and new rows never overwrite an existing one.
   */
  lemma SyncKeepsOtherRows(table: map<int, VaccineAdministered>, participants: map<int, Participant>,
                           sites: map<int, Centre>, participantId: int, rows: seq<VaccineAdministered>)
    requires SyncVaccines(table, participants, sites, participantId, rows).1.None?
    requires 0 <= participants[participantId].centreId
    ensures var r := SyncVaccines(table, participants, sites, participantId, rows).0;
            forall id :: id in table && table[id].participantId != participantId && id !in IncludedIds(rows)
                         ==> id in r && r[id] == table[id]
  {
    var pruned := Pruned(table, participantId, rows);
    var start := SyncStart(pruned, participants, sites, participantId, NewCount(rows)).value;
    var placed := Assign(rows, participantId, start);
    forall id | id in table && table[id].participantId != participantId && id !in IncludedIds(rows)
      ensures id in Upserted(pruned, placed) && Upserted(pruned, placed)[id] == table[id]
    {
      forall k | 0 <= k < |placed| ensures placed[k].id != id {
        AssignedIdsAreListedOrNew(rows, participantId, start, k);
        if rows[k].id == 0 {
          assert placed[k].id in Block(start, NewCount(rows));
        }
      }
    }
  }

  /**
   * The outcome form's call as written passes every row of the table, not
   * the form's list. Listing every row leaves nothing to delete and makes
   * every row of the table this participant's.
   */
  lemma OutcomeSyncReparentsEveryRow(table: map<int, VaccineAdministered>, participants: map<int, Participant>,
                                     sites: map<int, Centre>, participantId: int, everyRow: seq<VaccineAdministered>)
    requires forall id :: id in table ==> table[id].id == id
    requires forall id :: id in table ==> exists k :: 0 <= k < |everyRow| && everyRow[k] == table[id]
    requires SyncVaccines(table, participants, sites, participantId, everyRow).1.None?
    ensures var r := SyncVaccines(table, participants, sites, participantId, everyRow).0;
            forall id :: id in table && id != 0 ==> id in r && r[id].participantId == participantId
  {
    var pruned := Pruned(table, participantId, everyRow);
    var start := SyncStart(pruned, participants, sites, participantId, NewCount(everyRow)).value;
    var placed := Assign(everyRow, participantId, start);
    forall id | id in table && id != 0
      ensures id in Upserted(pruned, placed) && Upserted(pruned, placed)[id].participantId == participantId
    {
      var k :| 0 <= k < |everyRow| && everyRow[k] == table[id];
      AssignedIdsAreListedOrNew(everyRow, participantId, start, k);
      UpsertedHit(pruned, placed, id);
      var j :| 0 <= j < |placed| && placed[j].id == id && Upserted(pruned, placed)[id] == placed[j];
      AssignedIdsAreListedOrNew(everyRow, participantId, start, j);
    }
  }

  /**
   * Participant 1 (site 1, ids 1..100) has vaccine row 10 and participant 2
   * has row 11. Saving participant 1's outcome with the call as written
   * moves row 11 to participant 1.
   */
  lemma OutcomeSyncAsWrittenExample()
    ensures var row10 := VaccineAdministered(10, 1, 5, 0, 0);
            var row11 := VaccineAdministered(11, 2, 5, 0, 0);
            var p1 := Participant(1, 1, Details("", "", "", 0.0, 0, "", "", None, 0), 0, true, "", "", false, false, None, 0, None, NoOutcome, 0);
            var r := SyncVaccines(map[10 := row10, 11 := row11], map[1 := p1], map[1 := Centre(1, "", 100, "", 0)], 1, [row10, row11]);
            r.1.None? && r.0[11].participantId == 1
  {
    var row10 := VaccineAdministered(10, 1, 5, 0, 0);
    var row11 := VaccineAdministered(11, 2, 5, 0, 0);
    var table := map[10 := row10, 11 := row11];
    var p1 := Participant(1, 1, Details("", "", "", 0.0, 0, "", "", None, 0), 0, true, "", "", false, false, None, 0, None, NoOutcome, 0);
    var rows := [row10, row11];
    assert IncludedIds(rows) == {10, 11} by {
      assert rows[0].id == 10 && rows[1].id == 11;
      assert forall id :: id in IncludedIds(rows) <==> id == 10 || id == 11;
    }
    var pruned := Pruned(table, 1, rows);
    assert pruned == table by {
      assert forall id :: id in pruned <==> id in table;
    }
    assert NewCount(rows) == 0 by {
      assert rows[..1] == [row10];
      assert [row10][..0] == [];
    }
    var used := InRange(pruned.Keys, 1, 100);
    assert used == {10, 11} by {
      assert forall x :: x in used <==> x == 10 || x == 11;
    }
    assert Max(used) == 11;
    assert BatchStart(pruned.Keys, 1, 100, 0) == Success(12);
    OutcomeSyncReparentsEveryRow(table, map[1 := p1], map[1 := Centre(1, "", 100, "", 0)], 1, rows);
  }
}
