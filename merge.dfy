/**
 * The snapshot merge of AddOrUpdateBaks: each downloaded archive's unknown
 * sites are checked against the known sites and accepted, then the
 * archive's participants and screened patients changed since the last
 * backup, or belonging to a site accepted in this run, are written over the
 * local rows. An archive is merged as a whole; the run stops at the first
 * archive that fails, keeping the archives merged before it.
 */
module Merge {
  import opened Wrappers
  import opened Domain
  import opened IdAllocation

  /** SqlDateTime.MinValue (1 January 1753), in ticks. */
  const SqlDateTimeMin := 552877920000000000

  /** The time after which rows count as changed: the archive's last backup
      time, raised to SqlDateTime.MinValue. */
  function Watermark(lastBackupUtc: int): (w: int)
    ensures w >= SqlDateTimeMin && w >= lastBackupUtc
    ensures w == SqlDateTimeMin || w == lastBackupUtc
  {
    if lastBackupUtc < SqlDateTimeMin then SqlDateTimeMin else lastBackupUtc
  }

  /** A downloaded archive (BakFileDetails): its tables and the time it was
      last merged, DateTime.MinValue (0) for a new one. */
  datatype Archive = Archive(content: Tables, lastBackupUtc: int)

  /** The ids of a set in ascending order. */
  function AscendingIds(ids: set<int>): (r: seq<int>)
    ensures forall x :: x in r <==> x in ids
    ensures forall i, j :: 0 <= i < j < |r| ==> r[i] < r[j]
    decreases |ids|
  {
    if ids == {} then []
    else
      var m := Max(ids);
      var rest := ids - {m};
      var r := AscendingIds(rest);
      assert forall x :: x in r ==> x < m;
      r + [m]
  }

  /** The archive's sites whose token the run does not know yet, in
      ascending id order (the order the site table is read in). */
  function NewSites(archiveSites: map<int, Centre>, knownGuids: set<string>): (r: seq<Centre>)
    ensures forall c :: c in r <==> c in archiveSites.Values && c.guid !in knownGuids
  {
    var ids := AscendingIds(archiveSites.Keys);
    assert forall k :: 0 <= k < |ids| ==> ids[k] in ids;
    UnknownAmong(archiveSites, ids, knownGuids)
  }

  /** The sites under `ids`, in that order, whose token is not known. */
  function UnknownAmong(sites: map<int, Centre>, ids: seq<int>, knownGuids: set<string>): (r: seq<Centre>)
    requires forall k :: 0 <= k < |ids| ==> ids[k] in sites
    ensures forall c :: c in r <==> (exists x :: x in ids && sites[x] == c) && c.guid !in knownGuids
    decreases |ids|
  {
    if ids == [] then []
    else
      var n := |ids| - 1;
      var c := sites[ids[n]];
      assert forall x :: x in ids <==> x in ids[..n] || x == ids[n];
      UnknownAmong(sites, ids[..n], knownGuids) + (if c.guid in knownGuids then [] else [c])
  }

  function Guids(sites: seq<Centre>): (r: set<string>)
    ensures forall g :: g in r <==> exists k :: 0 <= k < |sites| && sites[k].guid == g
  {
    set k | 0 <= k < |sites| :: sites[k].guid
  }

  /** The two closed ranges [id, maxIdForSite] intersect. */
  predicate Overlaps(s: Centre, k: Centre)
  {
    s.id <= k.maxIdForSite && s.maxIdForSite >= k.id
  }

  /** Sites with distinct ids and pairwise disjoint ranges. */
  predicate Disjoint(sites: seq<Centre>)
  {
    forall i, j :: 0 <= i < j < |sites| ==> sites[i].id != sites[j].id && !Overlaps(sites[j], sites[i])
  }

  /** The check of one new site against the known ones: a reused id is
      DuplicateDataKey, an intersecting range OverlappingDataKeyRange. */
  function CheckSite(known: seq<Centre>, s: Centre): (r: Option<Error>)
    ensures r.None? <==> forall k :: 0 <= k < |known| ==> known[k].id != s.id && !Overlaps(s, known[k])
    ensures (exists k :: 0 <= k < |known| && known[k].id == s.id) ==> r == Some(DuplicateDataKey(s.id))
  {
    if exists k :: 0 <= k < |known| && known[k].id == s.id then Some(DuplicateDataKey(s.id))
    else if exists k :: 0 <= k < |known| && Overlaps(s, known[k]) then
      Some(OverlappingDataKeyRange(s.id, s.maxIdForSite))
    else None
  }

  /** The sites and ranges after accepting each new site in turn; each one
      is checked against the known sites, including those accepted before it. */
  function AcceptSites(known: seq<Centre>, ranges: seq<Range>, candidates: seq<Centre>)
    : (r: Result<(seq<Centre>, seq<Range>), Error>)
    ensures r.Success? ==> r.value.0 == known + candidates && |r.value.1| == |ranges| + |candidates|
    ensures r.Success? ==> r.value.1[..|ranges|] == ranges
    ensures r.Success? ==> forall k :: 0 <= k < |candidates| ==>
              r.value.1[|ranges| + k] == Range(candidates[k].id, candidates[k].maxIdForSite)
    decreases |candidates|
  {
    if candidates == [] then Success((known, ranges))
    else
      var n := |candidates| - 1;
      match AcceptSites(known, ranges, candidates[..n])
      case Failure(e) => Failure(e)
      case Success((sites, rs)) =>
        match CheckSite(sites, candidates[n])
        case Some(e) => Failure(e)
        case None =>
          assert known + candidates == sites + [candidates[n]];
          var rs' := rs + [Range(candidates[n].id, candidates[n].maxIdForSite)];
          assert forall k :: |ranges| <= k < |ranges| + n ==> rs'[k] == rs[k];
          Success((sites + [candidates[n]], rs'))
  }

  /** Adding one site to disjoint sites keeps them disjoint iff the site
      passes the check. */
  lemma CheckSiteKeepsDisjoint(sites: seq<Centre>, s: Centre)
    requires Disjoint(sites)
    ensures CheckSite(sites, s).None? <==> Disjoint(sites + [s])
  {
    var all := sites + [s];
    if CheckSite(sites, s).None? {
      forall i, j | 0 <= i < j < |all| ensures all[i].id != all[j].id && !Overlaps(all[j], all[i]) {
        if j == |sites| {
          assert all[j] == s && all[i] == sites[i];
          assert !Overlaps(s, sites[i]);
        } else {
          assert all[i] == sites[i] && all[j] == sites[j];
        }
      }
    } else {
      var k :| 0 <= k < |sites| && (sites[k].id == s.id || Overlaps(s, sites[k]));
      assert all[k] == sites[k] && all[|sites|] == s;
    }
  }

  /**
   * Site acceptance succeeds exactly when the known sites together with the
   * new ones have distinct ids and disjoint ranges; the sites it accepts
   * therefore keep every id range of the run apart.
   */
  lemma {:induction false} AcceptSitesIffDisjoint(known: seq<Centre>, ranges: seq<Range>, candidates: seq<Centre>)
    requires Disjoint(known)
    ensures AcceptSites(known, ranges, candidates).Success? <==> Disjoint(known + candidates)
    decreases |candidates|
  {
    if candidates != [] {
      var n := |candidates| - 1;
      var init := candidates[..n];
      AcceptSitesIffDisjoint(known, ranges, init);
      assert known + candidates == (known + init) + [candidates[n]];
      if AcceptSites(known, ranges, init).Success? {
        CheckSiteKeepsDisjoint(known + init, candidates[n]);
      } else {
        assert !Disjoint(known + init);
        var i, j :| 0 <= i < j < |known + init|
                    && ((known + init)[i].id == (known + init)[j].id || Overlaps((known + init)[j], (known + init)[i]));
        assert (known + candidates)[i] == (known + init)[i] && (known + candidates)[j] == (known + init)[j];
      }
    }
  }

  /** A new site that reuses a known site's id is refused, whatever follows. */
  lemma {:induction false} DuplicateSiteRefused(known: seq<Centre>, ranges: seq<Range>, candidates: seq<Centre>, k: nat, i: nat)
    requires i < |candidates| && k < |known| && known[k].id == candidates[i].id
    ensures AcceptSites(known, ranges, candidates).Failure?
    decreases |candidates|
  {
    var n := |candidates| - 1;
    if i < n {
      DuplicateSiteRefused(known, ranges, candidates[..n], k, i);
    } else {
      var prior := AcceptSites(known, ranges, candidates[..n]);
      if prior.Success? {
        assert prior.value.0[k] == known[k];
      }
    }
  }

  /** The rows of a table a predicate selects. */
  function Select<T>(table: map<int, T>, keep: T -> bool): (r: map<int, T>)
    ensures forall id :: id in r <==> id in table && keep(table[id])
    ensures forall id :: id in r ==> r[id] == table[id]
  {
    map id | id in table && keep(table[id]) :: table[id]
  }

  /** Insert-or-overwrite by id (DbSet.AddOrUpdate). */
  function Upsert<T>(local: map<int, T>, pulled: map<int, T>): (r: map<int, T>)
    ensures forall id :: id in r <==> id in local || id in pulled
    ensures forall id :: id in pulled ==> r[id] == pulled[id]
    ensures forall id :: id in local && id !in pulled ==> r[id] == local[id]
  {
    local + pulled
  }

  /** The minima of the ranges accepted so far in the run. */
  function RangeMins(ranges: seq<Range>): (r: set<int>)
    ensures forall x :: x in r <==> exists k :: 0 <= k < |ranges| && ranges[k].min == x
  {
    set k | 0 <= k < |ranges| :: ranges[k].min
  }

  /** A remote participant is pulled iff it changed after the watermark or
      belongs to a site accepted in this run. */
  predicate PullParticipant(p: Participant, watermark: int, newSiteIds: set<int>)
  {
    p.recordLastModified > watermark || p.centreId in newSiteIds
  }

  predicate PullScreened(s: ScreenedPatient, watermark: int, newSiteIds: set<int>)
  {
    s.recordLastModified > watermark || s.centreId in newSiteIds
  }

  /** The sites as a table keyed by id. */
  function SiteTable(sites: seq<Centre>): (r: map<int, Centre>)
    ensures forall id :: id in r <==> exists k :: 0 <= k < |sites| && sites[k].id == id
    decreases |sites|
  {
    if sites == [] then map[]
    else
      var n := |sites| - 1;
      assert forall k :: 0 <= k < n ==> sites[..n][k] == sites[k];
      SiteTable(sites[..n])[sites[n].id := sites[n]]
  }
  /** Sites with distinct ids are each stored under their own id. */
  lemma {:induction false} SiteTableAt(sites: seq<Centre>)
    requires forall j, k :: 0 <= j < k < |sites| ==> sites[j].id != sites[k].id
    ensures forall k :: 0 <= k < |sites| ==> SiteTable(sites)[sites[k].id] == sites[k]
    ensures forall x :: x in SiteTable(sites) ==> SiteTable(sites)[x].id == x && SiteTable(sites)[x] in sites
    decreases |sites|
  {
    if sites != [] {
      var n := |sites| - 1;
      assert forall k :: 0 <= k < n ==> sites[..n][k] == sites[k];
      SiteTableAt(sites[..n]);
      forall x | x in SiteTable(sites[..n]) ensures SiteTable(sites[..n])[x] in sites {
        var k :| 0 <= k < n && sites[..n][k] == SiteTable(sites[..n])[x];
        assert sites[k] == SiteTable(sites[..n])[x];
      }
    }
  }

  /** Every accepted site has an id no known site and no earlier accepted
      site has. */
  lemma {:induction false} AcceptedIdsFresh(known: seq<Centre>, ranges: seq<Range>, candidates: seq<Centre>)
    requires AcceptSites(known, ranges, candidates).Success?
    ensures forall k, j :: 0 <= k < |candidates| && 0 <= j < |known| ==> known[j].id != candidates[k].id
    ensures forall j, k :: 0 <= j < k < |candidates| ==> candidates[j].id != candidates[k].id
    decreases |candidates|
  {
    if candidates != [] {
      var n := |candidates| - 1;
      var prefix := candidates[..n];
      assert forall k :: 0 <= k < n ==> prefix[k] == candidates[k];
      AcceptedIdsFresh(known, ranges, prefix);
      var sites := AcceptSites(known, ranges, prefix).value.0;
      assert CheckSite(sites, candidates[n]).None?;
      forall j | 0 <= j < |known| ensures known[j].id != candidates[n].id {
        assert sites[j] == known[j];
      }
      forall j | 0 <= j < n ensures candidates[j].id != candidates[n].id {
        assert sites[|known| + j] == candidates[j];
      }
    }
  }


  /**
   * As written, the vaccine, vaccine-administered and violation pulls read
   * the local table (not the archive) and keep only the rows whose id lies
   * in a range accepted in this run; the write then stores those rows back.
   */
  function ChildPullAsWritten<T>(local: map<int, T>, ranges: seq<Range>): (r: map<int, T>)
  {
    var pulled := map id | id in local && InSomeRange(id, ranges) :: local[id];
    Upsert(local, pulled)
  }

  /** Writing back rows the table already holds changes nothing. */
  lemma UpsertAbsorbed<T>(local: map<int, T>, pulled: map<int, T>)
    requires forall id :: id in pulled ==> id in local && local[id] == pulled[id]
    ensures Upsert(local, pulled) == local
  {
    var r := Upsert(local, pulled);
    assert forall id :: id in r <==> id in local;
    assert forall id :: id in r ==> r[id] == local[id];
  }

  /** The as-written child pull leaves the local table as it was, so an
      archive's vaccines, vaccines administered and violations are never
      imported. */
  lemma ChildPullIsNoOp<T>(local: map<int, T>, ranges: seq<Range>)
    ensures ChildPullAsWritten(local, ranges) == local
  {
    var pulled := map id | id in local && InSomeRange(id, ranges) :: local[id];
    UpsertAbsorbed(local, pulled);
  }

  /** The run's state: the tables, the known sites, the ranges accepted in
      this run, the participants to report as added and as updated once the
      run is over, and the violations already reported as added. */
  datatype MergeState = MergeState(db: Tables, known: seq<Centre>, ranges: seq<Range>,
                                   added: seq<Participant>, updated: seq<Participant>,
                                   reported: seq<Violation>)

  /** The values under the given ids, in that order. */
  function ValuesAt<T>(table: map<int, T>, ids: seq<int>): (r: seq<T>)
    requires forall k :: 0 <= k < |ids| ==> ids[k] in table
    ensures |r| == |ids| && forall k :: 0 <= k < |ids| ==> r[k] == table[ids[k]]
  {
    seq(|ids|, k requires 0 <= k < |ids| => table[ids[k]])
  }

  /** The state after the site step of one archive. */
  function AfterSites(st: MergeState, archive: Archive): (r: Result<MergeState, Error>)
    ensures r.Success? ==>
              r.value == st.(db := st.db.(centres := r.value.db.centres), known := r.value.known, ranges := r.value.ranges)
  {
    var candidates := NewSites(archive.content.centres, Guids(st.known));
    match AcceptSites(st.known, st.ranges, candidates)
    case Failure(e) => Failure(e)
    case Success((known, ranges)) =>
      Success(st.(db := st.db.(centres := st.db.centres + SiteTable(candidates)), known := known, ranges := ranges))
  }

  /** The participants an archive contributes, given the state after its sites. */
  function PulledParticipants(st: MergeState, archive: Archive): (r: map<int, Participant>)
  {
    var w := Watermark(archive.lastBackupUtc);
    var mins := RangeMins(st.ranges);
    Select(archive.content.participants, (p: Participant) => PullParticipant(p, w, mins))
  }

  function PulledScreened(st: MergeState, archive: Archive): (r: map<int, ScreenedPatient>)
  {
    var w := Watermark(archive.lastBackupUtc);
    var mins := RangeMins(st.ranges);
    Select(archive.content.screened, (s: ScreenedPatient) => PullScreened(s, w, mins))
  }

  /** The pulled ids new to the table, and those it already holds, ascending. */
  function AddedIds(pulled: map<int, Participant>, local: map<int, Participant>): (r: seq<int>)
    ensures forall k :: 0 <= k < |r| ==> r[k] in pulled
    ensures forall id :: id in r <==> id in pulled && id !in local
  {
    var r := AscendingIds(pulled.Keys - local.Keys);
    assert forall k :: 0 <= k < |r| ==> r[k] in r;
    r
  }

  function UpdatedIds(pulled: map<int, Participant>, local: map<int, Participant>): (r: seq<int>)
    ensures forall k :: 0 <= k < |r| ==> r[k] in pulled
    ensures forall id :: id in r <==> id in pulled && id in local
  {
    var r := AscendingIds(pulled.Keys * local.Keys);
    assert forall k :: 0 <= k < |r| ==> r[k] in r;
    r
  }

  /**
   * The local participants, not pulled, that own a vaccine administration
   * whose id lies in a range accepted in this run: they are reported as
   * updated too.
   */
  function VaxDrivenIds(db: Tables, ranges: seq<Range>, pulled: map<int, Participant>): (r: seq<int>)
    ensures forall k :: 0 <= k < |r| ==> r[k] in db.participants
    ensures forall id :: id in r <==>
              && id in db.participants && id !in pulled
              && exists x :: x in db.vaccinesAdministered && InSomeRange(x, ranges)
                             && db.vaccinesAdministered[x].participantId == id
  {
    var owners := set x | x in db.vaccinesAdministered && InSomeRange(x, ranges) :: db.vaccinesAdministered[x].participantId;
    var r := AscendingIds((owners - pulled.Keys) * db.participants.Keys);
    assert forall k :: 0 <= k < |r| ==> r[k] in r;
    r
  }

  /** The local violations whose id lies in a range accepted in this run,
      ascending: the as-written violation pull reports each as added. */
  function InRangeViolations(violations: map<int, Violation>, ranges: seq<Range>): (r: seq<Violation>)
    ensures forall v :: v in r <==> exists id :: id in violations && InSomeRange(id, ranges) && violations[id] == v
  {
    var chosen := set id | id in violations && InSomeRange(id, ranges);
    var ids := AscendingIds(chosen);
    assert forall k :: 0 <= k < |ids| ==> ids[k] in ids;
    var r := ValuesAt(violations, ids);
    forall id | id in violations && InSomeRange(id, ranges) ensures violations[id] in r {
      assert id in chosen && id in ids;
      var k :| 0 <= k < |ids| && ids[k] == id;
      assert r[k] == violations[id];
    }
    r
  }

  /**
   * One archive: the sites, then the participant and screened-patient pulls
   * written over the local rows. Pulled participants whose id was in the
   * table before the write are to be reported as updated, the others as
   * added; the as-written violation pull reports the local violations in
   * the accepted ranges at once.
   */
  function MergeArchive(st: MergeState, archive: Archive): (r: Result<MergeState, Error>)
    ensures r.Success? ==> r.value.db.vaccines == st.db.vaccines
                           && r.value.db.vaccinesAdministered == st.db.vaccinesAdministered
                           && r.value.db.violations == st.db.violations
  {
    match AfterSites(st, archive)
    case Failure(e) => Failure(e)
    case Success(s1) => Success(Pulled(s1, archive))
  }

  /** The pull step of one archive, from the state after its sites. */
  function Pulled(s1: MergeState, archive: Archive): (r: MergeState)
    ensures r.known == s1.known && r.ranges == s1.ranges && r.db.centres == s1.db.centres
  {
    var pulled := PulledParticipants(s1, archive);
    var screened := PulledScreened(s1, archive);
    s1.(db := s1.db.(participants := Upsert(s1.db.participants, pulled),
                     screened := Upsert(s1.db.screened, screened)),
        added := s1.added + ValuesAt(pulled, AddedIds(pulled, s1.db.participants)),
        updated := s1.updated + ValuesAt(s1.db.participants, VaxDrivenIds(s1.db, s1.ranges, pulled))
                              + ValuesAt(pulled, UpdatedIds(pulled, s1.db.participants)),
        reported := s1.reported + InRangeViolations(s1.db.violations, s1.ranges))
  }

  /**
   * One archive's participants: a remote participant is in the table
   * afterwards with its remote values iff it is pulled, and the other local
   * rows are unchanged.
   */
  lemma MergeArchiveParticipants(st: MergeState, archive: Archive)
    requires MergeArchive(st, archive).Success?
    ensures var r := MergeArchive(st, archive).value;
            var s1 := AfterSites(st, archive).value;
            var w := Watermark(archive.lastBackupUtc);
            var mins := RangeMins(s1.ranges);
            var remote := archive.content.participants;
            && (forall id :: id in remote && PullParticipant(remote[id], w, mins) ==>
                  id in r.db.participants && r.db.participants[id] == remote[id])
            && (forall id :: id in st.db.participants
                             && !(id in remote && PullParticipant(remote[id], w, mins))
                             ==> r.db.participants[id] == st.db.participants[id])
            && (forall id :: id in r.db.participants <==>
                  id in st.db.participants || (id in remote && PullParticipant(remote[id], w, mins)))
  {
    var s1 := AfterSites(st, archive).value;
    assert s1.db.participants == st.db.participants;
  }

  /** The participants to report as added are exactly the pulled ones the
      table did not hold before the write, each with its remote values. */
  lemma MergeArchiveReportsAdded(st: MergeState, archive: Archive)
    requires Keyed(archive.content)
    requires MergeArchive(st, archive).Success?
    ensures var r := MergeArchive(st, archive).value;
            var pulled := PulledParticipants(AfterSites(st, archive).value, archive);
            && r.added[..|st.added|] == st.added
            && (forall k :: |st.added| <= k < |r.added| ==> r.added[k].id in pulled && r.added[k] == pulled[r.added[k].id])
            && (forall id :: id in pulled && id !in st.db.participants <==>
                  exists k :: |st.added| <= k < |r.added| && r.added[k].id == id)
  {
    var s1 := AfterSites(st, archive).value;
    assert s1.db.participants == st.db.participants;
    var r := MergeArchive(st, archive).value;
    var pulled := PulledParticipants(s1, archive);
    ReportedIds(st.added, pulled, AddedIds(pulled, st.db.participants), r.added);
  }

  /**
   * The participants to report as updated: first the local ones that own a
   * vaccine administration in an accepted range and were not pulled, with
   * their local values; then exactly the pulled ones the table held before
   * the write, with their remote values.
   */
  lemma MergeArchiveReportsUpdated(st: MergeState, archive: Archive)
    requires Keyed(archive.content) && Keyed(st.db)
    requires MergeArchive(st, archive).Success?
    ensures var r := MergeArchive(st, archive).value;
            var s1 := AfterSites(st, archive).value;
            var pulled := PulledParticipants(s1, archive);
            var vax := VaxDrivenIds(s1.db, s1.ranges, pulled);
            var m := |st.updated| + |vax|;
            && m <= |r.updated| && r.updated[..|st.updated|] == st.updated
            && (forall k :: |st.updated| <= k < m ==>
                  r.updated[k].id in st.db.participants && r.updated[k] == st.db.participants[r.updated[k].id])
            && (forall id :: id in vax <==> exists k :: |st.updated| <= k < m && r.updated[k].id == id)
            && (forall k :: m <= k < |r.updated| ==> r.updated[k].id in pulled && r.updated[k] == pulled[r.updated[k].id])
            && (forall id :: id in pulled && id in st.db.participants <==>
                  exists k :: m <= k < |r.updated| && r.updated[k].id == id)
  {
    var s1 := AfterSites(st, archive).value;
    MergeArchiveBy(st, archive);
    assert s1.db.participants == st.db.participants && s1.updated == st.updated;
    PulledReportsUpdated(s1, archive);
  }

  /** The updated list of one archive's pull, from the state after its sites. */
  lemma PulledReportsUpdated(s1: MergeState, archive: Archive)
    requires Keyed(archive.content) && forall x :: x in s1.db.participants ==> s1.db.participants[x].id == x
    ensures var r := Pulled(s1, archive);
            var local := s1.db.participants;
            var pulled := PulledParticipants(s1, archive);
            var vax := VaxDrivenIds(s1.db, s1.ranges, pulled);
            var m := |s1.updated| + |vax|;
            && m <= |r.updated| && r.updated[..|s1.updated|] == s1.updated
            && (forall k :: |s1.updated| <= k < m ==> r.updated[k].id in local && r.updated[k] == local[r.updated[k].id])
            && (forall id :: id in vax <==> exists k :: |s1.updated| <= k < m && r.updated[k].id == id)
            && (forall k :: m <= k < |r.updated| ==> r.updated[k].id in pulled && r.updated[k] == pulled[r.updated[k].id])
            && (forall id :: id in pulled && id in local <==> exists k :: m <= k < |r.updated| && r.updated[k].id == id)
  {
    var local := s1.db.participants;
    var pulled := PulledParticipants(s1, archive);
    assert forall x :: x in pulled ==> pulled[x].id == x;
    UpdatedReport(s1.updated, local, VaxDrivenIds(s1.db, s1.ranges, pulled), pulled, UpdatedIds(pulled, local),
                  Pulled(s1, archive).updated);
  }

  /** The updated list after one archive, in two parts: the local rows under
      `vax`, then the pulled rows under `ups`, each reported with its row. */
  lemma UpdatedReport(before: seq<Participant>, local: map<int, Participant>, vax: seq<int>,
                      pulled: map<int, Participant>, ups: seq<int>, after: seq<Participant>)
    requires forall x :: x in local ==> local[x].id == x
    requires forall x :: x in pulled ==> pulled[x].id == x
    requires forall k :: 0 <= k < |vax| ==> vax[k] in local
    requires forall k :: 0 <= k < |ups| ==> ups[k] in pulled
    requires after == before + ValuesAt(local, vax) + ValuesAt(pulled, ups)
    ensures var m := |before| + |vax|;
            && m <= |after| && after[..|before|] == before
            && (forall k :: |before| <= k < m ==> after[k].id in local && after[k] == local[after[k].id])
            && (forall id :: id in vax <==> exists k :: |before| <= k < m && after[k].id == id)
            && (forall k :: m <= k < |after| ==> after[k].id in pulled && after[k] == pulled[after[k].id])
            && (forall id :: id in ups <==> exists k :: m <= k < |after| && after[k].id == id)
  {
    var mid := before + ValuesAt(local, vax);
    ReportedIds(before, local, vax, mid);
    ReportedIds(mid, pulled, ups, after);
    assert forall k :: 0 <= k < |mid| ==> after[k] == mid[k];
  }

  /** Reporting the rows of a keyed table under the given ids reports
      exactly those ids, each with its row. */
  lemma ReportedIds(before: seq<Participant>, pulled: map<int, Participant>, ids: seq<int>, after: seq<Participant>)
    requires forall x :: x in pulled ==> pulled[x].id == x
    requires forall k :: 0 <= k < |ids| ==> ids[k] in pulled
    requires after == before + ValuesAt(pulled, ids)
    ensures after[..|before|] == before
    ensures forall k :: |before| <= k < |after| ==> after[k].id in pulled && after[k] == pulled[after[k].id]
    ensures forall id :: id in ids <==> exists k :: |before| <= k < |after| && after[k].id == id
  {
    forall id | id in ids ensures exists k :: |before| <= k < |after| && after[k].id == id {
      var j :| 0 <= j < |ids| && ids[j] == id;
      assert after[|before| + j] == pulled[id];
    }
    var vs := ValuesAt(pulled, ids);
    forall k | |before| <= k < |after| ensures after[k].id in ids && after[k].id in pulled && after[k] == pulled[after[k].id] {
      var j := k - |before|;
      assert after[k] == vs[j] == pulled[ids[j]];
      assert ids[j] in ids;
    }
  }

  /**
   * The run over the archives in order: it stops at the first archive that
   * fails and keeps the state the archives before it left.
   */
  function MergeRun(st: MergeState, archives: seq<Archive>): (r: (MergeState, Option<Error>))
    decreases |archives|
  {
    if archives == [] then (st, None)
    else
      var n := |archives| - 1;
      var (s, err) := MergeRun(st, archives[..n]);
      if err.Some? then (s, err)
      else match MergeArchive(s, archives[n])
        case Failure(e) => (s, Some(e))
        case Success(s') => (s', None)
  }

  /** The number of archives the run opens (and migrates): all of them, or
      those up to and including the one that fails. */
  function Attempted(st: MergeState, archives: seq<Archive>): (n: nat)
    ensures n <= |archives|
    ensures MergeRun(st, archives).1.None? ==> n == |archives|
    decreases |archives|
  {
    if archives == [] then 0
    else
      var n := |archives| - 1;
      if MergeRun(st, archives[..n]).1.Some? then Attempted(st, archives[..n]) else |archives|
  }

  /**
   * The notifications of a run: the violations reported while it ran, then,
   * only when every archive merged, the participants added and those
   * updated.
   */
  function RunEvents(st: MergeState, succeeded: bool): (r: seq<Change>)
    ensures |r| == |st.reported| + (if succeeded then |st.added| + |st.updated| else 0)
    ensures forall k :: 0 <= k < |st.reported| ==> r[k] == ViolationAdded(st.reported[k])
    ensures succeeded ==> forall k :: 0 <= k < |st.added| ==> r[|st.reported| + k] == ParticipantAdded(st.added[k])
    ensures succeeded ==> forall k :: 0 <= k < |st.updated| ==>
              r[|st.reported| + |st.added| + k] == ParticipantUpdated(st.updated[k])
  {
    seq(|st.reported|, k requires 0 <= k < |st.reported| => ViolationAdded(st.reported[k]))
    + if succeeded then
        seq(|st.added|, k requires 0 <= k < |st.added| => ParticipantAdded(st.added[k]))
        + seq(|st.updated|, k requires 0 <= k < |st.updated| => ParticipantUpdated(st.updated[k]))
      else []
  }

  /** The state a run starts from: the local tables, their sites as known. */
  function Start(db: Tables): (st: MergeState)
    ensures st.db == db && st.ranges == [] && st.added == [] && st.updated == [] && st.reported == []
    ensures forall c :: c in st.known <==> c in db.centres.Values
  {
    MergeState(db, NewSites(db.centres, {}), [], [], [], [])
  }

  /**
   * A run never imports an archive's vaccines, vaccines administered or
   * violations: those tables end as they began, whether the run fails or not.
   */
  lemma {:induction false} MergeRunKeepsChildTables(st: MergeState, archives: seq<Archive>)
    ensures var r := MergeRun(st, archives).0;
            r.db.vaccines == st.db.vaccines && r.db.vaccinesAdministered == st.db.vaccinesAdministered
            && r.db.violations == st.db.violations
    decreases |archives|
  {
    if archives != [] {
      MergeRunKeepsChildTables(st, archives[..|archives| - 1]);
    }
  }

  /**
   * Site acceptance preserves the run's invariant: when the known sites are
   * disjoint before an archive, they are disjoint after it.
   */
  lemma MergeArchiveKeepsSitesDisjoint(st: MergeState, archive: Archive)
    requires Disjoint(st.known)
    requires MergeArchive(st, archive).Success?
    ensures Disjoint(MergeArchive(st, archive).value.known)
  {
    var candidates := NewSites(archive.content.centres, Guids(st.known));
    AcceptSitesIffDisjoint(st.known, st.ranges, candidates);
  }

  /** The known sites stay disjoint over a whole run, failing or not. */
  lemma {:induction false} MergeRunKeepsSitesDisjoint(st: MergeState, archives: seq<Archive>)
    requires Disjoint(st.known)
    ensures Disjoint(MergeRun(st, archives).0.known)
    decreases |archives|
  {
    if archives != [] {
      var n := |archives| - 1;
      MergeRunKeepsSitesDisjoint(st, archives[..n]);
      var s := MergeRun(st, archives[..n]).0;
      if MergeRun(st, archives[..n]).1.None? && MergeArchive(s, archives[n]).Success? {
        MergeArchiveKeepsSitesDisjoint(s, archives[n]);
      }
    }
  }

  /** An archive's new sites are appended to the known ones. */
  lemma KnownAfterArchive(st: MergeState, archive: Archive)
    requires MergeArchive(st, archive).Success?
    ensures MergeArchive(st, archive).value.known == st.known + NewSites(archive.content.centres, Guids(st.known))
  {
    var s1 := AfterSites(st, archive).value;
    assert MergeArchive(st, archive).value == Pulled(s1, archive);
  }

  /** After an archive is merged, every site of it is known by token. */
  lemma MergedSitesKnown(st: MergeState, archive: Archive)
    requires MergeArchive(st, archive).Success?
    ensures forall c :: c in archive.content.centres.Values ==>
              c.guid in Guids(MergeArchive(st, archive).value.known)
  {
    var candidates := NewSites(archive.content.centres, Guids(st.known));
    KnownAfterArchive(st, archive);
    forall c | c in archive.content.centres.Values ensures c.guid in Guids(st.known + candidates) {
      AppendedGuid(st.known, candidates, c);
    }
  }

  /** A site already known, or appended, is known by token afterwards. */
  lemma AppendedGuid(known: seq<Centre>, candidates: seq<Centre>, c: Centre)
    requires c.guid in Guids(known) || c in candidates
    ensures c.guid in Guids(known + candidates)
  {
    var all := known + candidates;
    if c in candidates {
      var k :| 0 <= k < |candidates| && candidates[k] == c;
      assert all[|known| + k] == c;
    } else {
      var k :| 0 <= k < |known| && known[k].guid == c.guid;
      assert all[k] == known[k];
    }
  }

  /** When every site under `ids` is known, none of them is new. */
  lemma {:induction false} AllKnownNoneNew(sites: map<int, Centre>, ids: seq<int>, knownGuids: set<string>)
    requires forall k :: 0 <= k < |ids| ==> ids[k] in sites && sites[ids[k]].guid in knownGuids
    ensures UnknownAmong(sites, ids, knownGuids) == []
    decreases |ids|
  {
    if ids != [] {
      var n := |ids| - 1;
      assert forall k :: 0 <= k < n ==> ids[..n][k] == ids[k];
      AllKnownNoneNew(sites, ids[..n], knownGuids);
    }
  }

  /** With every site of the archive known, the site step accepts nothing. */
  lemma NoNewSites(st: MergeState, archive: Archive)
    requires forall c :: c in archive.content.centres.Values ==> c.guid in Guids(st.known)
    ensures AfterSites(st, archive) == Success(st)
  {
    var sites := archive.content.centres;
    var ids := AscendingIds(sites.Keys);
    forall k | 0 <= k < |ids| ensures ids[k] in sites && sites[ids[k]].guid in Guids(st.known) {
      assert ids[k] in ids;
      assert sites[ids[k]] in sites.Values;
    }
    AllKnownNoneNew(sites, ids, Guids(st.known));
    AfterNoSites(st, archive);
  }

  /**
   * Merging the same archive again changes no table once its sites are all
   * known by token: every row the second merge pulls (one changed since the
   * watermark) was written by the first.
   */
  lemma RemergeFrom(db: Tables, known: seq<Centre>, archive: Archive, known2: seq<Centre>)
    requires MergeArchive(MergeState(db, known, [], [], [], []), archive).Success?
    requires forall c :: c in archive.content.centres.Values ==> c.guid in Guids(known2)
    ensures var once := MergeArchive(MergeState(db, known, [], [], [], []), archive).value;
            var again := MergeArchive(MergeState(once.db, known2, [], [], [], []), archive);
            again.Success? && again.value.db == once.db
  {
    var st := MergeState(db, known, [], [], [], []);
    var once := MergeArchive(st, archive).value;
    var st2 := MergeState(once.db, known2, [], [], [], []);
    NoNewSites(st2, archive);
    var s1 := AfterSites(st, archive).value;
    var first := PulledParticipants(s1, archive);
    var second := PulledParticipants(st2, archive);
    assert forall id :: id in second ==> id in first;
    UpsertAbsorbed(once.db.participants, second);
    var firstS := PulledScreened(s1, archive);
    var secondS := PulledScreened(st2, archive);
    assert forall id :: id in secondS ==> id in firstS;
    UpsertAbsorbed(once.db.screened, secondS);
  }

  /**
   * A later run that merges the same archive again, starting afresh from
   * the merged tables, changes no table: the site table now holds every
   * site of the archive, so all of them are known by token.
   */
  lemma RemergeChangesNothing(db: Tables, archive: Archive)
    requires forall k :: k in db.centres ==> db.centres[k].id == k
    requires MergeArchive(Start(db), archive).Success?
    ensures var once := MergeArchive(Start(db), archive).value;
            var again := MergeArchive(Start(once.db), archive);
            again.Success? && again.value.db == once.db
  {
    var st := Start(db);
    var once := MergeArchive(st, archive).value;
    KeyedValues(db.centres);
    SitesStayTabled(st, archive);
    KeyedValues(once.db.centres);
    MergedSitesKnown(st, archive);
    var st2 := Start(once.db);
    SameGuids(once.known, st2.known);
    RemergeFrom(db, st.known, archive, st2.known);
  }

  /**
   * The site step keeps the known sites exactly the rows of the site table,
   * with every site stored under its own id.
   */
  lemma SitesStayTabled(st: MergeState, archive: Archive)
    requires forall k :: k in st.db.centres ==> st.db.centres[k].id == k
    requires forall c :: c in st.known <==> c.id in st.db.centres && st.db.centres[c.id] == c
    requires AfterSites(st, archive).Success?
    ensures var s1 := AfterSites(st, archive).value;
            (forall k :: k in s1.db.centres ==> s1.db.centres[k].id == k)
            && (forall c :: c in s1.known <==> c.id in s1.db.centres && s1.db.centres[c.id] == c)
  {
    var candidates := NewSites(archive.content.centres, Guids(st.known));
    AfterSitesBy(st, archive);
    assert AcceptSites(st.known, st.ranges, candidates).Success?;
    var s1 := AfterSites(st, archive).value;
    assert s1.db.centres == st.db.centres + SiteTable(candidates);
    assert s1.known == st.known + candidates;
    AcceptedIdsFresh(st.known, st.ranges, candidates);
    TabledUnion(st.db.centres, st.known, candidates);
  }

  /** Appending sites with fresh, distinct ids to the known sites, and
      writing them into the site table, keeps the known sites exactly the
      table's rows. */
  lemma TabledUnion(centres: map<int, Centre>, known: seq<Centre>, candidates: seq<Centre>)
    requires forall k :: k in centres ==> centres[k].id == k
    requires forall c :: c in known <==> c.id in centres && centres[c.id] == c
    requires forall k, j :: 0 <= k < |candidates| && 0 <= j < |known| ==> known[j].id != candidates[k].id
    requires forall j, k :: 0 <= j < k < |candidates| ==> candidates[j].id != candidates[k].id
    ensures var merged := centres + SiteTable(candidates);
            (forall k :: k in merged ==> merged[k].id == k)
            && (forall c :: c in known + candidates <==> c.id in merged && merged[c.id] == c)
  {
    SiteTableAt(candidates);
    var t := SiteTable(candidates);
    var merged := centres + t;
    forall c | c in known + candidates ensures c.id in merged && merged[c.id] == c {
      if c in candidates {
        var k :| 0 <= k < |candidates| && candidates[k] == c;
        assert t[c.id] == c;
      } else {
        assert c in known;
        var j :| 0 <= j < |known| && known[j] == c;
        assert c.id !in t;
      }
    }
  }

  /** Lists holding the same sites know the same tokens. */
  lemma SameGuids(a: seq<Centre>, b: seq<Centre>)
    requires forall c :: c in a <==> c in b
    ensures Guids(a) == Guids(b)
  {
    forall g | g in Guids(a) ensures g in Guids(b) {
      var k :| 0 <= k < |a| && a[k].guid == g;
      assert a[k] in b;
    }
    forall g | g in Guids(b) ensures g in Guids(a) {
      var k :| 0 <= k < |b| && b[k].guid == g;
      assert b[k] in a;
    }
  }


  // ---------------------------------------------------------------------
  // The run one archive at a time, as AddOrUpdateBaks's loop performs it.

  /** Accepting one more candidate: the prefix's result, then its check. */
  lemma AcceptStep(known: seq<Centre>, ranges: seq<Range>, candidates: seq<Centre>, j: nat)
    requires j < |candidates|
    requires AcceptSites(known, ranges, candidates[..j]).Success?
    ensures var (ks, rs) := AcceptSites(known, ranges, candidates[..j]).value;
            AcceptSites(known, ranges, candidates[..j + 1])
            == match CheckSite(ks, candidates[j])
               case Some(e) => Failure(e)
               case None => Success((ks + [candidates[j]], rs + [Range(candidates[j].id, candidates[j].maxIdForSite)]))
  {
    assert candidates[..j + 1][..j] == candidates[..j];
  }

  /** A candidate refused stops the acceptance with its error. */
  lemma {:induction false} AcceptStopsAtFailure(known: seq<Centre>, ranges: seq<Range>, candidates: seq<Centre>, j: nat)
    requires j <= |candidates|
    requires AcceptSites(known, ranges, candidates[..j]).Failure?
    ensures AcceptSites(known, ranges, candidates) == AcceptSites(known, ranges, candidates[..j])
    decreases |candidates| - j
  {
    if j < |candidates| {
      assert candidates[..j + 1][..j] == candidates[..j];
      AcceptStopsAtFailure(known, ranges, candidates, j + 1);
    } else {
      assert candidates[..j] == candidates;
    }
  }

  /** One more archive of the run. */
  lemma RunStep(st: MergeState, archives: seq<Archive>, i: nat)
    requires i < |archives|
    ensures MergeRun(st, archives[..i + 1])
            == if MergeRun(st, archives[..i]).1.Some? then MergeRun(st, archives[..i])
               else match MergeArchive(MergeRun(st, archives[..i]).0, archives[i])
                 case Failure(e) => (MergeRun(st, archives[..i]).0, Some(e))
                 case Success(s') => (s', None)
    ensures Attempted(st, archives[..i + 1])
            == if MergeRun(st, archives[..i]).1.Some? then Attempted(st, archives[..i]) else i + 1
  {
    assert archives[..i + 1][..i] == archives[..i];
  }

  /** Once an archive fails, the later ones are neither merged nor opened. */
  lemma {:induction false} RunStopsAtFailure(st: MergeState, archives: seq<Archive>, i: nat)
    requires i <= |archives|
    requires MergeRun(st, archives[..i]).1.Some?
    ensures MergeRun(st, archives) == MergeRun(st, archives[..i])
    ensures Attempted(st, archives) == Attempted(st, archives[..i])
    decreases |archives| - i
  {
    if i < |archives| {
      RunStep(st, archives, i);
      RunStopsAtFailure(st, archives, i + 1);
    } else {
      assert archives[..i] == archives;
    }
  }

  /** The site step of an archive by the outcome of its acceptance. */
  lemma AfterSitesBy(st: MergeState, archive: Archive)
    ensures var candidates := NewSites(archive.content.centres, Guids(st.known));
            AfterSites(st, archive)
            == match AcceptSites(st.known, st.ranges, candidates)
               case Failure(e) => Failure(e)
               case Success((known, ranges)) =>
                 Success(st.(db := st.db.(centres := st.db.centres + SiteTable(candidates)), known := known, ranges := ranges))
  {
  }

  /** An archive with no new site leaves the state as it was. */
  lemma AfterNoSites(st: MergeState, archive: Archive)
    requires NewSites(archive.content.centres, Guids(st.known)) == []
    ensures AfterSites(st, archive) == Success(st)
  {
    assert st.db.centres + SiteTable([]) == st.db.centres;
  }

  /** One archive by the outcome of its site step. */
  lemma MergeArchiveBy(st: MergeState, archive: Archive)
    ensures MergeArchive(st, archive)
            == match AfterSites(st, archive)
               case Failure(e) => Failure(e)
               case Success(s1) => Success(Pulled(s1, archive))
  {
  }

  /** An archive that merges extends the run by one. */
  lemma RunContinues(st: MergeState, archives: seq<Archive>, i: nat, s: MergeState, s': MergeState)
    requires i < |archives|
    requires MergeRun(st, archives[..i]) == (s, None)
    requires MergeArchive(s, archives[i]) == Success(s')
    ensures MergeRun(st, archives[..i + 1]) == (s', None)
    ensures Attempted(st, archives[..i + 1]) == i + 1
  {
    RunStep(st, archives, i);
  }

  /** An archive that fails ends the whole run with its error, after
      i + 1 archives have been opened. */
  lemma RunFails(st: MergeState, archives: seq<Archive>, i: nat, s: MergeState, e: Error)
    requires i < |archives|
    requires MergeRun(st, archives[..i]) == (s, None)
    requires MergeArchive(s, archives[i]) == Failure(e)
    ensures MergeRun(st, archives) == (s, Some(e))
    ensures Attempted(st, archives) == i + 1
  {
    RunStep(st, archives, i);
    RunStopsAtFailure(st, archives, i + 1);
  }
}
