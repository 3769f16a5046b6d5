/**
 * The Repository object: the six tables of the local database, the lazily
 * filled site dictionary, the memo of archives whose migration was forgone,
 * the data directory and the cloud directories. Each method changes these
 * fields as the source's method does and is proved against the functions
 * of the other modules, whose properties are proved there.
 */
module Store {
  import opened Wrappers
  import opened Domain
  import opened IdAllocation
  import opened Numbering
  import opened Enrolment
  import opened Revision
  import opened Files
  import opened Merge
  import opened LimitedBackup

  /** No name occurs twice. */
  predicate NoDuplicates(names: seq<string>)
  {
    forall i, j :: 0 <= i < j < |names| ==> names[i] != names[j]
  }

  /**
   * MigrateIfRequired's memo: a file not in the list is migrated, and the
   * file is added to the list when the migration reports that it did not
   * run (ApplyPendingMigrations returning false).
   */
  function Memo(memo: seq<string>, name: string, migrate: string -> bool): (r: seq<string>)
    ensures name in memo ==> r == memo
    ensures name !in memo && !migrate(name) ==> r == memo + [name]
    ensures name !in memo && migrate(name) ==> r == memo
  {
    if name in memo || migrate(name) then memo else memo + [name]
  }

  /** The memo after each file of a list in turn. */
  function MemoAll(memo: seq<string>, names: seq<string>, migrate: string -> bool): (r: seq<string>)
    decreases |names|
  {
    if names == [] then memo
    else Memo(MemoAll(memo, names[..|names| - 1], migrate), names[|names| - 1], migrate)
  }

  /** The memo after one more file. */
  lemma MemoStep(memo: seq<string>, names: seq<string>, i: nat, migrate: string -> bool)
    requires i < |names|
    ensures MemoAll(memo, names[..i + 1], migrate) == Memo(MemoAll(memo, names[..i], migrate), names[i], migrate)
  {
    assert names[..i + 1][..i] == names[..i];
  }

  /** The memo never holds a file twice, and a file once in it stays. */
  lemma {:induction false} MemoAllKeepsNoDuplicates(memo: seq<string>, names: seq<string>, migrate: string -> bool)
    requires NoDuplicates(memo)
    ensures NoDuplicates(MemoAll(memo, names, migrate))
    ensures forall n :: n in memo ==> n in MemoAll(memo, names, migrate)
    decreases |names|
  {
    if names != [] {
      var prior := MemoAll(memo, names[..|names| - 1], migrate);
      MemoAllKeepsNoDuplicates(memo, names[..|names| - 1], migrate);
      var name := names[|names| - 1];
      if name !in prior && !migrate(name) {
        var r := prior + [name];
        forall i, j | 0 <= i < j < |r| ensures r[i] != r[j] {
          if j == |prior| {
            assert r[i] == prior[i] && r[j] == name;
          } else {
            assert r[i] == prior[i] && r[j] == prior[j];
          }
        }
      }
    }
  }

  /** A forgone file is never offered to the migration again. */
  lemma ForgoneIsNotRetried(memo: seq<string>, name: string, migrate: string -> bool)
    requires !migrate(name) && name !in memo
    ensures name in Memo(memo, name, migrate)
    ensures Memo(Memo(memo, name, migrate), name, migrate) == Memo(memo, name, migrate)
  {
  }

  /** The latest modification time of a table's rows, if it has any. */
  function Latest(stamps: set<int>): (r: Option<int>)
    ensures r.None? <==> stamps == {}
    ensures r.Some? ==> r.value in stamps && forall t :: t in stamps ==> t <= r.value
  {
    if stamps == {} then None else Some(Max(stamps))
  }

  /** The six tables' latest modification times, in the source's order. */
  function TableMaxima(db: Tables): (r: seq<Option<int>>)
    ensures |r| == 6
  {
    [Latest(set id | id in db.participants :: db.participants[id].recordLastModified),
     Latest(set id | id in db.screened :: db.screened[id].recordLastModified),
     Latest(set id | id in db.vaccines :: db.vaccines[id].recordLastModified),
     Latest(set id | id in db.vaccinesAdministered :: db.vaccinesAdministered[id].recordLastModified),
     Latest(set id | id in db.violations :: db.violations[id].recordLastModified),
     Latest(set id | id in db.centres :: db.centres[id].recordLastModified)]
  }

  /** The id of the first local site (LocalStudyCentres.First()), taken as
      the smallest site id. */
  function FirstSiteId(centres: map<int, Centre>): (id: int)
    requires centres != map[]
    ensures id in centres && forall i :: i in centres ==> id <= i
  {
    var ids := AscendingIds(centres.Keys);
    assert Max(centres.Keys) in ids;
    assert forall i :: i in centres ==> i in ids;
    ids[0]
  }

  /** A downloaded archive as AddOrUpdateBaks receives it: the extracted
      file's name and what it holds. */
  datatype BakFile = BakFile(fullFilename: string, archive: Archive)

  function Archives(baks: seq<BakFile>): (r: seq<Archive>)
    ensures |r| == |baks| && forall k :: 0 <= k < |baks| ==> r[k] == baks[k].archive
  {
    seq(|baks|, k requires 0 <= k < |baks| => baks[k].archive)
  }

  function Names(baks: seq<BakFile>): (r: seq<string>)
    ensures |r| == |baks| && forall k :: 0 <= k < |baks| ==> r[k] == baks[k].fullFilename
  {
    seq(|baks|, k requires 0 <= k < |baks| => baks[k].fullFilename)
  }

  /** The pairs Restore extracts. */
  function RestoreDue(cloudDirs: seq<seq<FileRecord>>, data: map<string, FileRecord>, prefix: string): seq<MatchedPair>
  {
    DuePairs(MatchPairs(cloudDirs, data, prefix))
  }

  /** Restore's time of the last merge of a pair: the extracted copy's
      creation time, or DateTime.MinValue for a pair extracted the first time. */
  function LastBackup(p: MatchedPair): (t: int)
    ensures p.extracted.None? ==> t == DateTimeMinValue
  {
    if p.extracted.None? then DateTimeMinValue else p.extracted.value.creationUtc
  }

  /** The archives Restore merges: every extracted file is read after all of
      them have been extracted. */
  function RestoreBaks(data: map<string, FileRecord>, due: seq<MatchedPair>): (r: seq<BakFile>)
    ensures |r| == |due|
    ensures forall k :: 0 <= k < |due| ==> r[k].fullFilename == ExtractedName(due[k].zip)
                                           && r[k].archive.lastBackupUtc == LastBackup(due[k])
  {
    seq(|due|, k requires 0 <= k < |due| =>
      var name := ExtractedName(due[k].zip);
      BakFile(name, Archive(if name in data then data[name].content else EmptyTables, LastBackup(due[k]))))
  }

  /** The site table after AddOrUpdate(centres): each listed site written
      under its id, in order. */
  function CentresWritten(table: map<int, Centre>, centres: seq<Centre>): (r: map<int, Centre>)
    ensures forall id :: id in r <==> id in table || exists k :: 0 <= k < |centres| && centres[k].id == id
    decreases |centres|
  {
    if centres == [] then table
    else
      var n := |centres| - 1;
      assert forall k :: 0 <= k < n ==> centres[..n][k] == centres[k];
      CentresWritten(table, centres[..n])[centres[n].id := centres[n]]
  }

  /** A listed site no later entry repeats is stored as listed. */
  lemma {:induction false} CentresWrittenAt(table: map<int, Centre>, centres: seq<Centre>, k: nat)
    requires k < |centres|
    requires forall j :: k < j < |centres| ==> centres[j].id != centres[k].id
    ensures CentresWritten(table, centres)[centres[k].id] == centres[k]
    decreases |centres|
  {
    var n := |centres| - 1;
    var init := centres[..n];
    assert CentresWritten(table, centres) == CentresWritten(table, init)[centres[n].id := centres[n]];
    if k < n {
      assert init[k] == centres[k];
      assert forall j :: k < j < n ==> init[j] == centres[j];
      CentresWrittenAt(table, init, k);
    }
  }

  /** A site not listed keeps its row. */
  lemma {:induction false} CentresWrittenKeeps(table: map<int, Centre>, centres: seq<Centre>, id: int)
    requires id in table && forall k :: 0 <= k < |centres| ==> centres[k].id != id
    ensures CentresWritten(table, centres)[id] == table[id]
    decreases |centres|
  {
    if centres != [] {
      var n := |centres| - 1;
      assert forall k :: 0 <= k < n ==> centres[..n][k] == centres[k];
      CentresWrittenKeeps(table, centres[..n], id);
    }
  }

  /** Writing one more site is one more map update. */
  lemma CentresWrittenStep(table: map<int, Centre>, centres: seq<Centre>, k: nat)
    requires k < |centres|
    ensures CentresWritten(table, centres[..k + 1]) == CentresWritten(table, centres[..k])[centres[k].id := centres[k]]
  {
    assert centres[..k + 1][..k] == centres[..k];
  }

  /** Overwriting one more participant is one more map update. */
  lemma OverwrittenStep(table: map<int, Participant>, patients: seq<Participant>, k: nat)
    requires k < |patients|
    ensures Overwritten(table, patients[..k + 1]) == Overwritten(table, patients[..k])[patients[k].id := patients[k]]
  {
    assert patients[..k + 1][..k] == patients[..k];
  }

  /** BackupLimitedDbTo after the restore: the destination file's name and
      the tables the copy keeps. */
  function LimitedResult(dbName: string, db: Tables, sites: seq<Centre>): (r: Result<(string, Tables), Error>)
    ensures r.Failure? <==> sites == []
    ensures r.Failure? ==> r.error == NoSitesGiven
    ensures r.Success? ==> Some(r.value.0) == LimitedBackupName(dbName, sites) && Success(r.value.1) == LimitedCopy(db, sites)
  {
    match LimitedCopy(db, sites)
    case Failure(e) => Failure(e)
    case Success(t) => Success((LimitedBackupName(dbName, sites).value, t))
  }

  /** With nothing due, Restore merges nothing and reports nothing. */
  lemma NothingDue(db: Tables, memo: seq<string>, data: map<string, FileRecord>, migrate: string -> bool)
    ensures var baks := RestoreBaks(data, []);
            && MergeRun(Start(db), Archives(baks)) == (Start(db), None)
            && RunEvents(Start(db), true) == []
            && MemoAll(memo, Names(baks)[..Attempted(Start(db), Archives(baks))], migrate) == memo
  {
    var baks := RestoreBaks(data, []);
    assert Archives(baks) == [];
    assert Names(baks)[..0] == [];
  }

  /** The loop of UpdateParticipant: the violations numbered from `start`
      and inserted one by one. */
  method InsertNumbered(violations: map<int, Violation>, details: seq<ViolationDetail>, participantId: int,
                        start: int, ambient: Ambient) returns (t: map<int, Violation>)
    ensures t == InsertViolations(violations, NumberViolations(details, participantId, start, ambient))
  {
    ghost var rows := NumberViolations(details, participantId, start, ambient);
    t := violations;
    var nextId := start;
    var k := 0;
    while k < |details|
      invariant 0 <= k <= |details|
      invariant nextId == start + k
      invariant t == InsertViolations(violations, rows[..k])
    {
      var v := Violation(nextId, participantId, MajorWrongAllocation, details[k], ambient.now, ambient.investigator, 0);
      assert rows[..k + 1][..k] == rows[..k];
      assert rows[..k + 1][k] == v;
      t := t[nextId := v];
      nextId := nextId + 1;
      k := k + 1;
    }
    assert rows[..k] == rows;
  }

  /** One more row of the loop: the prefix's assignment, then the row placed. */
  lemma AssignStep(rows: seq<VaccineAdministered>, participantId: int, start: int, k: nat)
    requires k < |rows|
    ensures NewCount(rows[..k + 1]) == NewCount(rows[..k]) + (if rows[k].id == 0 then 1 else 0)
    ensures Assign(rows[..k + 1], participantId, start)
            == Assign(rows[..k], participantId, start) + [Placed(rows[k], participantId, start + NewCount(rows[..k]))]
  {
    assert rows[..k + 1][..k] == rows[..k];
  }

  /** Writing one more row is one more map update. */
  lemma UpsertedStep(table: map<int, VaccineAdministered>, init: seq<VaccineAdministered>, v: VaccineAdministered)
    ensures Upserted(table, init + [v]) == Upserted(table, init)[v.id := v]
  {
    assert (init + [v])[..|init|] == init;
  }

  /** The loop of AddOrUpdateVaccinesAdministered: each row re-parented,
      the new ones numbered consecutively from `start`, and written. */
  method PlaceRows(pruned: map<int, VaccineAdministered>, rows: seq<VaccineAdministered>, participantId: int,
                   start: int) returns (t: map<int, VaccineAdministered>)
    ensures t == Upserted(pruned, Assign(rows, participantId, start))
  {
    t := pruned;
    var nextId := start;
    var k := 0;
    while k < |rows|
      invariant 0 <= k <= |rows|
      invariant nextId == start + NewCount(rows[..k])
      invariant t == Upserted(pruned, Assign(rows[..k], participantId, start))
    {
      var v := rows[k].(participantId := participantId);
      if v.id == 0 {
        v := v.(id := nextId);
        nextId := nextId + 1;
      }
      AssignStep(rows, participantId, start, k);
      assert v == Placed(rows[k], participantId, start + NewCount(rows[..k]));
      UpsertedStep(pruned, Assign(rows[..k], participantId, start), v);
      t := t[v.id := v];
      k := k + 1;
    }
    assert rows[..k] == rows;
  }

  /** The loop of Update(participants): each listed row overwritten in turn. */
  method OverwriteAll(table: map<int, Participant>, patients: seq<Participant>) returns (t: map<int, Participant>)
    ensures t == Overwritten(table, patients)
  {
    t := table;
    var k := 0;
    while k < |patients|
      invariant 0 <= k <= |patients|
      invariant t == Overwritten(table, patients[..k])
    {
      OverwrittenStep(table, patients, k);
      t := t[patients[k].id := patients[k]];
      k := k + 1;
    }
    assert patients[..k] == patients;
  }

  /** The loop of AddOrUpdate(centres): each site written under its id. */
  method WriteCentres(table: map<int, Centre>, centres: seq<Centre>) returns (t: map<int, Centre>)
    ensures t == CentresWritten(table, centres)
  {
    t := table;
    var k := 0;
    while k < |centres|
      invariant 0 <= k <= |centres|
      invariant t == CentresWritten(table, centres[..k])
    {
      CentresWrittenStep(table, centres, k);
      t := t[centres[k].id := centres[k]];
      k := k + 1;
    }
    assert centres[..k] == centres;
  }

  /** The loop over an archive's new sites: each is checked against the
      known sites, those accepted before it included; `count` sites are
      accepted before the loop ends or throws. */
  method AcceptAll(known: seq<Centre>, ranges: seq<Range>, candidates: seq<Centre>)
    returns (r: Result<(seq<Centre>, seq<Range>), Error>, newSites: map<int, Centre>, count: nat)
    ensures r == AcceptSites(known, ranges, candidates)
    ensures r.Success? ==> newSites == SiteTable(candidates) && count == |candidates|
    ensures count <= |candidates|
  {
    var ks, rs := known, ranges;
    newSites := map[];
    count := 0;
    while count < |candidates|
      invariant count <= |candidates|
      invariant AcceptSites(known, ranges, candidates[..count]) == Success((ks, rs))
      invariant newSites == SiteTable(candidates[..count])
    {
      var s := candidates[count];
      AcceptStep(known, ranges, candidates, count);
      var check := CheckSite(ks, s);
      if check.Some? {
        AcceptStopsAtFailure(known, ranges, candidates, count + 1);
        return Failure(check.value), newSites, count;
      }
      assert candidates[..count + 1][..count] == candidates[..count];
      ks, rs := ks + [s], rs + [Range(s.id, s.maxIdForSite)];
      newSites := newSites[s.id := s];
      count := count + 1;
    }
    assert candidates[..count] == candidates;
    r := Success((ks, rs));
  }

  /** The site step of one archive on values: the outcome and the number of
      sites accepted before it ends; none accepted leaves the site table. */
  method SiteStep(st: MergeState, archive: Archive) returns (r: Result<MergeState, Error>, count: nat)
    ensures r == AfterSites(st, archive)
    ensures r.Success? && count == 0 ==> r.value.db.centres == st.db.centres
  {
    var candidates := NewSites(archive.content.centres, Guids(st.known));
    var accepted, newSites;
    accepted, newSites, count := AcceptAll(st.known, st.ranges, candidates);
    AfterSitesBy(st, archive);
    if accepted.Failure? {
      return Failure(accepted.error), count;
    }
    if count == 0 {
      AfterNoSites(st, archive);
      return Success(st), count;
    }
    r := Success(st.(db := st.db.(centres := st.db.centres + newSites),
                     known := accepted.value.0, ranges := accepted.value.1));
  }

  /** The extraction loop of Restore: each due zip extracted over its data
      file, whose creation time is set to the zip's last write. */
  method Extract(data: map<string, FileRecord>, due: seq<MatchedPair>) returns (t: map<string, FileRecord>)
    ensures t == StampAll(data, due)
  {
    t := data;
    var k := 0;
    while k < |due|
      invariant 0 <= k <= |due|
      invariant t == StampAll(data, due[..k])
    {
      assert due[..k + 1][..k] == due[..k];
      t := t[ExtractedName(due[k].zip) := Stamped(due[k])];
      k := k + 1;
    }
    assert due[..k] == due;
  }

  class Repository {
    var db: Tables
    var siteCache: Option<map<int, Centre>>
    var baksForgoingMigration: seq<string>
    var dataDirectory: map<string, FileRecord>
    var cloudDirectories: seq<seq<FileRecord>>
    const dbName: string
    const rnd: Randomiser

    /** The site dictionary, once filled, is the site table, and the memo
        holds each file at most once. */
    ghost predicate Valid()
      reads this
    {
      (siteCache.Some? ==> siteCache.value == db.centres) && NoDuplicates(baksForgoingMigration)
    }

    constructor (db: Tables, dataDirectory: map<string, FileRecord>, cloudDirectories: seq<seq<FileRecord>>,
                 dbName: string, rnd: Randomiser)
      ensures Valid()
      ensures this.db == db && this.dataDirectory == dataDirectory && this.cloudDirectories == cloudDirectories
      ensures this.dbName == dbName && this.rnd == rnd
      ensures siteCache.None? && baksForgoingMigration == []
    {
      this.db := db;
      this.dataDirectory := dataDirectory;
      this.cloudDirectories := cloudDirectories;
      this.dbName := dbName;
      this.rnd := rnd;
      siteCache := None;
      baksForgoingMigration := [];
    }

    /** LocalStudyCentreDictionary: filled from the site table on first use. */
    method LocalStudyCentreDictionary() returns (sites: map<int, Centre>)
      requires Valid()
      modifies this
      ensures Valid()
      ensures sites == db.centres && siteCache == Some(db.centres)
      ensures db == old(db) && baksForgoingMigration == old(baksForgoingMigration)
      ensures dataDirectory == old(dataDirectory) && cloudDirectories == old(cloudDirectories)
    {
      if siteCache.None? {
        siteCache := Some(db.centres);
      }
      sites := siteCache.value;
    }

    /** FindStudyCentre: the dictionary's indexer, which throws on an unknown id. */
    method FindStudyCentre(centreId: int) returns (r: Result<Centre, Error>)
      requires Valid()
      modifies this
      ensures Valid()
      ensures r.Success? <==> centreId in db.centres
      ensures r.Success? ==> r.value == db.centres[centreId]
      ensures r.Failure? ==> r.error == SiteNotFound(centreId)
      ensures db == old(db) && siteCache == Some(db.centres) && baksForgoingMigration == old(baksForgoingMigration)
      ensures dataDirectory == old(dataDirectory) && cloudDirectories == old(cloudDirectories)
    {
      var sites := LocalStudyCentreDictionary();
      if centreId in sites {
        r := Success(sites[centreId]);
      } else {
        r := Failure(SiteNotFound(centreId));
      }
    }

    /** GetNextId over a table's ids, with the site read from the dictionary. */
    method GetNextId(ids: set<int>, centreId: int) returns (r: Result<int, Error>)
      requires Valid()
      modifies this
      ensures Valid()
      ensures r == NextIdFor(ids, db.centres, centreId)
      ensures db == old(db) && siteCache == Some(db.centres) && baksForgoingMigration == old(baksForgoingMigration)
      ensures dataDirectory == old(dataDirectory) && cloudDirectories == old(cloudDirectories)
    {
      var sites := LocalStudyCentreDictionary();
      r := NextIdFor(ids, sites, centreId);
    }

    /** Add(Participant): the range check, then the insert and the event. */
    method Add(p: Participant) returns (err: Option<Error>, changes: seq<Change>)
      requires Valid()
      modifies this
      ensures Valid()
      ensures match AddChecked(old(db.participants), old(db.centres), p)
              case Success(t) => err.None? && db == old(db).(participants := t) && changes == [ParticipantAdded(p)]
              case Failure(e) => err == Some(e) && db == old(db) && changes == []
      ensures siteCache == Some(db.centres) && baksForgoingMigration == old(baksForgoingMigration)
      ensures dataDirectory == old(dataDirectory) && cloudDirectories == old(cloudDirectories)
    {
      var centre := FindStudyCentre(p.centreId);
      if centre.Failure? {
        return Some(centre.error), [];
      }
      if p.id < centre.value.id {
        return Some(IdBelowSite(p.id)), [];
      } else if p.id > centre.value.maxIdForSite {
        return Some(IdAboveSite(p.id)), [];
      }
      if p.id in db.participants {
        return Some(DuplicateKey(p.id)), [];
      }
      db := db.(participants := db.participants[p.id := p]);
      err, changes := None, [ParticipantAdded(p)];
    }

    /**
     * AddParticipant: the participant is built from the form, the sibling
     * and envelope branches set its arm, block and id, and Add stores it.
     */
    method AddParticipant(reg: Registration, ambient: Ambient) returns (r: Result<Participant, Error>, changes: seq<Change>)
      requires Valid()
      modifies this
      ensures Valid()
      ensures match Enrol(reg, ambient, old(db.participants), old(db.centres), rnd)
              case Success((t, p)) => r == Success(p) && db == old(db).(participants := t) && changes == [ParticipantAdded(p)]
              case Failure(e) => r == Failure(e) && db == old(db) && changes == []
      ensures baksForgoingMigration == old(baksForgoingMigration)
      ensures dataDirectory == old(dataDirectory) && cloudDirectories == old(cloudDirectories)
    {
      var a := AllocateParticipant(reg, ambient);
      if a.Failure? {
        return Failure(a.error), [];
      }
      var err;
      err, changes := Add(a.value);
      if err.Some? {
        return Failure(err.value), [];
      }
      r := Success(a.value);
    }

    /** AddParticipant up to the call of Add: the sibling step, then the
        envelope or the site's next id and the allocation. */
    method AllocateParticipant(reg: Registration, ambient: Ambient) returns (r: Result<Participant, Error>)
      requires Valid()
      modifies this
      ensures Valid()
      ensures r == Allocate(reg, ambient, db.participants, db.centres, rnd)
      ensures db == old(db) && baksForgoingMigration == old(baksForgoingMigration)
      ensures dataDirectory == old(dataDirectory) && cloudDirectories == old(cloudDirectories)
    {
      var p := Registered(reg, ambient);
      if reg.multipleSiblingId.Some? {
        var siblingId := reg.multipleSiblingId.value;
        if siblingId !in db.participants {
          return Failure(ParticipantNotFound(siblingId));
        }
        var sibling := db.participants[siblingId];
        if sibling.isMale == p.isMale {
          p := Linked(p, sibling, siblingId);
          if reg.envelopeNumber.Some? {
            p := p.(id := IdAboveEnvelopes(db.participants.Keys, rnd.maxEnvelopeNumber));
          } else {
            var next := GetNextId(db.participants.Keys, reg.centreId);
            if next.Failure? {
              return Failure(next.error);
            }
            p := rnd.forceAllocationToArm(p.(id := next.value), db.participants);
          }
        }
      }
      assert SiblingStep(reg, Registered(reg, ambient), db.participants, db.centres, rnd) == Success(p);
      if p.multipleSiblingId.None? {
        if reg.envelopeNumber.Some? {
          var n := reg.envelopeNumber.value;
          var envelope := rnd.getEnvelope(n);
          if envelope.None? {
            return Failure(EnvelopeNotFound(n));
          }
          p := FromEnvelope(p, n, envelope.value);
        } else {
          var next := GetNextId(db.participants.Keys, reg.centreId);
          if next.Failure? {
            return Failure(next.error);
          }
          p := rnd.createAllocation(p.(id := next.value), db.participants);
        }
      }
      r := Success(p);
    }

    /**
     * UpdateParticipant (details form): the three checks, the site's next
     * violation id, the numbered violations inserted, then the edited
     * details written.
     */
    method UpdateParticipant(id: int, e: Edit, ambient: Ambient) returns (r: Result<Flags, Error>, changes: seq<Change>)
      requires Valid()
      modifies this
      ensures Valid()
      ensures match Revise(old(db.participants), old(db.violations), old(db.centres), id, e, ambient, rnd)
              case Success(rev) =>
                r == Success(rev.flags) && changes == [ParticipantUpdated(rev.participant)]
                && db == old(db).(participants := rev.participants, violations := rev.violations)
              case Failure(err) => r == Failure(err) && db == old(db) && changes == []
      ensures baksForgoingMigration == old(baksForgoingMigration)
      ensures dataDirectory == old(dataDirectory) && cloudDirectories == old(cloudDirectories)
    {
      ghost var revised := Revise(db.participants, db.violations, db.centres, id, e, ambient, rnd);
      if id !in db.participants {
        return Failure(ParticipantNotFound(id)), [];
      }
      var (p, details, flags) := Checked(db.participants[id], e, db.participants, rnd);
      var sites := LocalStudyCentreDictionary();
      var start := ViolationStart(db.participants, db.violations, sites, id, e, rnd);
      if start.Failure? {
        return Failure(start.error), [];
      }
      var written := WithEdit(p, e);
      var violations := InsertNumbered(db.violations, details, written.id, start.value, ambient);
      assert revised == Success(Revised(db.participants[id := written], violations, flags, written));
      db := db.(participants := db.participants[id := written], violations := violations);
      r, changes := Success(flags), [ParticipantUpdated(written)];
    }

    /**
     * AddOrUpdateVaccinesAdministered: the participant's rows missing from
     * the list are deleted, the site's next id is found, every listed id must
     * exist, and the rows are re-parented and written.
     */
    method AddOrUpdateVaccinesAdministered(participantId: int, rows: seq<VaccineAdministered>) returns (err: Option<Error>)
      requires Valid()
      modifies this
      ensures Valid()
      ensures (db.vaccinesAdministered, err)
              == SyncVaccines(old(db.vaccinesAdministered), old(db.participants), old(db.centres), participantId, rows)
      ensures db == old(db).(vaccinesAdministered := db.vaccinesAdministered)
      ensures baksForgoingMigration == old(baksForgoingMigration)
      ensures dataDirectory == old(dataDirectory) && cloudDirectories == old(cloudDirectories)
    {
      var pruned := Pruned(db.vaccinesAdministered, participantId, rows);
      db := db.(vaccinesAdministered := pruned);
      var sites := LocalStudyCentreDictionary();
      var start := SyncStart(pruned, db.participants, sites, participantId, NewCount(rows));
      if start.Failure? {
        return Some(start.error);
      }
      if exists k :: 0 <= k < |rows| && rows[k].id != 0 && rows[k].id !in pruned {
        return Some(MissingRow(MissingId(rows, pruned)));
      }
      var table := PlaceRows(pruned, rows, participantId, start.value);
      db := db.(vaccinesAdministered := table);
      err := None;
    }
    /**
     * UpdateParticipant (outcome form): the outcome fields and the
     * modification time are written, the vaccines synchronised with the
     * given list when there is one, then everything is saved at once.
     */
    method UpdateOutcome(id: int, outcome: Outcome, given: Option<seq<VaccineAdministered>>, ambient: Ambient)
      returns (err: Option<Error>, changes: seq<Change>)
      requires Valid()
      modifies this
      ensures Valid()
      ensures var saved := RecordOutcome(old(db.participants), old(db.vaccinesAdministered), old(db.centres),
                                         id, outcome, given, ambient);
              && db == old(db).(participants := saved.participants, vaccinesAdministered := saved.vaccinesAdministered)
              && err == saved.error
              && changes == if err.None? then [ParticipantUpdated(saved.participants[id])] else []
      ensures baksForgoingMigration == old(baksForgoingMigration)
      ensures dataDirectory == old(dataDirectory) && cloudDirectories == old(cloudDirectories)
    {
      if id !in db.participants {
        return Some(ParticipantNotFound(id)), [];
      }
      var p := db.participants[id].(outcome := outcome, recordLastModified := ambient.utcNow);
      if given.Some? {
        err := AddOrUpdateVaccinesAdministered(id, given.value);
        if err.Some? {
          return err, [];
        }
      }
      db := db.(participants := db.participants[id := p]);
      err, changes := None, [ParticipantUpdated(p)];
    }

    /** AddOrUpdateVaccinesFor: the synchronisation saved, then the
        participant reported as updated. */
    method AddOrUpdateVaccinesFor(participantId: int, rows: seq<VaccineAdministered>)
      returns (err: Option<Error>, changes: seq<Change>)
      requires Valid()
      modifies this
      ensures Valid()
      ensures (db.vaccinesAdministered, err)
              == SyncVaccines(old(db.vaccinesAdministered), old(db.participants), old(db.centres), participantId, rows)
      ensures db == old(db).(vaccinesAdministered := db.vaccinesAdministered)
      ensures err.None? ==> participantId in db.participants && changes == [ParticipantUpdated(db.participants[participantId])]
      ensures err.Some? ==> changes == []
      ensures baksForgoingMigration == old(baksForgoingMigration)
      ensures dataDirectory == old(dataDirectory) && cloudDirectories == old(cloudDirectories)
    {
      err := AddOrUpdateVaccinesAdministered(participantId, rows);
      if err.Some? {
        return err, [];
      }
      changes := [ParticipantUpdated(db.participants[participantId])];
    }

    /** AddOrUpdate(violation): a new violation is numbered, stamped and
        reported; an existing one is overwritten. */
    method AddOrUpdateViolation(v: Violation, ambient: Ambient) returns (err: Option<Error>, changes: seq<Change>)
      requires Valid()
      modifies this
      ensures Valid()
      ensures match SaveViolation(old(db.violations), old(db.participants), old(db.centres), v, ambient)
              case Success((t, events)) => err.None? && db == old(db).(violations := t) && changes == events
              case Failure(e) => err == Some(e) && db == old(db) && changes == []
      ensures baksForgoingMigration == old(baksForgoingMigration)
      ensures dataDirectory == old(dataDirectory) && cloudDirectories == old(cloudDirectories)
    {
      if v.participantId == 0 {
        return Some(MissingParticipantId), [];
      }
      if v.id == 0 {
        if v.participantId !in db.participants {
          return Some(ParticipantNotFound(v.participantId)), [];
        }
        var centreId := db.participants[v.participantId].centreId;
        var next := GetNextId(db.violations.Keys, centreId);
        if next.Failure? {
          return Some(next.error), [];
        }
        if next.value in db.violations {
          return Some(DuplicateKey(next.value)), [];
        }
        var added := AsReported(v, next.value, ambient);
        db := db.(violations := db.violations[next.value := added]);
        err, changes := None, [ViolationAdded(added)];
      } else if v.id in db.violations {
        db := db.(violations := db.violations[v.id := v]);
        err, changes := None, [];
      } else {
        err, changes := Some(MissingRow(v.id)), [];
      }
    }

    /** Update(participants): every id must be non-zero and held; then each
        listed row is overwritten in turn and the whole list saved. */
    method UpdateParticipants(patients: seq<Participant>) returns (err: Option<Error>)
      requires Valid()
      modifies this
      ensures Valid()
      ensures match UpdateAll(old(db.participants), patients)
              case Success(t) => err.None? && db == old(db).(participants := t)
              case Failure(e) => err == Some(e) && db == old(db)
      ensures siteCache == old(siteCache) && baksForgoingMigration == old(baksForgoingMigration)
      ensures dataDirectory == old(dataDirectory) && cloudDirectories == old(cloudDirectories)
    {
      if exists k :: 0 <= k < |patients| && patients[k].id == 0 {
        return Some(ZeroIdForUpdate);
      }
      if exists k :: 0 <= k < |patients| && patients[k].id !in db.participants {
        return Some(ParticipantNotFound(FirstUnknown(db.participants, patients)));
      }
      var table := OverwriteAll(db.participants, patients);
      db := db.(participants := table);
      err := None;
    }

    /** AddOrUpdate(centres): each site written under its id, then the site
        dictionary discarded. */
    method AddOrUpdateCentres(centres: seq<Centre>)
      requires Valid()
      modifies this
      ensures Valid()
      ensures db == old(db).(centres := CentresWritten(old(db.centres), centres))
      ensures siteCache.None? && baksForgoingMigration == old(baksForgoingMigration)
      ensures dataDirectory == old(dataDirectory) && cloudDirectories == old(cloudDirectories)
    {
      var table := WriteCentres(db.centres, centres);
      db := db.(centres := table);
      siteCache := None;
    }

    /** MigrateIfRequired: a file not yet forgone is migrated; when the
        migration does not run, the file is remembered and not offered again. */
    method MigrateIfRequired(fullFilename: string, migrate: string -> bool)
      requires Valid()
      modifies this
      ensures Valid()
      ensures baksForgoingMigration == Memo(old(baksForgoingMigration), fullFilename, migrate)
      ensures db == old(db) && siteCache == old(siteCache)
      ensures dataDirectory == old(dataDirectory) && cloudDirectories == old(cloudDirectories)
    {
      if fullFilename !in baksForgoingMigration {
        if !migrate(fullFilename) {
          var memo := baksForgoingMigration + [fullFilename];
          forall i, j | 0 <= i < j < |memo| ensures memo[i] != memo[j] {
            if j == |memo| - 1 {
              assert memo[i] == baksForgoingMigration[i];
            } else {
              assert memo[i] == baksForgoingMigration[i] && memo[j] == baksForgoingMigration[j];
            }
          }
          baksForgoingMigration := memo;
        }
      }
    }

    /**
     * The site step of AddOrUpdateBaks for one archive: the archive's sites
     * whose token is not known are checked and accepted in turn, and any
     * accepted site discards the site dictionary.
     */
    method AcceptNewSites(st: MergeState, archive: Archive) returns (r: Result<MergeState, Error>)
      requires Valid()
      modifies this`siteCache
      ensures Valid()
      ensures r == AfterSites(st, archive)
      ensures r.Success? && siteCache.Some? ==> r.value.db.centres == st.db.centres
      ensures siteCache == old(siteCache) || siteCache.None?
    {
      var count;
      r, count := SiteStep(st, archive);
      if count > 0 {
        siteCache := None;
      }
    }

    /** One archive of AddOrUpdateBaks: migrated if required, its sites
        accepted, its rows pulled and saved. */
    method MergeOne(st: MergeState, bak: BakFile, migrate: string -> bool) returns (r: Result<MergeState, Error>)
      requires Valid() && db == st.db
      modifies this
      ensures Valid()
      ensures r == MergeArchive(st, bak.archive)
      ensures db == if r.Success? then r.value.db else old(db)
      ensures baksForgoingMigration == Memo(old(baksForgoingMigration), bak.fullFilename, migrate)
      ensures siteCache == old(siteCache) || siteCache.None?
      ensures dataDirectory == old(dataDirectory) && cloudDirectories == old(cloudDirectories)
    {
      MigrateIfRequired(bak.fullFilename, migrate);
      var s1 := AcceptNewSites(st, bak.archive);
      MergeArchiveBy(st, bak.archive);
      if s1.Failure? {
        return Failure(s1.error);
      }
      var pulled := Pulled(s1.value, bak.archive);
      db := pulled.db;
      r := Success(pulled);
    }

    /** MergeOne as the i-th archive of a run that has merged the archives
        before it: the run either goes on from its result or ends with its
        error. */
    method MergeInRun(ghost start: MergeState, ghost archives: seq<Archive>, ghost names: seq<string>,
                      ghost memo: seq<string>, i: nat, st: MergeState, bak: BakFile, migrate: string -> bool)
      returns (next: Result<MergeState, Error>)
      requires Valid() && db == st.db
      requires i < |archives| && i < |names| && archives[i] == bak.archive && names[i] == bak.fullFilename
      requires MergeRun(start, archives[..i]) == (st, None)
      requires baksForgoingMigration == MemoAll(memo, names[..i], migrate)
      modifies this
      ensures Valid()
      ensures baksForgoingMigration == MemoAll(memo, names[..i + 1], migrate)
      ensures next.Failure? ==> db == st.db && MergeRun(start, archives) == (st, Some(next.error))
                                && Attempted(start, archives) == i + 1
      ensures next.Success? ==> db == next.value.db && MergeRun(start, archives[..i + 1]) == (next.value, None)
                                && Attempted(start, archives[..i + 1]) == i + 1
      ensures siteCache == old(siteCache) || siteCache.None?
      ensures dataDirectory == old(dataDirectory) && cloudDirectories == old(cloudDirectories)
    {
      MemoStep(memo, names, i, migrate);
      next := MergeOne(st, bak, migrate);
      if next.Failure? {
        RunFails(start, archives, i, st, next.error);
      } else {
        RunContinues(start, archives, i, st, next.value);
      }
    }

    /**
     * AddOrUpdateBaks: each archive in turn is migrated if required, its new
     * sites accepted and its rows pulled and saved; the first refused site
     * ends the run. Violations are reported as they are pulled, participants
     * only once every archive has merged.
     */
    method AddOrUpdateBaks(baks: seq<BakFile>, migrate: string -> bool) returns (changes: seq<Change>, err: Option<Error>)
      requires Valid()
      modifies this
      ensures Valid()
      ensures var run := MergeRun(Start(old(db)), Archives(baks));
              db == run.0.db && err == run.1 && changes == RunEvents(run.0, run.1.None?)
      ensures baksForgoingMigration
              == MemoAll(old(baksForgoingMigration), Names(baks)[..Attempted(Start(old(db)), Archives(baks))], migrate)
      ensures siteCache == old(siteCache) || siteCache.None?
      ensures dataDirectory == old(dataDirectory) && cloudDirectories == old(cloudDirectories)
    {
      ghost var archives := Archives(baks);
      ghost var names := Names(baks);
      ghost var start := Start(db);
      ghost var memo := baksForgoingMigration;
      var st := Start(db);
      var i := 0;
      while i < |baks|
        invariant 0 <= i <= |baks|
        invariant MergeRun(start, archives[..i]) == (st, None)
        invariant Attempted(start, archives[..i]) == i
        invariant db == st.db
        invariant baksForgoingMigration == MemoAll(memo, names[..i], migrate)
        invariant Valid() && (siteCache == old(siteCache) || siteCache.None?)
        invariant dataDirectory == old(dataDirectory) && cloudDirectories == old(cloudDirectories)
      {
        var next := MergeInRun(start, archives, names, memo, i, st, baks[i], migrate);
        if next.Failure? {
          return RunEvents(st, false), Some(next.error);
        }
        st := next.value;
        i := i + 1;
      }
      assert archives[..i] == archives;
      assert names[..i] == names;
      changes, err := RunEvents(st, true), None;
    }

    /**
     * Restore: every due pair of the scan is extracted into the data
     * directory and its copy stamped with the zip's last write; then the
     * extracted files are merged in scan order. Nothing due: nothing changes.
     */
    method Restore(migrate: string -> bool) returns (changes: seq<Change>, err: Option<Error>)
      requires Valid()
      modifies this
      ensures Valid()
      ensures dataDirectory == StampAll(old(dataDirectory), RestoreDue(old(cloudDirectories), old(dataDirectory), dbName))
      ensures var baks := RestoreBaks(dataDirectory, RestoreDue(old(cloudDirectories), old(dataDirectory), dbName));
              var run := MergeRun(Start(old(db)), Archives(baks));
              && db == run.0.db && err == run.1 && changes == RunEvents(run.0, run.1.None?)
              && baksForgoingMigration
                 == MemoAll(old(baksForgoingMigration), Names(baks)[..Attempted(Start(old(db)), Archives(baks))], migrate)
      ensures siteCache == old(siteCache) || siteCache.None?
      ensures cloudDirectories == old(cloudDirectories)
      ensures RestoreDue(old(cloudDirectories), old(dataDirectory), dbName) == [] ==>
                changes == [] && err.None? && db == old(db) && dataDirectory == old(dataDirectory)
                && baksForgoingMigration == old(baksForgoingMigration)
      ensures DistinctBases(CloudZips(cloudDirectories, dbName)) ==> RestoreDue(cloudDirectories, dataDirectory, dbName) == []
    {
      var due := RestoreDue(cloudDirectories, dataDirectory, dbName);
      if DistinctBases(CloudZips(cloudDirectories, dbName)) {
        RestoreSettles(cloudDirectories, dataDirectory, dbName);
      }
      if due == [] {
        NothingDue(db, baksForgoingMigration, dataDirectory, migrate);
        return [], None;
      }
      changes, err := ExtractAndMerge(due, migrate);
    }

    /** Restore once some pairs are due: extract them all, then merge the
        extracted files in order. */
    method ExtractAndMerge(due: seq<MatchedPair>, migrate: string -> bool) returns (changes: seq<Change>, err: Option<Error>)
      requires Valid()
      modifies this
      ensures Valid()
      ensures dataDirectory == StampAll(old(dataDirectory), due)
      ensures var baks := RestoreBaks(dataDirectory, due);
              var run := MergeRun(Start(old(db)), Archives(baks));
              && db == run.0.db && err == run.1 && changes == RunEvents(run.0, run.1.None?)
              && baksForgoingMigration
                 == MemoAll(old(baksForgoingMigration), Names(baks)[..Attempted(Start(old(db)), Archives(baks))], migrate)
      ensures siteCache == old(siteCache) || siteCache.None?
      ensures cloudDirectories == old(cloudDirectories)
    {
      var extracted := Extract(dataDirectory, due);
      dataDirectory := extracted;
      changes, err := AddOrUpdateBaks(RestoreBaks(extracted, due), migrate);
    }

    /**
     * Backup: nothing when the data file is missing; otherwise the first
     * local site's token names the zip in the first cloud directory, which is
     * written unless it is at least as recent as every table's last change.
     */
    method Backup(bakExists: bool, bakFileName: string, utcNow: int) returns (err: Option<Error>)
      requires Valid()
      modifies this
      ensures Valid()
      ensures !bakExists ==> err.None? && cloudDirectories == old(cloudDirectories) && siteCache == old(siteCache)
      ensures bakExists && db.centres == map[] ==> err == Some(NoLocalSite) && cloudDirectories == old(cloudDirectories)
      ensures bakExists && db.centres != map[] && old(cloudDirectories) == [] ==>
                err == Some(NoCloudDirectory) && cloudDirectories == old(cloudDirectories)
      ensures bakExists && db.centres != map[] && old(cloudDirectories) != [] ==>
                var dir := old(cloudDirectories)[0];
                var plan := BackupPlan(true, bakFileName, db.centres[FirstSiteId(db.centres)].guid, dir, TableMaxima(db));
                && err.None?
                && cloudDirectories == if plan.None? then old(cloudDirectories)
                                       else old(cloudDirectories)[0 := WriteFile(dir, FileRecord(plan.value.0, utcNow, utcNow, db))]
      ensures db == old(db) && baksForgoingMigration == old(baksForgoingMigration) && dataDirectory == old(dataDirectory)
    {
      if !bakExists {
        return None;
      }
      var sites := LocalStudyCentreDictionary();
      if sites == map[] {
        return Some(NoLocalSite);
      }
      if cloudDirectories == [] {
        return Some(NoCloudDirectory);
      }
      var guid := sites[FirstSiteId(sites)].guid;
      var dir := cloudDirectories[0];
      var plan := BackupPlan(true, bakFileName, guid, dir, TableMaxima(db));
      if plan.Some? {
        cloudDirectories := cloudDirectories[0 := WriteFile(dir, FileRecord(plan.value.0, utcNow, utcNow, db))];
      }
      err := None;
    }

    /**
     * BackupLimitedDbTo: Restore first; then, for a non-empty list of sites,
     * the destination name and the copy of the data file holding only the
     * rows of those sites' ranges.
     */
    method BackupLimitedDbTo(sites: seq<Centre>, migrate: string -> bool)
      returns (r: Result<(string, Tables), Error>, changes: seq<Change>)
      requires Valid()
      modifies this
      ensures Valid()
      ensures dataDirectory == StampAll(old(dataDirectory), RestoreDue(old(cloudDirectories), old(dataDirectory), dbName))
      ensures var baks := RestoreBaks(dataDirectory, RestoreDue(old(cloudDirectories), old(dataDirectory), dbName));
              var run := MergeRun(Start(old(db)), Archives(baks));
              && db == run.0.db && changes == RunEvents(run.0, run.1.None?)
              && r == if run.1.Some? then Failure(run.1.value) else LimitedResult(dbName, db, sites)
      ensures cloudDirectories == old(cloudDirectories)
    {
      var err;
      changes, err := Restore(migrate);
      if err.Some? {
        return Failure(err.value), changes;
      }
      if sites == [] {
        return Failure(NoSitesGiven), changes;
      }
      var name := dbName + "_" + sites[0].guid + BakExtension;
      var copy := LimitedCopy(db, sites);
      r := Success((name, copy.value));
    }
  }
}
