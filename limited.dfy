/**
 * BackupLimitedDbTo: a copy of the data file from which every study-centre,
 * participant, violation, screened-patient and vaccine-administered row
 * whose id lies outside all of the given sites' ranges is deleted.
 */
module LimitedBackup {
  import opened Wrappers
  import opened Domain
  import Files

  /** The rows of a table that survive the delete. */
  function Keep<T>(table: map<int, T>, sites: seq<Centre>): (r: map<int, T>)
    ensures forall id :: id in r <==> id in table && InSomeRange(id, SiteRanges(sites))
    ensures forall id :: id in r ==> r[id] == table[id]
  {
    map id | id in table && InSomeRange(id, SiteRanges(sites)) :: table[id]
  }

  /**
   * The tables of the limited copy. The source takes the first site's token
   * for the file name and joins the ranges with Aggregate, both of which
   * throw on an empty list: NoSitesGiven. The vaccine table is not filtered.
   */
  function LimitedCopy(db: Tables, sites: seq<Centre>): (r: Result<Tables, Error>)
    ensures sites == [] <==> r.Failure?
    ensures r.Failure? ==> r.error == NoSitesGiven
    ensures r.Success? ==> r.value.vaccines == db.vaccines
    ensures r.Success? ==> forall id ::
              && (id in r.value.centres <==> id in db.centres && InSomeRange(id, SiteRanges(sites)))
              && (id in r.value.participants <==> id in db.participants && InSomeRange(id, SiteRanges(sites)))
              && (id in r.value.screened <==> id in db.screened && InSomeRange(id, SiteRanges(sites)))
              && (id in r.value.vaccinesAdministered <==> id in db.vaccinesAdministered && InSomeRange(id, SiteRanges(sites)))
              && (id in r.value.violations <==> id in db.violations && InSomeRange(id, SiteRanges(sites)))
    ensures r.Success? ==> forall id :: id in r.value.participants ==> r.value.participants[id] == db.participants[id]
  {
    if sites == [] then Failure(NoSitesGiven)
    else Success(Tables(Keep(db.centres, sites), Keep(db.participants, sites), Keep(db.screened, sites),
                        db.vaccines, Keep(db.vaccinesAdministered, sites), Keep(db.violations, sites)))
  }

  /** Limiting a limited copy to the same sites changes nothing. */
  lemma LimitedCopyIdempotent(db: Tables, sites: seq<Centre>)
    requires sites != []
    ensures var once := LimitedCopy(db, sites).value;
            LimitedCopy(once, sites) == Success(once)
  {
    var once := LimitedCopy(db, sites).value;
    var twice := LimitedCopy(once, sites).value;
    KeepIdempotent(once.centres, sites);
    KeepIdempotent(once.participants, sites);
    KeepIdempotent(once.screened, sites);
    KeepIdempotent(once.vaccinesAdministered, sites);
    KeepIdempotent(once.violations, sites);
  }

  /** A table already limited to the sites is its own limitation. */
  lemma KeepIdempotent<T>(table: map<int, T>, sites: seq<Centre>)
    requires forall id :: id in table ==> InSomeRange(id, SiteRanges(sites))
    ensures Keep(table, sites) == table
  {
    var r := Keep(table, sites);
    assert forall id :: id in r <==> id in table;
  }

  /** The copy's name in the destination directory: the database name, '_',
      the first site's token and ".sdf". */
  function LimitedBackupName(dbName: string, sites: seq<Centre>): (r: Option<string>)
    ensures r.Some? <==> sites != []
    ensures r.Some? ==> |r.value| >= 4 && r.value[|r.value| - 4..] == Files.BakExtension
  {
    if sites == [] then None else Some(dbName + "_" + sites[0].guid + Files.BakExtension)
  }
}
