/**
 * The tables of the trial database, the errors the repository raises, and
 * the collaborators it calls but whose code is not part of this model.
 * Date-times are integer ticks; the record fields the repository never
 * reads or writes are left out.
 */
module Domain {
  import opened Wrappers

  /** A study site (StudyCentre): it owns the closed id range [id, maxIdForSite].
      `guid` is its DuplicateIdCheck token, written as 32 hex digits. */
  datatype Centre = Centre(id: int, name: string, maxIdForSite: int, guid: string, recordLastModified: int)

  /** The enrolment details a participant is registered with. */
  datatype Details = Details(
    name: string,
    mothersName: string,
    hospitalIdentifier: string,
    gestAgeBirth: real,
    dateTimeBirth: int,
    admissionDiagnosis: string,
    phoneNumber: string,
    inborn: Option<bool>,
    registeredAt: int)

  /** The follow-up fields written by the outcome form. Option codes stand for
      the CauseOfDeath and OutcomeAt28Days enumerations. */
  datatype Outcome = Outcome(
    causeOfDeath: nat,
    otherCauseOfDeathDetail: string,
    bcgAdverse: Option<bool>,
    bcgAdverseDetail: string,
    bcgPapule: Option<bool>,
    lastContactWeight: Option<int>,
    lastWeightDate: Option<int>,
    dischargeDateTime: Option<int>,
    deathOrLastContactDateTime: Option<int>,
    outcomeAt28Days: nat,
    notes: string)

  const NoOutcome := Outcome(0, "", None, "", None, None, None, None, None, 0, "")

  datatype Participant = Participant(
    id: int,
    centreId: int,
    details: Details,
    admissionWeight: int,
    isMale: bool,
    registeringInvestigator: string,
    appVersionAtEnrollment: string,
    wasEnvelopeRandomised: bool,
    isInterventionArm: bool,
    blockNumber: Option<int>,
    blockSize: int,
    multipleSiblingId: Option<int>,
    outcome: Outcome,
    recordLastModified: int)

  datatype ViolationType = MajorWrongAllocation | OtherViolation(code: nat)

  /** What a protocol violation reports. The source formats these values into
      its Details text; the model keeps the values. */
  datatype ViolationDetail =
    | BlockCriteriaChanged(oldWeight: int, oldIsMale: bool, newWeight: int, newIsMale: bool)
    | RetrospectivelyIneligible(oldWeight: int, newWeight: int)
    | SiblingIdChanged(oldSibling: Option<int>, newSibling: Option<int>)
    | Described(text: string)

  datatype Violation = Violation(
    id: int,
    participantId: int,
    violationType: ViolationType,
    detail: ViolationDetail,
    reportingTimeLocal: int,
    reportingInvestigator: string,
    recordLastModified: int)

  datatype VaccineAdministered = VaccineAdministered(
    id: int, participantId: int, vaccineId: int, administeredAt: int, recordLastModified: int)

  /** A screened patient; the screening answers are not read by the repository
      logic modelled here. */
  datatype ScreenedPatient = ScreenedPatient(id: int, centreId: int, recordLastModified: int)

  datatype Vaccine = Vaccine(id: int, name: string, recordLastModified: int)

  /** The six tables of a trial database, each keyed by record id. */
  datatype Tables = Tables(
    centres: map<int, Centre>,
    participants: map<int, Participant>,
    screened: map<int, ScreenedPatient>,
    vaccines: map<int, Vaccine>,
    vaccinesAdministered: map<int, VaccineAdministered>,
    violations: map<int, Violation>)

  const EmptyTables := Tables(map[], map[], map[], map[], map[], map[])

  /** Every row is stored under its own id. */
  predicate Keyed(t: Tables)
  {
    && (forall k :: k in t.centres ==> t.centres[k].id == k)
    && (forall k :: k in t.participants ==> t.participants[k].id == k)
    && (forall k :: k in t.screened ==> t.screened[k].id == k)
    && (forall k :: k in t.vaccines ==> t.vaccines[k].id == k)
    && (forall k :: k in t.vaccinesAdministered ==> t.vaccinesAdministered[k].id == k)
    && (forall k :: k in t.violations ==> t.violations[k].id == k)
  }

  /** The exceptions of the repository, one constructor per way of failing. */
  datatype Error =
    | RangeExhausted(centreId: int)           // GetNextId: DataKeyOutOfRangeException
    | IdBelowSite(participantId: int)         // Add(Participant): DataKeyOutOfRangeException
    | IdAboveSite(participantId: int)         // Add(Participant): DataKeyOutOfRangeException
    | ZeroIdForUpdate                         // Update(participants): DataKeyOutOfRangeException
    | SiteNotFound(centreId: int)             // a lookup of an unknown site
    | ParticipantNotFound(participantId: int) // a lookup of an unknown participant
    | EnvelopeNotFound(envelopeNumber: int)   // GetEnvelope has no such envelope
    | MissingParticipantId                    // AddOrUpdate(violation): ArgumentException
    | DuplicateKey(id: int)                   // the table's primary key refuses a second row
    | DuplicateDataKey(siteId: int)           // merge: a new site reuses a known site's id
    | OverlappingDataKeyRange(siteId: int, maxIdForSite: int) // merge: ranges intersect
    | NoSitesGiven                            // BackupLimitedDbTo with no site
    | NoLocalSite                             // Backup: LocalStudyCentres.First() on no site
    | NoCloudDirectory                        // Backup: CloudDirectories.First() on none
    | MissingRow(id: int)                     // an update of a row the table does not hold

  /** A site's closed id range (IntegerRange). */
  datatype Range = Range(min: int, max: int)

  /** The closed id range [Id, MaxIdForSite] of each site, in order. */
  function SiteRanges(sites: seq<Centre>): (r: seq<Range>)
    ensures |r| == |sites|
    ensures forall k :: 0 <= k < |sites| ==> r[k] == Range(sites[k].id, sites[k].maxIdForSite)
  {
    seq(|sites|, k requires 0 <= k < |sites| => Range(sites[k].id, sites[k].maxIdForSite))
  }

  /** The id lies in one of the closed ranges. */
  predicate InSomeRange(id: int, ranges: seq<Range>)
  {
    exists k :: 0 <= k < |ranges| && ranges[k].min <= id <= ranges[k].max
  }

  /** A sealed randomisation envelope. */
  datatype Envelope = Envelope(blockNumber: int, blockSize: int, isInterventionArm: bool)

  /**
   * The randomisation collaborators the repository calls (RandomisingEngine,
   * EnvelopeDetails, RandomisingExtensions). Their code is not part of this
   * model, so they are parameters: every property proved here holds whatever
   * they do. GetEnvelope may know no envelope of a number (None), in which
   * case the enrolment fails. The allocation routines receive the participant and the
   * participants table (the source passes the repository itself).
   */
  datatype Randomiser = Randomiser(
    maxEnvelopeNumber: int,
    maxBirthWeightGrams: int,
    getEnvelope: int -> Option<Envelope>,
    isSameRandomisingCategory: (bool, bool, int, int) -> bool,
    createAllocation: (Participant, map<int, Participant>) -> Participant,
    forceAllocationToArm: (Participant, map<int, Participant>) -> Participant,
    reassignBlockRandomisingData: (Participant, bool, int, map<int, Participant>) -> Participant)

  /** Ambient inputs: the current principal's name, the application version,
      the local clock (DateTime.Now) and the UTC clock (DateTime.UtcNow). */
  datatype Ambient = Ambient(investigator: string, appVersion: string, now: int, utcNow: int)

  /** A change notification (the source raises these as events). */
  datatype Change =
    | ParticipantAdded(participant: Participant)
    | ParticipantUpdated(participant: Participant)
    | ViolationAdded(violation: Violation)

  /** In a site table that stores each site under its own id, a site is
      stored iff it sits under its id. */
  lemma KeyedValues(centres: map<int, Centre>)
    requires forall k :: k in centres ==> centres[k].id == k
    ensures forall c :: c in centres.Values <==> c.id in centres && centres[c.id] == c
  {
    forall c | c in centres.Values ensures c.id in centres && centres[c.id] == c {
      if !(c.id in centres && centres[c.id] == c) {
        assert forall k :: k in centres ==> centres[k] != c;
        assert false;
      }
    }
  }
}
