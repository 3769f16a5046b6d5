/**
 * Changes to stored participants and their protocol violations: the edit of
 * the enrolment details with its three violation checks (UpdateParticipant),
 * the outcome form (the second UpdateParticipant), AddOrUpdate of one
 * protocol violation, and Update of a list of participants.
 */
module Revision {
  import opened Wrappers
  import opened Domain
  import opened IdAllocation
  import opened Numbering

  /** What the edit form supplies. */
  datatype Edit = Edit(
    name: string,
    isMale: bool,
    phoneNumber: string,
    admissionDiagnosis: string,
    admissionWeight: int,
    dateTimeBirth: int,
    gestAgeBirth: real,
    hospitalIdentifier: string,
    inborn: Option<bool>,
    multipleSiblingId: Option<int>,
    registeredAt: int,
    isEnvelopeRandomising: bool)

  /** UpdateParticipantViolationType: the checks that fired. */
  datatype Flags = Flags(blockCriteriaChanged: bool, ineligibleWeight: bool, multipleSiblingIdChanged: bool)

  const NoViolations := Flags(false, false, false)

  function FlagCount(f: Flags): (n: nat)
    ensures n <= 3
    ensures n == 0 <==> f == NoViolations
  {
    (if f.blockCriteriaChanged then 1 else 0) + (if f.ineligibleWeight then 1 else 0)
    + (if f.multipleSiblingIdChanged then 1 else 0)
  }

  /**
   * The first check: a change of randomising category (old sex and weight
   * against the new ones). For an envelope-randomised participant the block
   * is cleared; otherwise ReasignBlockRandomisingData re-allocates it.
   */
  function CategoryCheck(p: Participant, e: Edit, participants: map<int, Participant>, rnd: Randomiser)
    : (r: (Participant, seq<ViolationDetail>))
    ensures |r.1| <= 1
    ensures |r.1| == 1 <==> !rnd.isSameRandomisingCategory(p.isMale, e.isMale, p.admissionWeight, e.admissionWeight)
    ensures |r.1| == 1 ==> r.1[0] == BlockCriteriaChanged(p.admissionWeight, p.isMale, e.admissionWeight, e.isMale)
    ensures |r.1| == 0 ==> r.0 == p
    ensures |r.1| == 1 && e.isEnvelopeRandomising ==>
              r.0.blockNumber.None? && r.0.blockSize == 0 && r.0.multipleSiblingId == p.multipleSiblingId
              && r.0.id == p.id && r.0.centreId == p.centreId && r.0.admissionWeight == p.admissionWeight
  {
    if rnd.isSameRandomisingCategory(p.isMale, e.isMale, p.admissionWeight, e.admissionWeight) then (p, [])
    else
      var q := if e.isEnvelopeRandomising then p.(blockNumber := None, blockSize := 0)
               else rnd.reassignBlockRandomisingData(p, e.isMale, e.admissionWeight, participants);
      (q, [BlockCriteriaChanged(p.admissionWeight, p.isMale, e.admissionWeight, e.isMale)])
  }

  /** The second check: a new weight above the eligibility ceiling is
      recorded and reported. */
  function WeightCheck(p: Participant, e: Edit, rnd: Randomiser): (r: (Participant, seq<ViolationDetail>))
    ensures |r.1| <= 1
    ensures |r.1| == 1 <==> e.admissionWeight > rnd.maxBirthWeightGrams
    ensures |r.1| == 1 ==> r.1[0] == RetrospectivelyIneligible(p.admissionWeight, e.admissionWeight)
                           && r.0 == p.(admissionWeight := e.admissionWeight)
    ensures |r.1| == 0 ==> r.0 == p
  {
    if e.admissionWeight > rnd.maxBirthWeightGrams then
      (p.(admissionWeight := e.admissionWeight), [RetrospectivelyIneligible(p.admissionWeight, e.admissionWeight)])
    else (p, [])
  }

  /** The third check: a changed sibling id is recorded and reported. */
  function SiblingCheck(p: Participant, e: Edit): (r: (Participant, seq<ViolationDetail>))
    ensures |r.1| <= 1
    ensures |r.1| == 1 <==> p.multipleSiblingId != e.multipleSiblingId
    ensures |r.1| == 1 ==> r.1[0] == SiblingIdChanged(p.multipleSiblingId, e.multipleSiblingId)
    ensures r.0 == p.(multipleSiblingId := e.multipleSiblingId)
  {
    if p.multipleSiblingId != e.multipleSiblingId then
      (p.(multipleSiblingId := e.multipleSiblingId), [SiblingIdChanged(p.multipleSiblingId, e.multipleSiblingId)])
    else (p, [])
  }

  /**
   * The three checks in the source's order. Each one that fires appends one
   * violation detail and sets one flag, so the details and the flags
   * correspond one to one, in the order category, weight, sibling.
   */
  function Checked(p: Participant, e: Edit, participants: map<int, Participant>, rnd: Randomiser)
    : (r: (Participant, seq<ViolationDetail>, Flags))
    ensures r.2.blockCriteriaChanged <==>
              !rnd.isSameRandomisingCategory(p.isMale, e.isMale, p.admissionWeight, e.admissionWeight)
    ensures r.2.ineligibleWeight <==> e.admissionWeight > rnd.maxBirthWeightGrams
    ensures r.2.multipleSiblingIdChanged <==>
              CategoryCheck(p, e, participants, rnd).0.multipleSiblingId != e.multipleSiblingId
    ensures |r.1| == FlagCount(r.2)
    ensures r.2.blockCriteriaChanged <==> exists k :: 0 <= k < |r.1| && r.1[k].BlockCriteriaChanged?
    ensures r.2.ineligibleWeight <==> exists k :: 0 <= k < |r.1| && r.1[k].RetrospectivelyIneligible?
    ensures r.2.multipleSiblingIdChanged <==> exists k :: 0 <= k < |r.1| && r.1[k].SiblingIdChanged?
    ensures r.0.multipleSiblingId == e.multipleSiblingId
  {
    var (p1, d1) := CategoryCheck(p, e, participants, rnd);
    var (p2, d2) := WeightCheck(p1, e, rnd);
    var (p3, d3) := SiblingCheck(p2, e);
    var details := d1 + d2 + d3;
    assert forall k :: 0 <= k < |d1| ==> details[k] == d1[k];
    assert forall k :: 0 <= k < |d2| ==> details[|d1| + k] == d2[k];
    assert forall k :: 0 <= k < |d3| ==> details[|d1| + |d2| + k] == d3[k];
    (p3, details, Flags(|d1| == 1, |d2| == 1, |d3| == 1))
  }

  /** The detail fields the edit writes; the mother's name and the sex are
      left as stored. */
  function WithEdit(p: Participant, e: Edit): (q: Participant)
    ensures q.details.name == e.name && q.details.phoneNumber == e.phoneNumber
    ensures q.details.admissionDiagnosis == e.admissionDiagnosis && q.details.dateTimeBirth == e.dateTimeBirth
    ensures q.details.gestAgeBirth == e.gestAgeBirth && q.details.hospitalIdentifier == e.hospitalIdentifier
    ensures q.details.inborn == e.inborn && q.details.registeredAt == e.registeredAt
    ensures q.details.mothersName == p.details.mothersName && q.isMale == p.isMale
    ensures q.(details := p.details) == p
  {
    p.(details := p.details.(name := e.name, phoneNumber := e.phoneNumber, admissionDiagnosis := e.admissionDiagnosis,
                             dateTimeBirth := e.dateTimeBirth, gestAgeBirth := e.gestAgeBirth,
                             hospitalIdentifier := e.hospitalIdentifier, inborn := e.inborn,
                             registeredAt := e.registeredAt))
  }

  /** The state after an edit: both tables, the flags and the saved participant. */
  datatype Revised = Revised(participants: map<int, Participant>, violations: map<int, Violation>,
                             flags: Flags, participant: Participant)

  /** The participant after the checks (the violations' site is its site). */
  function Checked0(participants: map<int, Participant>, id: int, e: Edit, rnd: Randomiser): (p: Participant)
    requires id in participants
  {
    Checked(participants[id], e, participants, rnd).0
  }

  /** The first id of the edit's violations (GetNextId is called even when
      no check fires). */
  function ViolationStart(participants: map<int, Participant>, violations: map<int, Violation>,
                          sites: map<int, Centre>, id: int, e: Edit, rnd: Randomiser): (r: Result<int, Error>)
    requires id in participants
    ensures r.Success? ==> Checked0(participants, id, e, rnd).centreId in sites
  {
    var (p, details, _) := Checked(participants[id], e, participants, rnd);
    if p.centreId !in sites then Failure(SiteNotFound(p.centreId))
    else BatchStart(violations.Keys, p.centreId, sites[p.centreId].maxIdForSite, |details|)
  }

  /**
   * UpdateParticipant (details form) with the corrected numbering: the
   * checks, the violations numbered from the site's next violation id and
   * inserted, the edited details written.
   */
  function Revise(participants: map<int, Participant>, violations: map<int, Violation>, sites: map<int, Centre>,
                  id: int, e: Edit, ambient: Ambient, rnd: Randomiser): (r: Result<Revised, Error>)
    ensures id !in participants ==> r == Failure(ParticipantNotFound(id))
    ensures r.Success? ==> id in participants && r.value.participants == participants[id := r.value.participant]
    ensures r.Success? ==> r.value.flags == Checked(participants[id], e, participants, rnd).2
  {
    if id !in participants then Failure(ParticipantNotFound(id))
    else
      var (p, details, flags) := Checked(participants[id], e, participants, rnd);
      match ViolationStart(participants, violations, sites, id, e, rnd)
      case Failure(err) => Failure(err)
      case Success(start) =>
        var written := WithEdit(p, e);
        Success(Revised(participants[id := written],
                        InsertViolations(violations, NumberViolations(details, written.id, start, ambient)),
                        flags, written))
  }

  /** A successful edit writes the checked participant with the edited
      details and inserts the numbered violations of the checks. */
  lemma ReviseWrites(participants: map<int, Participant>, violations: map<int, Violation>,
                     sites: map<int, Centre>, id: int, e: Edit, ambient: Ambient, rnd: Randomiser)
    requires Revise(participants, violations, sites, id, e, ambient, rnd).Success?
    ensures var r := Revise(participants, violations, sites, id, e, ambient, rnd).value;
            var start := ViolationStart(participants, violations, sites, id, e, rnd).value;
            start == BatchStart(violations.Keys, Checked0(participants, id, e, rnd).centreId,
                                sites[Checked0(participants, id, e, rnd).centreId].maxIdForSite, FlagCount(r.flags)).value
            && r.participant == WithEdit(Checked0(participants, id, e, rnd), e)
            && r.violations == InsertViolations(violations, NumberViolations(Checked(participants[id], e, participants, rnd).1,
                                                                             r.participant.id, start, ambient))
  {
  }

  /**
   * An edit's violation records: the old rows are kept, and exactly one new
   * row per fired check is added under the consecutive ids from the site's
   * next violation id; each carries this participant's id, the type
   * MajorWrongAllocation, the local time and the current user.
   */
  lemma ReviseAddsOneViolationPerFlag(participants: map<int, Participant>, violations: map<int, Violation>,
                                      sites: map<int, Centre>, id: int, e: Edit, ambient: Ambient, rnd: Randomiser)
    requires Revise(participants, violations, sites, id, e, ambient, rnd).Success?
    requires 0 <= Checked0(participants, id, e, rnd).centreId
    ensures var r := Revise(participants, violations, sites, id, e, ambient, rnd).value;
            var start := ViolationStart(participants, violations, sites, id, e, rnd).value;
            var n := FlagCount(r.flags);
            && (forall x :: x in r.violations <==> x in violations || x in Block(start, n))
            && (forall x :: x in violations ==> x !in Block(start, n) && r.violations[x] == violations[x])
            && (forall x :: x in Block(start, n) ==>
                  var v := r.violations[x];
                  v.id == x && v.participantId == r.participant.id && v.violationType == MajorWrongAllocation
                  && v.reportingTimeLocal == ambient.now && v.reportingInvestigator == ambient.investigator)
  {
    var r := Revise(participants, violations, sites, id, e, ambient, rnd).value;
    var details := Checked(participants[id], e, participants, rnd).1;
    var start := ViolationStart(participants, violations, sites, id, e, rnd).value;
    ReviseWrites(participants, violations, sites, id, e, ambient, rnd);
    NumberedTable(violations, details, r.participant.id, start, ambient);
  }

  /** The kinds of violation the rows under `ids` report, as flags. */
  function ReportedKinds(t: map<int, Violation>, ids: set<int>): (f: Flags)
    requires forall x :: x in ids ==> x in t
  {
    Flags(exists x :: x in ids && t[x].detail.BlockCriteriaChanged?,
          exists x :: x in ids && t[x].detail.RetrospectivelyIneligible?,
          exists x :: x in ids && t[x].detail.SiblingIdChanged?)
  }

  /** The flags an edit returns are exactly the kinds its new violation
      records report: each fired check has its record and each record
      reports a fired check. */
  lemma ReviseReportsEachFlag(participants: map<int, Participant>, violations: map<int, Violation>,
                              sites: map<int, Centre>, id: int, e: Edit, ambient: Ambient, rnd: Randomiser)
    requires Revise(participants, violations, sites, id, e, ambient, rnd).Success?
    requires 0 <= Checked0(participants, id, e, rnd).centreId
    ensures var r := Revise(participants, violations, sites, id, e, ambient, rnd).value;
            var start := ViolationStart(participants, violations, sites, id, e, rnd).value;
            (forall x :: x in Block(start, FlagCount(r.flags)) ==> x in r.violations)
            && r.flags == ReportedKinds(r.violations, Block(start, FlagCount(r.flags)))
  {
    var r := Revise(participants, violations, sites, id, e, ambient, rnd).value;
    var c := Checked(participants[id], e, participants, rnd);
    var start := ViolationStart(participants, violations, sites, id, e, rnd).value;
    ReviseWrites(participants, violations, sites, id, e, ambient, rnd);
    assert r.flags == c.2;
    NumberedBatchReports(violations, c.1, c.2, r.participant.id, start, ambient);
  }

  /** A batch numbered from `start` with one detail of each kind a flag sets
      reports exactly those flags once inserted. */
  lemma NumberedBatchReports(violations: map<int, Violation>, details: seq<ViolationDetail>, flags: Flags,
                             participantId: int, start: int, ambient: Ambient)
    requires |details| == FlagCount(flags)
    requires flags.blockCriteriaChanged <==> exists k :: 0 <= k < |details| && details[k].BlockCriteriaChanged?
    requires flags.ineligibleWeight <==> exists k :: 0 <= k < |details| && details[k].RetrospectivelyIneligible?
    requires flags.multipleSiblingIdChanged <==> exists k :: 0 <= k < |details| && details[k].SiblingIdChanged?
    ensures var t := InsertViolations(violations, NumberViolations(details, participantId, start, ambient));
            (forall x :: x in Block(start, |details|) ==> x in t)
            && flags == ReportedKinds(t, Block(start, |details|))
  {
    NumberedReports(violations, NumberViolations(details, participantId, start, ambient), details, flags, start);
  }

  /** Rows numbered start, start + 1, ... carrying one detail of each kind a
      flag sets report exactly those flags once inserted. */
  lemma NumberedReports(violations: map<int, Violation>, rows: seq<Violation>, details: seq<ViolationDetail>,
                        flags: Flags, start: int)
    requires |rows| == |details| == FlagCount(flags)
    requires flags.blockCriteriaChanged <==> exists k :: 0 <= k < |details| && details[k].BlockCriteriaChanged?
    requires flags.ineligibleWeight <==> exists k :: 0 <= k < |details| && details[k].RetrospectivelyIneligible?
    requires flags.multipleSiblingIdChanged <==> exists k :: 0 <= k < |details| && details[k].SiblingIdChanged?
    requires forall k :: 0 <= k < |rows| ==> rows[k].id == start + k && rows[k].detail == details[k]
    ensures var t := InsertViolations(violations, rows);
            (forall x :: x in Block(start, |rows|) ==> x in t)
            && flags == ReportedKinds(t, Block(start, |rows|))
  {
    BlockInsertedRows(violations, rows, start);
    BatchReports(InsertViolations(violations, rows), details, flags, start);
  }

  /** Records stored under start, start + 1, ... for a list of details that
      has one detail of each kind a flag sets report exactly those flags. */
  lemma BatchReports(t: map<int, Violation>, details: seq<ViolationDetail>, flags: Flags, start: int)
    requires |details| == FlagCount(flags)
    requires flags.blockCriteriaChanged <==> exists k :: 0 <= k < |details| && details[k].BlockCriteriaChanged?
    requires flags.ineligibleWeight <==> exists k :: 0 <= k < |details| && details[k].RetrospectivelyIneligible?
    requires flags.multipleSiblingIdChanged <==> exists k :: 0 <= k < |details| && details[k].SiblingIdChanged?
    requires forall x :: x in Block(start, |details|) ==> x in t && t[x].detail == details[x - start]
    ensures flags == ReportedKinds(t, Block(start, |details|))
  {
    assert forall k :: 0 <= k < |details| ==> start + k in Block(start, |details|) && t[start + k].detail == details[k];
  }

  /** When no check fires, the result is NoViolations and the violations
      table is left as it was. */
  lemma QuietEditAddsNothing(participants: map<int, Participant>, violations: map<int, Violation>,
                             sites: map<int, Centre>, id: int, e: Edit, ambient: Ambient, rnd: Randomiser)
    requires id in participants
    requires var p := participants[id];
             rnd.isSameRandomisingCategory(p.isMale, e.isMale, p.admissionWeight, e.admissionWeight)
             && e.admissionWeight <= rnd.maxBirthWeightGrams && e.multipleSiblingId == p.multipleSiblingId
    requires Revise(participants, violations, sites, id, e, ambient, rnd).Success?
    ensures Revise(participants, violations, sites, id, e, ambient, rnd).value.flags == NoViolations
    ensures Revise(participants, violations, sites, id, e, ambient, rnd).value.violations == violations
    ensures Revise(participants, violations, sites, id, e, ambient, rnd).value.participant
            == WithEdit(participants[id], e)
  {
  }

  /** A category change of an envelope-randomised participant clears the
      block number and size. */
  lemma EnvelopeCategoryChangeClearsBlock(participants: map<int, Participant>, violations: map<int, Violation>,
                                          sites: map<int, Centre>, id: int, e: Edit, ambient: Ambient, rnd: Randomiser)
    requires id in participants && e.isEnvelopeRandomising
    requires var p := participants[id];
             !rnd.isSameRandomisingCategory(p.isMale, e.isMale, p.admissionWeight, e.admissionWeight)
    requires Revise(participants, violations, sites, id, e, ambient, rnd).Success?
    ensures var q := Revise(participants, violations, sites, id, e, ambient, rnd).value.participant;
            q.blockNumber.None? && q.blockSize == 0 && q.multipleSiblingId == e.multipleSiblingId
  {
  }

  // ---------------------------------------------------------------------
  // The outcome form

  /** The outcome form's effect on both tables; `error` is the exception,
      if any. A failed vaccine sync has already deleted rows. */
  datatype OutcomeSaved = OutcomeSaved(participants: map<int, Participant>,
                                       vaccinesAdministered: map<int, VaccineAdministered>,
                                       error: Option<Error>)

  /**
   * UpdateParticipant (outcome form): the outcome fields and the modification
   * time are written; when a list of vaccines is given, the participant's
   * vaccines are synchronised with it (the corrected call passes that list).
   */
  function RecordOutcome(participants: map<int, Participant>, vaccinesAdministered: map<int, VaccineAdministered>,
                         sites: map<int, Centre>, id: int, outcome: Outcome,
                         given: Option<seq<VaccineAdministered>>, ambient: Ambient): (r: OutcomeSaved)
    ensures id !in participants ==> r == OutcomeSaved(participants, vaccinesAdministered, Some(ParticipantNotFound(id)))
    ensures r.error.None? ==>
              id in participants
              && r.participants == participants[id := participants[id].(outcome := outcome, recordLastModified := ambient.utcNow)]
    ensures r.error.Some? ==> r.participants == participants
    ensures given.None? ==> r.vaccinesAdministered == vaccinesAdministered
    ensures id in participants && given.Some? ==>
              (r.vaccinesAdministered, r.error) == SyncVaccines(vaccinesAdministered, participants, sites, id, given.value)
  {
    if id !in participants then OutcomeSaved(participants, vaccinesAdministered, Some(ParticipantNotFound(id)))
    else
      var p := participants[id].(outcome := outcome, recordLastModified := ambient.utcNow);
      if given.None? then OutcomeSaved(participants[id := p], vaccinesAdministered, None)
      else
        var (table, err) := SyncVaccines(vaccinesAdministered, participants, sites, id, given.value);
        if err.Some? then OutcomeSaved(participants, table, err)
        else OutcomeSaved(participants[id := p], table, None)
  }

  /** Saving an outcome touches no other participant and, of this one, only
      the outcome and the modification time. */
  lemma OutcomeChangesOnlyOutcome(participants: map<int, Participant>, vaccinesAdministered: map<int, VaccineAdministered>,
                                  sites: map<int, Centre>, id: int, outcome: Outcome,
                                  given: Option<seq<VaccineAdministered>>, ambient: Ambient)
    requires RecordOutcome(participants, vaccinesAdministered, sites, id, outcome, given, ambient).error.None?
    ensures var r := RecordOutcome(participants, vaccinesAdministered, sites, id, outcome, given, ambient);
            r.participants.Keys == participants.Keys
            && (forall other :: other in participants && other != id ==> r.participants[other] == participants[other])
            && r.participants[id].outcome == outcome
            && r.participants[id].(outcome := participants[id].outcome,
                                   recordLastModified := participants[id].recordLastModified) == participants[id]
  {
  }

  // ---------------------------------------------------------------------
  // AddOrUpdate(ProtocolViolation)

  /**
   * A violation with id 0 is new: it gets the next violation id of its
   * participant's site, the local time and the current user, and raises
   * ViolationAdded. Any other id updates the stored row.
   */
  function SaveViolation(violations: map<int, Violation>, participants: map<int, Participant>,
                         sites: map<int, Centre>, v: Violation, ambient: Ambient)
    : (r: Result<(map<int, Violation>, seq<Change>), Error>)
    ensures v.participantId == 0 ==> r == Failure(MissingParticipantId)
    ensures v.participantId != 0 && v.id != 0 ==>
              r == if v.id in violations then Success((violations[v.id := v], [])) else Failure(MissingRow(v.id))
    ensures v.participantId != 0 && v.id == 0 && v.participantId !in participants ==>
              r == Failure(ParticipantNotFound(v.participantId))
    ensures r.Success? && v.id == 0 ==>
              v.participantId in participants
              && var centreId := participants[v.participantId].centreId;
              NextIdFor(violations.Keys, sites, centreId).Success?
              && var newId := NextIdFor(violations.Keys, sites, centreId).value;
              && centreId in sites && centreId < newId <= sites[centreId].maxIdForSite
              && newId !in violations
              && r.value == (violations[newId := AsReported(v, newId, ambient)], [ViolationAdded(AsReported(v, newId, ambient))])
  {
    if v.participantId == 0 then Failure(MissingParticipantId)
    else if v.id == 0 then
      if v.participantId !in participants then Failure(ParticipantNotFound(v.participantId))
      else
        var centreId := participants[v.participantId].centreId;
        match NextIdFor(violations.Keys, sites, centreId)
        case Failure(e) => Failure(e)
        case Success(newId) =>
          if newId in violations then Failure(DuplicateKey(newId))
          else Success((violations[newId := AsReported(v, newId, ambient)], [ViolationAdded(AsReported(v, newId, ambient))]))
    else if v.id in violations then Success((violations[v.id := v], []))
    else Failure(MissingRow(v.id))
  }

  /** For a site with a non-negative id the new violation's id is always
      fresh, so saving a new violation fails only on the lookups. */
  lemma NewViolationNeverCollides(violations: map<int, Violation>, participants: map<int, Participant>,
                                  sites: map<int, Centre>, v: Violation, ambient: Ambient)
    requires v.participantId != 0 && v.id == 0 && v.participantId in participants
    requires 0 <= participants[v.participantId].centreId
    requires NextIdFor(violations.Keys, sites, participants[v.participantId].centreId).Success?
    ensures SaveViolation(violations, participants, sites, v, ambient).Success?
  {
  }

  /** A new violation as it is stored. */
  function AsReported(v: Violation, id: int, ambient: Ambient): (s: Violation)
    ensures s.id == id && s.reportingTimeLocal == ambient.now && s.reportingInvestigator == ambient.investigator
    ensures s.participantId == v.participantId && s.detail == v.detail && s.violationType == v.violationType
  {
    v.(id := id, reportingTimeLocal := ambient.now, reportingInvestigator := ambient.investigator)
  }

  // ---------------------------------------------------------------------
  // Update(IEnumerable<Participant>)

  /** The table after overwriting each listed participant's row, in order. */
  function Overwritten(table: map<int, Participant>, patients: seq<Participant>): (r: map<int, Participant>)
    ensures forall id :: id in r <==> id in table || exists k :: 0 <= k < |patients| && patients[k].id == id
    decreases |patients|
  {
    if patients == [] then table
    else
      var n := |patients| - 1;
      assert forall k :: 0 <= k < n ==> patients[..n][k] == patients[k];
      Overwritten(table, patients[..n])[patients[n].id := patients[n]]
  }

  /**
   * Update(participants): all or nothing. An id 0 anywhere in the list fails
   * first, then an id the table does not hold; otherwise each row is
   * overwritten with the listed values.
   */
  function UpdateAll(table: map<int, Participant>, patients: seq<Participant>): (r: Result<map<int, Participant>, Error>)
    ensures (exists k :: 0 <= k < |patients| && patients[k].id == 0) ==> r == Failure(ZeroIdForUpdate)
    ensures r.Success? <==> forall k :: 0 <= k < |patients| ==> patients[k].id != 0 && patients[k].id in table
    ensures r.Success? ==> r.value == Overwritten(table, patients) && r.value.Keys == table.Keys
  {
    if exists k :: 0 <= k < |patients| && patients[k].id == 0 then Failure(ZeroIdForUpdate)
    else if exists k :: 0 <= k < |patients| && patients[k].id !in table then
      Failure(ParticipantNotFound(FirstUnknown(table, patients)))
    else Success(Overwritten(table, patients))
  }

  /** The first listed id the table does not hold (`First` throws on it). */
  function FirstUnknown(table: map<int, Participant>, patients: seq<Participant>): (id: int)
    requires exists k :: 0 <= k < |patients| && patients[k].id !in table
    ensures id !in table && exists k :: 0 <= k < |patients| && patients[k].id == id
  {
    if patients[0].id !in table then patients[0].id
    else
      assert exists k :: 0 <= k < |patients[1..]| && patients[1..][k].id !in table by {
        var k :| 0 <= k < |patients| && patients[k].id !in table;
        assert patients[1..][k - 1] == patients[k];
      }
      var id := FirstUnknown(table, patients[1..]);
      assert exists k :: 0 <= k < |patients| && patients[k].id == id by {
        var k :| 0 <= k < |patients[1..]| && patients[1..][k].id == id;
        assert patients[k + 1] == patients[1..][k];
      }
      id
  }

  /** An unlisted row keeps its value. */
  lemma {:induction false} OverwriteKeepsRow(table: map<int, Participant>, patients: seq<Participant>, id: int)
    requires id in table
    requires forall k :: 0 <= k < |patients| ==> patients[k].id != id
    ensures Overwritten(table, patients)[id] == table[id]
    decreases |patients|
  {
    if patients != [] {
      var n := |patients| - 1;
      var init := patients[..n];
      assert forall k :: 0 <= k < n ==> init[k] == patients[k];
      OverwriteKeepsRow(table, init, id);
    }
  }

  /** A listed row holds the values of the last listing of its id. */
  lemma {:induction false} OverwriteTakesLast(table: map<int, Participant>, patients: seq<Participant>, k: nat)
    requires k < |patients|
    requires forall j :: k < j < |patients| ==> patients[j].id != patients[k].id
    ensures Overwritten(table, patients)[patients[k].id] == patients[k]
    decreases |patients|
  {
    var n := |patients| - 1;
    if k < n {
      var init := patients[..n];
      assert forall j :: k < j < n ==> init[j] == patients[j];
      OverwriteTakesLast(table, init, k);
      assert init[k] == patients[k];
    }
  }
}
