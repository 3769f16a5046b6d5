/**
 * Enrolment of a new participant: AddParticipant's branching over a
 * multiple-birth sibling and a sealed envelope, followed by the range check
 * of Add(Participant). The randomising collaborators are the fields of a
 * `Randomiser`: they are taken to return, and nothing else is assumed about
 * them; an envelope number GetEnvelope does not know fails the enrolment.
 */
module Enrolment {
  import opened Wrappers
  import opened Domain
  import opened IdAllocation
  import opened Text

  /** What the enrolment form supplies. */
  datatype Registration = Registration(
    details: Details,
    admissionWeight: int,
    isMale: bool,
    centreId: int,
    multipleSiblingId: Option<int>,
    envelopeNumber: Option<int>)

  /**
   * The participant as first built: the form's values with the hospital
   * identifier trimmed, the current user and application version, and
   * WasEnvelopeRandomised set exactly when an envelope number is given.
   * No id, block or arm is set yet.
   */
  function Registered(reg: Registration, ambient: Ambient): (p: Participant)
    ensures p.wasEnvelopeRandomised <==> reg.envelopeNumber.Some?
    ensures p.details == reg.details.(hospitalIdentifier := Trim(reg.details.hospitalIdentifier))
    ensures p.centreId == reg.centreId && p.isMale == reg.isMale && p.admissionWeight == reg.admissionWeight
    ensures p.registeringInvestigator == ambient.investigator && p.appVersionAtEnrollment == ambient.appVersion
    ensures p.multipleSiblingId.None? && p.blockNumber.None? && p.id == 0
  {
    Participant(0, reg.centreId, reg.details.(hospitalIdentifier := Trim(reg.details.hospitalIdentifier)),
                reg.admissionWeight, reg.isMale, ambient.investigator, ambient.appVersion,
                reg.envelopeNumber.Some?, false, None, 0, None, NoOutcome, 0)
  }

  /** A same-sex sibling is linked: its arm is copied and its id recorded. */
  function Linked(p: Participant, sibling: Participant, siblingId: int): (q: Participant)
    ensures q.isInterventionArm == sibling.isInterventionArm && q.multipleSiblingId == Some(siblingId)
  {
    p.(isInterventionArm := sibling.isInterventionArm, multipleSiblingId := Some(siblingId))
  }

  /** An envelope fixes the block, the arm and the id. */
  function FromEnvelope(p: Participant, envelopeNumber: int, envelope: Envelope): (q: Participant)
    ensures q.id == envelopeNumber && q.blockNumber == Some(envelope.blockNumber)
    ensures q.blockSize == envelope.blockSize && q.isInterventionArm == envelope.isInterventionArm
  {
    p.(id := envelopeNumber, blockNumber := Some(envelope.blockNumber),
       blockSize := envelope.blockSize, isInterventionArm := envelope.isInterventionArm)
  }

  /**
   * The sibling step of AddParticipant. An unknown sibling fails; an
   * opposite-sex sibling changes nothing; a same-sex sibling is linked and
   * the participant gets an id above the envelope ceiling (envelope given)
   * or the site's next id followed by ForceAllocationToArm.
   */
  function SiblingStep(reg: Registration, p: Participant, participants: map<int, Participant>,
                       sites: map<int, Centre>, rnd: Randomiser): (r: Result<Participant, Error>)
  {
    if reg.multipleSiblingId.None? then Success(p)
    else
      var siblingId := reg.multipleSiblingId.value;
      if siblingId !in participants then Failure(ParticipantNotFound(siblingId))
      else if participants[siblingId].isMale != p.isMale then Success(p)
      else
        var linked := Linked(p, participants[siblingId], siblingId);
        if reg.envelopeNumber.Some? then
          Success(linked.(id := IdAboveEnvelopes(participants.Keys, rnd.maxEnvelopeNumber)))
        else match NextIdFor(participants.Keys, sites, reg.centreId)
          case Failure(e) => Failure(e)
          case Success(id) => Success(rnd.forceAllocationToArm(linked.(id := id), participants))
  }

  /**
   * AddParticipant up to the call of Add: the sibling step, then, when no
   * sibling id stands on the participant, the envelope or the site's next id
   * followed by CreateAllocation.
   */
  function Allocate(reg: Registration, ambient: Ambient, participants: map<int, Participant>,
                    sites: map<int, Centre>, rnd: Randomiser): (r: Result<Participant, Error>)
  {
    match SiblingStep(reg, Registered(reg, ambient), participants, sites, rnd)
    case Failure(e) => Failure(e)
    case Success(p) =>
      if p.multipleSiblingId.Some? then Success(p)
      else if reg.envelopeNumber.Some? then
        match rnd.getEnvelope(reg.envelopeNumber.value)
        case None => Failure(EnvelopeNotFound(reg.envelopeNumber.value))
        case Some(envelope) => Success(FromEnvelope(p, reg.envelopeNumber.value, envelope))
      else match NextIdFor(participants.Keys, sites, reg.centreId)
        case Failure(e) => Failure(e)
        case Success(id) => Success(rnd.createAllocation(p.(id := id), participants))
  }

  /**
   * Add(Participant): the participant is stored only when its site is known,
   * its id lies in [site id, MaxIdForSite] and no row has that id yet;
   * otherwise nothing changes.
   */
  function AddChecked(participants: map<int, Participant>, sites: map<int, Centre>, p: Participant)
    : (r: Result<map<int, Participant>, Error>)
    ensures r.Success? <==>
              p.centreId in sites && sites[p.centreId].id <= p.id <= sites[p.centreId].maxIdForSite
              && p.id !in participants
    ensures r.Success? ==> r.value.Keys == participants.Keys + {p.id} && r.value[p.id] == p
                           && forall id :: id in participants ==> r.value[id] == participants[id]
    ensures p.centreId in sites && p.id < sites[p.centreId].id ==> r == Failure(IdBelowSite(p.id))
    ensures p.centreId in sites && sites[p.centreId].id <= p.id && p.id > sites[p.centreId].maxIdForSite
            ==> r == Failure(IdAboveSite(p.id))
    ensures p.centreId !in sites ==> r == Failure(SiteNotFound(p.centreId))
    ensures p.centreId in sites && sites[p.centreId].id <= p.id <= sites[p.centreId].maxIdForSite && p.id in participants
            ==> r == Failure(DuplicateKey(p.id))
  {
    if p.centreId !in sites then Failure(SiteNotFound(p.centreId))
    else
      var centre := sites[p.centreId];
      if p.id < centre.id then Failure(IdBelowSite(p.id))
      else if p.id > centre.maxIdForSite then Failure(IdAboveSite(p.id))
      else if p.id in participants then Failure(DuplicateKey(p.id))
      else Success(participants[p.id := p])
  }

  /** AddParticipant: the new table and the participant, or the error. */
  function Enrol(reg: Registration, ambient: Ambient, participants: map<int, Participant>,
                 sites: map<int, Centre>, rnd: Randomiser): (r: Result<(map<int, Participant>, Participant), Error>)
    ensures r.Success? ==>
              var (table, p) := r.value;
              p.centreId in sites && sites[p.centreId].id <= p.id <= sites[p.centreId].maxIdForSite
              && p.id !in participants && table == participants[p.id := p]
  {
    match Allocate(reg, ambient, participants, sites, rnd)
    case Failure(e) => Failure(e)
    case Success(p) =>
      match AddChecked(participants, sites, p)
      case Failure(e) => Failure(e)
      case Success(table) =>
        assert table == participants[p.id := p];
        Success((table, p))
  }

  /** A sibling id the table does not hold makes the enrolment fail. */
  lemma UnknownSiblingFails(reg: Registration, ambient: Ambient, participants: map<int, Participant>,
                            sites: map<int, Centre>, rnd: Randomiser)
    requires reg.multipleSiblingId.Some? && reg.multipleSiblingId.value !in participants
    ensures Enrol(reg, ambient, participants, sites, rnd) == Failure(ParticipantNotFound(reg.multipleSiblingId.value))
  {
  }

  /** An opposite-sex sibling is ignored: the participant is allocated as
      if no sibling had been named, and no sibling id is recorded. */
  lemma OppositeSexSiblingIgnored(reg: Registration, ambient: Ambient, participants: map<int, Participant>,
                                  sites: map<int, Centre>, rnd: Randomiser)
    requires reg.multipleSiblingId.Some? && reg.multipleSiblingId.value in participants
    requires participants[reg.multipleSiblingId.value].isMale != reg.isMale
    ensures Allocate(reg, ambient, participants, sites, rnd)
            == Allocate(reg.(multipleSiblingId := None), ambient, participants, sites, rnd)
  {
  }

  /**
   * A same-sex sibling of an envelope-randomised participant: the sibling's
   * arm is copied, its id recorded, no block is set, and the id is one more
   * than the largest of the envelope ceiling and the ids above it.
   */
  lemma SameSexSiblingWithEnvelope(reg: Registration, ambient: Ambient, participants: map<int, Participant>,
                                   sites: map<int, Centre>, rnd: Randomiser)
    requires reg.multipleSiblingId.Some? && reg.multipleSiblingId.value in participants
    requires participants[reg.multipleSiblingId.value].isMale == reg.isMale
    requires reg.envelopeNumber.Some?
    requires 0 <= rnd.maxEnvelopeNumber
    ensures var r := Allocate(reg, ambient, participants, sites, rnd);
            r.Success?
            && r.value.isInterventionArm == participants[reg.multipleSiblingId.value].isInterventionArm
            && r.value.multipleSiblingId == reg.multipleSiblingId
            && r.value.wasEnvelopeRandomised && r.value.blockNumber.None?
            && r.value.id > rnd.maxEnvelopeNumber
            && forall id :: id in participants ==> id < r.value.id
  {
  }

  /**
   * A same-sex sibling without an envelope: the participant handed to
   * ForceAllocationToArm carries the sibling's arm, the sibling's id and the
   * site's next id.
   */
  lemma SameSexSiblingForced(reg: Registration, ambient: Ambient, participants: map<int, Participant>,
                             sites: map<int, Centre>, rnd: Randomiser)
    requires reg.multipleSiblingId.Some? && reg.multipleSiblingId.value in participants
    requires participants[reg.multipleSiblingId.value].isMale == reg.isMale
    requires reg.envelopeNumber.None?
    requires NextIdFor(participants.Keys, sites, reg.centreId).Success?
    ensures var sibling := participants[reg.multipleSiblingId.value];
            var handed := Registered(reg, ambient).(isInterventionArm := sibling.isInterventionArm,
                                                    multipleSiblingId := reg.multipleSiblingId,
                                                    id := NextIdFor(participants.Keys, sites, reg.centreId).value);
            SiblingStep(reg, Registered(reg, ambient), participants, sites, rnd)
            == Success(rnd.forceAllocationToArm(handed, participants))
  {
  }

  /**
   * An envelope with no linked sibling: an unknown envelope fails the
   * enrolment; otherwise the id is the envelope number and the block, block
   * size and arm are the envelope's.
   */
  lemma EnvelopeOnly(reg: Registration, ambient: Ambient, participants: map<int, Participant>,
                     sites: map<int, Centre>, rnd: Randomiser)
    requires reg.envelopeNumber.Some?
    requires reg.multipleSiblingId.None?
             || (reg.multipleSiblingId.value in participants
                 && participants[reg.multipleSiblingId.value].isMale != reg.isMale)
    ensures rnd.getEnvelope(reg.envelopeNumber.value).None? ==>
              Allocate(reg, ambient, participants, sites, rnd) == Failure(EnvelopeNotFound(reg.envelopeNumber.value))
    ensures rnd.getEnvelope(reg.envelopeNumber.value).Some? ==>
            var r := Allocate(reg, ambient, participants, sites, rnd);
            var envelope := rnd.getEnvelope(reg.envelopeNumber.value).value;
            r.Success? && r.value.id == reg.envelopeNumber.value
            && r.value.blockNumber == Some(envelope.blockNumber) && r.value.blockSize == envelope.blockSize
            && r.value.isInterventionArm == envelope.isInterventionArm
            && r.value.wasEnvelopeRandomised && r.value.multipleSiblingId.None?
  {
  }

  /** With an envelope, no randomising routine is called and the participant
      is marked envelope-randomised; without one, the participant handed to
      the routines is not. */
  lemma EnvelopeMarksParticipant(reg: Registration, ambient: Ambient, participants: map<int, Participant>,
                                 sites: map<int, Centre>, rnd: Randomiser)
    ensures reg.envelopeNumber.Some? && Allocate(reg, ambient, participants, sites, rnd).Success?
            ==> Allocate(reg, ambient, participants, sites, rnd).value.wasEnvelopeRandomised
    ensures reg.envelopeNumber.None? ==> !Registered(reg, ambient).wasEnvelopeRandomised
  {
  }

  /**
   * Algorithmic allocation (no sibling, no envelope): CreateAllocation
   * receives the participant with the site's next id, which is inside the
   * site's range and above every id already used there.
   */
  lemma AlgorithmicAllocation(reg: Registration, ambient: Ambient, participants: map<int, Participant>,
                              sites: map<int, Centre>, rnd: Randomiser)
    requires reg.multipleSiblingId.None? && reg.envelopeNumber.None?
    requires 0 <= reg.centreId
    ensures var next := NextIdFor(participants.Keys, sites, reg.centreId);
            next.Success? ==>
              Allocate(reg, ambient, participants, sites, rnd)
              == Success(rnd.createAllocation(Registered(reg, ambient).(id := next.value), participants))
              && reg.centreId < next.value <= sites[reg.centreId].maxIdForSite
              && next.value !in participants
    ensures var next := NextIdFor(participants.Keys, sites, reg.centreId);
            next.Failure? ==> Allocate(reg, ambient, participants, sites, rnd) == Failure(next.error)
  {
  }
}
