/**
 The rename, delete and create-directory drivers over every combination of outcomes of
 the journal, the filesystem and the database.

 The environment decides each outcome; the drivers decide what to report and whether
 to publish a clean generation.  `unresolved` says whether a durable journal intent or
 pending manifest is still waiting to be reconciled.  Publishing requires that there is
 none, so the drivers are correct exactly because every call below verifies.
 */
module FileOperations {
  import opened Common

  datatype Report =
    | Failed
    | SessionUnavailable
    | Uncertain
    | AuditedUncertain
    | AuditedDurable

  /** Outcome of acquiring mutation authority: only used when an earlier writer left work behind. */
  datatype Acquisition = Acquisition(permit: bool, recovered: bool, leftUnresolved: bool, foundTombstones: bool)

  /** How the authorizing transaction got to, or past, its closure. */
  datatype Begin = NotStarted | NoSession | Started

  /** Database work after the closure staged its filesystem change. */
  datatype Commit = Commit(sharesUpdated: bool, auditsInserted: bool, committed: bool) {
    predicate Succeeds() { sharesUpdated && auditsInserted && committed }
  }

  /** One immediate recovery attempt while the writer lock is still held. */
  datatype Recovery = Recovery(succeeded: bool, leftUnresolved: bool, foundTombstones: bool)

  datatype Stage = StageError(leftUnresolved: bool) | StageUncertain | StageReady

  datatype RenameWorld = RenameWorld(
    acquisition: Acquisition, permit: bool, begin: Begin, stage: Stage, commit: Commit,
    finalized: bool, finalizeLeft: bool, recovery: Recovery)

  /** The checks before a delete is published, in order; each may reject it. */
  datatype DeleteStage =
    | InspectionRejected
    | StageRejected(leftUnresolved: bool)
    | StagePublishedUncertain
    | ConfirmationMissing(rollbackLeft: bool)
    | CommitRejected(leftUnresolved: bool)
    | CommitPublishedUncertain(cleanupPending: bool)
    | CommitReady(tombstone: bool)

  datatype DeleteWorld = DeleteWorld(
    acquisition: Acquisition, permit: bool, begin: Begin, stage: DeleteStage, commit: Commit,
    finalized: bool, finalizeLeft: bool, recovery: Recovery)

  datatype CreateWorld = CreateWorld(
    acquisition: Acquisition, permit: bool, begin: Begin, created: bool, publicationCertain: bool,
    auditsInserted: bool, committed: bool)

  datatype Operation =
    | Rename(rename: RenameWorld)
    | Delete(delete: DeleteWorld)
    | CreateDirectory(create: CreateWorld)
    | CleanRead(read: Acquisition)
    /** The request was dropped or its worker unwound after acquiring authority. */
    | Abandoned(acquisition: Acquisition, leftUnresolved: bool)

  /** How many requests to the cleanup worker an event stands for. */
  function Requests(announced: bool): nat { if announced then 1 else 0 }

  /** Acquiring authority recovered what an earlier writer left, and found tombstones. */
  predicate FoundOnEntry(required: bool, a: Acquisition) {
    required && a.permit && a.recovered && a.foundTombstones
  }

  datatype Moment = Moment(generation: nat, recoveryRequired: bool, unresolved: bool)

  predicate Sound(m: Moment) { !m.recoveryRequired ==> !m.unresolved }

  predicate PublishesOnlyClean(before: Moment, after: Moment) {
    && before.generation <= after.generation <= before.generation + 1
    && (before.generation < after.generation ==> !after.recoveryRequired && !after.unresolved)
    && (before.generation == after.generation && !after.recoveryRequired ==> !before.recoveryRequired)
  }

  class Storage {
    var generation: nat
    var recoveryRequired: bool
    var cleanupRequests: nat
    ghost var unresolved: bool

    /** A clean namespace has no unresolved intent. */
    ghost predicate Consistent()
      reads this
    {
      !recoveryRequired ==> !unresolved
    }

    constructor ()
      ensures Consistent() && recoveryRequired && generation == 0
    {
      generation, recoveryRequired, cleanupRequests := 0, true, 0;
      unresolved := true;
    }

    /** Publishes a clean generation; never called while an intent is unresolved. */
    method FinishClean()
      requires !unresolved
      modifies this`generation, this`recoveryRequired
      ensures Consistent() && !recoveryRequired && generation == old(generation) + 1
    {
      recoveryRequired := false;
      generation := generation + 1;
    }

    /** Takes the writer lock dirty and first reconciles whatever was left behind. */
    method AcquireMutation(a: Acquisition) returns (acquired: bool)
      requires Consistent()
      modifies this`recoveryRequired, this`unresolved, this`cleanupRequests
      ensures recoveryRequired
      ensures acquired <==> !old(recoveryRequired) || (a.permit && a.recovered)
      ensures acquired ==> !unresolved
      ensures cleanupRequests == old(cleanupRequests) + Requests(FoundOnEntry(old(recoveryRequired), a))
    {
      var requiredOnEntry := recoveryRequired;
      recoveryRequired := true;
      if !requiredOnEntry {
        return true;
      }
      if !a.permit {
        return false;
      }
      unresolved := !a.recovered && a.leftUnresolved;
      if a.recovered && a.foundTombstones {
        cleanupRequests := cleanupRequests + 1;
      }
      return a.recovered;
    }

    /** One attempt to reconcile before unlocking; a clean result may be published. */
    method RecoverBeforeUnlock(r: Recovery)
      requires recoveryRequired
      modifies this
      ensures Consistent()
      ensures r.succeeded ==> !recoveryRequired && !unresolved && generation == old(generation) + 1
      ensures !r.succeeded ==> recoveryRequired && generation == old(generation)
      ensures cleanupRequests == old(cleanupRequests) + Requests(r.succeeded && r.foundTombstones)
    {
      unresolved := !r.succeeded && r.leftUnresolved;
      if r.succeeded {
        if r.foundTombstones {
          cleanupRequests := cleanupRequests + 1;
        }
        FinishClean();
      }
    }

    method RenameEntry(w: RenameWorld) returns (report: Report)
      requires Consistent()
      modifies this
      ensures Consistent()
      ensures generation == old(generation) + if recoveryRequired then 0 else 1
      ensures
        var entered := (!old(recoveryRequired) || (w.acquisition.permit && w.acquisition.recovered)) && w.permit;
        var ran := entered && w.begin == Started;
        && (report == SessionUnavailable <==> entered && w.begin == NoSession)
        && (report == AuditedDurable <==> ran && w.stage == StageReady && w.commit.Succeeds() && w.finalized)
        && (report == Uncertain <==> ran && w.stage == StageReady && !w.commit.Succeeds())
        && (report == AuditedUncertain <==>
              ran &&
              ((w.stage == StageUncertain && w.commit.auditsInserted && w.commit.committed)
               || (w.stage == StageReady && w.commit.Succeeds() && !w.finalized)))
      ensures !recoveryRequired <==>
        || report == SessionUnavailable
        || report == AuditedDurable
        || ((report == Uncertain || report == AuditedUncertain) && w.recovery.succeeded)
      // Tombstones are announced to the cleanup worker wherever recovery finds them.
      ensures cleanupRequests == old(cleanupRequests)
        + Requests(FoundOnEntry(old(recoveryRequired), w.acquisition))
        + Requests((report == Uncertain || report == AuditedUncertain) && w.recovery.succeeded && w.recovery.foundTombstones)
    {
      var acquired := AcquireMutation(w.acquisition);
      if !acquired || !w.permit {
        return Failed;
      }
      match w.begin
      case NotStarted =>
        return Failed;
      case NoSession =>
        FinishClean();
        return SessionUnavailable;
      case Started =>
        match w.stage
        case StageError(left) =>
          unresolved := left;
          return Failed;
        case StageUncertain =>
          unresolved := true;
          if !w.commit.auditsInserted || !w.commit.committed {
            return Failed;
          }
          RecoverBeforeUnlock(w.recovery);
          return AuditedUncertain;
        case StageReady =>
          unresolved := true;
          if !w.commit.Succeeds() {
            RecoverBeforeUnlock(w.recovery);
            return Uncertain;
          }
          if !w.finalized {
            unresolved := w.finalizeLeft;
            RecoverBeforeUnlock(w.recovery);
            return AuditedUncertain;
          }
          unresolved := false;
          FinishClean();
          return AuditedDurable;
    }

    method DeleteEntry(w: DeleteWorld) returns (report: Report)
      requires Consistent()
      modifies this
      ensures Consistent()
      ensures generation == old(generation) + if recoveryRequired then 0 else 1
      ensures
        var entered := (!old(recoveryRequired) || (w.acquisition.permit && w.acquisition.recovered)) && w.permit;
        var ran := entered && w.begin == Started;
        && (report == SessionUnavailable <==> entered && w.begin == NoSession)
        && (report == AuditedDurable <==> ran && w.stage.CommitReady? && w.commit.Succeeds() && w.finalized)
        && (report == Uncertain <==> ran && w.stage.CommitReady? && !w.commit.Succeeds())
        && (report == AuditedUncertain <==>
              ran &&
              (((w.stage.StagePublishedUncertain? || w.stage.CommitPublishedUncertain?)
                && w.commit.auditsInserted && w.commit.committed)
               || (w.stage.CommitReady? && w.commit.Succeeds() && !w.finalized)))
      ensures !recoveryRequired <==>
        || report == SessionUnavailable
        || report == AuditedDurable
        || ((report == Uncertain || report == AuditedUncertain) && w.recovery.succeeded)
      // Its own tombstone, and those that recovery finds, are announced to the cleanup worker.
      ensures cleanupRequests == old(cleanupRequests)
        + Requests(FoundOnEntry(old(recoveryRequired), w.acquisition))
        + Requests(report == AuditedDurable && w.stage.tombstone)
        + Requests((report == Uncertain || report == AuditedUncertain) && w.recovery.succeeded && w.recovery.foundTombstones)
    {
      var acquired := AcquireMutation(w.acquisition);
      if !acquired || !w.permit {
        return Failed;
      }
      match w.begin
      case NotStarted =>
        return Failed;
      case NoSession =>
        FinishClean();
        return SessionUnavailable;
      case Started =>
        match w.stage
        case InspectionRejected =>
          return Failed;
        case StageRejected(left) =>
          unresolved := left;
          return Failed;
        case ConfirmationMissing(left) =>
          unresolved := left;
          return Failed;
        case CommitRejected(left) =>
          unresolved := left;
          return Failed;
        case StagePublishedUncertain =>
          report := FinishUncertainDelete(w);
        case CommitPublishedUncertain(_) =>
          report := FinishUncertainDelete(w);
        case CommitReady(tombstone) =>
          unresolved := true;
          if !w.commit.Succeeds() {
            RecoverBeforeUnlock(w.recovery);
            return Uncertain;
          }
          if !w.finalized {
            unresolved := w.finalizeLeft;
            RecoverBeforeUnlock(w.recovery);
            return AuditedUncertain;
          }
          unresolved := false;
          if tombstone {
            cleanupRequests := cleanupRequests + 1;
          }
          FinishClean();
          return AuditedDurable;
    }

    /** A delete whose publication is ambiguous: audited without events, then reconciled. */
    method FinishUncertainDelete(w: DeleteWorld) returns (report: Report)
      requires recoveryRequired
      modifies this
      ensures Consistent()
      ensures generation == old(generation) + if recoveryRequired then 0 else 1
      ensures report == if w.commit.auditsInserted && w.commit.committed then AuditedUncertain else Failed
      ensures !recoveryRequired <==> report == AuditedUncertain && w.recovery.succeeded
      ensures cleanupRequests == old(cleanupRequests)
        + Requests(report == AuditedUncertain && w.recovery.succeeded && w.recovery.foundTombstones)
    {
      unresolved := true;
      if !w.commit.auditsInserted || !w.commit.committed {
        return Failed;
      }
      RecoverBeforeUnlock(w.recovery);
      return AuditedUncertain;
    }

    /** Directory creation writes no journal: any outcome after creation is clean. */
    method CreateEntry(w: CreateWorld) returns (report: Report)
      requires Consistent()
      modifies this
      ensures Consistent()
      ensures generation == old(generation) + if recoveryRequired then 0 else 1
      ensures
        var entered := (!old(recoveryRequired) || (w.acquisition.permit && w.acquisition.recovered)) && w.permit;
        var ran := entered && w.begin == Started && w.created;
        && (report == SessionUnavailable <==> entered && w.begin == NoSession)
        && (report == AuditedDurable <==> ran && w.auditsInserted && w.committed && w.publicationCertain)
        && (report == AuditedUncertain <==> ran && w.auditsInserted && w.committed && !w.publicationCertain)
        && (report == Uncertain <==> ran && !(w.auditsInserted && w.committed))
      ensures !recoveryRequired <==> report != Failed
      ensures cleanupRequests == old(cleanupRequests) + Requests(FoundOnEntry(old(recoveryRequired), w.acquisition))
    {
      var acquired := AcquireMutation(w.acquisition);
      if !acquired || !w.permit {
        return Failed;
      }
      match w.begin {
        case NotStarted =>
          return Failed;
        case NoSession =>
          report := SessionUnavailable;
        case Started =>
          if !w.created {
            return Failed;
          }
          if !w.auditsInserted || !w.committed {
            report := Uncertain;
          } else {
            report := if w.publicationCertain then AuditedDurable else AuditedUncertain;
          }
      }
      FinishClean();
    }

    /** A reader that finds recovery required performs it under the writer lock first. */
    method AcquireCleanRead(a: Acquisition) returns (clean: bool)
      requires Consistent()
      modifies this
      ensures Consistent()
      ensures clean <==> !recoveryRequired
      ensures clean <==> !old(recoveryRequired) || (a.permit && a.recovered)
      ensures generation == old(generation) + if old(recoveryRequired) && clean then 1 else 0
      ensures cleanupRequests == old(cleanupRequests) + Requests(FoundOnEntry(old(recoveryRequired), a))
    {
      if !recoveryRequired {
        return true;
      }
      if !a.permit {
        return false;
      }
      unresolved := !a.recovered && a.leftUnresolved;
      if a.recovered {
        if a.foundTombstones {
          cleanupRequests := cleanupRequests + 1;
        }
        FinishClean();
      }
      return a.recovered;
    }

    method Abandon(a: Acquisition, left: bool)
      requires Consistent()
      modifies this
      ensures Consistent() && recoveryRequired && generation == old(generation)
      ensures cleanupRequests == old(cleanupRequests) + Requests(FoundOnEntry(old(recoveryRequired), a))
    {
      var acquired := AcquireMutation(a);
      unresolved := left;
    }

    ghost function Now(): Moment
      reads this
    {
      Moment(generation, recoveryRequired, unresolved)
    }

    /**
     Any sequence of operations with any outcomes keeps a clean namespace free of
     unresolved intents, and the generation moves only by publishing such a namespace.
     */
    method Serve(operations: seq<Operation>) returns (reports: seq<Option<Report>>, ghost moments: seq<Moment>)
      requires Consistent()
      modifies this
      ensures |reports| == |operations| && |moments| == |operations| + 1
      ensures moments[0] == old(Now()) && moments[|operations|] == Now()
      ensures forall i :: 0 <= i < |moments| ==> Sound(moments[i])
      ensures forall i :: 0 <= i < |operations| ==> PublishesOnlyClean(moments[i], moments[i + 1])
      ensures forall i :: 0 <= i < |operations| && reports[i] == Some(AuditedDurable) ==>
        moments[i + 1].generation == moments[i].generation + 1
    {
      reports, moments := [], [Now()];
      for i := 0 to |operations|
        invariant Consistent() && |reports| == i && |moments| == i + 1
        invariant moments[0] == old(Now()) && moments[i] == Now()
        invariant forall j :: 0 <= j <= i ==> Sound(moments[j])
        invariant forall j :: 0 <= j < i ==> PublishesOnlyClean(moments[j], moments[j + 1])
        invariant forall j :: 0 <= j < i && reports[j] == Some(AuditedDurable) ==>
          moments[j + 1].generation == moments[j].generation + 1
      {
        var report := Perform(operations[i]);
        reports, moments := reports + [report], moments + [Now()];
      }
    }

    method Perform(operation: Operation) returns (report: Option<Report>)
      requires Consistent()
      modifies this
      ensures Consistent() && PublishesOnlyClean(old(Now()), Now())
      ensures report == Some(AuditedDurable) ==> generation == old(generation) + 1
    {
      match operation
      case Rename(w) => var r := RenameEntry(w); report := Some(r);
      case Delete(w) => var r := DeleteEntry(w); report := Some(r);
      case CreateDirectory(w) => var r := CreateEntry(w); report := Some(r);
      case CleanRead(a) => var clean := AcquireCleanRead(a); report := None;
      case Abandoned(a, left) => Abandon(a, left); report := None;
    }
  }
}
