/**
 * The S3 upload trigger: for each object-created record of an event, decode
 * the key, run the size and extension checks, sniff the file signature when
 * both pass, and on rejection delete the object and throw. The first
 * rejection (or the first key that does not decode) ends the batch.
 *
 * `RunBatch` is the reference definition of what a batch does against the
 * store contents at the start; `Handler` is the loop, proved to do exactly
 * that.
 */
module UploadHandler {
  import opened Wrappers
  import opened JsString
  import opened KeyDecoding
  import opened ObjectStore
  import opened UploadChecks

  /** The fields of an S3 event record the handler reads. */
  datatype S3Record = S3Record(eventName: string, bucket: string, key: string, size: nat)

  /** Why the handler throws: a URIError while decoding a key, or a rejected object. */
  datatype HandlerError = MalformedKey(rawKey: string) | ValidationFailed(errors: seq<ValidationError>)

  datatype HandlerResult = Success | Failure(error: HandlerError)

  predicate IsObjectCreated(r: S3Record) {
    StartsWith(r.eventName, "ObjectCreated")
  }

  /** What one record comes to, against the store's contents and read failures. */
  datatype RecordOutcome =
    | NotCreated
    | UriError(rawKey: string)
    | Passed(id: ObjectId, warnings: seq<string>)
    | Failed(id: ObjectId, errors: seq<ValidationError>)
  {
    /** The handler moves on to the next record. */
    predicate Continues() {
      NotCreated? || Passed?
    }

    /** What the handler throws for a record that stops it. */
    function Error(): HandlerError
      requires !Continues()
    {
      if UriError? then MalformedKey(rawKey) else ValidationFailed(errors)
    }

    /** The object the handler tries to delete for this record, if any. */
    function Removal(): Option<ObjectId> {
      if Failed? then Some(id) else None
    }
  }

  /**
   * One record against the store: skipped unless object-created, a URIError
   * when its key does not decode, else the verdict on the decoded key.
   */
  function ExamineRecord(r: S3Record, objects: map<ObjectId, seq<bv8>>, unreadable: set<ObjectId>): RecordOutcome {
    if !IsObjectCreated(r) then NotCreated
    else match DecodeKey(r.key)
      case None => UriError(r.key)
      case Some(key) =>
        var id := ObjectId(r.bucket, key);
        match ValidateObject(r.size, key, RangedRead(objects, unreadable, id))
        case Accepted(w) => Passed(id, w)
        case Rejected(errs) => Failed(id, errs)
  }

  /** The ranged reads one record causes: one, of the decoded key, when size and extension both pass. */
  function RecordReads(r: S3Record): (ids: seq<ObjectId>)
    ensures |ids| <= 1
  {
    if !IsObjectCreated(r) then []
    else match DecodeKey(r.key)
      case None => []
      case Some(key) => if CheapErrors(r.size, key) == [] then [ObjectId(r.bucket, key)] else []
  }

  /**
   * The four outcomes of a record: skipped exactly when it is not
   * object-created, a URIError exactly when its key does not decode, and
   * otherwise a verdict on the object named by the decoded key, a rejection
   * carrying at least one error.
   */
  lemma ExamineRecordCases(r: S3Record, objects: map<ObjectId, seq<bv8>>, unreadable: set<ObjectId>)
    ensures ExamineRecord(r, objects, unreadable).NotCreated? <==> !IsObjectCreated(r)
    ensures ExamineRecord(r, objects, unreadable).UriError? <==> IsObjectCreated(r) && DecodeKey(r.key).None?
    ensures ExamineRecord(r, objects, unreadable).UriError? ==> ExamineRecord(r, objects, unreadable).rawKey == r.key
    ensures ExamineRecord(r, objects, unreadable).Passed? || ExamineRecord(r, objects, unreadable).Failed? ==>
      DecodeKey(r.key).Some? && ExamineRecord(r, objects, unreadable).id == ObjectId(r.bucket, DecodeKey(r.key).value)
    ensures ExamineRecord(r, objects, unreadable).Failed? ==> ExamineRecord(r, objects, unreadable).errors != []
  {
  }

  /**
   * A record reads its object exactly when it is created, its key decodes and
   * size and extension pass; the read is of the object its verdict names. A
   * created, decodable record that reads nothing is rejected without a read.
   */
  lemma RecordReadsCases(r: S3Record, objects: map<ObjectId, seq<bv8>>, unreadable: set<ObjectId>)
    ensures RecordReads(r) != [] <==> IsObjectCreated(r) && DecodeKey(r.key).Some? && CheapErrors(r.size, DecodeKey(r.key).value) == []
    ensures RecordReads(r) != [] ==>
      !ExamineRecord(r, objects, unreadable).NotCreated? && !ExamineRecord(r, objects, unreadable).UriError?
      && ExamineRecord(r, objects, unreadable).id == RecordReads(r)[0]
    ensures IsObjectCreated(r) && DecodeKey(r.key).Some? && RecordReads(r) == [] ==> ExamineRecord(r, objects, unreadable).Failed?
  {
    if IsObjectCreated(r) && DecodeKey(r.key).Some? {
      var key := DecodeKey(r.key).value;
      var id := ObjectId(r.bucket, key);
      assert RecordReads(r) == if CheapErrors(r.size, key) == [] then [id] else [];
      match ValidateObject(r.size, key, RangedRead(objects, unreadable, id))
      case Accepted(w) => assert ExamineRecord(r, objects, unreadable) == Passed(id, w);
      case Rejected(errs) => assert ExamineRecord(r, objects, unreadable) == Failed(id, errs);
    }
  }

  /** One record as the batch sees it: its outcome and the reads it issued. */
  datatype Step = Step(outcome: RecordOutcome, readIds: seq<ObjectId>)

  function StepOf(r: S3Record, objects: map<ObjectId, seq<bv8>>, unreadable: set<ObjectId>): Step {
    Step(ExamineRecord(r, objects, unreadable), RecordReads(r))
  }

  function Steps(records: seq<S3Record>, objects: map<ObjectId, seq<bv8>>, unreadable: set<ObjectId>): seq<Step> {
    seq(|records|, i requires 0 <= i < |records| => StepOf(records[i], objects, unreadable))
  }

  /** What a batch does: its result, the ranged reads it issues in order, and the object it deletes, if any. */
  datatype Trace = Trace(result: HandlerResult, readIds: seq<ObjectId>, removal: Option<ObjectId>)

  /** One more step of a batch: nothing once it has failed, else its reads, then its result. */
  function Extend(before: Trace, step: Step): (t: Trace)
    ensures before.result.Failure? ==> t == before
    ensures before.result.Success? ==> t.readIds == before.readIds + step.readIds
  {
    if before.result.Failure? then before
    else
      var readIds := before.readIds + step.readIds;
      if step.outcome.Continues() then Trace(Success, readIds, None)
      else Trace(Failure(step.outcome.Error()), readIds, step.outcome.Removal())
  }

  /**
   * The batch as a fold over its records' steps, from the first: once a
   * record has failed, later records change nothing.
   */
  function RunSteps(steps: seq<Step>): (t: Trace)
    ensures t.removal.Some? <==> t.result.Failure? && t.result.error.ValidationFailed?
    decreases |steps|
  {
    if steps == [] then Trace(Success, [], None)
    else Extend(RunSteps(steps[..|steps| - 1]), steps[|steps| - 1])
  }

  /**
   * The reference definition of a batch. The store changes only by the one
   * delete at the end, so every record is examined against the contents at
   * the start.
   */
  function RunBatch(records: seq<S3Record>, objects: map<ObjectId, seq<bv8>>, unreadable: set<ObjectId>): (t: Trace)
    ensures t.removal.Some? <==> t.result.Failure? && t.result.error.ValidationFailed?
    ensures |t.readIds| <= |records|
  {
    var steps := Steps(records, objects, unreadable);
    assert forall i :: 0 <= i < |steps| ==> |steps[i].readIds| <= 1 by {
      forall i | 0 <= i < |steps| ensures |steps[i].readIds| <= 1 {
        assert steps[i].readIds == RecordReads(records[i]);
      }
    }
    ReadsBounded(steps);
    RunSteps(steps)
  }

  /** A batch whose steps read at most once each reads at most once per step. */
  lemma {:induction false} ReadsBounded(steps: seq<Step>)
    requires forall i :: 0 <= i < |steps| ==> |steps[i].readIds| <= 1
    ensures |RunSteps(steps).readIds| <= |steps|
    decreases |steps|
  {
    if steps != [] {
      var init := steps[..|steps| - 1];
      assert forall i :: 0 <= i < |init| ==> init[i] == steps[i];
      ReadsBounded(init);
    }
  }

  /** Once a batch has failed, later steps change nothing: a failed prefix is the whole batch. */
  lemma {:induction false} FailureIsFinal(steps: seq<Step>, k: nat)
    requires k <= |steps|
    requires RunSteps(steps[..k]).result.Failure?
    ensures RunSteps(steps) == RunSteps(steps[..k])
    decreases |steps|
  {
    if k == |steps| {
      assert steps[..k] == steps;
    } else {
      var init := steps[..|steps| - 1];
      assert init[..k] == steps[..k];
      FailureIsFinal(init, k);
    }
  }

  /** A batch succeeds exactly when every step lets the handler move on. */
  lemma {:induction false} SuccessIffAllContinue(steps: seq<Step>)
    ensures RunSteps(steps).result.Success? <==> forall i :: 0 <= i < |steps| ==> steps[i].outcome.Continues()
    decreases |steps|
  {
    if steps != [] {
      var init := steps[..|steps| - 1];
      SuccessIffAllContinue(init);
      assert forall i :: 0 <= i < |init| ==> init[i] == steps[i];
    }
  }

  /** Every read a batch issues is a read of one of its steps. */
  lemma {:induction false} ReadsComeFromSteps(steps: seq<Step>)
    ensures forall id :: id in RunSteps(steps).readIds ==> exists i :: 0 <= i < |steps| && id in steps[i].readIds
    decreases |steps|
  {
    if steps != [] {
      var init := steps[..|steps| - 1];
      ReadsComeFromSteps(init);
      forall id | id in RunSteps(steps).readIds
        ensures exists i :: 0 <= i < |steps| && id in steps[i].readIds
      {
        if id in RunSteps(init).readIds {
          var i :| 0 <= i < |init| && id in init[i].readIds;
          assert steps[i] == init[i];
        } else {
          assert id in steps[|steps| - 1].readIds;
        }
      }
    }
  }

  /** When step j is the first that stops the handler, it alone decides the batch's result and removal. */
  lemma StepsStopAt(steps: seq<Step>, j: nat)
    requires j < |steps|
    requires forall i :: 0 <= i < j ==> steps[i].outcome.Continues()
    requires !steps[j].outcome.Continues()
    ensures RunSteps(steps) == RunSteps(steps[..j + 1])
    ensures RunSteps(steps).result == Failure(steps[j].outcome.Error())
    ensures RunSteps(steps).removal == steps[j].outcome.Removal()
  {
    assert RunSteps(steps[..j]).result.Success? by {
      forall i | 0 <= i < j
        ensures steps[..j][i].outcome.Continues()
      {
        assert steps[..j][i] == steps[i];
      }
      SuccessIffAllContinue(steps[..j]);
    }
    AdvanceStops(steps, j);
  }

  /**
   * Fail-fast: when record j is the first that does not let the handler move
   * on, the batch is what its first j + 1 records make it, it fails with that
   * record's error, and it deletes that record's object if and only if a
   * check rejected it. Later records are neither read nor deleted.
   */
  lemma StopsAtFirstFailure(records: seq<S3Record>, j: nat,
                            objects: map<ObjectId, seq<bv8>>, unreadable: set<ObjectId>)
    requires j < |records|
    requires forall i :: 0 <= i < j ==> ExamineRecord(records[i], objects, unreadable).Continues()
    requires !ExamineRecord(records[j], objects, unreadable).Continues()
    ensures RunBatch(records, objects, unreadable) == RunBatch(records[..j + 1], objects, unreadable)
    ensures RunBatch(records, objects, unreadable).result == Failure(ExamineRecord(records[j], objects, unreadable).Error())
    ensures RunBatch(records, objects, unreadable).removal == ExamineRecord(records[j], objects, unreadable).Removal()
  {
    var steps := Steps(records, objects, unreadable);
    forall i | 0 <= i <= j
      ensures steps[i].outcome == ExamineRecord(records[i], objects, unreadable)
    {
      assert steps[i] == StepOf(records[i], objects, unreadable);
    }
    StepsStopAt(steps, j);
    StepsOfPrefix(records, j + 1, objects, unreadable);
  }

  /** The steps of a prefix of the records are that prefix of the steps. */
  lemma StepsOfPrefix(records: seq<S3Record>, n: nat, objects: map<ObjectId, seq<bv8>>, unreadable: set<ObjectId>)
    requires n <= |records|
    ensures Steps(records[..n], objects, unreadable) == Steps(records, objects, unreadable)[..n]
  {
    var steps := Steps(records, objects, unreadable);
    forall i | 0 <= i < n
      ensures Steps(records[..n], objects, unreadable)[i] == steps[i]
    {
      assert records[..n][i] == records[i];
    }
  }

  /** A batch succeeds exactly when every record lets the handler move on, and then nothing is deleted. */
  lemma BatchSucceedsIffAllContinue(records: seq<S3Record>, objects: map<ObjectId, seq<bv8>>, unreadable: set<ObjectId>)
    ensures RunBatch(records, objects, unreadable).result.Success? <==>
      forall i :: 0 <= i < |records| ==> ExamineRecord(records[i], objects, unreadable).Continues()
    ensures RunBatch(records, objects, unreadable).result.Success? ==> RunBatch(records, objects, unreadable).removal.None?
  {
    var steps := Steps(records, objects, unreadable);
    SuccessIffAllContinue(steps);
    forall i | 0 <= i < |records|
      ensures steps[i].outcome.Continues() <==> ExamineRecord(records[i], objects, unreadable).Continues()
    {
      assert steps[i] == StepOf(records[i], objects, unreadable);
    }
  }

  /** The steps of a concatenated batch are the concatenated steps. */
  lemma StepsConcat(a: seq<S3Record>, b: seq<S3Record>, objects: map<ObjectId, seq<bv8>>, unreadable: set<ObjectId>)
    ensures Steps(a + b, objects, unreadable) == Steps(a, objects, unreadable) + Steps(b, objects, unreadable)
  {
    StepsOfPrefix(a + b, |a|, objects, unreadable);
    StepsOfSuffix(a + b, |a|, objects, unreadable);
    ConcatParts(a, b);
    SplitAt(Steps(a + b, objects, unreadable), |a|);
  }

  /** A sequence is its prefix followed by its suffix. */
  lemma SplitAt<T>(s: seq<T>, n: nat)
    requires n <= |s|
    ensures s == s[..n] + s[n..]
  {
  }

  /** A concatenation splits back into its two parts. */
  lemma ConcatParts<T>(a: seq<T>, b: seq<T>)
    ensures (a + b)[..|a|] == a && (a + b)[|a|..] == b
  {
  }

  /** The steps of a batch's suffix are the suffix of its steps. */
  lemma StepsOfSuffix(records: seq<S3Record>, n: nat, objects: map<ObjectId, seq<bv8>>, unreadable: set<ObjectId>)
    requires n <= |records|
    ensures Steps(records[n..], objects, unreadable) == Steps(records, objects, unreadable)[n..]
  {
    var steps := Steps(records, objects, unreadable);
    forall i | 0 <= i < |records| - n
      ensures Steps(records[n..], objects, unreadable)[i] == steps[n..][i]
    {
      assert records[n..][i] == records[n + i];
    }
  }

  /** A step that neither fails nor reads leaves a trace unchanged. */
  lemma IgnoredStep(t: Trace)
    requires t.result.Success? ==> t.removal.None?
    ensures Extend(t, Step(NotCreated, [])) == t
  {
    assert t.readIds + [] == t.readIds;
  }

  /** The trace of steps with one more step at the end. */
  lemma RunStepsAppend(steps: seq<Step>, step: Step)
    ensures RunSteps(steps + [step]) == Extend(RunSteps(steps), step)
  {
    assert (steps + [step])[..|steps|] == steps;
  }

  /** An ignored step, wherever it sits among the steps, changes nothing. */
  lemma {:induction false} IgnoredStepChangesNothing(before: seq<Step>, after: seq<Step>)
    ensures RunSteps(before + [Step(NotCreated, [])] + after) == RunSteps(before + after)
    decreases |after|
  {
    var s := Step(NotCreated, []);
    if after == [] {
      assert before + [s] + after == before + [s];
      assert before + after == before;
      RunStepsAppend(before, s);
      IgnoredStep(RunSteps(before));
    } else {
      var init, x := after[..|after| - 1], after[|after| - 1];
      IgnoredStepChangesNothing(before, init);
      assert before + [s] + after == (before + [s] + init) + [x];
      assert before + after == (before + init) + [x];
      RunStepsAppend(before + [s] + init, x);
      RunStepsAppend(before + init, x);
    }
  }

  /**
   * A record that is not an object-created event, wherever it sits in the
   * batch, changes nothing: no read, no delete, no failure.
   */
  lemma IgnoredRecordChangesNothing(before: seq<S3Record>, r: S3Record, after: seq<S3Record>,
                                    objects: map<ObjectId, seq<bv8>>, unreadable: set<ObjectId>)
    requires !IsObjectCreated(r)
    ensures RunBatch(before + [r] + after, objects, unreadable) == RunBatch(before + after, objects, unreadable)
  {
    StepsConcat(before + [r], after, objects, unreadable);
    StepsConcat(before, [r], objects, unreadable);
    StepsConcat(before, after, objects, unreadable);
    assert Steps([r], objects, unreadable) == [Step(NotCreated, [])];
    IgnoredStepChangesNothing(Steps(before, objects, unreadable), Steps(after, objects, unreadable));
  }

  /** A removal in the trace comes from a step that failed validation, with the errors the batch throws. */
  lemma {:induction false} RemovalComesFromSteps(steps: seq<Step>)
    ensures var t := RunSteps(steps);
      t.removal.Some? ==>
        && t.result.Failure? && t.result.error.ValidationFailed?
        && exists i :: 0 <= i < |steps| && steps[i].outcome == Failed(t.removal.value, t.result.error.errors)
    decreases |steps|
  {
    if steps != [] {
      var init, last := steps[..|steps| - 1], steps[|steps| - 1];
      RemovalComesFromSteps(init);
      var before := RunSteps(init);
      if before.result.Failure? && before.removal.Some? {
        var i :| 0 <= i < |init| && init[i].outcome == Failed(before.removal.value, before.result.error.errors);
        assert steps[i] == init[i];
      }
    }
  }

  /**
   * The only object a batch deletes is one whose checks rejected it, and
   * the handler throws exactly that object's errors: an accepted object is
   * never deleted.
   */
  lemma RemovedObjectWasRejected(records: seq<S3Record>, objects: map<ObjectId, seq<bv8>>, unreadable: set<ObjectId>)
    ensures var t := RunBatch(records, objects, unreadable);
      t.removal.Some? ==>
        && t.result.Failure? && t.result.error.ValidationFailed?
        && exists j :: 0 <= j < |records| && ExamineRecord(records[j], objects, unreadable) == Failed(t.removal.value, t.result.error.errors)
  {
    var steps := Steps(records, objects, unreadable);
    RemovalComesFromSteps(steps);
    var t := RunSteps(steps);
    if t.removal.Some? {
      var i :| 0 <= i < |steps| && steps[i].outcome == Failed(t.removal.value, t.result.error.errors);
      assert steps[i] == StepOf(records[i], objects, unreadable);
    }
  }

  /** Some created record of the batch decodes to `id`'s key in `id`'s bucket and passes size and extension. */
  predicate ReadJustified(records: seq<S3Record>, id: ObjectId) {
    exists i :: 0 <= i < |records| && IsObjectCreated(records[i]) && records[i].bucket == id.bucket
      && DecodeKey(records[i].key) == Some(id.key)
      && records[i].size <= MaxFileSize && FileExtension(id.key) in AllowedExtensions
  }

  /** Every ranged read is of a created record's decoded key whose size and extension passed. */
  lemma ReadsOnlyAfterCheapChecks(records: seq<S3Record>, objects: map<ObjectId, seq<bv8>>, unreadable: set<ObjectId>)
    ensures forall id :: id in RunBatch(records, objects, unreadable).readIds ==> ReadJustified(records, id)
  {
    var steps := Steps(records, objects, unreadable);
    ReadsComeFromSteps(steps);
    forall id | id in RunSteps(steps).readIds ensures ReadJustified(records, id) {
      var i :| 0 <= i < |steps| && id in steps[i].readIds;
      assert id in RecordReads(records[i]);
    }
  }

  /** `validateMimeType`: one ranged read, then the signature classification. */
  method ValidateMimeType(store: Store, id: ObjectId) returns (r: CheckResult)
    modifies store`readLog
    ensures r == ClassifySignature(RangedRead(store.objects, store.unreadable, id))
    ensures store.readLog == old(store.readLog) + [id]
  {
    var read := store.GetRange(id);
    r := ClassifySignature(read);
  }

  /** `removeInvalidFile`: one delete attempt; a failing delete is swallowed. */
  method RemoveInvalidFile(store: Store, id: ObjectId)
    modifies store`objects, store`deleteLog
    ensures store.deleteLog == old(store.deleteLog) + [id]
    ensures store.objects == if id in store.undeletable then old(store.objects) else old(store.objects) - {id}
  {
    var deleted := store.Delete(id);
  }

  /** The delete attempts for a removal: one, or none. */
  function DeleteAttempts(removal: Option<ObjectId>): seq<ObjectId> {
    if removal.Some? then [removal.value] else []
  }

  /** The store after a batch: the removed object is gone unless its delete failed. */
  function AfterRemoval(objects: map<ObjectId, seq<bv8>>, undeletable: set<ObjectId>, removal: Option<ObjectId>): map<ObjectId, seq<bv8>> {
    if removal.Some? && removal.value !in undeletable then objects - {removal.value} else objects
  }

  /**
   * The checks the handler's loop runs on one decoded object: size and
   * extension always, the signature only when both passed. The flag and the
   * two lists end as `ValidateObject` says, and the one read is issued
   * exactly when the size and extension checks passed.
   */
  method ValidateUpload(store: Store, id: ObjectId, size: nat) returns (isValid: bool, errors: seq<ValidationError>, warnings: seq<string>)
    modifies store`readLog
    ensures var v := ValidateObject(size, id.key, RangedRead(store.objects, store.unreadable, id));
      && isValid == v.Accepted?
      && (v.Accepted? ==> errors == [] && warnings == v.warnings)
      && (v.Rejected? ==> errors == v.errors)
    ensures store.readLog == old(store.readLog) + (if CheapErrors(size, id.key) == [] then [id] else [])
  {
    isValid := true;
    errors := [];
    warnings := [];

    var sizeValidation := ValidateFileSize(size);
    if sizeValidation.Invalid? {
      isValid := false;
      errors := errors + [sizeValidation.error];
    }

    var extensionValidation := ValidateFileExtension(id.key);
    if extensionValidation.Invalid? {
      isValid := false;
      errors := errors + [extensionValidation.error];
    }
    assert errors == CheapErrors(size, id.key);

    if isValid {
      var mimeValidation := ValidateMimeType(store, id);
      if mimeValidation.Invalid? {
        isValid := false;
        errors := errors + [mimeValidation.error];
      } else {
        warnings := warnings + mimeValidation.warnings;
      }
    }
  }

  /**
   * One iteration of the handler's loop, up to the throw: the outcome the
   * handler acts on, after the read and the delete it issued.
   */
  method HandleRecord(store: Store, record: S3Record) returns (outcome: RecordOutcome)
    modifies store`readLog, store`objects, store`deleteLog
    ensures outcome == ExamineRecord(record, old(store.objects), store.unreadable)
    ensures store.readLog == old(store.readLog) + RecordReads(record)
    ensures store.deleteLog == old(store.deleteLog) + DeleteAttempts(outcome.Removal())
    ensures store.objects == AfterRemoval(old(store.objects), store.undeletable, outcome.Removal())
  {
    if !StartsWith(record.eventName, "ObjectCreated") {
      return NotCreated;
    }
    var bucket := record.bucket;
    var decoded := DecodeKey(record.key);
    if decoded.None? {
      return UriError(record.key);
    }
    var id := ObjectId(bucket, decoded.value);
    var isValid, errors, warnings := ValidateUpload(store, id, record.size);
    if !isValid {
      RemoveInvalidFile(store, id);
      return Failed(id, errors);
    }
    return Passed(id, warnings);
  }

  /**
   * One turn of the handler's loop against the batch's reference
   * definition: the record's reads extend the batch's reads, and a record
   * that stops the handler fixes the whole batch's trace.
   */
  lemma {:induction false} LoopStep(records: seq<S3Record>, objects: map<ObjectId, seq<bv8>>, unreadable: set<ObjectId>,
                                    i: nat, outcome: RecordOutcome, log: seq<ObjectId>)
    requires i < |records|
    requires outcome == ExamineRecord(records[i], objects, unreadable)
    requires RunSteps(Steps(records, objects, unreadable)[..i]).result == Success
    ensures var steps := Steps(records, objects, unreadable);
      && log + RunSteps(steps[..i]).readIds + RecordReads(records[i]) == log + RunSteps(steps[..i + 1]).readIds
      && (outcome.Continues() ==> RunSteps(steps[..i + 1]).result == Success)
    ensures var t := RunBatch(records, objects, unreadable);
      !outcome.Continues() ==>
        && t.result == Failure(outcome.Error())
        && log + RunSteps(Steps(records, objects, unreadable)[..i]).readIds + RecordReads(records[i]) == log + t.readIds
        && t.removal == outcome.Removal()
  {
    var steps := Steps(records, objects, unreadable);
    assert steps[i] == StepOf(records[i], objects, unreadable);
    AdvanceReads(steps, i, log);
    if !outcome.Continues() {
      AdvanceStops(steps, i);
    }
  }

  /** One more step after a successful prefix adds that step's reads. */
  lemma AdvanceReads(steps: seq<Step>, i: nat, log: seq<ObjectId>)
    requires i < |steps|
    requires RunSteps(steps[..i]).result == Success
    ensures log + RunSteps(steps[..i]).readIds + steps[i].readIds == log + RunSteps(steps[..i + 1]).readIds
    ensures steps[i].outcome.Continues() ==> RunSteps(steps[..i + 1]).result == Success
  {
    var before := RunSteps(steps[..i]);
    PrefixStep(steps, i);
    assert log + before.readIds + steps[i].readIds == log + (before.readIds + steps[i].readIds);
  }

  /** A step that stops the handler after a successful prefix decides the whole batch. */
  lemma AdvanceStops(steps: seq<Step>, i: nat)
    requires i < |steps|
    requires RunSteps(steps[..i]).result == Success
    requires !steps[i].outcome.Continues()
    ensures RunSteps(steps) == RunSteps(steps[..i + 1])
    ensures RunSteps(steps).result == Failure(steps[i].outcome.Error())
    ensures RunSteps(steps).removal == steps[i].outcome.Removal()
  {
    PrefixStep(steps, i);
    FailureIsFinal(steps, i + 1);
  }

  /** The trace of the first i + 1 steps extends the trace of the first i by step i. */
  lemma PrefixStep(steps: seq<Step>, i: nat)
    requires i < |steps|
    ensures RunSteps(steps[..i + 1]) == Extend(RunSteps(steps[..i]), steps[i])
  {
    var prefix := steps[..i + 1];
    assert prefix[..i] == steps[..i] && prefix[i] == steps[i];
  }

  /**
   * Handles record i of a batch whose earlier records all let the handler
   * move on: either the batch goes on, or the store now holds exactly what
   * the whole batch leaves behind.
   */
  method HandleNext(store: Store, records: seq<S3Record>, i: nat, ghost objects: map<ObjectId, seq<bv8>>,
                    ghost log: seq<ObjectId>) returns (outcome: RecordOutcome)
    requires i < |records| && store.objects == objects
    requires RunSteps(Steps(records, objects, store.unreadable)[..i]).result == Success
    requires store.readLog == log + RunSteps(Steps(records, objects, store.unreadable)[..i]).readIds
    modifies store`readLog, store`objects, store`deleteLog
    ensures var steps := Steps(records, objects, store.unreadable);
      outcome.Continues() ==>
        && RunSteps(steps[..i + 1]).result == Success
        && store.readLog == log + RunSteps(steps[..i + 1]).readIds
        && store.objects == objects && store.deleteLog == old(store.deleteLog)
    ensures var t := RunBatch(records, objects, store.unreadable);
      !outcome.Continues() ==>
        && t.result == Failure(outcome.Error())
        && store.readLog == log + t.readIds
        && store.deleteLog == old(store.deleteLog) + DeleteAttempts(t.removal)
        && store.objects == AfterRemoval(objects, store.undeletable, t.removal)
  {
    outcome := HandleRecord(store, records[i]);
    LoopStep(records, objects, store.unreadable, i, outcome, log);
  }

  /** The S3 trigger `handler`: records in order, stopping at the first that throws. */
  method Handler(store: Store, records: seq<S3Record>) returns (result: HandlerResult)
    modifies store`readLog, store`objects, store`deleteLog
    ensures var t := RunBatch(records, old(store.objects), store.unreadable);
      && result == t.result
      && store.readLog == old(store.readLog) + t.readIds
      && store.deleteLog == old(store.deleteLog) + DeleteAttempts(t.removal)
      && store.objects == AfterRemoval(old(store.objects), store.undeletable, t.removal)
  {
    ghost var objects, log := store.objects, store.readLog;
    ghost var steps := Steps(records, objects, store.unreadable);
    var i := 0;
    while i < |records|
      invariant 0 <= i <= |records|
      invariant RunSteps(steps[..i]).result == Success
      invariant store.readLog == log + RunSteps(steps[..i]).readIds
      invariant store.objects == objects && store.deleteLog == old(store.deleteLog)
    {
      var outcome := HandleNext(store, records, i, objects, log);
      if !outcome.Continues() {
        return Failure(outcome.Error());
      }
      i := i + 1;
    }
    assert steps[..i] == steps;
    return Success;
  }
}
