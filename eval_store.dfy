/** Recording an eval run: `record_eval` and its store operations in
    server/src/rpc/eval.rs. The three tables `prompt_version`, `eval` and
    `eval_result` are sequences in a `Store` object; ids are serial (a row's
    id is its position plus one, nothing is ever deleted) and `Utc::now()` is
    a clock that advances on every insert. */
module EvalStore {
  import opened Wrappers
  import opened LexOrder
  import Tables
  import opened Compare

  // ---------------------------------------------------------------------
  // Rows
  // ---------------------------------------------------------------------

  datatype PromptVersion = PromptVersion(id: int, name: string, version: string, createdAt: int)

  /** An eval, owned by one prompt version. */
  datatype Eval = Eval(id: int, name: string, promptVersionId: int, createdAt: int)

  /** The `jsonb` scores column: a list of scores, or a JSON value of another
      shape (written by something other than this code). */
  datatype ScoresJson = ScoreList(scores: seq<SingleEvalScore>) | OtherJson(text: string)

  datatype EvalResult = EvalResult(id: int, evalId: int, scores: ScoresJson, createdAt: int)

  // ---------------------------------------------------------------------
  // Request and response messages
  // ---------------------------------------------------------------------

  datatype EvalScore = EvalScore(evalHash: string, score: real)

  datatype VersionedPrompt = VersionedPrompt(name: string, version: string)

  /** The request's `eval` message: the eval's name. */
  datatype EvalName = EvalName(name: string)

  datatype RecordEvalRequest = RecordEvalRequest(
    eval: Option<EvalName>,
    prompt: Option<VersionedPrompt>,
    evalScores: seq<EvalScore>,
    baseVersion: Option<string>)

  datatype RecordEvalResponse = RecordEvalResponse(
    outcome: EvalOutcome,
    previousEvalScores: seq<EvalScore>,
    meaningfulEvalScores: seq<MeaningfulEvalScore>,
    message: string)

  /** The RPC error statuses the core produces. */
  datatype Status = InvalidArgument(message: string) | Internal(message: string)

  // ---------------------------------------------------------------------
  // Score conversions
  // ---------------------------------------------------------------------

  /** `convert_eval_scores`: request scores to stored scores, one for one. */
  function ConvertEvalScores(scores: seq<EvalScore>): (r: seq<SingleEvalScore>)
    ensures |r| == |scores|
  {
    seq(|scores|, i requires 0 <= i < |scores| => SingleEvalScore(scores[i].evalHash, scores[i].score))
  }

  /** Stored scores back to response scores, as the response's
      `previous_eval_scores` are built. */
  function ToEvalScores(scores: seq<SingleEvalScore>): (r: seq<EvalScore>)
    ensures |r| == |scores|
  {
    seq(|scores|, i requires 0 <= i < |scores| => EvalScore(scores[i].evalHash, scores[i].score))
  }

  /** The two conversions are inverse to each other: no hash or score is
      lost or altered on the way into the store and back. */
  lemma ConversionRoundTrip(request: seq<EvalScore>, stored: seq<SingleEvalScore>)
    ensures ToEvalScores(ConvertEvalScores(request)) == request
    ensures ConvertEvalScores(ToEvalScores(stored)) == stored
  {
    var r := ToEvalScores(ConvertEvalScores(request));
    assert forall i :: 0 <= i < |request| ==> r[i] == request[i];
    var s := ConvertEvalScores(ToEvalScores(stored));
    assert forall i :: 0 <= i < |stored| ==> s[i] == stored[i];
  }

  /** `serde_json::to_value(scores)`. */
  function SerializeScores(scores: seq<SingleEvalScore>): (j: ScoresJson)
    ensures DeserializeScores(j) == Success(scores)
  {
    ScoreList(scores)
  }

  /** `serde_json::from_value` of a stored scores column. */
  function DeserializeScores(j: ScoresJson): (r: Result<seq<SingleEvalScore>, Status>)
    ensures r.Failure? <==> j.OtherJson?
    ensures r.Failure? ==> r.error == Internal("Failed to deserialize previous scores")
  {
    match j
    case ScoreList(scores) => Success(scores)
    case OtherJson(_) => Failure(Internal("Failed to deserialize previous scores"))
  }

  // ---------------------------------------------------------------------
  // Queries
  // ---------------------------------------------------------------------

  /** Position of the first prompt version with this version string, or
      `|rows|` when there is none. */
  function IndexOfVersion(rows: seq<PromptVersion>, version: string): (k: nat)
    ensures k <= |rows|
    ensures k < |rows| ==> rows[k].version == version
    ensures forall j :: 0 <= j < k ==> rows[j].version != version
  {
    if rows == [] then 0
    else if rows[0].version == version then 0
    else 1 + IndexOfVersion(rows[1..], version)
  }

  /** `filter(version.eq(v)).first()`: the first prompt version with this
      version string, whatever its name; None exactly when no row has it. */
  function FirstWithVersion(rows: seq<PromptVersion>, version: string): (r: Option<PromptVersion>)
    ensures r.None? <==> forall i :: 0 <= i < |rows| ==> rows[i].version != version
    ensures r.Some? ==> r.value in rows && r.value.version == version
  {
    var k := IndexOfVersion(rows, version);
    if k < |rows| then Some(rows[k]) else None
  }

  /** The inner join of an eval with its prompt version matches the filter:
      the eval has this name and its prompt version has this version. */
  predicate EvalMatches(promptVersions: seq<PromptVersion>, e: Eval, name: string, version: string) {
    && e.name == name
    && exists p :: p in promptVersions && p.id == e.promptVersionId && p.version == version
  }

  /** Position of the first eval the join query selects, or `|evals|`. */
  function IndexOfEval(evals: seq<Eval>, promptVersions: seq<PromptVersion>, name: string, version: string): (k: nat)
    ensures k <= |evals|
    ensures k < |evals| ==> EvalMatches(promptVersions, evals[k], name, version)
    ensures forall j :: 0 <= j < k ==> !EvalMatches(promptVersions, evals[j], name, version)
  {
    if evals == [] then 0
    else if EvalMatches(promptVersions, evals[0], name, version) then 0
    else 1 + IndexOfEval(evals[1..], promptVersions, name, version)
  }

  /** The eval the join query returns: the first one with this name whose
      prompt version has this version; None exactly when no eval matches. */
  function FirstEval(evals: seq<Eval>, promptVersions: seq<PromptVersion>, name: string, version: string): (r: Option<Eval>)
    ensures r.None? <==> forall i :: 0 <= i < |evals| ==> !EvalMatches(promptVersions, evals[i], name, version)
    ensures r.Some? ==> r.value in evals && EvalMatches(promptVersions, r.value, name, version)
  {
    var k := IndexOfEval(evals, promptVersions, name, version);
    if k < |evals| then Some(evals[k]) else None
  }

  /** `filter(version.lt(current)).order(version.desc()).first()`: a prompt
      version whose version sorts below `current` with no stored version
      strictly between the two; None when no version sorts below. */
  function GreatestBelow(rows: seq<PromptVersion>, current: string): (r: Option<PromptVersion>)
    ensures r.None? <==> forall i :: 0 <= i < |rows| ==> !Less(rows[i].version, current)
    ensures r.Some? ==> r.value in rows && Less(r.value.version, current)
    ensures r.Some? ==> forall i :: 0 <= i < |rows| ==> !(Less(r.value.version, rows[i].version) && Less(rows[i].version, current))
  {
    if rows == [] then None
    else
      var rest := GreatestBelow(rows[1..], current);
      StrictTotalOrder();
      assert forall i :: 1 <= i < |rows| ==> rows[i] == rows[1..][i - 1];
      if !Less(rows[0].version, current) then rest
      else if rest.Some? && Less(rows[0].version, rest.value.version) then rest
      else Some(rows[0])
  }

  /** The selection is determined by the stored versions: any version below
      `current` with no stored version strictly between is the one chosen. */
  lemma GreatestBelowDetermined(rows: seq<PromptVersion>, current: string, p: PromptVersion)
    requires p in rows && Less(p.version, current)
    requires forall i :: 0 <= i < |rows| ==> !(Less(p.version, rows[i].version) && Less(rows[i].version, current))
    ensures GreatestBelow(rows, current).Some?
    ensures GreatestBelow(rows, current).value.version == p.version
  {
    var i :| 0 <= i < |rows| && rows[i] == p;
    var r := GreatestBelow(rows, current).value;
    var j :| 0 <= j < |rows| && rows[j] == r;
    Trichotomous(r.version, p.version);
  }

  /** `get_base_prompt_version`. An explicit base must exist (otherwise the
      caller's argument is invalid); without one, the nearest version below the
      current one is used, and having none is not an error. */
  function BasePromptVersion(promptVersions: seq<PromptVersion>, current: string, baseVersion: Option<string>)
    : (r: Result<Option<PromptVersion>, Status>)
    ensures baseVersion.Some? ==>
      (r.Failure? <==> forall i :: 0 <= i < |promptVersions| ==> promptVersions[i].version != baseVersion.value)
    ensures baseVersion.Some? && r.Failure? ==> r.error == InvalidArgument("Base version not found")
    ensures baseVersion.Some? && r.Success? ==>
      r.value.Some? && r.value.value in promptVersions && r.value.value.version == baseVersion.value
    ensures baseVersion.None? ==> r.Success?
    ensures baseVersion.None? && r.value.Some? ==>
      r.value.value in promptVersions && Less(r.value.value.version, current)
      && forall i :: 0 <= i < |promptVersions| ==>
           !(Less(r.value.value.version, promptVersions[i].version) && Less(promptVersions[i].version, current))
    ensures baseVersion.None? && r.value.None? ==>
      forall i :: 0 <= i < |promptVersions| ==> !Less(promptVersions[i].version, current)
  {
    match baseVersion
    case Some(base) =>
      (match FirstWithVersion(promptVersions, base)
       case Some(p) => Success(Some(p))
       case None => Failure(InvalidArgument("Base version not found")))
    case None => Success(GreatestBelow(promptVersions, current))
  }

  function ResultCreatedAt(r: EvalResult): int { r.createdAt }

  /** The result belongs to an eval owned by prompt version `promptVersionId`
      (the inner join of `eval_result` with `eval`). */
  predicate OnPromptVersion(evals: seq<Eval>, r: EvalResult, promptVersionId: int) {
    exists e :: e in evals && e.id == r.evalId && e.promptVersionId == promptVersionId
  }

  /** `get_previous_eval_result`: the most recent result of any eval on the
      base prompt version; no base means no previous result. */
  function PreviousEvalResult(promptVersions: seq<PromptVersion>, evals: seq<Eval>, results: seq<EvalResult>,
                              current: string, baseVersion: Option<string>)
    : (r: Result<Option<EvalResult>, Status>)
    ensures r.Failure? <==> BasePromptVersion(promptVersions, current, baseVersion).Failure?
    ensures r.Failure? ==> r.error == InvalidArgument("Base version not found")
    ensures BasePromptVersion(promptVersions, current, baseVersion) == Success(None) ==> r == Success(None)
    ensures r.Success? && r.value.Some? ==>
      var base := BasePromptVersion(promptVersions, current, baseVersion).value.value;
      && r.value.value in results
      && OnPromptVersion(evals, r.value.value, base.id)
      && forall i :: 0 <= i < |results| && OnPromptVersion(evals, results[i], base.id) ==>
           results[i].createdAt <= r.value.value.createdAt
    ensures (exists b: PromptVersion :: BasePromptVersion(promptVersions, current, baseVersion) == Success(Some(b))
               && exists i :: 0 <= i < |results| && OnPromptVersion(evals, results[i], b.id))
            ==> r.Success? && r.value.Some?
  {
    match BasePromptVersion(promptVersions, current, baseVersion)
    case Failure(e) => Failure(e)
    case Success(None) => Success(None)
    case Success(Some(base)) =>
      Success(Tables.MostRecent(results, ResultCreatedAt, r => OnPromptVersion(evals, r, base.id)))
  }

  /** A result stamped after every stored one, on an eval of the base prompt
      version, is the previous result the next lookup against that base
      returns. */
  lemma RecordedResultIsPrevious(promptVersions: seq<PromptVersion>, evals: seq<Eval>, results: seq<EvalResult>,
                                 r: EvalResult, current: string, baseVersion: Option<string>, base: PromptVersion)
    requires Tables.Ascending(results + [r], ResultCreatedAt)
    requires BasePromptVersion(promptVersions, current, baseVersion) == Success(Some(base))
    requires OnPromptVersion(evals, r, base.id)
    ensures PreviousEvalResult(promptVersions, evals, results + [r], current, baseVersion) == Success(Some(r))
  {
    Tables.MostRecentOfAppended(results, r, ResultCreatedAt, x => OnPromptVersion(evals, x, base.id));
  }

  // ---------------------------------------------------------------------
  // The store
  // ---------------------------------------------------------------------

  class Store {
    var promptVersions: seq<PromptVersion>
    var evals: seq<Eval>
    var evalResults: seq<EvalResult>
    /** The next timestamp `Utc::now()` hands out. */
    var clock: int

    /** Serial ids, timestamps from the past, every owning reference
        pointing at an existing row, and results stamped in insertion order. */
    ghost predicate Valid()
      reads this
    {
      && (forall i :: 0 <= i < |promptVersions| ==>
            promptVersions[i].id == i + 1 && promptVersions[i].createdAt < clock)
      && (forall i :: 0 <= i < |evals| ==>
            evals[i].id == i + 1 && evals[i].createdAt < clock
            && 1 <= evals[i].promptVersionId <= |promptVersions|)
      && (forall i :: 0 <= i < |evalResults| ==>
            evalResults[i].id == i + 1 && evalResults[i].createdAt < clock
            && 1 <= evalResults[i].evalId <= |evals|)
      && Tables.Ascending(evalResults, ResultCreatedAt)
    }

    constructor ()
      ensures Valid()
      ensures promptVersions == [] && evals == [] && evalResults == []
    {
      promptVersions, evals, evalResults := [], [], [];
      clock := 0;
    }

    /** `Utc::now()`: strictly later than every earlier reading. */
    method Now() returns (t: int)
      modifies this`clock
      ensures t == old(clock) && clock == old(clock) + 1
    {
      t := clock;
      clock := clock + 1;
    }

    /** `get_or_create_prompt_version`: the first row with the prompt's
        version string (its name is not compared), else a new row. Afterwards
        the lookup finds the returned row, so a second call returns the same
        row and inserts nothing. */
    method GetOrCreatePromptVersion(prompt: VersionedPrompt) returns (pv: PromptVersion)
      requires Valid()
      modifies this
      ensures Valid()
      ensures evals == old(evals) && evalResults == old(evalResults)
      ensures old(clock) <= clock
      ensures old(FirstWithVersion(promptVersions, prompt.version)).Some? ==>
        pv == old(FirstWithVersion(promptVersions, prompt.version)).value && promptVersions == old(promptVersions)
      ensures old(FirstWithVersion(promptVersions, prompt.version)).None? ==>
        pv == PromptVersion(|old(promptVersions)| + 1, prompt.name, prompt.version, old(clock))
        && promptVersions == old(promptVersions) + [pv]
      ensures pv in promptVersions && pv.version == prompt.version
      ensures FirstWithVersion(promptVersions, prompt.version) == Some(pv)
    {
      var existing := FirstWithVersion(promptVersions, prompt.version);
      match existing {
        case Some(version) =>
          pv := version;
        case None =>
          var createdAt := Now();
          pv := PromptVersion(|promptVersions| + 1, prompt.name, prompt.version, createdAt);
          var before := promptVersions;
          promptVersions := promptVersions + [pv];
          assert IndexOfVersion(before, prompt.version) == |before|;
          assert forall j :: 0 <= j < |before| ==> promptVersions[j] == before[j];
          assert promptVersions[|before|] == pv;
      }
    }

    /** `get_or_create_eval_version`: the first eval with this name whose
        prompt version carries the same version string, else a new eval owned
        by `pv`. Afterwards the lookup finds the returned eval. */
    method GetOrCreateEval(eval: EvalName, pv: PromptVersion) returns (e: Eval)
      requires Valid() && pv in promptVersions
      modifies this
      ensures Valid()
      ensures promptVersions == old(promptVersions) && evalResults == old(evalResults)
      ensures old(clock) <= clock
      ensures old(FirstEval(evals, promptVersions, eval.name, pv.version)).Some? ==>
        e == old(FirstEval(evals, promptVersions, eval.name, pv.version)).value && evals == old(evals)
      ensures old(FirstEval(evals, promptVersions, eval.name, pv.version)).None? ==>
        e == Eval(|old(evals)| + 1, eval.name, pv.id, old(clock)) && evals == old(evals) + [e]
      ensures e in evals
      ensures FirstEval(evals, promptVersions, eval.name, pv.version) == Some(e)
    {
      var existing := FirstEval(evals, promptVersions, eval.name, pv.version);
      match existing {
        case Some(version) =>
          e := version;
        case None =>
          var createdAt := Now();
          e := Eval(|evals| + 1, eval.name, pv.id, createdAt);
          var before := evals;
          evals := evals + [e];
          assert IndexOfEval(before, promptVersions, eval.name, pv.version) == |before|;
          assert forall j :: 0 <= j < |before| ==> evals[j] == before[j];
          assert EvalMatches(promptVersions, e, eval.name, pv.version);
          assert evals[|before|] == e;
      }
    }

    /** `create_new_eval_result`: appends one result, unconditionally. */
    method CreateNewEvalResult(e: Eval, scores: seq<SingleEvalScore>) returns (r: EvalResult)
      requires Valid() && e in evals
      modifies this
      ensures Valid()
      ensures promptVersions == old(promptVersions) && evals == old(evals)
      ensures r == EvalResult(|old(evalResults)| + 1, e.id, SerializeScores(scores), old(clock))
      ensures evalResults == old(evalResults) + [r]
    {
      var createdAt := Now();
      r := EvalResult(|evalResults| + 1, e.id, SerializeScores(scores), createdAt);
      Tables.AscendingAppend(evalResults, r, ResultCreatedAt);
      evalResults := evalResults + [r];
    }

    /** The first half of `record_eval`: the prompt version, then the eval,
        each found or created. Each table grows by at most one row; a new
        prompt version carries the prompt's name and version, and a new eval
        the eval's name and the resolved prompt version as owner. */
    method Resolve(eval: EvalName, prompt: VersionedPrompt) returns (e: Eval)
      requires Valid()
      modifies this
      ensures Valid()
      ensures evalResults == old(evalResults) && old(clock) <= clock
      ensures old(promptVersions) <= promptVersions && |promptVersions| <= |old(promptVersions)| + 1
      ensures old(evals) <= evals && |evals| <= |old(evals)| + 1
      ensures old(FirstWithVersion(promptVersions, prompt.version)).Some? ==> promptVersions == old(promptVersions)
      ensures old(FirstEval(evals, promptVersions, eval.name, prompt.version)).Some? ==> evals == old(evals)
      ensures old(FirstWithVersion(promptVersions, prompt.version)).None? ==>
        && |promptVersions| == |old(promptVersions)| + 1
        && promptVersions[|old(promptVersions)|].name == prompt.name
        && promptVersions[|old(promptVersions)|].version == prompt.version
      ensures old(FirstEval(evals, promptVersions, eval.name, prompt.version)).None? ==>
        && |evals| == |old(evals)| + 1
        && evals[|old(evals)|].name == eval.name
        && Some(promptVersions[evals[|old(evals)|].promptVersionId - 1])
           == FirstWithVersion(promptVersions, prompt.version)
      ensures FirstWithVersion(promptVersions, prompt.version).Some?
      ensures e in evals && FirstEval(evals, promptVersions, eval.name, prompt.version) == Some(e)
    {
      var promptVersion := GetOrCreatePromptVersion(prompt);
      e := GetOrCreateEval(eval, promptVersion);
    }

    /** The second half of `record_eval`, once the base's previous result
        is known: the new result is inserted, then the response is built
        from the previous result. */
    method RecordAndCompare(e: Eval, previous: Option<EvalResult>, current: seq<SingleEvalScore>)
      returns (response: Result<RecordEvalResponse, Status>)
      requires Valid() && e in evals
      modifies this
      ensures Valid()
      ensures promptVersions == old(promptVersions) && evals == old(evals)
      ensures evalResults == old(evalResults) + [EvalResult(|old(evalResults)| + 1, e.id, ScoreList(current), old(clock))]
      ensures Answers(previous, current, response)
    {
      var _ := CreateNewEvalResult(e, current);
      match previous {
        case None =>
          response := Success(RecordEvalResponse(NoChange, [], [], "Success"));
        case Some(previousResult) =>
          var decoded := DeserializeScores(previousResult.scores);
          if decoded.Failure? {
            return Failure(decoded.error);
          }
          var outcome, meaningful := CompareResults(decoded.value, current);
          response := Success(RecordEvalResponse(outcome, ToEvalScores(decoded.value), meaningful, "Success"));
      }
    }

    /** `record_eval`. A request without an eval or a prompt is rejected
        before the store is touched. Otherwise the prompt version and the eval
        are resolved (created if needed), the base's most recent result is
        looked up, and only then is the new result inserted, exactly once;
        a base that was asked for but does not exist stops the request after
        resolution and before the insert. */
    method RecordEval(request: RecordEvalRequest) returns (response: Result<RecordEvalResponse, Status>)
      requires Valid()
      modifies this
      ensures Valid()
      ensures request.eval.None? ==>
        response == Failure(InvalidArgument("Missing eval")) && unchanged(this)
      ensures request.eval.Some? && request.prompt.None? ==>
        response == Failure(InvalidArgument("Missing prompt")) && unchanged(this)
      ensures request.eval.Some? && request.prompt.Some? ==>
        var prompt := request.prompt.value;
        var name := request.eval.value.name;
        && old(promptVersions) <= promptVersions && |promptVersions| <= |old(promptVersions)| + 1
        && old(evals) <= evals && |evals| <= |old(evals)| + 1
        && (old(FirstWithVersion(promptVersions, prompt.version)).Some? ==> promptVersions == old(promptVersions))
        && (old(FirstEval(evals, promptVersions, name, prompt.version)).Some? ==> evals == old(evals))
        && (old(FirstWithVersion(promptVersions, prompt.version)).None? ==>
              && |promptVersions| == |old(promptVersions)| + 1
              && promptVersions[|old(promptVersions)|].name == prompt.name
              && promptVersions[|old(promptVersions)|].version == prompt.version)
        && (old(FirstEval(evals, promptVersions, name, prompt.version)).None? ==>
              && |evals| == |old(evals)| + 1
              && evals[|old(evals)|].name == name
              && Some(promptVersions[evals[|old(evals)|].promptVersionId - 1])
                 == FirstWithVersion(promptVersions, prompt.version))
        && FirstWithVersion(promptVersions, prompt.version).Some?
        && FirstEval(evals, promptVersions, name, prompt.version).Some?
      ensures request.eval.Some? && request.prompt.Some? ==>
        var prompt := request.prompt.value;
        var current := ConvertEvalScores(request.evalScores);
        var resolved := FirstEval(evals, promptVersions, request.eval.value.name, prompt.version);
        var previous := PreviousEvalResult(promptVersions, evals, old(evalResults), prompt.version, request.baseVersion);
        && (previous.Failure? ==> response == Failure(previous.error) && evalResults == old(evalResults))
        && (previous.Success? ==>
              && resolved.Some?
              && |evalResults| == |old(evalResults)| + 1
              && evalResults[..|old(evalResults)|] == old(evalResults)
              && evalResults[|old(evalResults)|]
                   == EvalResult(|old(evalResults)| + 1, resolved.value.id, ScoreList(current), evalResults[|old(evalResults)|].createdAt)
              && (forall i :: 0 <= i < |old(evalResults)| ==>
                    old(evalResults)[i].createdAt < evalResults[|old(evalResults)|].createdAt)
              && Answers(previous.value, current, response))
    {
      if request.eval.None? {
        return Failure(InvalidArgument("Missing eval"));
      }
      if request.prompt.None? {
        return Failure(InvalidArgument("Missing prompt"));
      }
      var eval := request.eval.value;
      var prompt := request.prompt.value;

      var existingEval := Resolve(eval, prompt);
      ghost var resolvedResults := evalResults;
      assert resolvedResults == old(evalResults);

      var previous := PreviousEvalResult(promptVersions, evals, evalResults, prompt.version, request.baseVersion);
      if previous.Failure? {
        return Failure(previous.error);
      }

      var scores := ConvertEvalScores(request.evalScores);
      response := RecordAndCompare(existingEval, previous.value, scores);
      assert evalResults[..|resolvedResults|] == resolvedResults;
    }
  }

  /** What `record_eval` answers, given the base's previous result (if any)
      and the converted scores of the new run: NoChange with empty lists when
      there is no previous result; an internal error when the previous scores
      do not decode; otherwise the compared outcome, the previous scores, and
      exactly the meaningful pairs. */
  ghost predicate Answers(previous: Option<EvalResult>, current: seq<SingleEvalScore>,
                          response: Result<RecordEvalResponse, Status>)
  {
    match previous
    case None => response == Success(RecordEvalResponse(NoChange, [], [], "Success"))
    case Some(p) =>
      match DeserializeScores(p.scores)
      case Failure(e) => response == Failure(e)
      case Success(prior) =>
        && response.Success?
        && response.value.outcome == CompareOutcome(prior, current)
        && response.value.previousEvalScores == ToEvalScores(prior)
        && (forall m :: m in response.value.meaningfulEvalScores <==> IsMeaningful(prior, current, m))
        && DistinctHashes(response.value.meaningfulEvalScores)
        && response.value.message == "Success"
  }

  /** Resolving the same prompt twice returns the same row, and the second
      call inserts nothing. */
  method ResolvePromptTwice(store: Store, prompt: VersionedPrompt) returns (first: PromptVersion, second: PromptVersion)
    requires store.Valid()
    modifies store
    ensures store.Valid()
    ensures first == second && first.version == prompt.version
    ensures |store.promptVersions| <= |old(store.promptVersions)| + 1
  {
    first := store.GetOrCreatePromptVersion(prompt);
    second := store.GetOrCreatePromptVersion(prompt);
  }

  /** Submitting the same run twice creates the prompt version and the eval
      at most once: the second submission finds both. */
  method RecordTwice(store: Store, request: RecordEvalRequest)
    returns (first: Result<RecordEvalResponse, Status>, second: Result<RecordEvalResponse, Status>)
    requires store.Valid()
    requires request.eval.Some? && request.prompt.Some?
    modifies store
    ensures store.Valid()
    ensures |store.promptVersions| <= |old(store.promptVersions)| + 1
    ensures |store.evals| <= |old(store.evals)| + 1
  {
    first := store.RecordEval(request);
    var promptVersionsAfterFirst := store.promptVersions;
    var evalsAfterFirst := store.evals;
    second := store.RecordEval(request);
    assert store.promptVersions == promptVersionsAfterFirst;
    assert store.evals == evalsAfterFirst;
  }
}
