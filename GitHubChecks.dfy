/**
 * Check runs of a GitHub pull request: decoding the forge's check-run listing
 * (GitHubPullRequest.getChecks) and encoding a check as the query that
 * updateCheck posts.
 */
module GitHubChecks {
  import opened Wrappers

  /** CheckStatus: IN_PROGRESS, SUCCESS or FAILURE. */
  datatype CheckStatus = InProgress | Success | Failure

  /** CheckAnnotationLevel: NOTICE, WARNING or FAILURE. */
  datatype AnnotationLevel = Notice | Warning | Failure

  datatype Annotation = Annotation(
    path: string,
    startLine: int,
    endLine: int,
    startColumn: Option<int>,
    endColumn: Option<int>,
    level: AnnotationLevel,
    message: string,
    title: Option<string>)

  /** A check; timestamps are opaque text, as ISO instants. */
  datatype Check = Check(
    name: string,
    hash: string,
    startedAt: string,
    status: CheckStatus,
    completedAt: Option<string>,
    metadata: Option<string>,
    title: Option<string>,
    summary: Option<string>,
    annotations: seq<Annotation>)

  /**
   * One element of the forge's check_runs listing. The conclusion and
   * completed_at fields are read only for a completed run.
   */
  datatype CheckRunRecord = CheckRunRecord(
    name: string,
    headSha: string,
    startedAt: string,
    status: string,
    conclusion: string,
    completedAt: string,
    externalId: Option<string>)

  /** The check built from one check-run record. */
  function DecodeCheck(rec: CheckRunRecord): (c: Check)
    ensures c.name == rec.name && c.hash == rec.headSha && c.startedAt == rec.startedAt
    ensures c.status != CheckStatus.InProgress <==> rec.status == "completed"
    ensures c.status == CheckStatus.Success <==> rec.status == "completed" && rec.conclusion == "success"
    ensures c.completedAt == if rec.status == "completed" then Some(rec.completedAt) else None
    ensures c.metadata.Some? <==> rec.externalId.Some?
    ensures c.metadata == rec.externalId
    ensures c.title.None? && c.summary.None? && c.annotations == []
  {
    var completed := rec.status == "completed";
    var status :=
      if !completed then CheckStatus.InProgress
      else if rec.conclusion == "success" then CheckStatus.Success
      else CheckStatus.Failure;
    Check(rec.name, rec.headSha, rec.startedAt, status,
          if completed then Some(rec.completedAt) else None,
          rec.externalId, None, None, [])
  }

  function Names(runs: seq<CheckRunRecord>): set<string> {
    set i | 0 <= i < |runs| :: runs[i].name
  }

  predicate NamesDistinct(runs: seq<CheckRunRecord>) {
    forall i, j :: 0 <= i < j < |runs| ==> runs[i].name != runs[j].name
  }

  /** Collecting into a map without a merge function fails on a repeated key. */
  datatype CheckError = DuplicateKey(name: string)

  /**
   * getChecks: the checks keyed by name, collected in listing order; the
   * first run whose name was already collected is an error.
   */
  function GetChecks(runs: seq<CheckRunRecord>): (r: Result<map<string, Check>, CheckError>)
    ensures r.Ok? ==> forall name :: name in r.value ==> r.value[name].name == name
    decreases |runs|
  {
    if runs == [] then Ok(map[])
    else
      var n := |runs| - 1;
      match GetChecks(runs[..n])
      case Err(e) => Err(e)
      case Ok(m) =>
        if runs[n].name in m then Err(DuplicateKey(runs[n].name))
        else Ok(m[runs[n].name := DecodeCheck(runs[n])])
  }

  /**
   * getChecks succeeds exactly when no two runs share a name; then every
   * name maps to its run's check, and otherwise the error names a shared name.
   */
  lemma GetChecksSpec(runs: seq<CheckRunRecord>)
    ensures GetChecks(runs).Ok? <==> NamesDistinct(runs)
    ensures GetChecks(runs).Ok? ==> GetChecks(runs).value.Keys == Names(runs)
    ensures GetChecks(runs).Ok? ==> forall i :: 0 <= i < |runs| ==>
              GetChecks(runs).value[runs[i].name] == DecodeCheck(runs[i])
    ensures GetChecks(runs).Err? ==>
              exists i, j :: 0 <= i < j < |runs| && runs[i].name == runs[j].name == GetChecks(runs).error.name
  {
    GetChecksOk(runs);
    GetChecksErr(runs);
  }

  lemma NamesSnoc(runs: seq<CheckRunRecord>)
    requires runs != []
    ensures Names(runs) == Names(runs[..|runs| - 1]) + {runs[|runs| - 1].name}
  {
    var n := |runs| - 1;
    var init := runs[..n];
    forall x | x in Names(runs) ensures x in Names(init) + {runs[n].name} {
      var i :| 0 <= i < |runs| && runs[i].name == x;
      if i < n { assert init[i].name == x; }
    }
    forall x | x in Names(init) ensures x in Names(runs) {
      var i :| 0 <= i < |init| && init[i].name == x;
      assert runs[i].name == x;
    }
  }

  lemma GetChecksOk(runs: seq<CheckRunRecord>)
    ensures GetChecks(runs).Ok? <==> NamesDistinct(runs)
    ensures GetChecks(runs).Ok? ==> GetChecks(runs).value.Keys == Names(runs)
    ensures GetChecks(runs).Ok? ==> forall i :: 0 <= i < |runs| ==>
              GetChecks(runs).value[runs[i].name] == DecodeCheck(runs[i])
  {
    GetChecksDistinct(runs);
    GetChecksKeys(runs);
    GetChecksValues(runs);
  }

  lemma {:induction false} GetChecksKeys(runs: seq<CheckRunRecord>)
    ensures GetChecks(runs).Ok? ==> GetChecks(runs).value.Keys == Names(runs)
    decreases |runs|
  {
    if runs != [] {
      GetChecksKeys(runs[..|runs| - 1]);
      NamesSnoc(runs);
    }
  }

  lemma {:induction false} GetChecksDistinct(runs: seq<CheckRunRecord>)
    ensures GetChecks(runs).Ok? <==> NamesDistinct(runs)
    decreases |runs|
  {
    if runs != [] {
      var n := |runs| - 1;
      var init := runs[..n];
      GetChecksDistinct(init);
      GetChecksKeys(init);
      var prev := GetChecks(init);
      if prev.Err? {
        assert GetChecks(runs).Err?;
        var i, j :| 0 <= i < j < |init| && init[i].name == init[j].name;
        assert init[i] == runs[i] && init[j] == runs[j];
      } else if runs[n].name in prev.value {
        assert GetChecks(runs).Err?;
        assert runs[n].name in Names(init);
        var i :| 0 <= i < |init| && init[i].name == runs[n].name;
        assert init[i] == runs[i];
      } else {
        assert GetChecks(runs).Ok?;
        forall i, j | 0 <= i < j < |runs| ensures runs[i].name != runs[j].name {
          assert init[i] == runs[i];
          if j == n {
            assert runs[i].name in Names(init);
          } else {
            assert init[j] == runs[j];
          }
        }
      }
    }
  }

  lemma {:induction false} GetChecksValues(runs: seq<CheckRunRecord>)
    ensures GetChecks(runs).Ok? ==> forall i :: 0 <= i < |runs| ==>
              runs[i].name in GetChecks(runs).value &&
              GetChecks(runs).value[runs[i].name] == DecodeCheck(runs[i])
    decreases |runs|
  {
    if runs != [] && GetChecks(runs).Ok? {
      var n := |runs| - 1;
      var init := runs[..n];
      GetChecksValues(init);
      GetChecksKeys(init);
      var m := GetChecks(init).value;
      var m' := m[runs[n].name := DecodeCheck(runs[n])];
      assert GetChecks(runs) == Ok(m');
      forall i | 0 <= i < |runs| ensures runs[i].name in m' && m'[runs[i].name] == DecodeCheck(runs[i]) {
        if i < n {
          assert init[i] == runs[i];
          assert runs[i].name in Names(init);
        }
      }
    }
  }

  lemma {:induction false} GetChecksErr(runs: seq<CheckRunRecord>)
    ensures GetChecks(runs).Err? ==>
              exists i, j :: 0 <= i < j < |runs| && runs[i].name == runs[j].name == GetChecks(runs).error.name
    decreases |runs|
  {
    if runs != [] {
      var n := |runs| - 1;
      var init := runs[..n];
      GetChecksErr(init);
      GetChecksOk(init);
      match GetChecks(init)
      case Err(e) =>
        var i, j :| 0 <= i < j < |init| && init[i].name == init[j].name == e.name;
        assert runs[i] == init[i] && runs[j] == init[j];
      case Ok(m) =>
        if runs[n].name in m {
          NamesSnoc(runs);
          var i :| 0 <= i < |init| && init[i].name == runs[n].name;
          assert runs[i] == init[i];
        }
    }
  }

  /** The output.annotations element updateCheck sends for one annotation. */
  datatype AnnotationQuery = AnnotationQuery(
    path: string,
    startLine: int,
    endLine: int,
    startColumn: Option<int>,
    endColumn: Option<int>,
    annotationLevel: string,
    message: string,
    title: Option<string>)

  datatype OutputQuery = OutputQuery(title: string, summary: string, annotations: seq<AnnotationQuery>)

  /** The check-run body updateCheck posts; absent fields are None. */
  datatype CheckRunQuery = CheckRunQuery(
    name: string,
    headBranch: string,
    headSha: string,
    status: string,
    startedAt: string,
    externalId: Option<string>,
    conclusion: Option<string>,
    completedAt: Option<string>,
    output: Option<OutputQuery>)

  function LevelName(level: AnnotationLevel): (s: string)
    ensures s == "notice" <==> level == Notice
    ensures s == "warning" <==> level == Warning
    ensures s == "failure" <==> level == AnnotationLevel.Failure
  {
    match level
    case Notice => "notice"
    case Warning => "warning"
    case Failure => "failure"
  }

  /** The three annotation levels are sent as three distinct strings. */
  lemma LevelNameInjective(a: AnnotationLevel, b: AnnotationLevel)
    ensures LevelName(a) == LevelName(b) <==> a == b
  {
  }

  function EncodeAnnotation(a: Annotation): (q: AnnotationQuery)
    ensures q.annotationLevel == LevelName(a.level)
  {
    AnnotationQuery(a.path, a.startLine, a.endLine, a.startColumn, a.endColumn,
                    LevelName(a.level), a.message, a.title)
  }

  /**
   * q is what updateCheck posts for `check` on a pull request whose head
   * branch is headBranch, when the clock reads `now`.
   */
  predicate EncodesCheck(check: Check, headBranch: string, now: string, q: CheckRunQuery) {
    && q.name == check.name && q.headBranch == headBranch && q.headSha == check.hash
    && q.status == "completed" && q.startedAt == check.startedAt
    && q.externalId == check.metadata
    // conclusion and completed_at only for a finished check
    && (q.conclusion.Some? <==> check.status != CheckStatus.InProgress)
    && (q.conclusion == Some("success") <==> check.status == CheckStatus.Success)
    && (q.conclusion == Some("failure") <==> check.status == CheckStatus.Failure)
    && (q.completedAt.Some? <==> check.status != CheckStatus.InProgress)
    && (q.completedAt.Some? ==> q.completedAt.value == check.completedAt.GetOr(now))
    // output only when both title and summary are present
    && (q.output.Some? <==> check.title.Some? && check.summary.Some?)
    && (q.output.Some? ==>
          && q.output.value.title == check.title.value
          && q.output.value.summary == check.summary.value
          && |q.output.value.annotations| == |check.annotations|
          && forall i :: 0 <= i < |check.annotations| ==>
               q.output.value.annotations[i] == EncodeAnnotation(check.annotations[i]))
  }

  /** GitHubPullRequest.updateCheck: the query it posts. */
  method UpdateCheckQuery(check: Check, headBranch: string, now: string) returns (q: CheckRunQuery)
    ensures EncodesCheck(check, headBranch, now, q)
  {
    var output: Option<OutputQuery> := None;
    if check.title.Some? && check.summary.Some? {
      var annotations: seq<AnnotationQuery> := [];
      for i := 0 to |check.annotations|
        invariant |annotations| == i
        invariant forall k :: 0 <= k < i ==> annotations[k] == EncodeAnnotation(check.annotations[k])
      {
        annotations := annotations + [EncodeAnnotation(check.annotations[i])];
      }
      output := Some(OutputQuery(check.title.value, check.summary.value, annotations));
    }
    var conclusion: Option<string> := None;
    var completedAt: Option<string> := None;
    if check.status != CheckStatus.InProgress {
      conclusion := Some(if check.status == CheckStatus.Success then "success" else "failure");
      completedAt := Some(check.completedAt.GetOr(now));
    }
    q := CheckRunQuery(check.name, headBranch, check.hash, "completed", check.startedAt,
                       check.metadata, conclusion, completedAt, output);
  }

  /** The run the forge lists after accepting a posted query. */
  function ListedRun(q: CheckRunQuery): CheckRunRecord {
    CheckRunRecord(q.name, q.headSha, q.startedAt, q.status,
                   q.conclusion.GetOr(""), q.completedAt.GetOr(""), q.externalId)
  }

  /**
   * Posting a finished check and decoding the listed run gives back its name,
   * commit, start, status, completion time and metadata.
   */
  lemma UpdateThenDecode(check: Check, headBranch: string, now: string, q: CheckRunQuery)
    requires EncodesCheck(check, headBranch, now, q)
    requires check.status != CheckStatus.InProgress
    ensures var c := DecodeCheck(ListedRun(q));
            && c.name == check.name && c.hash == check.hash && c.startedAt == check.startedAt
            && c.status == check.status && c.metadata == check.metadata
            && c.completedAt == Some(check.completedAt.GetOr(now))
  {
  }
}
