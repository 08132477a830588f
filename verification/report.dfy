/** The reporting pass of `main` (main.go): per repository, the deletions of secrets that its
    workflows still use, and the used secrets that no create or update provides. */
module Report {
  import opened Plan

  /** The running state of the loop over one repository's calls: the unsafe-deletion counter's
      increase and `specifiedSecrets`. */
  datatype Tally = Tally(unsafeDeletes: nat, specified: set<string>)

  /** The effect of one call on the running state. */
  function Step(t: Tally, c: Call, used: map<string, set<string>>): Tally {
    match c.kind
    case Delete => if c.secretName in used then Tally(t.unsafeDeletes + 1, t.specified) else t
    case _ => Tally(t.unsafeDeletes, t.specified + {c.secretName})
  }

  /** What the running state says about the calls seen so far: the specified names are those of
      the creates and updates; the counter is zero exactly when no deleted name is used, and, the
      names being distinct, it is the number of deleted names that are used. */
  ghost predicate Accounts(t: Tally, calls: seq<Call>, used: map<string, set<string>>) {
    && t.specified == UpsertNames(calls)
    && t.unsafeDeletes <= |calls|
    && (t.unsafeDeletes == 0 <==> DeleteNames(calls) * used.Keys == {})
    && (DistinctNames(calls) ==> t.unsafeDeletes == |DeleteNames(calls) * used.Keys|)
  }

  /** The loop over the calls, in order: a deletion of a name that the workflows use adds one;
      a create or update records its name as specified. */
  function TallyCalls(calls: seq<Call>, used: map<string, set<string>>): (t: Tally)
    ensures Accounts(t, calls, used)
    decreases |calls|
  {
    if |calls| == 0 then Tally(0, {})
    else
      var prefix := calls[..|calls| - 1];
      var c := calls[|calls| - 1];
      var t := TallyCalls(prefix, used);
      assert calls == prefix + [c];
      StepAccounts(t, prefix, c, used);
      Step(t, c, used)
  }

  lemma StepAccounts(t: Tally, prefix: seq<Call>, c: Call, used: map<string, set<string>>)
    requires Accounts(t, prefix, used)
    ensures Accounts(Step(t, c, used), prefix + [c], used)
  {
    AppendStep(prefix, c, used);
  }

  /** How one more call changes the create/update names, the used deleted names and their
      count, and what distinctness of the longer list says about the shorter. */
  lemma AppendStep(prefix: seq<Call>, c: Call, used: map<string, set<string>>)
    ensures UpsertNames(prefix + [c]) == UpsertNames(prefix) + (if c.kind != Delete then {c.secretName} else {})
    ensures DeleteNames(prefix + [c]) * used.Keys
            == DeleteNames(prefix) * used.Keys + (if c.kind == Delete && c.secretName in used then {c.secretName} else {})
    ensures DistinctNames(prefix + [c]) ==> DistinctNames(prefix)
    ensures DistinctNames(prefix + [c]) ==>
              |DeleteNames(prefix + [c]) * used.Keys|
              == |DeleteNames(prefix) * used.Keys| + (if c.kind == Delete && c.secretName in used then 1 else 0)
  {
    var calls := prefix + [c];
    assert calls[..|calls| - 1] == prefix;
    AppendNames(prefix, c);
    LastNameIsNew(calls);
  }

  /** What the pass reports for one repository. */
  datatype RepoReport = RepoReport(unsafeDeletes: nat, missing: set<string>)

  function ReportRepo(repo: RepoCalls): (r: RepoReport)
    ensures r.missing == repo.usedSecrets.Keys - UpsertNames(repo.calls)
    ensures r.unsafeDeletes == 0 <==> DeleteNames(repo.calls) * repo.usedSecrets.Keys == {}
  {
    var t := TallyCalls(repo.calls, repo.usedSecrets);
    RepoReport(t.unsafeDeletes, set name | name in repo.usedSecrets && name !in t.specified)
  }

  /** `isUsedSecretsSetForDeletion` after the pass over every repository. */
  function CountUnsafe(all: seq<RepoCalls>): (n: nat)
    ensures n == 0 <==> forall k :: 0 <= k < |all| ==> DeleteNames(all[k].calls) * all[k].usedSecrets.Keys == {}
  {
    if |all| == 0 then 0
    else
      var n := CountUnsafe(all[..|all| - 1]) + ReportRepo(all[|all| - 1]).unsafeDeletes;
      assert forall k :: 0 <= k < |all| - 1 ==> all[..|all| - 1][k] == all[k];
      n
  }

  /** On a plan `computeCalls` produced: the counter grows by the number of remote names left
      over for deletion that workflows use, and the missing secrets are the used ones that were
      not sealed (absent from the configuration, or skipped because realising or encrypting failed). */
  lemma ReportOfPlan(repo: RepoCalls, spec: SyncSpecRepo, remote: seq<string>,
                     env: map<string, string>, key: PublicKey, encrypt: Encrypter)
    requires IsPlan(repo.calls, spec, remote, env, key, encrypt)
    ensures var sealable := Sealable(spec, env, key, encrypt);
            ReportRepo(repo) == RepoReport(
              if spec.deleteUnspecified then |(Existing(remote) - sealable) * repo.usedSecrets.Keys| else 0,
              repo.usedSecrets.Keys - sealable)
  {
  }

  /** A worked case: nothing desired, FOO on the remote and used by ci.yml, unspecified secrets
      deleted: the deletion of FOO is counted as unsafe. */
  lemma InUseDeletionScenario(calls: seq<Call>, env: map<string, string>, key: PublicKey, encrypt: Encrypter)
    requires IsPlan(calls, SyncSpecRepo("o", "r", true, map[]), ["FOO"], env, key, encrypt)
    ensures ReportRepo(RepoCalls(key.keyId, "o", "r", calls, map["FOO" := {"ci.yml"}])).unsafeDeletes == 1
  {
    var spec := SyncSpecRepo("o", "r", true, map[]);
    assert Sealable(spec, env, key, encrypt) == {};
    assert Existing(["FOO"]) == {"FOO"};
    ReportOfPlan(RepoCalls(key.keyId, "o", "r", calls, map["FOO" := {"ci.yml"}]), spec, ["FOO"], env, key, encrypt);
  }

  /** A worked case: nothing desired, FOO on the remote and used by ci.yml, unspecified secrets
      kept. FOO is reported missing although it is set on the repository: the check looks only
      at the creates and updates, never at the remote list. */
  lemma SetOnRemoteStillMissing(calls: seq<Call>, env: map<string, string>, key: PublicKey, encrypt: Encrypter)
    requires IsPlan(calls, SyncSpecRepo("o", "r", false, map[]), ["FOO"], env, key, encrypt)
    ensures "FOO" in ReportRepo(RepoCalls(key.keyId, "o", "r", calls, map["FOO" := {"ci.yml"}])).missing
    ensures calls == []
  {
    var spec := SyncSpecRepo("o", "r", false, map[]);
    assert Sealable(spec, env, key, encrypt) == {};
    ReportOfPlan(RepoCalls(key.keyId, "o", "r", calls, map["FOO" := {"ci.yml"}]), spec, ["FOO"], env, key, encrypt);
    CallsCounted(calls);
  }
}
