/** `main` and `applyChanges` (main.go): plan every repository of every configuration file,
    report, and apply unless the run is dry. The collaborators `main` reaches over the network,
    the file system and the environment are injected as a `Remote`. */
module Run {
  import opened Wrappers
  import opened Secrets
  import opened Plan
  import opened Report
  import opened Workflows
  import opened Args

  /** A configuration file's content (`SyncSpec`; its free-form `Vars` plays no part). */
  datatype SyncSpec = SyncSpec(repos: seq<SyncSpecRepo>)

  /** What `main` reads from outside: `loadYaml`, `getPublicKey`, `getSecretList`, the workflow
      directory listing with downloads, the environment and `encrypt`. */
  datatype Remote = Remote(
    loadYaml: string -> SyncSpec,
    publicKey: (string, string) -> PublicKey,
    secretList: (string, string) -> seq<string>,
    workflowDir: (string, string) -> seq<WorkflowItem>,
    env: map<string, string>,
    encrypt: Encrypter)

  /** The repositories of all files, file by file, each file's in its own order. */
  function Targets(files: seq<string>, remote: Remote): seq<SyncSpecRepo>
    decreases |files|
  {
    if |files| == 0 then [] else Targets(files[..|files| - 1], remote) + remote.loadYaml(files[|files| - 1]).repos
  }

  /** The workflow scan as `main` stores it: an error leaves the map nil, that is, empty. */
  function UsedSecretsOf(spec: SyncSpecRepo, remote: Remote): map<string, set<string>> {
    UsedSecrets(remote.workflowDir(spec.owner, spec.name)).GetOr(map[])
  }

  /** `entry` is what `main` stores for `spec`. */
  ghost predicate Planned(entry: RepoCalls, spec: SyncSpecRepo, remote: Remote) {
    var key := remote.publicKey(spec.owner, spec.name);
    && entry.keyId == key.keyId && entry.repoOwner == spec.owner && entry.repoName == spec.name
    && IsPlan(entry.calls, spec, remote.secretList(spec.owner, spec.name), remote.env, key, remote.encrypt)
    && entry.usedSecrets == UsedSecretsOf(spec, remote)
  }

  /** The body of `main`'s inner loop: plan one repository against its remote state. */
  method PlanRepo(spec: SyncSpecRepo, remote: Remote) returns (entry: RepoCalls)
    ensures Planned(entry, spec, remote)
  {
    var key := remote.publicKey(spec.owner, spec.name);
    entry := ComputeCalls(spec, key, remote.secretList(spec.owner, spec.name), remote.env, remote.encrypt);
    entry := entry.(keyId := key.keyId, usedSecrets := UsedSecretsOf(spec, remote));
  }

  /** `main`'s inner loop: one entry per repository of a file, in order. */
  method PlanFile(repos: seq<SyncSpecRepo>, remote: Remote) returns (entries: seq<RepoCalls>)
    ensures |entries| == |repos|
    ensures forall k :: 0 <= k < |entries| ==> Planned(entries[k], repos[k], remote)
  {
    entries := [];
    for j := 0 to |repos|
      invariant |entries| == j
      invariant forall k :: 0 <= k < j ==> Planned(entries[k], repos[k], remote)
    {
      var entry := PlanRepo(repos[j], remote);
      entries := entries + [entry];
    }
  }

  /** The two nested loops of `main` that build `allChanges`. */
  method PlanAll(files: seq<string>, remote: Remote) returns (all: seq<RepoCalls>)
    ensures |all| == |Targets(files, remote)|
    ensures forall k :: 0 <= k < |all| ==> Planned(all[k], Targets(files, remote)[k], remote)
  {
    all := [];
    for i := 0 to |files|
      invariant |all| == |Targets(files[..i], remote)|
      invariant forall k :: 0 <= k < |all| ==> Planned(all[k], Targets(files[..i], remote)[k], remote)
    {
      var repos := remote.loadYaml(files[i]).repos;
      assert files[..i + 1][..i] == files[..i];
      ghost var done := Targets(files[..i], remote);
      assert Targets(files[..i + 1], remote) == done + repos;
      var entries := PlanFile(repos, remote);
      AppendPlanned(all, done, entries, repos, remote);
      all := all + entries;
    }
    assert files[..|files|] == files;
  }

  /** Joining the entries planned so far with those of the next file. */
  lemma AppendPlanned(all: seq<RepoCalls>, done: seq<SyncSpecRepo>, entries: seq<RepoCalls>,
                      repos: seq<SyncSpecRepo>, remote: Remote)
    requires |all| == |done| && |entries| == |repos|
    requires forall k :: 0 <= k < |all| ==> Planned(all[k], done[k], remote)
    requires forall k :: 0 <= k < |entries| ==> Planned(entries[k], repos[k], remote)
    ensures forall k :: 0 <= k < |all + entries| ==> Planned((all + entries)[k], (done + repos)[k], remote)
  {
    forall k | 0 <= k < |all + entries|
      ensures Planned((all + entries)[k], (done + repos)[k], remote)
    {
      if k < |all| {
        assert (all + entries)[k] == all[k] && (done + repos)[k] == done[k];
      } else {
        assert (all + entries)[k] == entries[k - |all|] && (done + repos)[k] == repos[k - |all|];
      }
    }
  }

  /** A request `applyChanges` sends. */
  datatype Request =
    | Put(owner: string, repo: string, secretName: string, keyId: string, encryptedValue: string)
    | Remove(owner: string, repo: string, secretName: string)

  function RequestFor(entry: RepoCalls, c: Call): Request {
    if c.kind == Delete then Remove(entry.repoOwner, entry.repoName, c.secretName)
    else Put(entry.repoOwner, entry.repoName, c.secretName, entry.keyId, c.encryptedValue)
  }

  function RepoRequests(entry: RepoCalls): (rs: seq<Request>)
    ensures |rs| == |entry.calls|
    ensures forall i :: 0 <= i < |rs| ==> rs[i] == RequestFor(entry, entry.calls[i])
  {
    seq(|entry.calls|, i requires 0 <= i < |entry.calls| => RequestFor(entry, entry.calls[i]))
  }

  /** `applyChanges`: every call of every repository, in order. A failing request is only logged,
      so what is sent does not depend on any earlier request's outcome. */
  function ApplyChanges(all: seq<RepoCalls>): (rs: seq<Request>)
    ensures |rs| == TotalCalls(all)
    decreases |all|
  {
    if |all| == 0 then []
    else
      TotalCallsSnoc(all);
      ApplyChanges(all[..|all| - 1]) + RepoRequests(all[|all| - 1])
  }

  /** The number of calls over all repositories. */
  function TotalCalls(all: seq<RepoCalls>): nat {
    if |all| == 0 then 0 else |all[0].calls| + TotalCalls(all[1..])
  }

  /** Counting from the last repository gives the same total. */
  lemma {:induction false} TotalCallsSnoc(all: seq<RepoCalls>)
    requires |all| > 0
    ensures TotalCalls(all) == TotalCalls(all[..|all| - 1]) + |all[|all| - 1].calls|
  {
    if |all| > 1 {
      assert all[1..][..|all[1..]| - 1] == all[..|all| - 1][1..];
      TotalCallsSnoc(all[1..]);
    }
  }

  /** The request for call `i` of repository `k` sits after those of the earlier repositories. */
  lemma {:induction false} ApplyChangesOrder(all: seq<RepoCalls>, k: nat, i: nat)
    requires k < |all| && i < |all[k].calls|
    ensures |ApplyChanges(all[..k])| + i < |ApplyChanges(all)|
    ensures ApplyChanges(all)[|ApplyChanges(all[..k])| + i] == RequestFor(all[k], all[k].calls[i])
    decreases |all|
  {
    var prefix := all[..|all| - 1];
    if k < |all| - 1 {
      assert prefix[..k] == all[..k];
      ApplyChangesOrder(prefix, k, i);
    } else {
      assert prefix == all[..k];
    }
  }

  /** Within a repository whose calls put creates and updates first, every `Put` is sent
      before every `Remove`. */
  lemma PutsBeforeRemoves(entry: RepoCalls)
    requires UpsertsFirst(entry.calls)
    ensures forall i, j :: 0 <= i < j < |RepoRequests(entry)| && RepoRequests(entry)[i].Remove? ==> RepoRequests(entry)[j].Remove?
  {
  }

  /** What a run ends with. */
  datatype Outcome =
    | NoFiles
    | Finished(plans: seq<RepoCalls>, reports: seq<RepoReport>, unsafeDeletes: nat, warned: bool, sent: seq<Request>)

  /** The end of `main` once the plans exist: report, warn when workflows use a secret set for
      deletion, then apply unless the run is dry. The warning says nothing will be done, but
      nothing returns after it: a run that is not dry applies every call regardless. */
  function Conclude(isDry: bool, plans: seq<RepoCalls>): (o: Outcome)
    ensures o.Finished? && o.plans == plans && |o.reports| == |plans|
    ensures forall k :: 0 <= k < |plans| ==> o.reports[k] == ReportRepo(plans[k])
    ensures o.warned <==> exists k :: 0 <= k < |plans| && DeleteNames(plans[k].calls) * plans[k].usedSecrets.Keys != {}
    ensures o.warned <==> o.unsafeDeletes > 0
    ensures isDry ==> o.sent == []
    ensures !isDry ==> o.sent == ApplyChanges(plans)
  {
    var unsafe := CountUnsafe(plans);
    Finished(plans, seq(|plans|, k requires 0 <= k < |plans| => ReportRepo(plans[k])), unsafe, unsafe > 0,
             if isDry then [] else ApplyChanges(plans))
  }

  /** `main`, which uses the older argument parser: without a `--file` nothing happens. */
  method Execute(args: seq<string>, remote: Remote) returns (o: Outcome)
    ensures o.NoFiles? <==> ParseArgsLegacy(args).files.None?
    ensures o.Finished? ==> var targets := Targets(ParseArgsLegacy(args).files.value, remote);
              && |o.plans| == |targets|
              && (forall k :: 0 <= k < |o.plans| ==> Planned(o.plans[k], targets[k], remote))
              && o == Conclude(ParseArgsLegacy(args).isDry, o.plans)
  {
    var ia := ParseArgsLegacy(args);
    if ia.files.None? {
      return NoFiles;
    }
    var all := PlanAll(ia.files.value, remote);
    o := Conclude(ia.isDry, all);
  }

  /** The run the warning calls off still deletes: nothing desired, FOO on the remote and used
      by ci.yml, unspecified secrets deleted, not dry: the warning is raised and FOO is removed. */
  lemma WarnedRunStillDeletes(calls: seq<Call>, env: map<string, string>, key: PublicKey, encrypt: Encrypter)
    requires IsPlan(calls, SyncSpecRepo("o", "r", true, map[]), ["FOO"], env, key, encrypt)
    ensures var o := Conclude(false, [RepoCalls(key.keyId, "o", "r", calls, map["FOO" := {"ci.yml"}])]);
            o.warned && Remove("o", "r", "FOO") in o.sent
  {
    var entry := RepoCalls(key.keyId, "o", "r", calls, map["FOO" := {"ci.yml"}]);
    InUseDeletionScenario(calls, env, key, encrypt);
    assert DeleteNames(calls) == {"FOO"};
    var c :| c in calls && c.kind == Delete && c.secretName == "FOO";
    var i :| 0 <= i < |calls| && calls[i] == c;
    assert [entry][..0] == [];
    ApplyChangesOrder([entry], 0, i);
  }
}
