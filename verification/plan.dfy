/** `computeCalls` (main.go): sorting the desired secrets of one repository into create and
    update calls against the remote name list, and listing the remote names left over for
    deletion when the repository's `deleteUnspecified` policy is set. */
module Plan {
  import opened Wrappers
  import opened Secrets

  datatype PublicKey = PublicKey(keyId: string, key: string)

  /** One repository entry of the configuration (`SyncSpecRepo`). */
  datatype SyncSpecRepo = SyncSpecRepo(owner: string, name: string, deleteUnspecified: bool, secrets: map<string, SecretValue>)

  datatype CallKind = Create | Update | Delete

  /** `QualifiedSecretCall`; `encryptedValue` is "" for a deletion. */
  datatype Call = Call(kind: CallKind, secretName: string, encryptedValue: string)

  /** `QualifiedSecretCallsByRepo`: the calls for one repository and, once the workflows are
      scanned, the secrets they use (name -> files). */
  datatype RepoCalls = RepoCalls(keyId: string, repoOwner: string, repoName: string, calls: seq<Call>, usedSecrets: map<string, set<string>>)

  /** The sealing of a plaintext under the repository's public key, injected: it may fail. */
  type Encrypter = (string, string) -> Result<string, string>

  /** What the loop does with one desired secret before classifying it: realise it, then encrypt it.
      Either step failing skips the secret. */
  function Seal(sv: SecretValue, env: map<string, string>, key: PublicKey, encrypt: Encrypter): Result<string, string> {
    match GetRealizedValue(sv, env)
    case Failure(e) => Failure(e)
    case Success(plain) => encrypt(key.key, plain)
  }

  /** The desired secrets whose value was realised and encrypted. */
  function Sealable(spec: SyncSpecRepo, env: map<string, string>, key: PublicKey, encrypt: Encrypter): set<string> {
    set name | name in spec.secrets && Seal(spec.secrets[name], env, key, encrypt).Success?
  }

  function Existing(remote: seq<string>): set<string> {
    set name | name in remote
  }

  function UpsertNames(calls: seq<Call>): set<string> {
    set c | c in calls && c.kind != Delete :: c.secretName
  }

  function DeleteNames(calls: seq<Call>): set<string> {
    set c | c in calls && c.kind == Delete :: c.secretName
  }

  /** Each create/update names a sealable desired secret, carries its sealed value, and is an
      update exactly when the name was in the remote list. */
  ghost predicate UpsertsCorrect(calls: seq<Call>, spec: SyncSpecRepo, existing: set<string>,
                                 env: map<string, string>, key: PublicKey, encrypt: Encrypter) {
    forall c :: c in calls && c.kind != Delete ==>
      && c.secretName in spec.secrets
      && Seal(spec.secrets[c.secretName], env, key, encrypt) == Success(c.encryptedValue)
      && c.kind == (if c.secretName in existing then Update else Create)
  }

  predicate DeletesBlank(calls: seq<Call>) {
    forall c :: c in calls && c.kind == Delete ==> c.encryptedValue == ""
  }

  /** All creates and updates come before all deletes: nothing before a create or update is a delete. */
  predicate UpsertsFirst(calls: seq<Call>) {
    forall i, j :: 0 <= i < j < |calls| && calls[j].kind != Delete ==> calls[i].kind != Delete
  }

  predicate DistinctNames(calls: seq<Call>) {
    forall i, j :: 0 <= i < j < |calls| ==> calls[i].secretName != calls[j].secretName
  }

  /** The calls `computeCalls` may produce for `spec` against the remote list `remote`, in
      whatever order Go's map iteration yields: a reference description in terms of sets. */
  ghost predicate IsPlan(calls: seq<Call>, spec: SyncSpecRepo, remote: seq<string>,
                         env: map<string, string>, key: PublicKey, encrypt: Encrypter) {
    var sealable := Sealable(spec, env, key, encrypt);
    && UpsertNames(calls) == sealable
    && UpsertsCorrect(calls, spec, Existing(remote), env, key, encrypt)
    && DeleteNames(calls) == (if spec.deleteUnspecified then Existing(remote) - sealable else {})
    && DeletesBlank(calls)
    && UpsertsFirst(calls)
    && DistinctNames(calls)
  }

  /** `computeCalls`. Desired secrets are visited in an arbitrary order, as Go's map range does;
      so are the leftover remote names. The working set `remaining` is `existingSecretNames`: a
      name leaves it only after it has been classified, so the membership test for a name still
      to be visited agrees with the original remote list. */
  method ComputeCalls(spec: SyncSpecRepo, key: PublicKey, remote: seq<string>,
                      env: map<string, string>, encrypt: Encrypter) returns (changes: RepoCalls)
    ensures changes.keyId == key.keyId && changes.repoOwner == spec.owner && changes.repoName == spec.name
    ensures changes.usedSecrets == map[]
    ensures IsPlan(changes.calls, spec, remote, env, key, encrypt)
  {
    var existing := Existing(remote);
    var sealable := Sealable(spec, env, key, encrypt);
    var remaining := existing;
    var calls: seq<Call> := [];
    var todo := spec.secrets.Keys;
    while todo != {}
      invariant todo <= spec.secrets.Keys
      invariant UpsertNames(calls) == sealable * (spec.secrets.Keys - todo)
      invariant DeleteNames(calls) == {}
      invariant WellFormed(calls, spec, existing, env, key, encrypt)
      invariant remaining == if spec.deleteUnspecified then existing - UpsertNames(calls) else existing
      decreases todo
    {
      var name :| name in todo;
      todo := todo - {name};
      var realized := GetRealizedValue(spec.secrets[name], env);
      if realized.Failure? {
        assert name !in sealable;
        continue;
      }
      var encrypted := encrypt(key.key, realized.value);
      if encrypted.Failure? {
        assert name !in sealable;
        continue;
      }
      var kind := if name in remaining then Update else Create;
      assert Seal(spec.secrets[name], env, key, encrypt) == Success(encrypted.value);
      UpsertStep(calls, Call(kind, name, encrypted.value), spec, existing, env, key, encrypt);
      calls := calls + [Call(kind, name, encrypted.value)];
      if spec.deleteUnspecified {
        remaining := remaining - {name};
      }
    }
    if spec.deleteUnspecified {
      var leftover := remaining;
      while leftover != {}
        invariant leftover <= remaining
        invariant UpsertNames(calls) == sealable
        invariant DeleteNames(calls) == remaining - leftover
        invariant WellFormed(calls, spec, existing, env, key, encrypt)
        decreases leftover
      {
        var name :| name in leftover;
        leftover := leftover - {name};
        DeleteStep(calls, name, spec, existing, env, key, encrypt);
        calls := calls + [Call(Delete, name, "")];
      }
    }
    changes := RepoCalls(key.keyId, spec.owner, spec.name, calls, map[]);
  }

  /** The per-call parts of `IsPlan`, kept by every step of `ComputeCalls`. */
  ghost predicate WellFormed(calls: seq<Call>, spec: SyncSpecRepo, existing: set<string>,
                             env: map<string, string>, key: PublicKey, encrypt: Encrypter) {
    && UpsertsCorrect(calls, spec, existing, env, key, encrypt)
    && DeletesBlank(calls)
    && UpsertsFirst(calls)
    && DistinctNames(calls)
  }

  /** Appending the create or update for a newly classified name, before any delete. */
  lemma UpsertStep(calls: seq<Call>, c: Call, spec: SyncSpecRepo, existing: set<string>,
                   env: map<string, string>, key: PublicKey, encrypt: Encrypter)
    requires WellFormed(calls, spec, existing, env, key, encrypt) && DeleteNames(calls) == {}
    requires c.kind != Delete && c.secretName in spec.secrets
    requires Seal(spec.secrets[c.secretName], env, key, encrypt) == Success(c.encryptedValue)
    requires c.kind == (if c.secretName in existing then Update else Create)
    requires c.secretName !in UpsertNames(calls)
    ensures WellFormed(calls + [c], spec, existing, env, key, encrypt)
    ensures UpsertNames(calls + [c]) == UpsertNames(calls) + {c.secretName}
    ensures DeleteNames(calls + [c]) == {}
  {
    AppendNames(calls, c);
    NewNameStaysDistinct(calls, c);
    forall i | 0 <= i < |calls|
      ensures calls[i].kind != Delete
    {
      var d := calls[i];
      assert d.kind == Delete ==> d.secretName in DeleteNames(calls);
    }
  }

  /** Appending the delete for a leftover remote name. */
  lemma DeleteStep(calls: seq<Call>, name: string, spec: SyncSpecRepo, existing: set<string>,
                   env: map<string, string>, key: PublicKey, encrypt: Encrypter)
    requires WellFormed(calls, spec, existing, env, key, encrypt)
    requires name !in UpsertNames(calls) + DeleteNames(calls)
    ensures WellFormed(calls + [Call(Delete, name, "")], spec, existing, env, key, encrypt)
    ensures UpsertNames(calls + [Call(Delete, name, "")]) == UpsertNames(calls)
    ensures DeleteNames(calls + [Call(Delete, name, "")]) == DeleteNames(calls) + {name}
  {
    AppendNames(calls, Call(Delete, name, ""));
    NewNameStaysDistinct(calls, Call(Delete, name, ""));
  }

  /** Appending a call whose name is new keeps the names distinct. */
  lemma NewNameStaysDistinct(calls: seq<Call>, c: Call)
    requires DistinctNames(calls)
    requires c.secretName !in UpsertNames(calls) + DeleteNames(calls)
    ensures DistinctNames(calls + [c])
  {
    forall i | 0 <= i < |calls|
      ensures calls[i].secretName != c.secretName
    {
      assert calls[i] in calls;
    }
  }

  lemma AppendNames(calls: seq<Call>, c: Call)
    ensures UpsertNames(calls + [c]) == UpsertNames(calls) + (if c.kind != Delete then {c.secretName} else {})
    ensures DeleteNames(calls + [c]) == DeleteNames(calls) + (if c.kind == Delete then {c.secretName} else {})
  {
    assert forall d :: d in calls + [c] <==> d in calls || d == c;
  }

  /** Dropping the last call keeps the names distinct, and the last name is not among the rest. */
  lemma LastNameIsNew(calls: seq<Call>)
    requires |calls| > 0
    ensures DistinctNames(calls) ==> DistinctNames(calls[..|calls| - 1])
    ensures DistinctNames(calls) ==>
              calls[|calls| - 1].secretName !in UpsertNames(calls[..|calls| - 1]) + DeleteNames(calls[..|calls| - 1])
  {
    if DistinctNames(calls) {
      var prefix := calls[..|calls| - 1];
      forall c | c in prefix
        ensures c.secretName != calls[|calls| - 1].secretName
      {
        var i :| 0 <= i < |prefix| && prefix[i] == c;
        assert calls[i] == c;
      }
    }
  }

  /** With distinct names, every call is counted once by the two name sets. */
  lemma {:induction false} CallsCounted(calls: seq<Call>)
    requires DistinctNames(calls)
    ensures UpsertNames(calls) !! DeleteNames(calls)
    ensures |calls| == |UpsertNames(calls)| + |DeleteNames(calls)|
  {
    if |calls| > 0 {
      var prefix := calls[..|calls| - 1];
      var last := calls[|calls| - 1];
      assert calls == prefix + [last];
      LastNameIsNew(calls);
      CallsCounted(prefix);
      AppendNames(prefix, last);
    }
  }

  /** The plan is determined up to order: any two call lists `computeCalls` may produce for the
      same inputs hold the same calls, each once. */
  lemma PlanIsDetermined(c1: seq<Call>, c2: seq<Call>, spec: SyncSpecRepo, remote: seq<string>,
                         env: map<string, string>, key: PublicKey, encrypt: Encrypter)
    requires IsPlan(c1, spec, remote, env, key, encrypt) && IsPlan(c2, spec, remote, env, key, encrypt)
    ensures (set c | c in c1) == (set c | c in c2)
    ensures |c1| == |c2|
  {
    PlanContained(c1, c2, spec, remote, env, key, encrypt);
    PlanContained(c2, c1, spec, remote, env, key, encrypt);
    CallsCounted(c1);
    CallsCounted(c2);
  }

  lemma PlanContained(c1: seq<Call>, c2: seq<Call>, spec: SyncSpecRepo, remote: seq<string>,
                      env: map<string, string>, key: PublicKey, encrypt: Encrypter)
    requires IsPlan(c1, spec, remote, env, key, encrypt) && IsPlan(c2, spec, remote, env, key, encrypt)
    ensures forall c :: c in c1 ==> c in c2
  {
    forall c | c in c1
      ensures c in c2
    {
      if c.kind == Delete {
        assert c.secretName in DeleteNames(c2);
        var d :| d in c2 && d.kind == Delete && d.secretName == c.secretName;
        assert d == c;
      } else {
        assert c.secretName in UpsertNames(c2);
        var d :| d in c2 && d.kind != Delete && d.secretName == c.secretName;
        assert d == c;
      }
    }
  }

  /** A worked case: desired {FOO: "bar"}, remote {BAZ}, unspecified secrets deleted. */
  lemma CreateAndDeleteScenario(calls: seq<Call>, env: map<string, string>, key: PublicKey, encrypt: Encrypter, sealed: string)
    requires encrypt(key.key, "bar") == Success(sealed)
    requires IsPlan(calls, SyncSpecRepo("o", "r", true, map["FOO" := SecretValue("value", "bar", "")]), ["BAZ"], env, key, encrypt)
    ensures calls == [Call(Create, "FOO", sealed), Call(Delete, "BAZ", "")]
  {
    var spec := SyncSpecRepo("o", "r", true, map["FOO" := SecretValue("value", "bar", "")]);
    assert Seal(spec.secrets["FOO"], env, key, encrypt) == Success(sealed);
    assert Sealable(spec, env, key, encrypt) == {"FOO"};
    assert Existing(["BAZ"]) == {"BAZ"};
    OneUpsertOneDelete(calls, "FOO", "BAZ");
    assert calls[0] in calls;
    assert calls[1] in calls;
  }

  /** Creates and updates first and distinct names: one create/update name and one delete name
      make exactly two calls, in that order. */
  lemma OneUpsertOneDelete(calls: seq<Call>, u: string, d: string)
    requires UpsertNames(calls) == {u} && DeleteNames(calls) == {d}
    requires UpsertsFirst(calls) && DistinctNames(calls)
    ensures |calls| == 2
    ensures calls[0].kind != Delete && calls[0].secretName == u
    ensures calls[1].kind == Delete && calls[1].secretName == d
  {
    CallsCounted(calls);
    assert u in UpsertNames(calls);
    var c :| c in calls && c.kind != Delete && c.secretName == u;
    var k :| 0 <= k < 2 && calls[k] == c;
    assert calls[0].kind != Delete;
    assert calls[0] in calls;
    assert calls[1] in calls;
    var e :| e in calls && e.kind == Delete && e.secretName == d;
    assert e == calls[1];
  }

  /** A secret configured with a null value is never created or updated; with unspecified
      secrets deleted, it is deleted exactly when it exists on the remote. */
  lemma NullSecretDeleted(calls: seq<Call>, spec: SyncSpecRepo, remote: seq<string>, name: string,
                          env: map<string, string>, key: PublicKey, encrypt: Encrypter)
    requires IsPlan(calls, spec, remote, env, key, encrypt)
    requires name in spec.secrets && spec.secrets[name] == DecodeEntry(Null).value
    ensures name !in UpsertNames(calls)
    ensures name in DeleteNames(calls) <==> spec.deleteUnspecified && name in remote
  {
    NullEntryNeverRealizes(env);
    assert name !in Sealable(spec, env, key, encrypt);
    assert name in remote <==> name in Existing(remote);
  }
}
