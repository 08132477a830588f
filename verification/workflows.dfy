/** The workflow reference scanner of `getUsedSecrets` (main.go): the pattern
    `\${{\s*secrets\.([^}\s]+)\s*}}` as a left-to-right, non-overlapping matcher, and the
    accumulation of secret name -> set of workflow files that reference it. */
module Workflows {
  import opened Wrappers

  /** RE2's `\s`: tab, newline, form feed, carriage return and space. */
  predicate IsSpace(c: char) {
    c == ' ' || c == '\t' || c == '\n' || c == '\r' || c == '\U{C}'
  }

  /** The capture class `[^}\s]`. */
  predicate IsNameChar(c: char) {
    c != '}' && !IsSpace(c)
  }

  predicate AllSpace(w: string) {
    forall k :: 0 <= k < |w| ==> IsSpace(w[k])
  }

  predicate IsSecretName(name: string) {
    |name| > 0 && forall k :: 0 <= k < |name| ==> IsNameChar(name[k])
  }

  const Open: string := "${{"
  const Prefix: string := "secrets."
  const Close: string := "}}"

  /** The text of one reference to `name`, padded with `lead` and `trail`. */
  function Reference(lead: string, name: string, trail: string): string {
    Open + (lead + (Prefix + (name + (trail + Close))))
  }

  /** `s[start..end]` is a reference to `name`: the declarative meaning of the pattern. */
  ghost predicate ReferenceAt(s: string, start: nat, name: string, end: nat) {
    && start <= end <= |s|
    && IsSecretName(name)
    && exists lead, trail :: AllSpace(lead) && AllSpace(trail) && s[start..end] == Reference(lead, name, trail)
  }

  /** No reference of any name starts at a position in `[lo, hi)`. */
  ghost predicate NoReferenceBetween(s: string, lo: nat, hi: nat) {
    forall p: nat, name, end: nat :: lo <= p < hi ==> !ReferenceAt(s, p, name, end)
  }

  predicate HasAt(s: string, i: nat, t: string) {
    i + |t| <= |s| && s[i..i + |t|] == t
  }

  /** The end of the run of whitespace that starts at `i` (greedy `\s*`). */
  function SkipSpaces(s: string, i: nat): (j: nat)
    requires i <= |s|
    ensures i <= j <= |s| && AllSpace(s[i..j])
    ensures j < |s| ==> !IsSpace(s[j])
    decreases |s| - i
  {
    if i < |s| && IsSpace(s[i]) then SkipSpaces(s, i + 1) else i
  }

  /** The end of the run of name characters that starts at `i` (greedy `[^}\s]*`). */
  function SkipName(s: string, i: nat): (j: nat)
    requires i <= |s|
    ensures i <= j <= |s|
    ensures forall k :: i <= k < j ==> IsNameChar(s[k])
    ensures j < |s| ==> !IsNameChar(s[j])
    decreases |s| - i
  {
    if i < |s| && IsNameChar(s[i]) then SkipName(s, i + 1) else i
  }

  /** A found reference: the name captured and the span of text it covers. */
  datatype Match = Match(start: nat, name: string, end: nat)

  /** Attempts the pattern at exactly position `i`. Neither class can take the character that
      must follow it, so the greedy runs are the only candidates and no backtracking is needed. */
  function MatchAt(s: string, i: nat): (r: Option<Match>)
    requires i <= |s|
    ensures r.Some? ==> r.value.start == i < r.value.end && ReferenceAt(s, i, r.value.name, r.value.end)
  {
    if !HasAt(s, i, Open) then None
    else
      var a := SkipSpaces(s, i + |Open|);
      if !HasAt(s, a, Prefix) then None
      else
        var n := SkipName(s, a + |Prefix|);
        if n == a + |Prefix| then None
        else
          var b := SkipSpaces(s, n);
          if !HasAt(s, b, Close) then None
          else
            var name := s[a + |Prefix|..n];
            JoinReference(s, i, a, n, b);
            Some(Match(i, name, b + |Close|))
  }

  lemma {:induction false} SkipSpacesStops(s: string, i: nat, j: nat)
    requires i <= j <= |s| && AllSpace(s[i..j])
    requires j < |s| ==> !IsSpace(s[j])
    ensures SkipSpaces(s, i) == j
    decreases j - i
  {
    if i < j {
      assert s[i..j][0] == s[i];
      assert s[i + 1..j] == s[i..j][1..];
      SkipSpacesStops(s, i + 1, j);
    }
  }

  lemma {:induction false} SkipNameStops(s: string, i: nat, j: nat)
    requires i <= j <= |s| && forall k :: i <= k < j ==> IsNameChar(s[k])
    requires j < |s| ==> !IsNameChar(s[j])
    ensures SkipName(s, i) == j
    decreases j - i
  {
    if i < j {
      SkipNameStops(s, i + 1, j);
    }
  }

  /** Cutting a slice that equals `x + y` after `|x|` characters. */
  lemma SplitSlice(s: string, i: nat, end: nat, x: string, y: string)
    requires i <= end <= |s| && s[i..end] == x + y
    ensures i + |x| <= end && s[i..i + |x|] == x && s[i + |x|..end] == y
  {
    assert s[i..i + |x|] == (x + y)[..|x|];
    assert s[i + |x|..end] == (x + y)[|x|..];
  }

  /** The pieces the matcher recognised, put back together, are one reference. */
  lemma JoinReference(s: string, i: nat, a: nat, n: nat, b: nat)
    requires i + |Open| <= a && a + |Prefix| <= n <= b && b + |Close| <= |s|
    requires HasAt(s, i, Open) && HasAt(s, a, Prefix) && HasAt(s, b, Close)
    ensures s[i..b + |Close|] == Reference(s[i + |Open|..a], s[a + |Prefix|..n], s[n..b])
  {
    var e := b + |Close|;
    assert s[b..e] == Close;
    assert s[n..e] == s[n..b] + Close;
    assert s[a + |Prefix|..e] == s[a + |Prefix|..n] + s[n..e];
    assert s[a..e] == Prefix + s[a + |Prefix|..e];
    assert s[i + |Open|..e] == s[i + |Open|..a] + s[a..e];
    assert s[i..e] == Open + s[i + |Open|..e];
  }

  /** What the matcher returns once each of its steps is known. */
  lemma MatchAtSteps(s: string, i: nat, a: nat, n: nat, b: nat)
    requires i + |Open| <= |s| && HasAt(s, i, Open)
    requires SkipSpaces(s, i + |Open|) == a && HasAt(s, a, Prefix)
    requires SkipName(s, a + |Prefix|) == n && n > a + |Prefix|
    requires SkipSpaces(s, n) == b && HasAt(s, b, Close)
    ensures MatchAt(s, i) == Some(Match(i, s[a + |Prefix|..n], b + |Close|))
  {
  }

  /** The matcher finds every reference that starts at `i`, and with the same name and end. */
  lemma MatchAtComplete(s: string, i: nat, name: string, end: nat)
    requires ReferenceAt(s, i, name, end)
    ensures MatchAt(s, i) == Some(Match(i, name, end))
  {
    var lead, trail :| AllSpace(lead) && AllSpace(trail) && s[i..end] == Reference(lead, name, trail);
    MatchAtFinds(s, i, lead, name, trail, end);
  }

  lemma MatchAtFinds(s: string, i: nat, lead: string, name: string, trail: string, end: nat)
    requires i <= end <= |s| && IsSecretName(name) && AllSpace(lead) && AllSpace(trail)
    requires s[i..end] == Reference(lead, name, trail)
    ensures MatchAt(s, i) == Some(Match(i, name, end))
  {
    var a := i + |Open| + |lead|;
    var n := a + |Prefix| + |name|;
    var b := n + |trail|;
    ReferenceParts(s, i, lead, name, trail, end);
    SkipSpacesStops(s, i + |Open|, a);
    SkipNameStops(s, a + |Prefix|, n);
    SkipSpacesStops(s, n, b);
    MatchAtSteps(s, i, a, n, b);
  }

  /** The facts about `s` that a reference spelled out at `i` gives the matcher. */
  lemma ReferenceParts(s: string, i: nat, lead: string, name: string, trail: string, end: nat)
    requires i <= end <= |s| && IsSecretName(name) && AllSpace(lead) && AllSpace(trail)
    requires s[i..end] == Reference(lead, name, trail)
    ensures end == i + |Open| + |lead| + |Prefix| + |name| + |trail| + |Close|
    ensures HasAt(s, i, Open)
    ensures s[i + |Open|..i + |Open| + |lead|] == lead
    ensures s[i + |Open| + |lead|] == 's'
    ensures HasAt(s, i + |Open| + |lead|, Prefix)
    ensures s[i + |Open| + |lead| + |Prefix|..i + |Open| + |lead| + |Prefix| + |name|] == name
    ensures forall k :: i + |Open| + |lead| + |Prefix| <= k < i + |Open| + |lead| + |Prefix| + |name| ==> IsNameChar(s[k])
    ensures !IsNameChar(s[i + |Open| + |lead| + |Prefix| + |name|])
    ensures s[i + |Open| + |lead| + |Prefix| + |name|..end - |Close|] == trail
    ensures s[end - |Close|] == '}' && HasAt(s, end - |Close|, Close)
  {
    var a := i + |Open| + |lead|;
    var n := a + |Prefix| + |name|;
    var b := n + |trail|;
    SplitSlice(s, i, end, Open, lead + (Prefix + (name + (trail + Close))));
    SplitSlice(s, i + |Open|, end, lead, Prefix + (name + (trail + Close)));
    SplitSlice(s, a, end, Prefix, name + (trail + Close));
    SplitSlice(s, a + |Prefix|, end, name, trail + Close);
    SplitSlice(s, n, end, trail, Close);
    NameCharsAt(s, a + |Prefix|, name);
    assert s[a] == s[a..a + |Prefix|][0];
    assert s[b] == s[b..end][0];
    if |trail| > 0 {
      assert s[n] == s[n..b][0];
    } else {
      assert s[n] == s[b..end][0];
    }
  }

  lemma NameCharsAt(s: string, p: nat, name: string)
    requires p + |name| <= |s| && s[p..p + |name|] == name && IsSecretName(name)
    ensures forall k :: p <= k < p + |name| ==> IsNameChar(s[k])
  {
    forall k | p <= k < p + |name|
      ensures IsNameChar(s[k])
    {
      assert s[k] == s[p..p + |name|][k - p];
    }
  }

  /** Where the matcher fails, no reference starts. */
  lemma NoMatchNoReference(s: string, i: nat)
    requires i <= |s| && MatchAt(s, i).None?
    ensures NoReferenceBetween(s, i, i + 1)
  {
    forall p: nat, name, end: nat | i <= p < i + 1
      ensures !ReferenceAt(s, p, name, end)
    {
      if ReferenceAt(s, p, name, end) {
        MatchAtComplete(s, p, name, end);
      }
    }
  }

  /** All matches from position `i` on, as Go's `FindAllSubmatch` reports them: each is a
      reference, and each search resumes where the previous match ended, so they never overlap. */
  function MatchesFrom(s: string, i: nat): (ms: seq<Match>)
    requires i <= |s|
    ensures forall k :: 0 <= k < |ms| ==> i <= ms[k].start < ms[k].end && ReferenceAt(s, ms[k].start, ms[k].name, ms[k].end)
    ensures forall k :: 0 <= k < |ms| - 1 ==> ms[k].end <= ms[k + 1].start
    decreases |s| - i
  {
    if i == |s| then []
    else
      match MatchAt(s, i)
      case Some(m) => [m] + MatchesFrom(s, m.end)
      case None => MatchesFrom(s, i + 1)
  }

  /** Two adjacent stretches without a reference make one. */
  lemma JoinGaps(s: string, lo: nat, mid: nat, hi: nat)
    requires lo <= mid <= hi
    requires NoReferenceBetween(s, lo, mid) && NoReferenceBetween(s, mid, hi)
    ensures NoReferenceBetween(s, lo, hi)
  {
    forall p: nat, name, end: nat | lo <= p < hi
      ensures !ReferenceAt(s, p, name, end)
    {
      if p < mid {
        assert lo <= p < mid;
      } else {
        assert mid <= p < hi;
      }
    }
  }

  /** No reference starts before the first match in `ms`, between two of them, or after the
      last, counting from position `i`. */
  ghost predicate Leftmost(s: string, i: nat, ms: seq<Match>) {
    && (|ms| == 0 ==> NoReferenceBetween(s, i, |s|))
    && (|ms| > 0 ==> NoReferenceBetween(s, i, ms[0].start) && NoReferenceBetween(s, ms[|ms| - 1].end, |s|))
    && (forall k :: 0 <= k < |ms| - 1 ==> NoReferenceBetween(s, ms[k].end, ms[k + 1].start))
  }

  /** The matches are the leftmost ones. */
  lemma {:induction false} MatchesFromLeftmost(s: string, i: nat)
    requires i <= |s|
    ensures Leftmost(s, i, MatchesFrom(s, i))
    decreases |s| - i
  {
    if i < |s| {
      match MatchAt(s, i)
      case Some(m) =>
        MatchesFromLeftmost(s, m.end);
        LeftmostCons(s, m, MatchesFrom(s, m.end));
      case None =>
        NoMatchNoReference(s, i);
        MatchesFromLeftmost(s, i + 1);
        LeftmostSkip(s, i, MatchesFrom(s, i + 1));
    }
  }

  lemma LeftmostCons(s: string, m: Match, rest: seq<Match>)
    requires Leftmost(s, m.end, rest)
    ensures Leftmost(s, m.start, [m] + rest)
  {
    var ms := [m] + rest;
    if |rest| > 0 {
      assert ms[|ms| - 1] == rest[|rest| - 1];
    }
    forall k | 0 <= k < |ms| - 1
      ensures NoReferenceBetween(s, ms[k].end, ms[k + 1].start)
    {
      if k > 0 {
        assert ms[k] == rest[k - 1] && ms[k + 1] == rest[k];
      }
    }
  }

  lemma LeftmostSkip(s: string, i: nat, ms: seq<Match>)
    requires i < |s| && NoReferenceBetween(s, i, i + 1) && Leftmost(s, i + 1, ms)
    requires |ms| > 0 ==> i + 1 <= ms[0].start
    ensures Leftmost(s, i, ms)
  {
    if |ms| == 0 {
      JoinGaps(s, i, i + 1, |s|);
    } else {
      JoinGaps(s, i, i + 1, ms[0].start);
    }
  }

  /** The secret names referenced in `s`, a set: repeated references collapse. */
  function ReferencedNames(s: string): set<string> {
    MatchNames(MatchesFrom(s, 0))
  }

  function MatchNames(ms: seq<Match>): set<string> {
    set m | m in ms :: m.name
  }

  /** Every name found is the name of a reference that occurs in the text. */
  lemma ReferencedNamesSound(s: string, name: string)
    requires name in ReferencedNames(s)
    ensures exists p: nat, end: nat :: ReferenceAt(s, p, name, end)
  {
    var m :| m in MatchesFrom(s, 0) && m.name == name;
    var k :| 0 <= k < |MatchesFrom(s, 0)| && MatchesFrom(s, 0)[k] == m;
    assert ReferenceAt(s, m.start, name, m.end);
  }

  /** A text without any match holds no reference at all, and conversely. */
  lemma NoMatchesIffNoReferences(s: string)
    ensures ReferencedNames(s) == {} <==> NoReferenceBetween(s, 0, |s|)
  {
    var ms := MatchesFrom(s, 0);
    MatchesFromLeftmost(s, 0);
    if ms != [] {
      assert ms[0] in ms;
      assert ms[0].name in ReferencedNames(s);
      assert ReferenceAt(s, ms[0].start, ms[0].name, ms[0].end);
    }
  }

  /** Adds `file` to the set of every name matched, in order (the loop of main.go). */
  function AddReferences(acc: map<string, set<string>>, file: string, ms: seq<Match>): (r: map<string, set<string>>)
    ensures r.Keys == acc.Keys + MatchNames(ms)
    ensures forall name :: name in r ==>
              r[name] == (if name in acc then acc[name] else {}) + (if name in MatchNames(ms) then {file} else {})
    decreases |ms|
  {
    if |ms| == 0 then acc
    else
      var name := ms[0].name;
      var files := if name in acc then acc[name] else {};
      AddReferences(acc[name := files + {file}], file, ms[1..])
  }

  /** Records `file` against every name referenced in `text`; names referenced more than once
      are recorded once. */
  function CollectFile(acc: map<string, set<string>>, file: string, text: string): (r: map<string, set<string>>)
    ensures r.Keys == acc.Keys + ReferencedNames(text)
    ensures forall name :: name in r ==>
              r[name] == (if name in acc then acc[name] else {}) + (if name in ReferencedNames(text) then {file} else {})
  {
    AddReferences(acc, file, MatchesFrom(text, 0))
  }

  lemma CollectIntoEmpty(file: string, text: string)
    ensures CollectFile(map[], file, text) == map name | name in ReferencedNames(text) :: {file}
  {
    AddIntoEmpty(file, MatchesFrom(text, 0));
  }

  lemma AddIntoEmpty(file: string, ms: seq<Match>)
    ensures AddReferences(map[], file, ms) == map name | name in MatchNames(ms) :: {file}
  {
    var r := AddReferences(map[], file, ms);
    var m := map name | name in MatchNames(ms) :: {file};
    assert r.Keys == m.Keys;
    forall name | name in r
      ensures r[name] == m[name]
    {
    }
  }

  /** An entry of the repository's workflow directory: its name and its downloaded text, `None`
      when the download failed. */
  datatype WorkflowItem = WorkflowItem(name: string, content: Option<string>)

  predicate HasSuffix(s: string, t: string) {
    |t| <= |s| && s[|s| - |t|..] == t
  }

  predicate HasPrefix(s: string, t: string) {
    |t| <= |s| && s[..|t|] == t
  }

  /** The file-name filter of the scan: a name ending in ".yml", or one STARTING with ".yaml". */
  predicate IsConsidered(name: string) {
    HasSuffix(name, ".yml") || HasPrefix(name, ".yaml")
  }

  /** `items[k]` is the first entry the filter lets through. */
  ghost predicate IsFirstConsidered(items: seq<WorkflowItem>, k: int) {
    && 0 <= k < |items|
    && IsConsidered(items[k].name)
    && forall j :: 0 <= j < k ==> !IsConsidered(items[j].name)
  }

  /** The scan loop of `getUsedSecrets`: entries the filter rejects are skipped, a failed download
      is an error, and the loop stops after the first entry it scans. */
  function UsedSecrets(items: seq<WorkflowItem>): (r: Result<map<string, set<string>>, string>)
    ensures (forall k :: 0 <= k < |items| ==> !IsConsidered(items[k].name)) ==> r == Success(map[])
    ensures forall k :: IsFirstConsidered(items, k) ==>
              match items[k].content
              case None => r.Failure?
              case Some(text) => r == Success(map name | name in ReferencedNames(text) :: {items[k].name})
  {
    if |items| == 0 then Success(map[])
    else if !IsConsidered(items[0].name) then
      var r := UsedSecrets(items[1..]);
      assert forall k :: IsFirstConsidered(items, k) ==> k > 0 && IsFirstConsidered(items[1..], k - 1);
      r
    else
      match items[0].content
      case None => Failure("download of " + items[0].name + " failed")
      case Some(text) =>
        var r := CollectFile(map[], items[0].name, text);
        CollectIntoEmpty(items[0].name, text);
        assert forall k :: IsFirstConsidered(items, k) ==> k == 0;
        Success(r)
  }

  /** Entries after the first considered one never matter. */
  lemma {:induction false} UsedSecretsStopsAtFirst(items: seq<WorkflowItem>, more: seq<WorkflowItem>)
    requires exists k :: 0 <= k < |items| && IsConsidered(items[k].name)
    ensures UsedSecrets(items + more) == UsedSecrets(items)
  {
    var all := items + more;
    assert all[0] == items[0];
    if !IsConsidered(items[0].name) {
      assert all[1..] == items[1..] + more;
      var k :| 0 <= k < |items| && IsConsidered(items[k].name);
      assert IsConsidered(items[1..][k - 1].name);
      UsedSecretsStopsAtFirst(items[1..], more);
    }
  }

  /** A text position that is not a `$` cannot start a reference. */
  lemma {:induction false} DollarFreeStretch(s: string, i: nat, j: nat)
    requires i <= j <= |s|
    requires forall k :: i <= k < j ==> s[k] != '$'
    ensures MatchesFrom(s, i) == MatchesFrom(s, j)
    decreases j - i
  {
    if i < j {
      assert !HasAt(s, i, Open) by {
        if i + |Open| <= |s| {
          assert s[i..i + |Open|][0] == s[i];
        }
      }
      DollarFreeStretch(s, i + 1, j);
    }
  }

  /** A text whose only `$` opens one reference yields exactly that reference's name. */
  lemma SingleReference(before: string, lead: string, name: string, trail: string, after: string)
    requires IsSecretName(name) && AllSpace(lead) && AllSpace(trail)
    requires forall k :: 0 <= k < |before| ==> before[k] != '$'
    requires forall k :: 0 <= k < |after| ==> after[k] != '$'
    ensures ReferencedNames(before + Reference(lead, name, trail) + after) == {name}
  {
    var ref := Reference(lead, name, trail);
    var s := before + ref + after;
    var i := |before|;
    var end := i + |ref|;
    assert s[i..end] == ref;
    MatchAtFinds(s, i, lead, name, trail, end);
    DollarFreeStretch(s, 0, i);
    DollarFreeStretch(s, end, |s|);
    assert MatchesFrom(s, 0) == [Match(i, name, end)];
  }

  /** The expected value of the collection test in github/collect_secrets_test.go. */
  lemma CollectOneSecret()
    ensures CollectFile(map[], "one.yaml", "some random yaml content: ${{ secrets.ONE_SECRET }} here")
            == map["ONE_SECRET" := {"one.yaml"}]
  {
    var text := "some random yaml content: ${{ secrets.ONE_SECRET }} here";
    OneSecretNames(text);
    CollectSingleName("one.yaml", text, "ONE_SECRET");
  }

  lemma CollectSingleName(file: string, text: string, name: string)
    requires ReferencedNames(text) == {name}
    ensures CollectFile(map[], file, text) == map[name := {file}]
  {
    var r := CollectFile(map[], file, text);
    assert r.Keys == {name};
    assert r[name] == {file};
    SingletonMap(r, name, {file});
  }

  lemma SingletonMap(r: map<string, set<string>>, key: string, value: set<string>)
    requires r.Keys == {key} && r[key] == value
    ensures r == map[key := value]
  {
  }

  lemma OneSecretNames(text: string)
    requires text == "some random yaml content: ${{ secrets.ONE_SECRET }} here"
    ensures ReferencedNames(text) == {"ONE_SECRET"}
  {
    var before := "some random yaml content: ";
    assert IsSecretName("ONE_SECRET");
    assert text == before + Reference(" ", "ONE_SECRET", " ") + " here";
    SingleReference(before, " ", "ONE_SECRET", " ", " here");
  }

  /** As written, the filter skips a file named "ci.yaml": references in it are never seen. */
  lemma YamlSuffixSkipped(text: string)
    ensures UsedSecrets([WorkflowItem("ci.yaml", Some(text))]) == Success(map[])
  {
    assert !IsConsidered("ci.yaml");
  }
}
