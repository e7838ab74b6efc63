/** The driver of localizable_strings_checker.rb: the 'ja' file against every
    other locale's file, in discovery order, stopping at the first failure. */
module Runner {
  import opened Text
  import opened Placeholders
  import opened Checks

  /** How the run ends: every target passed (exit status 0), a target failed one
      of the four checks (`exit 1`), or check_replace_strings called `include?` on
      nil for a target and the script died with an uncaught error (also status 1). */
  datatype RunOutcome = AllPassed | FailedAt(index: nat) | CrashedAt(index: nat)

  function ExitStatus(o: RunOutcome): (code: int)
    ensures code == 0 <==> o.AllPassed?
    ensures code == 0 || code == 1
  {
    if o.AllPassed? then 0 else 1
  }

  /** The script exits with status 0 exactly when every target is examined and passes. */
  lemma ExitStatusOfRun(ja: StringsFile, targets: seq<StringsFile>)
    ensures ExitStatus(RunFrom(ja, targets, 0)) == 0 <==>
              forall j :: 0 <= j < |targets| ==> PassesAt(ja, targets, j)
  {
    RunPassesIff(ja, targets, 0);
  }

  /** The conjunction computed for one target (`has_error` is its negation). */
  ghost predicate TargetPasses(ja: StringsFile, target: StringsFile)
  {
    && multiset(ja.keys) == multiset(target.keys)
    && multiset(ja.comments) == multiset(target.comments)
    && PlaceholdersPreserved(ja.keyValues, target.keyValues)
    && forall i :: 0 <= i < |target.keyValues| ==> !HasBarePercent(target.keyValues[i].value)
  }

  /** What examining one target gives: it passes, it fails one of the four
      checks, or check_replace_strings crashes on it. */
  datatype Verdict = Passes | Fails | Crashes

  ghost function Examine(ja: StringsFile, target: StringsFile): (v: Verdict)
    ensures v == Crashes <==> !LookupSafe(ja.keyValues, target.keyValues)
    ensures v == Passes <==> LookupSafe(ja.keyValues, target.keyValues) && TargetPasses(ja, target)
  {
    if !LookupSafe(ja.keyValues, target.keyValues) then Crashes
    else if !TargetPasses(ja, target) then Fails
    else Passes
  }

  /** The verdicts of the targets, in discovery order. */
  ghost function Verdicts(ja: StringsFile, targets: seq<StringsFile>): (vs: seq<Verdict>)
    ensures |vs| == |targets|
    ensures forall j :: 0 <= j < |targets| ==> vs[j] == Examine(ja, targets[j])
  {
    seq(|targets|, j requires 0 <= j < |targets| => Examine(ja, targets[j]))
  }

  /** What the verdict of target j says about it. */
  lemma VerdictMeaning(ja: StringsFile, targets: seq<StringsFile>, j: nat)
    requires j < |targets|
    ensures Verdicts(ja, targets)[j] == Passes <==> PassesAt(ja, targets, j)
    ensures Verdicts(ja, targets)[j] == Crashes <==> !LookupSafe(ja.keyValues, targets[j].keyValues)
  {
  }

  /** A run over verdicts from index k: the first target that does not pass ends it. */
  function OutcomeFrom(vs: seq<Verdict>, k: nat): RunOutcome
    requires k <= |vs|
    decreases |vs| - k
  {
    if k == |vs| then AllPassed
    else
      match vs[k]
      case Crashes => CrashedAt(k)
      case Fails => FailedAt(k)
      case Passes => OutcomeFrom(vs, k + 1)
  }

  /** The run from target k on. */
  ghost function RunFrom(ja: StringsFile, targets: seq<StringsFile>, k: nat): RunOutcome
    requires k <= |targets|
  {
    OutcomeFrom(Verdicts(ja, targets), k)
  }

  /** Target k is examined and passes. */
  ghost predicate PassesAt(ja: StringsFile, targets: seq<StringsFile>, k: nat)
    requires k < |targets|
  {
    LookupSafe(ja.keyValues, targets[k].keyValues) && TargetPasses(ja, targets[k])
  }

  /** The whole run: all four checks on each target in turn, stopping at the
      first target that fails or crashes. The check of the reference file's own
      values runs first and prints its findings, but its result is overwritten by
      the first target's and never decides the outcome. */
  method Run(ja: StringsFile, targets: seq<StringsFile>) returns (outcome: RunOutcome)
    ensures outcome == RunFrom(ja, targets, 0)
  {
    var hasSinglePercent, jaOffenders := CheckSinglePercent(ja.keyValues);
    for k := 0 to |targets|
      invariant RunFrom(ja, targets, 0) == RunFrom(ja, targets, k)
    {
      RunStep(ja, targets, k);
      var other := targets[k];
      var isSameKeys := CheckSameKeys(ja.keys, other.keys).same;
      var isSameComments := CheckSameComments(ja.comments, other.comments).same;
      if !LookupSafe(ja.keyValues, other.keyValues) {
        return CrashedAt(k);
      }
      var noSpecialStringsDiff, replaceReport := CheckReplaceStrings(ja.keyValues, other.keyValues);
      var offenders;
      hasSinglePercent, offenders := CheckSinglePercent(other.keyValues);
      var hasError := !isSameKeys || !isSameComments || !noSpecialStringsDiff || !hasSinglePercent;
      if hasError {
        return FailedAt(k);
      }
    }
    outcome := AllPassed;
  }

  /** One step of the run: a target that passes hands over to the next one,
      and any other target ends the run there. */
  lemma RunStep(ja: StringsFile, targets: seq<StringsFile>, k: nat)
    requires k < |targets|
    ensures PassesAt(ja, targets, k) ==> RunFrom(ja, targets, k) == RunFrom(ja, targets, k + 1)
    ensures !PassesAt(ja, targets, k) ==>
              RunFrom(ja, targets, k) == (if LookupSafe(ja.keyValues, targets[k].keyValues) then FailedAt(k) else CrashedAt(k))
  {
  }

  /** Every target from k on passes exactly when the run from k succeeds. */
  lemma {:induction false} OutcomePassesIff(vs: seq<Verdict>, k: nat)
    requires k <= |vs|
    ensures OutcomeFrom(vs, k).AllPassed? <==> forall j :: k <= j < |vs| ==> vs[j] == Passes
    decreases |vs| - k
  {
    if k < |vs| {
      OutcomePassesIff(vs, k + 1);
    }
  }

  /** The run ends with a failure at j exactly when every target from k to j
      passes and j fails. */
  lemma {:induction false} OutcomeFailsAtIff(vs: seq<Verdict>, k: nat, j: nat)
    requires k <= |vs|
    ensures OutcomeFrom(vs, k) == FailedAt(j) <==>
              k <= j < |vs| && (forall i :: k <= i < j ==> vs[i] == Passes) && vs[j] == Fails
    decreases |vs| - k
  {
    if k < |vs| {
      OutcomeFailsAtIff(vs, k + 1, j);
    }
  }

  /** The run ends with a crash at j exactly when every target from k to j
      passes and j crashes. */
  lemma {:induction false} OutcomeCrashesAtIff(vs: seq<Verdict>, k: nat, j: nat)
    requires k <= |vs|
    ensures OutcomeFrom(vs, k) == CrashedAt(j) <==>
              k <= j < |vs| && (forall i :: k <= i < j ==> vs[i] == Passes) && vs[j] == Crashes
    decreases |vs| - k
  {
    if k < |vs| {
      OutcomeCrashesAtIff(vs, k + 1, j);
    }
  }

  /** A run that stops early depends only on the verdicts up to where it stops. */
  lemma {:induction false} OutcomeOfPrefix(vs: seq<Verdict>, ws: seq<Verdict>, k: nat)
    requires k <= |vs| <= |ws| && vs == ws[..|vs|]
    requires !OutcomeFrom(vs, k).AllPassed?
    ensures OutcomeFrom(ws, k) == OutcomeFrom(vs, k)
    decreases |vs| - k
  {
    assert ws[k] == vs[k];
    if vs[k] == Passes {
      OutcomeOfPrefix(vs, ws, k + 1);
    }
  }

  /** The run succeeds exactly when every target is examined and passes. */
  lemma RunPassesIff(ja: StringsFile, targets: seq<StringsFile>, k: nat)
    requires k <= |targets|
    ensures RunFrom(ja, targets, k).AllPassed? <==>
              forall j :: k <= j < |targets| ==> PassesAt(ja, targets, j)
  {
    OutcomePassesIff(Verdicts(ja, targets), k);
    forall j | k <= j < |targets| ensures Verdicts(ja, targets)[j] == Passes <==> PassesAt(ja, targets, j) {
      VerdictMeaning(ja, targets, j);
    }
  }

  /** The run fails at target j exactly when every earlier target passed and j,
      examined without crashing, did not. */
  lemma RunFailsAtIff(ja: StringsFile, targets: seq<StringsFile>, k: nat, j: nat)
    requires k <= |targets|
    ensures RunFrom(ja, targets, k) == FailedAt(j) <==>
              k <= j < |targets| && (forall i :: k <= i < j ==> PassesAt(ja, targets, i))
              && LookupSafe(ja.keyValues, targets[j].keyValues) && !TargetPasses(ja, targets[j])
  {
    OutcomeFailsAtIff(Verdicts(ja, targets), k, j);
    forall i | k <= i < |targets| ensures Verdicts(ja, targets)[i] == Passes <==> PassesAt(ja, targets, i) {
      VerdictMeaning(ja, targets, i);
    }
    if j < |targets| {
      VerdictMeaning(ja, targets, j);
    }
  }

  /** The run crashes at target j exactly when every earlier target passed and
      j lacks an entry for a reference key whose value holds a placeholder. */
  lemma RunCrashesAtIff(ja: StringsFile, targets: seq<StringsFile>, k: nat, j: nat)
    requires k <= |targets|
    ensures RunFrom(ja, targets, k) == CrashedAt(j) <==>
              k <= j < |targets| && (forall i :: k <= i < j ==> PassesAt(ja, targets, i))
              && !LookupSafe(ja.keyValues, targets[j].keyValues)
  {
    OutcomeCrashesAtIff(Verdicts(ja, targets), k, j);
    forall i | k <= i < |targets| ensures Verdicts(ja, targets)[i] == Passes <==> PassesAt(ja, targets, i) {
      VerdictMeaning(ja, targets, i);
    }
    if j < |targets| {
      VerdictMeaning(ja, targets, j);
    }
  }

  /** Fail-fast: once the run stops at some target, appending more targets
      changes nothing, because they are never examined. */
  lemma LaterTargetsIgnored(ja: StringsFile, targets: seq<StringsFile>, more: seq<StringsFile>, k: nat)
    requires k <= |targets|
    requires !RunFrom(ja, targets, k).AllPassed?
    ensures RunFrom(ja, targets + more, k) == RunFrom(ja, targets, k)
  {
    var vs := Verdicts(ja, targets);
    var ws := Verdicts(ja, targets + more);
    forall j | 0 <= j < |vs| ensures ws[j] == vs[j] {
      assert (targets + more)[j] == targets[j];
    }
    assert vs == ws[..|vs|];
    OutcomeOfPrefix(vs, ws, k);
  }

  /** With no target at all the run succeeds, whatever the reference file holds,
      bare '%' signs included. */
  lemma NoTargetsPass(ja: StringsFile)
    ensures RunFrom(ja, [], 0) == AllPassed
  {
  }

  /** The reference file's own bare '%' does not fail the run: only the targets'
      values decide check_single_percent_string's part of the outcome. */
  lemma ReferenceBarePercentIgnored(ja: StringsFile, target: StringsFile)
    requires ja == StringsFile(["k"], [], [KeyValue("k", "100% done")])
    requires target == StringsFile(["k"], [], [KeyValue("k", "done")])
    ensures HasBarePercent(ja.keyValues[0].value)
    ensures RunFrom(ja, [target], 0) == AllPassed
  {
    BarePercentFlagged(ja.keyValues[0].value);
    BarePercentTargetPasses(ja, target);
    RunStep(ja, [target], 0);
  }

  lemma BarePercentTargetPasses(ja: StringsFile, target: StringsFile)
    requires ja == StringsFile(["k"], [], [KeyValue("k", "100% done")])
    requires target == StringsFile(["k"], [], [KeyValue("k", "done")])
    ensures PassesAt(ja, [target], 0)
  {
    assert !HasBarePercent(target.keyValues[0].value);
    NoTokenAfterBarePercent(ja.keyValues[0].value);
    assert LookupSafe(ja.keyValues, target.keyValues);
    assert PlaceholdersPreserved(ja.keyValues, target.keyValues);
  }

  /** As written, a target that drops a positioned placeholder passes: the
      reference value "%1$@ and %2$@" against the target value "%1$@", which
      lacks "%2$@", ends the run with exit status 0. */
  lemma PositionedPlaceholderUnchecked(ja: StringsFile, target: StringsFile)
    requires ja == StringsFile(["k"], [], [KeyValue("k", "%1$@ and %2$@")])
    requires target == StringsFile(["k"], [], [KeyValue("k", "%1$@")])
    ensures "%2$@" in IntendedTokens(ja.keyValues[0].value)
    ensures !Contains(target.keyValues[0].value, "%2$@")
    ensures RunFrom(ja, [target], 0) == AllPassed
  {
    PositionedPairDropped(ja.keyValues[0].value, target.keyValues[0].value);
    PositionedPairTargetPasses(ja, target);
    RunStep(ja, [target], 0);
  }

  lemma PositionedPairDropped(v: string, w: string)
    requires v == "%1$@ and %2$@" && w == "%1$@"
    ensures "%2$@" in IntendedTokens(v)
    ensures !Contains(w, "%2$@")
  {
    PositionedPairIntended(v);
    MissingCharNotContained(w, "%2$@", '2');
  }

  lemma PositionedPairTargetPasses(ja: StringsFile, target: StringsFile)
    requires ja == StringsFile(["k"], [], [KeyValue("k", "%1$@ and %2$@")])
    requires target == StringsFile(["k"], [], [KeyValue("k", "%1$@")])
    ensures PassesAt(ja, [target], 0)
  {
    PositionedPairAsWritten(ja.keyValues[0].value);
    assert LookupSafe(ja.keyValues, target.keyValues);
    assert PlaceholdersPreserved(ja.keyValues, target.keyValues);
    PositionedPercentNotFlagged(target.keyValues[0].value);
  }

  /** As written, a reference value whose only placeholder is positioned never
      makes check_replace_strings look its key up, so a target without that key
      fails on its keys instead of crashing. */
  lemma PositionedLookupSkipped(ja: StringsFile, target: StringsFile)
    requires ja == StringsFile(["k"], [], [KeyValue("k", "%1$@")])
    requires target == StringsFile([], [], [])
    ensures IntendedTokens(ja.keyValues[0].value) == ["%1$@"]
    ensures FindValue(target.keyValues, "k") == None
    ensures RunFrom(ja, [target], 0) == FailedAt(0)
  {
    PositionedAloneIntended(ja.keyValues[0].value);
    PositionedAloneAsWritten(ja.keyValues[0].value);
    assert LookupSafe(ja.keyValues, target.keyValues);
    assert multiset(ja.keys)["k"] == 1;
    assert !TargetPasses(ja, target);
    RunStep(ja, [target], 0);
  }
}
