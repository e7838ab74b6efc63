/** The four consistency checks of localizable_strings_checker.rb, each
    comparing a target locale's parsed strings file with the 'ja' reference. */
module Checks {
  import opened Text
  import opened Placeholders

  /** One `{key => value}` element of a parsed file's key_values list. */
  datatype KeyValue = KeyValue(key: string, value: string)

  /** The three views the strings-file parser gives of one file. */
  datatype StringsFile = StringsFile(keys: seq<string>, comments: seq<string>, keyValues: seq<KeyValue>)

  /** Outcome of a key or comment comparison: whether the sorted lists are equal,
      and the reference elements that the target lacks (what the check prints). */
  datatype Comparison = Comparison(same: bool, onlyInReference: seq<string>)

  /** Sorts both lists, compares them, and on a mismatch lists
      `sorted_reference - sorted_other`. */
  function CompareSorted(reference: seq<string>, other: seq<string>): (c: Comparison)
    ensures c.same <==> multiset(reference) == multiset(other)
    ensures Sorted(c.onlyInReference)
    ensures forall x :: multiset(c.onlyInReference)[x] == if x in other then 0 else multiset(reference)[x]
  {
    var sortedReference := Sort(reference);
    var sortedOther := Sort(other);
    SortedDifference(reference, other);
    if sortedReference == sortedOther then Comparison(true, [])
    else Comparison(false, Difference(sortedReference, sortedOther))
  }

  lemma SortedDifference(reference: seq<string>, other: seq<string>)
    ensures Sort(reference) == Sort(other) <==> multiset(reference) == multiset(other)
    ensures Sorted(Difference(Sort(reference), Sort(other)))
    ensures forall x :: multiset(Difference(Sort(reference), Sort(other)))[x] ==
                        if x in other then 0 else multiset(reference)[x]
    ensures multiset(reference) == multiset(other) ==>
              forall x :: (if x in other then 0 else multiset(reference)[x]) == 0
  {
    SortEqualIff(reference, other);
    DifferenceSorted(Sort(reference), Sort(other));
    SameMembers(Sort(other), other);
    SameMembers(reference, other);
  }

  /** check_same_keys: the keys agree as multisets, whatever their order; the
      report holds the reference keys missing from the target, sorted and with
      their multiplicity, and never a key found only in the target. */
  function CheckSameKeys(jaKeys: seq<string>, otherKeys: seq<string>): (c: Comparison)
    ensures c.same <==> multiset(jaKeys) == multiset(otherKeys)
    ensures Sorted(c.onlyInReference)
    ensures forall x :: multiset(c.onlyInReference)[x] == if x in otherKeys then 0 else multiset(jaKeys)[x]
  {
    CompareSorted(jaKeys, otherKeys)
  }

  /** check_same_comments: the same comparison applied to the comment lists. */
  function CheckSameComments(jaComments: seq<string>, otherComments: seq<string>): (c: Comparison)
    ensures c.same <==> multiset(jaComments) == multiset(otherComments)
    ensures Sorted(c.onlyInReference)
    ensures forall x :: multiset(c.onlyInReference)[x] == if x in otherComments then 0 else multiset(jaComments)[x]
  {
    CompareSorted(jaComments, otherComments)
  }

  /** A key that only the target has makes the comparison fail but is never reported;
      so a failing comparison can report nothing at all. */
  lemma TargetOnlyKeyNotReported(jaKeys: seq<string>, otherKeys: seq<string>, x: string)
    requires x in otherKeys && x !in jaKeys
    ensures !CheckSameKeys(jaKeys, otherKeys).same
    ensures x !in CheckSameKeys(jaKeys, otherKeys).onlyInReference
  {
    var c := CheckSameKeys(jaKeys, otherKeys);
    assert multiset(otherKeys)[x] > 0 && multiset(jaKeys)[x] == 0;
    assert multiset(c.onlyInReference)[x] == 0;
  }

  /** A reference key absent from the target always shows up in the report. */
  lemma MissingKeyReported(jaKeys: seq<string>, otherKeys: seq<string>, x: string)
    requires x in jaKeys && x !in otherKeys
    ensures !CheckSameKeys(jaKeys, otherKeys).same
    ensures x in CheckSameKeys(jaKeys, otherKeys).onlyInReference
  {
    var c := CheckSameKeys(jaKeys, otherKeys);
    assert multiset(jaKeys)[x] > 0 && multiset(otherKeys)[x] == 0;
    assert multiset(c.onlyInReference)[x] > 0;
  }

  /** When the target has every reference key, the report is empty, however the
      multiplicities differ: a duplicated reference key fails the check silently. */
  lemma NothingReportedWhenAllPresent(jaKeys: seq<string>, otherKeys: seq<string>)
    requires forall x :: x in jaKeys ==> x in otherKeys
    ensures CheckSameKeys(jaKeys, otherKeys).onlyInReference == []
  {
  }

  lemma DuplicateKeyFailsSilently(jaKeys: seq<string>, otherKeys: seq<string>)
    requires jaKeys == ["a", "a"] && otherKeys == ["a"]
    ensures !CheckSameKeys(jaKeys, otherKeys).same
    ensures CheckSameKeys(jaKeys, otherKeys).onlyInReference == []
  {
    NothingReportedWhenAllPresent(jaKeys, otherKeys);
    assert multiset(jaKeys)["a"] == 2 && multiset(otherKeys)["a"] == 1;
  }

  /** `other_key_values.find { |hash| hash.key?(key) }&.[](key)`: the value of the
      first entry with that key, or nothing. */
  function FindValue(kvs: seq<KeyValue>, key: string): (r: Option<string>)
    ensures r.None? <==> forall i :: 0 <= i < |kvs| ==> kvs[i].key != key
    ensures r.Some? ==> exists i :: 0 <= i < |kvs| && kvs[i] == KeyValue(key, r.value)
                                 && forall j :: 0 <= j < i ==> kvs[j].key != key
  {
    if kvs == [] then None
    else if kvs[0].key == key then Some(kvs[0].value)
    else
      FindValue(kvs[1..], key)
  }

  /** check_replace_strings looks up the target value of every reference entry that
      has a placeholder and calls `include?` on it; when the target has no entry
      with that key the lookup gives nil and the script stops with an error. The
      check is defined only for files where that does not happen. */
  predicate LookupSafe(ja: seq<KeyValue>, other: seq<KeyValue>)
  {
    forall i :: 0 <= i < |ja| && Tokens(ja[i].value) != [] ==> FindValue(other, ja[i].key).Some?
  }

  /** `matches.reject { |str| other_value.include?(str) }`. */
  function Reject(tokens: seq<string>, target: string): (r: seq<string>)
    ensures forall t :: t in r <==> t in tokens && !Contains(target, t)
  {
    if tokens == [] then []
    else (if Contains(target, tokens[0]) then [] else [tokens[0]]) + Reject(tokens[1..], target)
  }

  /** The placeholders of one reference entry that its target value lacks. */
  function MissingPlaceholders(e: KeyValue, other: seq<KeyValue>): (m: seq<string>)
    requires Tokens(e.value) != [] ==> FindValue(other, e.key).Some?
    ensures forall t :: t in m <==> t in Tokens(e.value) && !Contains(FindValue(other, e.key).value, t)
  {
    var tokens := Tokens(e.value);
    if tokens == [] then [] else Reject(tokens, FindValue(other, e.key).value)
  }

  /** What check_replace_strings reports for one key: the placeholders it misses. */
  datatype KeyReport = KeyReport(key: string, missing: seq<string>)

  /** The reports of check_replace_strings, in reference order. */
  function ReplaceReport(ja: seq<KeyValue>, other: seq<KeyValue>): (r: seq<KeyReport>)
    requires LookupSafe(ja, other)
    ensures forall k :: 0 <= k < |r| ==> r[k].missing != []
  {
    if ja == [] then []
    else
      var e := ja[|ja| - 1];
      var rest := ReplaceReport(ja[..|ja| - 1], other);
      var m := MissingPlaceholders(e, other);
      if m == [] then rest else rest + [KeyReport(e.key, m)]
  }

  lemma ReplaceReportStep(ja: seq<KeyValue>, other: seq<KeyValue>, i: nat)
    requires i < |ja| && LookupSafe(ja, other)
    ensures LookupSafe(ja[..i], other) && LookupSafe(ja[..i + 1], other)
    ensures var m := MissingPlaceholders(ja[i], other);
            ReplaceReport(ja[..i + 1], other) ==
              ReplaceReport(ja[..i], other) + if m == [] then [] else [KeyReport(ja[i].key, m)]
  {
    assert ja[..i + 1][..i] == ja[..i];
  }

  /** Every report line names a reference entry and carries exactly that entry's
      missing placeholders. */
  lemma {:induction false} ReplaceReportSound(ja: seq<KeyValue>, other: seq<KeyValue>, r: KeyReport)
    requires LookupSafe(ja, other) && r in ReplaceReport(ja, other)
    ensures exists i :: 0 <= i < |ja| && ja[i].key == r.key && r.missing == MissingPlaceholders(ja[i], other)
    decreases |ja|
  {
    var n := |ja| - 1;
    ReplaceReportStep(ja, other, n);
    assert ja[..n + 1] == ja;
    if r in ReplaceReport(ja[..n], other) {
      ReplaceReportSound(ja[..n], other, r);
      var i :| 0 <= i < n && ja[..n][i].key == r.key && r.missing == MissingPlaceholders(ja[..n][i], other);
      assert ja[..n][i] == ja[i];
    } else {
      assert r == KeyReport(ja[n].key, MissingPlaceholders(ja[n], other));
    }
  }

  /** Every reference entry with a missing placeholder gets its report line. */
  lemma {:induction false} ReplaceReportComplete(ja: seq<KeyValue>, other: seq<KeyValue>, i: nat)
    requires LookupSafe(ja, other) && i < |ja| && MissingPlaceholders(ja[i], other) != []
    ensures KeyReport(ja[i].key, MissingPlaceholders(ja[i], other)) in ReplaceReport(ja, other)
    decreases |ja|
  {
    var n := |ja| - 1;
    ReplaceReportStep(ja, other, n);
    assert ja[..n + 1] == ja;
    var line := KeyReport(ja[i].key, MissingPlaceholders(ja[i], other));
    var m := MissingPlaceholders(ja[n], other);
    var tail := if m == [] then [] else [KeyReport(ja[n].key, m)];
    assert ReplaceReport(ja, other) == ReplaceReport(ja[..n], other) + tail;
    if i < n {
      assert ja[..n][i] == ja[i];
      ReplaceReportComplete(ja[..n], other, i);
      assert line in ReplaceReport(ja[..n], other);
    } else {
      assert i == n && m != [];
      assert tail == [line];
    }
  }

  /** Every placeholder of the reference entry occurs in the target value for its key. */
  ghost predicate EntryPreserved(e: KeyValue, other: seq<KeyValue>)
  {
    forall t :: t in Tokens(e.value) ==> FindValue(other, e.key).Some? && Contains(FindValue(other, e.key).value, t)
  }

  lemma MissingPlaceholdersEmptyIff(e: KeyValue, other: seq<KeyValue>)
    requires Tokens(e.value) != [] ==> FindValue(other, e.key).Some?
    ensures MissingPlaceholders(e, other) == [] <==> EntryPreserved(e, other)
  {
    var m := MissingPlaceholders(e, other);
    if m != [] {
      assert m[0] in m;
    }
  }

  /** Every placeholder of every reference value occurs in the target value for
      the same key. */
  ghost predicate PlaceholdersPreserved(ja: seq<KeyValue>, other: seq<KeyValue>)
  {
    forall i :: 0 <= i < |ja| ==> EntryPreserved(ja[i], other)
  }

  /** The report is empty exactly when every placeholder is preserved. */
  lemma {:induction false} ReplaceReportEmptyIff(ja: seq<KeyValue>, other: seq<KeyValue>)
    requires LookupSafe(ja, other)
    ensures ReplaceReport(ja, other) == [] <==> PlaceholdersPreserved(ja, other)
    decreases |ja|
  {
    if ja != [] {
      var n := |ja| - 1;
      PreservedSplit(ja, other);
      ReplaceReportEmptyIff(ja[..n], other);
      MissingPlaceholdersEmptyIff(ja[n], other);
      ReplaceReportStep(ja, other, n);
      assert ja[..n + 1] == ja;
    }
  }

  lemma PreservedSplit(ja: seq<KeyValue>, other: seq<KeyValue>)
    requires ja != [] && LookupSafe(ja, other)
    ensures LookupSafe(ja[..|ja| - 1], other)
    ensures PlaceholdersPreserved(ja, other) <==>
              PlaceholdersPreserved(ja[..|ja| - 1], other) && EntryPreserved(ja[|ja| - 1], other)
  {
    var n := |ja| - 1;
    var front := ja[..n];
    forall i | 0 <= i < n ensures front[i] == ja[i] {
    }
    if PlaceholdersPreserved(ja, other) {
      forall i | 0 <= i < n ensures EntryPreserved(front[i], other) {
        assert EntryPreserved(ja[i], other);
      }
    }
    if PlaceholdersPreserved(front, other) && EntryPreserved(ja[n], other) {
      forall i | 0 <= i < |ja| ensures EntryPreserved(ja[i], other) {
        if i < n {
          assert EntryPreserved(front[i], other);
        } else {
          assert ja[i] == ja[n];
        }
      }
    }
  }

  /** check_replace_strings: passes exactly when every placeholder is preserved,
      and reports, key by key, the placeholders that are not. */
  method CheckReplaceStrings(ja: seq<KeyValue>, other: seq<KeyValue>) returns (ok: bool, report: seq<KeyReport>)
    requires LookupSafe(ja, other)
    ensures ok <==> PlaceholdersPreserved(ja, other)
    ensures report == ReplaceReport(ja, other)
    ensures ok <==> report == []
  {
    var hasDiff := false;
    report := [];
    var i := 0;
    while i < |ja|
      invariant 0 <= i <= |ja|
      invariant LookupSafe(ja[..i], other)
      invariant report == ReplaceReport(ja[..i], other)
      invariant hasDiff <==> report != []
    {
      ReplaceReportStep(ja, other, i);
      var key := ja[i].key;
      var matches := Tokens(ja[i].value);
      if |matches| > 0 {
        var otherValue := FindValue(other, key).value;
        var missing := Reject(matches, otherValue);
        assert missing == MissingPlaceholders(ja[i], other);
        if |missing| > 0 {
          hasDiff := true;
          report := report + [KeyReport(key, missing)];
        }
      } else {
        assert MissingPlaceholders(ja[i], other) == [];
      }
      i := i + 1;
    }
    assert ja[..i] == ja;
    ReplaceReportEmptyIff(ja, other);
    ok := !hasDiff;
  }

  /** A "%d" that the target value drops is reported under its key; the kept "%s" is not. */
  lemma DroppedPlaceholderReported(ja: seq<KeyValue>, other: seq<KeyValue>)
    requires ja == [KeyValue("k", "%s and %d")] && other == [KeyValue("k", "%s only")]
    ensures LookupSafe(ja, other)
    ensures ReplaceReport(ja, other) == [KeyReport("k", ["%d"])]
  {
    DroppedPlaceholderMissing(ja[0], other);
    assert ja[..0] == [];
  }

  lemma DroppedPlaceholderMissing(e: KeyValue, other: seq<KeyValue>)
    requires e == KeyValue("k", "%s and %d") && other == [KeyValue("k", "%s only")]
    ensures Tokens(e.value) == ["%s", "%d"] && FindValue(other, e.key) == Some("%s only")
    ensures MissingPlaceholders(e, other) == ["%d"]
  {
    TwoTokens(e.value);
    DroppedPlaceholderRejected(other[0].value);
  }

  lemma DroppedPlaceholderRejected(v: string)
    requires v == "%s only"
    ensures Reject(["%s", "%d"], v) == ["%d"]
  {
    assert Contains(v, "%s") by {
      assert OccursAt(v, 0, "%s");
    }
    MissingCharNotContained(v, "%d", 'd');
    assert ["%s", "%d"][1..] == ["%d"] && ["%d"][1..] == [];
    assert Reject(["%d"], v) == ["%d"] + Reject([], v);
    assert Reject(["%s", "%d"], v) == [] + Reject(["%d"], v);
  }

  /** A placeholder is checked for presence, not counted: a target value with one
      "%d" passes against a reference value with two. */
  lemma PresenceNotCount(ja: seq<KeyValue>, other: seq<KeyValue>)
    requires ja == [KeyValue("k", "%d %d")] && other == [KeyValue("k", "%d")]
    ensures LookupSafe(ja, other) && PlaceholdersPreserved(ja, other)
    ensures ReplaceReport(ja, other) == []
  {
    PresenceNotCountEntry(ja[0], other);
    ReplaceReportEmptyIff(ja, other);
  }

  lemma PresenceNotCountEntry(e: KeyValue, other: seq<KeyValue>)
    requires e == KeyValue("k", "%d %d") && other == [KeyValue("k", "%d")]
    ensures Tokens(e.value) == ["%d"] && FindValue(other, e.key) == Some("%d")
    ensures EntryPreserved(e, other)
  {
    RepeatedTokenOnce(e.value);
    assert OccursAt(other[0].value, 0, "%d");
  }

  /** A '%' at index i stands on its own: the regular expression
      `(?<!%)%(?![%]|[@]|[d]|[s]|[f]|[[0-9]$@]|...)` matches there. Each bracket in
      the lookahead is a one-character class, so the lookahead rejects exactly the
      characters '%', '@', 'd', 's', 'f', '$' and the digits. */
  predicate BarePercentAt(v: string, i: nat)
    requires i < |v|
  {
    v[i] == '%' && (i == 0 || v[i - 1] != '%') && (i + 1 == |v| || !GuardsPercent(v[i + 1]))
  }

  predicate GuardsPercent(c: char)
  {
    c == '%' || c == '@' || c == 'd' || c == 's' || c == 'f' || c == '$' || '0' <= c <= '9'
  }

  /** `value.match(...)` succeeds. */
  predicate HasBarePercent(v: string)
  {
    exists i: nat :: i < |v| && BarePercentAt(v, i)
  }

  /** The '%' that starts a placeholder is never flagged. */
  lemma TokenStartIsNotBare(v: string, i: nat, t: string)
    requires t in SpecialStrings && OccursAt(v, i, t)
    ensures i < |v| && !BarePercentAt(v, i)
  {
    VocabularyIsShapes(t);
    assert v[i + 1] == v[i..i + |t|][1];
  }

  /** The keys whose values are flagged, in order. */
  function BarePercentKeys(kvs: seq<KeyValue>): (r: seq<string>)
    ensures forall k :: k in r ==> exists i :: 0 <= i < |kvs| && kvs[i].key == k && HasBarePercent(kvs[i].value)
    ensures forall i :: 0 <= i < |kvs| && HasBarePercent(kvs[i].value) ==> kvs[i].key in r
  {
    if kvs == [] then []
    else
      var front := kvs[..|kvs| - 1];
      var last := kvs[|kvs| - 1];
      var rest := BarePercentKeys(front);
      assert forall i :: 0 <= i < |front| ==> front[i] == kvs[i];
      if HasBarePercent(last.value) then rest + [last.key] else rest
  }

  /** check_single_percent_string: passes exactly when no value has a bare '%',
      and reports the keys of the values that do. */
  method CheckSinglePercent(kvs: seq<KeyValue>) returns (ok: bool, offenders: seq<string>)
    ensures ok <==> forall i :: 0 <= i < |kvs| ==> !HasBarePercent(kvs[i].value)
    ensures offenders == BarePercentKeys(kvs)
  {
    var hasError := false;
    offenders := [];
    var i := 0;
    while i < |kvs|
      invariant 0 <= i <= |kvs|
      invariant offenders == BarePercentKeys(kvs[..i])
      invariant hasError <==> exists j :: 0 <= j < i && HasBarePercent(kvs[j].value)
    {
      var key := kvs[i].key;
      if HasBarePercent(kvs[i].value) {
        hasError := true;
        offenders := offenders + [key];
      }
      assert kvs[..i + 1][..i] == kvs[..i];
      i := i + 1;
    }
    assert kvs[..i] == kvs;
    ok := !hasError;
  }

  lemma BarePercentFlagged(v: string)
    requires v == "100% done"
    ensures HasBarePercent(v)
  {
    assert BarePercentAt(v, 3);
  }

  lemma TrailingPercentFlagged(v: string)
    requires v == "%"
    ensures HasBarePercent(v)
  {
    assert BarePercentAt(v, 0);
  }

  lemma EscapedPercentNotFlagged(v: string)
    requires v == "100%% done" || v == "%d%% done" || v == "%%%"
    ensures !HasBarePercent(v)
  {
  }

  /** The '%' of a positioned placeholder is followed by its position digit. */
  lemma PositionedPercentNotFlagged(v: string)
    requires v == "%1$@"
    ensures !HasBarePercent(v)
  {
  }
}
