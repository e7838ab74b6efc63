/** The placeholder vocabulary SPECIAL_STRINGS and the token extraction of
    check_replace_strings: every entry is quoted with Regexp.escape, the quoted
    entries are joined with Regexp.union (which quotes each String once more),
    and the value is scanned with the result and de-duplicated. */
module Placeholders {
  import opened Text

  /** SPECIAL_STRINGS, in source order. */
  const SpecialStrings: seq<string> := [
    "%%",
    "%s", "%1$s", "%2$s", "%3$s", "%4$s",
    "%@", "%1$@", "%2$@", "%3$@", "%4$@",
    "%d", "%1$d", "%2$d", "%3$d", "%4$d",
    "%f", "%1$f", "%2$f", "%3$f", "%4$f"
  ]

  predicate IsConversion(c: char)
  {
    c == 's' || c == '@' || c == 'd' || c == 'f'
  }

  /** The form of every SPECIAL_STRINGS entry: "%%", "%" and a conversion, or
      "%", a position 1 to 4, "$" and a conversion. */
  predicate WellShaped(t: string)
  {
    (|t| == 2 && t[0] == '%' && (t[1] == '%' || IsConversion(t[1]))) ||
    (|t| == 4 && t[0] == '%' && '1' <= t[1] <= '4' && t[2] == '$' && IsConversion(t[3]))
  }

  /** SPECIAL_STRINGS is exactly the set of well-shaped strings. */
  lemma VocabularyIsShapes(t: string)
    ensures t in SpecialStrings <==> WellShaped(t)
  {
    if WellShaped(t) {
      if |t| == 2 {
        assert t == ['%', t[1]];
      } else {
        assert t == ['%', t[1], '$', t[3]];
      }
    }
  }

  // ---------------------------------------------------------------------------
  // Regexp.escape, and how the regular-expression engine reads quoted text

  /** The characters Regexp.escape puts a backslash before. */
  predicate IsRegexpMeta(c: char)
  {
    c in "[]{}()|-*.\\?+^$# "
  }

  /** Regexp.escape on one character. */
  function EscapeChar(c: char): string
  {
    if c == '\n' then "\\n"
    else if c == '\t' then "\\t"
    else if c == '\r' then "\\r"
    else if c == '\U{000C}' then "\\f"
    else if c == '\U{000B}' then "\\v"
    else if IsRegexpMeta(c) then ['\\', c]
    else [c]
  }

  /** Regexp.escape: the text of a regular expression matching s literally. */
  function Escape(s: string): string
  {
    if s == [] then [] else EscapeChar(s[0]) + Escape(s[1..])
  }

  /** The character a backslash escape written by Regexp.escape stands for. */
  function UnescapeChar(c: char): char
  {
    if c == 'n' then '\n'
    else if c == 't' then '\t'
    else if c == 'r' then '\r'
    else if c == 'f' then '\U{000C}'
    else if c == 'v' then '\U{000B}'
    else c
  }

  /** The string that quoted regular-expression text matches, read the way the
      engine reads the escapes Regexp.escape writes. */
  function Unescape(r: string): string
    decreases |r|
  {
    if r == [] then []
    else if r[0] == '\\' && |r| > 1 then [UnescapeChar(r[1])] + Unescape(r[2..])
    else [r[0]] + Unescape(r[1..])
  }

  /** Each escape EscapeChar writes is a backslash and a character that reads
      back as c; anything else is c itself, never a lone backslash. */
  lemma EscapeCharShape(c: char)
    ensures 1 <= |EscapeChar(c)| <= 2
    ensures |EscapeChar(c)| == 1 ==> EscapeChar(c) == [c] && c != '\\'
    ensures |EscapeChar(c)| == 2 ==> EscapeChar(c)[0] == '\\' && UnescapeChar(EscapeChar(c)[1]) == c
  {
    if IsRegexpMeta(c) {
      assert c != 'n' && c != 't' && c != 'r' && c != 'f' && c != 'v';
    }
  }

  lemma UnescapeEscapeChar(c: char, rest: string)
    ensures Unescape(EscapeChar(c) + rest) == [c] + Unescape(rest)
  {
    EscapeCharShape(c);
    var e := EscapeChar(c);
    if |e| == 2 {
      assert (e + rest)[0] == '\\' && (e + rest)[1] == e[1];
      assert (e + rest)[2..] == rest;
    } else {
      assert (e + rest)[0] == c;
      assert (e + rest)[1..] == rest;
    }
  }

  /** Quoting once is what makes a regular expression match a string literally. */
  lemma {:induction false} UnescapeEscape(s: string)
    ensures Unescape(Escape(s)) == s
  {
    if s != [] {
      UnescapeEscape(s[1..]);
      UnescapeEscapeChar(s[0], Escape(s[1..]));
      assert s == [s[0]] + s[1..];
    }
  }

  // ---------------------------------------------------------------------------
  // The branches of the alternation built at line 81

  /** Regexp.escape leaves '%', the positions and the conversions alone and
      puts a backslash before '$'. */
  lemma EscapeCharOfShape(c: char)
    ensures (c == '%' || '1' <= c <= '4' || IsConversion(c)) ==> EscapeChar(c) == [c]
    ensures c == '$' ==> EscapeChar(c) == ['\\', '$']
  {
  }

  /** Regexp.escape leaves the two-character entries alone and puts a
      backslash before the '$' of the positioned ones. */
  lemma EscapeOfShape(u: string)
    requires WellShaped(u)
    ensures |u| == 2 ==> Escape(u) == u
    ensures |u| == 4 ==> Escape(u) == [u[0], u[1], '\\', u[2], u[3]]
  {
    EscapeCharOfShape(u[0]);
    EscapeCharOfShape(u[1]);
    if |u| == 2 {
      EscapeOfPlain(u);
    } else {
      EscapeCharOfShape(u[2]);
      EscapeCharOfShape(u[3]);
      EscapeOfPositioned(u);
    }
  }

  lemma EscapeOfPlain(u: string)
    requires |u| == 2 && EscapeChar(u[0]) == [u[0]] && EscapeChar(u[1]) == [u[1]]
    ensures Escape(u) == u
  {
    assert Escape(u[1..]) == EscapeChar(u[1]) + Escape(u[2..]);
    assert Escape(u[2..]) == [];
  }

  lemma EscapeOfPositioned(u: string)
    requires |u| == 4 && EscapeChar(u[0]) == [u[0]] && EscapeChar(u[1]) == [u[1]]
    requires EscapeChar(u[2]) == ['\\', u[2]] && EscapeChar(u[3]) == [u[3]]
    ensures Escape(u) == [u[0], u[1], '\\', u[2], u[3]]
  {
    assert Escape(u[3..]) == EscapeChar(u[3]) + Escape(u[4..]);
    assert Escape(u[4..]) == [];
    assert Escape(u[2..]) == EscapeChar(u[2]) + Escape(u[3..]);
    assert Escape(u[1..]) == EscapeChar(u[1]) + Escape(u[2..]);
  }

  /** What the branches of the alternation built at line 81 match, in
      SPECIAL_STRINGS order. Line 81 escapes every entry, and Regexp.union
      escapes every String it is given once more, so the branch built from
      "%1$s" matches the five characters "%1\$s" (BranchesQuoteSpecialStrings). */
  const Branches: seq<string> := [
    "%%",
    "%s", "%1\\$s", "%2\\$s", "%3\\$s", "%4\\$s",
    "%@", "%1\\$@", "%2\\$@", "%3\\$@", "%4\\$@",
    "%d", "%1\\$d", "%2\\$d", "%3\\$d", "%4\\$d",
    "%f", "%1\\$f", "%2\\$f", "%3\\$f", "%4\\$f"
  ]

  /** Branch i is what the twice-escaped entry i matches: the singly escaped entry. */
  lemma BranchesQuoteSpecialStrings(i: nat)
    requires i < |SpecialStrings|
    ensures |Branches| == |SpecialStrings|
    ensures Branches[i] == Unescape(Escape(Escape(SpecialStrings[i])))
    ensures Branches[i] == Escape(SpecialStrings[i])
  {
    var u := SpecialStrings[i];
    VocabularyIsShapes(u);
    EscapeOfShape(u);
    UnescapeEscape(Escape(u));
    BranchIsQuotedEntry(i);
  }

  lemma BranchIsQuotedEntry(i: nat)
    requires i < |SpecialStrings|
    ensures |SpecialStrings[i]| == 2 ==> Branches[i] == SpecialStrings[i]
    ensures |SpecialStrings[i]| == 4 ==>
              Branches[i] == [SpecialStrings[i][0], SpecialStrings[i][1], '\\', SpecialStrings[i][2], SpecialStrings[i][3]]
  {
  }

  /** The form of every branch: "%%", "%" and a conversion, or "%", a position
      1 to 4, a backslash, "$" and a conversion. */
  predicate QuotedShaped(t: string)
  {
    (|t| == 2 && t[0] == '%' && (t[1] == '%' || IsConversion(t[1]))) ||
    (|t| == 5 && t[0] == '%' && '1' <= t[1] <= '4' && t[2] == '\\' && t[3] == '$' && IsConversion(t[4]))
  }

  /** The branches are exactly the strings of the quoted shape. */
  lemma BranchesAreQuotedShapes(t: string)
    ensures t in Branches <==> QuotedShaped(t)
  {
    if QuotedShaped(t) {
      if |t| == 2 {
        assert t == ['%', t[1]];
      } else {
        assert t == ['%', t[1], '\\', '$', t[4]];
      }
    }
  }

  /** The SPECIAL_STRINGS entries a branch can match are the five
      two-character ones: no positioned placeholder is matched as written. */
  lemma PositionedEntriesUnmatched(t: string)
    requires t in SpecialStrings
    ensures t in Branches <==> |t| == 2
  {
    VocabularyIsShapes(t);
    BranchesAreQuotedShapes(t);
  }

  // ---------------------------------------------------------------------------
  // Scanning with a literal alternation

  /** Every branch starts with '%' (so none is empty). */
  predicate Anchored(vocab: seq<string>)
  {
    forall t :: t in vocab ==> |t| > 0 && t[0] == '%'
  }

  lemma SpecialStringsAnchored()
    ensures Anchored(SpecialStrings)
  {
    forall t | t in SpecialStrings ensures |t| > 0 && t[0] == '%' {
      VocabularyIsShapes(t);
    }
  }

  lemma BranchesAnchored()
    ensures Anchored(Branches)
  {
    forall t | t in Branches ensures |t| > 0 && t[0] == '%' {
      BranchesAreQuotedShapes(t);
    }
  }

  /** The first branch of vocab, in list order, that occurs at index i:
      how a regular-expression alternation picks among its branches. */
  function FirstMatch(s: string, i: nat, vocab: seq<string>): (r: Option<string>)
    ensures r.Some? ==> r.value in vocab && OccursAt(s, i, r.value)
    ensures r.None? ==> forall t :: t in vocab ==> !OccursAt(s, i, t)
  {
    if vocab == [] then None
    else if OccursAt(s, i, vocab[0]) then Some(vocab[0])
    else FirstMatch(s, i, vocab[1..])
  }

  /** The alternation picks the one branch that occurs at i, whatever its place in the list. */
  lemma {:induction false} FirstMatchFindsOnly(s: string, i: nat, vocab: seq<string>, t: string)
    requires t in vocab && OccursAt(s, i, t)
    requires forall u :: u in vocab && u != t ==> !OccursAt(s, i, u)
    ensures FirstMatch(s, i, vocab) == Some(t)
  {
    if vocab[0] != t {
      FirstMatchFindsOnly(s, i, vocab[1..], t);
    }
  }

  /** Two well-shaped strings that occur at the same index are the same:
      no SPECIAL_STRINGS entry is a prefix of another. */
  lemma WellShapedAtUnique(s: string, i: nat, t: string, u: string)
    requires WellShaped(t) && WellShaped(u) && OccursAt(s, i, t) && OccursAt(s, i, u)
    ensures t == u
  {
    assert forall k :: 0 <= k < |t| ==> t[k] == s[i + k];
    assert forall k :: 0 <= k < |u| ==> u[k] == s[i + k];
  }

  /** Two quoted-shaped strings that occur at the same index are the same:
      no branch is a prefix of another. */
  lemma QuotedShapedAtUnique(s: string, i: nat, t: string, u: string)
    requires QuotedShaped(t) && QuotedShaped(u) && OccursAt(s, i, t) && OccursAt(s, i, u)
    ensures t == u
  {
    assert forall k :: 0 <= k < |t| ==> t[k] == s[i + k];
    assert forall k :: 0 <= k < |u| ==> u[k] == s[i + k];
  }

  /** Whatever SPECIAL_STRINGS entry occurs at i is the one the alternation over
      SPECIAL_STRINGS picks. */
  lemma EntryFound(s: string, i: nat, t: string)
    requires t in SpecialStrings && OccursAt(s, i, t)
    ensures FirstMatch(s, i, SpecialStrings) == Some(t)
  {
    VocabularyIsShapes(t);
    forall u | u in SpecialStrings && u != t ensures !OccursAt(s, i, u) {
      VocabularyIsShapes(u);
      if OccursAt(s, i, u) {
        WellShapedAtUnique(s, i, t, u);
      }
    }
    FirstMatchFindsOnly(s, i, SpecialStrings, t);
  }

  /** Whatever branch occurs at i is the one the alternation of line 81 picks. */
  lemma BranchFound(s: string, i: nat, t: string)
    requires t in Branches && OccursAt(s, i, t)
    ensures FirstMatch(s, i, Branches) == Some(t)
  {
    BranchesAreQuotedShapes(t);
    forall u | u in Branches && u != t ensures !OccursAt(s, i, u) {
      BranchesAreQuotedShapes(u);
      if OccursAt(s, i, u) {
        QuotedShapedAtUnique(s, i, t, u);
      }
    }
    FirstMatchFindsOnly(s, i, Branches, t);
  }

  /** String#scan from index i: at each index either the branch found there is
      taken and the scan resumes after it, or the scan moves on by one character. */
  function ScanFrom(s: string, i: nat, vocab: seq<string>): seq<string>
    requires i <= |s| && Anchored(vocab)
    decreases |s| - i
  {
    if i == |s| then []
    else
      match FirstMatch(s, i, vocab)
      case Some(t) => [t] + ScanFrom(s, i + |t|, vocab)
      case None => ScanFrom(s, i + 1, vocab)
  }

  /** Every token the scan yields is a branch that occurs at or after i. */
  lemma {:induction false} ScanFromSound(s: string, i: nat, vocab: seq<string>)
    requires i <= |s| && Anchored(vocab)
    ensures forall t :: t in ScanFrom(s, i, vocab) ==> t in vocab && exists p: nat :: i <= p && OccursAt(s, p, t)
    decreases |s| - i
  {
    if i < |s| {
      match FirstMatch(s, i, vocab)
      case Some(t) =>
        ScanFromSound(s, i + |t|, vocab);
      case None =>
        ScanFromSound(s, i + 1, vocab);
    }
  }

  /** The scan from i finds nothing exactly when no branch occurs at or after i. */
  lemma {:induction false} ScanEmptyIff(s: string, i: nat, vocab: seq<string>)
    requires i <= |s| && Anchored(vocab)
    ensures ScanFrom(s, i, vocab) == [] <==>
            forall t, p: nat :: t in vocab && i <= p && OccursAt(s, p, t) ==> false
    decreases |s| - i
  {
    if i < |s| && FirstMatch(s, i, vocab).None? {
      ScanEmptyIff(s, i + 1, vocab);
      forall t, p: nat | t in vocab && i <= p && OccursAt(s, p, t) ensures i + 1 <= p {
      }
    }
  }

  /** The branch picked at index i is taken whole and the scan resumes after it. */
  lemma ScanTakes(s: string, i: nat, vocab: seq<string>, t: string)
    requires Anchored(vocab) && FirstMatch(s, i, vocab) == Some(t)
    ensures i + |t| <= |s| && ScanFrom(s, i, vocab) == [t] + ScanFrom(s, i + |t|, vocab)
  {
  }

  /** An index where no branch occurs is passed over. */
  lemma ScanPasses(s: string, i: nat, vocab: seq<string>)
    requires i < |s| && Anchored(vocab)
    requires FirstMatch(s, i, vocab) == None
    ensures ScanFrom(s, i, vocab) == ScanFrom(s, i + 1, vocab)
  {
  }

  /** A stretch without '%' is passed over. */
  lemma {:induction false} ScanSkips(s: string, i: nat, j: nat, vocab: seq<string>)
    requires i <= j <= |s| && Anchored(vocab)
    requires '%' !in s[i..j]
    ensures ScanFrom(s, i, vocab) == ScanFrom(s, j, vocab)
    decreases j - i
  {
    if i < j {
      assert s[i] == s[i..j][0];
      assert s[i + 1..j] == s[i..j][1..];
      assert FirstMatch(s, i, vocab) == None;
      ScanPasses(s, i, vocab);
      ScanSkips(s, i + 1, j, vocab);
    }
  }

  lemma NoQuotedShapeAt(s: string, i: nat)
    requires i + 1 < |s|
    requires !(s[i + 1] == '%' || IsConversion(s[i + 1]))
    requires i + 2 < |s| ==> s[i + 2] != '\\'
    ensures forall t :: QuotedShaped(t) ==> !OccursAt(s, i, t)
  {
  }

  /** No branch occurs at index i when the character after i starts no
      two-character branch and is not followed by a backslash. */
  lemma NoBranchAt(s: string, i: nat)
    requires i + 1 < |s|
    requires !(s[i + 1] == '%' || IsConversion(s[i + 1]))
    requires i + 2 < |s| ==> s[i + 2] != '\\'
    ensures FirstMatch(s, i, Branches) == None
  {
    NoQuotedShapeAt(s, i);
    forall t | t in Branches ensures !OccursAt(s, i, t) {
      BranchesAreQuotedShapes(t);
    }
  }

  // ---------------------------------------------------------------------------
  // The extraction as written, and as intended

  /** The distinct placeholder tokens of a value as line 82 extracts them:
      `value.scan(regex).uniq` with the alternation line 81 builds. */
  function Tokens(s: string): seq<string>
  {
    BranchesAnchored();
    Uniq(ScanFrom(s, 0, Branches))
  }

  /** The extraction the vocabulary evidently calls for: a scan for the
      SPECIAL_STRINGS entries themselves. */
  function IntendedTokens(s: string): seq<string>
  {
    SpecialStringsAnchored();
    Uniq(ScanFrom(s, 0, SpecialStrings))
  }

  /** Extraction yields distinct branches, each of which occurs in the value. */
  lemma TokensAreDistinctBranches(s: string)
    ensures Distinct(Tokens(s))
    ensures forall t :: t in Tokens(s) ==> t in Branches && Contains(s, t)
  {
    BranchesAnchored();
    ScanFromSound(s, 0, Branches);
  }

  /** As written, the only SPECIAL_STRINGS entries ever extracted are the
      two-character ones. */
  lemma TokensMissPositioned(s: string)
    ensures forall t :: t in Tokens(s) && t in SpecialStrings ==> |t| == 2
  {
    TokensAreDistinctBranches(s);
    forall t | t in Tokens(s) && t in SpecialStrings ensures |t| == 2 {
      PositionedEntriesUnmatched(t);
    }
  }

  /** A value yields no token exactly when it contains no branch at all. */
  lemma TokensEmptyIff(s: string)
    ensures Tokens(s) == [] <==> forall t :: t in Branches ==> !Contains(s, t)
  {
    BranchesAnchored();
    ScanEmptyIff(s, 0, Branches);
  }

  /** The intended extraction yields distinct SPECIAL_STRINGS entries, each of
      which occurs in the value. */
  lemma IntendedTokensAreDistinctVocabulary(s: string)
    ensures Distinct(IntendedTokens(s))
    ensures forall t :: t in IntendedTokens(s) ==> t in SpecialStrings && Contains(s, t)
  {
    SpecialStringsAnchored();
    ScanFromSound(s, 0, SpecialStrings);
  }

  /** The intended extraction yields nothing exactly when the value contains
      no SPECIAL_STRINGS entry. */
  lemma IntendedTokensEmptyIff(s: string)
    ensures IntendedTokens(s) == [] <==> forall t :: t in SpecialStrings ==> !Contains(s, t)
  {
    SpecialStringsAnchored();
    ScanEmptyIff(s, 0, SpecialStrings);
  }

  // ---------------------------------------------------------------------------
  // Examples

  /** "%%" is consumed as one token, so the "%d" in "%%d" is never seen. */
  lemma DoublePercentIsOneToken(s: string)
    requires s == "%%d"
    ensures Tokens(s) == ["%%"]
  {
    UniqOfDistinct(["%%"]);
    DoublePercentFound(s);
    BranchesAnchored();
    DoublePercentScan(s, Branches);
  }

  lemma DoublePercentFound(s: string)
    requires s == "%%d"
    ensures FirstMatch(s, 0, Branches) == Some("%%")
  {
    assert s[0..2] == "%%";
    BranchFound(s, 0, "%%");
  }

  lemma DoublePercentScan(s: string, vocab: seq<string>)
    requires s == "%%d" && Anchored(vocab)
    requires FirstMatch(s, 0, vocab) == Some("%%")
    ensures ScanFrom(s, 0, vocab) == ["%%"]
  {
    ScanSkips(s, 2, 3, vocab);
    ScanTakes(s, 0, vocab, "%%");
  }

  /** As written, the positioned "%1$@" is not extracted. */
  lemma MixedTokensAsWritten(s: string)
    requires s == "%1$@ items (%d%%)"
    ensures Tokens(s) == ["%d", "%%"]
  {
    UniqOfDistinct(["%d", "%%"]);
    NoBranchAt(s, 0);
    MixedTokensFoundAsWritten(s);
    BranchesAnchored();
    MixedTokensScanAsWritten(s, Branches);
  }

  /** Intended: positioned, plain and escape tokens in one value, in order of first occurrence. */
  lemma MixedTokens(s: string)
    requires s == "%1$@ items (%d%%)"
    ensures IntendedTokens(s) == ["%1$@", "%d", "%%"]
  {
    UniqOfDistinct(["%1$@", "%d", "%%"]);
    MixedTokensFoundIntended(s);
    SpecialStringsAnchored();
    MixedTokensScanIntended(s, SpecialStrings);
  }

  lemma MixedTokensOccur(s: string)
    requires s == "%1$@ items (%d%%)"
    ensures OccursAt(s, 0, "%1$@") && OccursAt(s, 12, "%d") && OccursAt(s, 14, "%%")
  {
    assert s[0..4] == "%1$@";
    assert s[12..14] == "%d";
    assert s[14..16] == "%%";
  }

  lemma MixedTokensFoundAsWritten(s: string)
    requires s == "%1$@ items (%d%%)"
    ensures FirstMatch(s, 12, Branches) == Some("%d") && FirstMatch(s, 14, Branches) == Some("%%")
  {
    MixedTokensOccur(s);
    BranchFound(s, 12, "%d");
    BranchFound(s, 14, "%%");
  }

  lemma MixedTokensFoundIntended(s: string)
    requires s == "%1$@ items (%d%%)"
    ensures FirstMatch(s, 0, SpecialStrings) == Some("%1$@")
    ensures FirstMatch(s, 12, SpecialStrings) == Some("%d") && FirstMatch(s, 14, SpecialStrings) == Some("%%")
  {
    MixedTokensOccur(s);
    EntryFound(s, 0, "%1$@");
    EntryFound(s, 12, "%d");
    EntryFound(s, 14, "%%");
  }

  lemma MixedTokensEnd(s: string, vocab: seq<string>)
    requires s == "%1$@ items (%d%%)" && Anchored(vocab)
    requires FirstMatch(s, 12, vocab) == Some("%d") && FirstMatch(s, 14, vocab) == Some("%%")
    ensures ScanFrom(s, 12, vocab) == ["%d", "%%"]
  {
    ScanSkips(s, 16, 17, vocab);
    ScanTakes(s, 14, vocab, "%%");
    ScanTakes(s, 12, vocab, "%d");
  }

  lemma MixedTokensGap(s: string, vocab: seq<string>)
    requires s == "%1$@ items (%d%%)" && Anchored(vocab)
    ensures ScanFrom(s, 1, vocab) == ScanFrom(s, 12, vocab)
    ensures ScanFrom(s, 4, vocab) == ScanFrom(s, 12, vocab)
  {
    assert s[1..12] == "1$@ items (";
    ScanSkips(s, 1, 12, vocab);
    ScanSkips(s, 4, 12, vocab);
  }

  lemma MixedTokensScanAsWritten(s: string, vocab: seq<string>)
    requires s == "%1$@ items (%d%%)" && Anchored(vocab)
    requires FirstMatch(s, 0, vocab) == None
    requires FirstMatch(s, 12, vocab) == Some("%d") && FirstMatch(s, 14, vocab) == Some("%%")
    ensures ScanFrom(s, 0, vocab) == ["%d", "%%"]
  {
    MixedTokensEnd(s, vocab);
    MixedTokensGap(s, vocab);
    ScanPasses(s, 0, vocab);
  }

  lemma MixedTokensScanIntended(s: string, vocab: seq<string>)
    requires s == "%1$@ items (%d%%)" && Anchored(vocab)
    requires FirstMatch(s, 0, vocab) == Some("%1$@")
    requires FirstMatch(s, 12, vocab) == Some("%d") && FirstMatch(s, 14, vocab) == Some("%%")
    ensures ScanFrom(s, 0, vocab) == ["%1$@", "%d", "%%"]
  {
    MixedTokensEnd(s, vocab);
    MixedTokensGap(s, vocab);
    ScanTakes(s, 0, vocab, "%1$@");
  }

  lemma TwoTokens(s: string)
    requires s == "%s and %d"
    ensures Tokens(s) == ["%s", "%d"]
  {
    UniqOfDistinct(["%s", "%d"]);
    TwoTokensFound(s);
    BranchesAnchored();
    TwoTokensScan(s, Branches);
  }

  lemma TwoTokensFound(s: string)
    requires s == "%s and %d"
    ensures FirstMatch(s, 0, Branches) == Some("%s") && FirstMatch(s, 7, Branches) == Some("%d")
  {
    assert s[0..2] == "%s" && s[7..9] == "%d";
    BranchFound(s, 0, "%s");
    BranchFound(s, 7, "%d");
  }

  lemma TwoTokensScan(s: string, vocab: seq<string>)
    requires s == "%s and %d" && Anchored(vocab)
    requires FirstMatch(s, 0, vocab) == Some("%s") && FirstMatch(s, 7, vocab) == Some("%d")
    ensures ScanFrom(s, 0, vocab) == ["%s", "%d"]
  {
    ScanTakes(s, 7, vocab, "%d");
    assert s[2..7] == " and ";
    ScanSkips(s, 2, 7, vocab);
    ScanTakes(s, 0, vocab, "%s");
  }

  /** A token that occurs twice is scanned twice (RepeatedTokenScan) but kept once. */
  lemma RepeatedTokenOnce(s: string)
    requires s == "%d %d"
    ensures Tokens(s) == ["%d"]
  {
    assert Uniq(["%d"]) == ["%d"];
    RepeatedTokenFound(s);
    BranchesAnchored();
    RepeatedTokenScan(s, Branches);
  }

  lemma RepeatedTokenFound(s: string)
    requires s == "%d %d"
    ensures FirstMatch(s, 0, Branches) == Some("%d") && FirstMatch(s, 3, Branches) == Some("%d")
  {
    assert s[0..2] == "%d" && s[3..5] == "%d";
    BranchFound(s, 0, "%d");
    BranchFound(s, 3, "%d");
  }

  lemma RepeatedTokenScan(s: string, vocab: seq<string>)
    requires s == "%d %d" && Anchored(vocab)
    requires FirstMatch(s, 0, vocab) == Some("%d") && FirstMatch(s, 3, vocab) == Some("%d")
    ensures ScanFrom(s, 0, vocab) == ["%d", "%d"]
  {
    ScanTakes(s, 3, vocab, "%d");
    ScanSkips(s, 2, 3, vocab);
    ScanTakes(s, 0, vocab, "%d");
  }

  /** A '%' followed by a space starts no token. */
  lemma NoTokenAfterBarePercent(s: string)
    requires s == "100% done"
    ensures Tokens(s) == []
  {
    NoBranchAt(s, 3);
    BranchesAnchored();
    BarePercentScan(s, Branches);
  }

  lemma BarePercentScan(s: string, vocab: seq<string>)
    requires s == "100% done" && Anchored(vocab)
    requires FirstMatch(s, 3, vocab) == None
    ensures ScanFrom(s, 0, vocab) == []
  {
    assert s[4..9] == " done";
    ScanSkips(s, 4, 9, vocab);
    ScanPasses(s, 3, vocab);
    assert s[0..3] == "100";
    ScanSkips(s, 0, 3, vocab);
  }

  /** As written, neither positioned placeholder of "%1$@ and %2$@" is extracted. */
  lemma PositionedPairAsWritten(s: string)
    requires s == "%1$@ and %2$@"
    ensures Tokens(s) == []
  {
    PositionedPairFoundAsWritten(s);
    BranchesAnchored();
    PositionedPairScanAsWritten(s, Branches);
  }

  lemma PositionedPairFoundAsWritten(s: string)
    requires s == "%1$@ and %2$@"
    ensures FirstMatch(s, 0, Branches) == None && FirstMatch(s, 9, Branches) == None
  {
    assert s[1] == '1' && s[2] == '$' && s[10] == '2' && s[11] == '$';
    NoBranchAt(s, 0);
    NoBranchAt(s, 9);
  }

  lemma PositionedPairScanAsWritten(s: string, vocab: seq<string>)
    requires s == "%1$@ and %2$@" && Anchored(vocab)
    requires FirstMatch(s, 0, vocab) == None && FirstMatch(s, 9, vocab) == None
    ensures ScanFrom(s, 0, vocab) == []
  {
    assert s[10..13] == "2$@";
    ScanSkips(s, 10, 13, vocab);
    ScanPasses(s, 9, vocab);
    assert s[1..9] == "1$@ and ";
    ScanSkips(s, 1, 9, vocab);
    ScanPasses(s, 0, vocab);
  }

  /** Intended: both positioned placeholders are extracted, in order. */
  lemma PositionedPairIntended(s: string)
    requires s == "%1$@ and %2$@"
    ensures IntendedTokens(s) == ["%1$@", "%2$@"]
  {
    UniqOfDistinct(["%1$@", "%2$@"]);
    PositionedPairFoundIntended(s);
    SpecialStringsAnchored();
    PositionedPairScanIntended(s, SpecialStrings);
  }

  lemma PositionedPairFoundIntended(s: string)
    requires s == "%1$@ and %2$@"
    ensures FirstMatch(s, 0, SpecialStrings) == Some("%1$@") && FirstMatch(s, 9, SpecialStrings) == Some("%2$@")
  {
    assert s[0..4] == "%1$@" && s[9..13] == "%2$@";
    EntryFound(s, 0, "%1$@");
    EntryFound(s, 9, "%2$@");
  }

  lemma PositionedPairScanIntended(s: string, vocab: seq<string>)
    requires s == "%1$@ and %2$@" && Anchored(vocab)
    requires FirstMatch(s, 0, vocab) == Some("%1$@") && FirstMatch(s, 9, vocab) == Some("%2$@")
    ensures ScanFrom(s, 0, vocab) == ["%1$@", "%2$@"]
  {
    ScanTakes(s, 9, vocab, "%2$@");
    assert s[4..9] == " and ";
    ScanSkips(s, 4, 9, vocab);
    ScanTakes(s, 0, vocab, "%1$@");
  }

  /** As written, a lone positioned placeholder yields no token. */
  lemma PositionedAloneAsWritten(s: string)
    requires s == "%1$@"
    ensures Tokens(s) == []
  {
    NoBranchAt(s, 0);
    BranchesAnchored();
    PositionedAloneScan(s, Branches);
  }

  lemma PositionedAloneScan(s: string, vocab: seq<string>)
    requires s == "%1$@" && Anchored(vocab)
    requires FirstMatch(s, 0, vocab) == None
    ensures ScanFrom(s, 0, vocab) == []
  {
    assert s[1..4] == "1$@";
    ScanSkips(s, 1, 4, vocab);
    ScanPasses(s, 0, vocab);
  }

  /** Intended: the lone positioned placeholder is the value's one token. */
  lemma PositionedAloneIntended(s: string)
    requires s == "%1$@"
    ensures IntendedTokens(s) == ["%1$@"]
  {
    UniqOfDistinct(["%1$@"]);
    assert s[0..4] == "%1$@";
    EntryFound(s, 0, "%1$@");
    SpecialStringsAnchored();
    ScanTakes(s, 0, SpecialStrings, "%1$@");
  }
}
