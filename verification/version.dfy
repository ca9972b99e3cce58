/** `extract_version` — the first `\d+\.\d+` in a file name, or "unknown" —
    and the name of the report file built from two such labels. */
module Version {
  import opened Wrappers
  import opened Strings

  predicate IsDigit(c: char) {
    '0' <= c <= '9'
  }

  /** `w` is a dotted pair of digit runs: one or more digits, a dot, one or more digits. */
  ghost predicate DottedPair(w: string) {
    exists d | 0 < d < |w| - 1 :: w[d] == '.' && AllDigits(w[..d]) && AllDigits(w[d + 1..])
  }

  ghost predicate AllDigits(w: string) {
    forall i | 0 <= i < |w| :: IsDigit(w[i])
  }

  /** The pattern `\d+\.\d+` can match starting at position `i`. */
  ghost predicate MatchesAt(s: string, i: nat) {
    exists e | i < e <= |s| :: DottedPair(s[i..e])
  }

  /** The end of the maximal run of digits starting at `i`. */
  function DigitRunEnd(s: string, i: nat): (e: nat)
    requires i <= |s|
    ensures i <= e <= |s|
    ensures forall k | i <= k < e :: IsDigit(s[k])
    ensures e < |s| ==> !IsDigit(s[e])
    decreases |s| - i
  {
    if i < |s| && IsDigit(s[i]) then DigitRunEnd(s, i + 1) else i
  }

  /** The greedy match of `\d+\.\d+` at position `i`, as its end position. */
  function MatchEnd(s: string, i: nat): (m: Option<nat>)
    requires i <= |s|
    ensures m.Some? ==> i < m.value <= |s| && DottedPair(s[i..m.value])
    ensures m.Some? ==> m.value == |s| || !IsDigit(s[m.value])
  {
    if i < |s| && IsDigit(s[i]) then
      var j := DigitRunEnd(s, i);
      if j + 1 < |s| && s[j] == '.' && IsDigit(s[j + 1]) then
        var e := DigitRunEnd(s, j + 1);
        DottedPairAt(s, i, j, e);
        Some(e)
      else None
    else None
  }

  /** Digits from `i` to `j`, a dot at `j`, digits after it up to `e`. */
  lemma DottedPairAt(s: string, i: nat, j: nat, e: nat)
    requires i < j && j + 1 < e <= |s| && s[j] == '.'
    requires forall k | i <= k < j :: IsDigit(s[k])
    requires forall k | j + 1 <= k < e :: IsDigit(s[k])
    ensures DottedPair(s[i..e])
  {
    var w, d := s[i..e], j - i;
    assert w[d] == '.';
    assert AllDigits(w[..d]) by {
      forall k | 0 <= k < d ensures IsDigit(w[..d][k]) {
        assert w[..d][k] == s[i + k];
      }
    }
    var tail := w[d + 1..];
    assert AllDigits(tail) by {
      forall k | 0 <= k < |tail| ensures IsDigit(tail[k]) {
        assert tail[k] == s[j + 1 + k];
      }
    }
  }

  /** The greedy attempt is complete: where it fails, no match of the pattern starts. */
  lemma MatchEndComplete(s: string, i: nat)
    requires i <= |s|
    ensures MatchEnd(s, i).None? <==> !MatchesAt(s, i)
  {
    if MatchesAt(s, i) {
      var e :| i < e <= |s| && DottedPair(s[i..e]);
      MatchFound(s, i, e);
    }
  }

  /** A match of the pattern at `i` is found by the greedy attempt. */
  lemma MatchFound(s: string, i: nat, e: nat)
    requires i < e <= |s| && DottedPair(s[i..e])
    ensures MatchEnd(s, i).Some?
  {
    var w := s[i..e];
    var d :| 0 < d < |w| - 1 && w[d] == '.' && AllDigits(w[..d]) && AllDigits(w[d + 1..]);
    PairInText(s, i, e, d);
    DigitRunEndIs(s, i, i + d);
  }

  /** The parts of a dotted pair found at `i`, with its dot at `i + d`. */
  lemma PairInText(s: string, i: nat, e: nat, d: nat)
    requires i < e <= |s|
    requires 0 < d < e - i - 1 && s[i..e][d] == '.' && AllDigits(s[i..e][..d]) && AllDigits(s[i..e][d + 1..])
    ensures forall k | i <= k < i + d :: IsDigit(s[k])
    ensures s[i + d] == '.' && i + d + 1 < |s| && IsDigit(s[i + d + 1])
  {
    var w := s[i..e];
    forall k | i <= k < i + d ensures IsDigit(s[k]) {
      assert s[k] == w[..d][k - i];
    }
    assert s[i + d + 1] == w[d + 1..][0];
  }

  /** `re.search`: the leftmost position at or after `i` where the pattern matches. */
  function Search(s: string, i: nat): (m: Option<(nat, nat)>)
    requires i <= |s|
    ensures m.Some? ==> i <= m.value.0 < m.value.1 <= |s| && MatchEnd(s, m.value.0) == Some(m.value.1)
    ensures m.Some? ==> forall p | i <= p < m.value.0 :: MatchEnd(s, p).None?
    ensures m.None? ==> forall p | i <= p < |s| :: MatchEnd(s, p).None?
    decreases |s| - i
  {
    if i == |s| then None
    else match MatchEnd(s, i)
      case Some(e) => Some((i, e))
      case None => Search(s, i + 1)
  }

  /** `extract_version`: a dotted pair of digit runs taken from the name, or
      "unknown" exactly when the pattern matches nowhere in it. */
  function ExtractVersion(filename: string): (r: string)
    ensures r == "unknown" <==> forall p | 0 <= p < |filename| :: !MatchesAt(filename, p)
    ensures r != "unknown" ==> DottedPair(r) && exists i, e | 0 <= i < e <= |filename| :: r == filename[i..e]
  {
    NoMatchIff(filename);
    match Search(filename, 0)
    case Some((i, e)) =>
      DottedPairStartsWithDigit(filename[i..e]);
      assert filename[i..e][0] != "unknown"[0];
      filename[i..e]
    case None => "unknown"
  }

  /** The search finds nothing exactly when no position matches. */
  lemma NoMatchIff(filename: string)
    ensures Search(filename, 0).None? <==> forall p | 0 <= p < |filename| :: !MatchesAt(filename, p)
  {
    forall p | 0 <= p < |filename| {
      MatchEndComplete(filename, p);
    }
  }

  /** `extract_version` returns the leftmost, longest dotted pair of digit
      runs in the name, and "unknown" exactly when there is none. */
  lemma ExtractVersionIsFirstMatch(filename: string)
    ensures var r := ExtractVersion(filename);
      && (r == "unknown" <==> forall p | 0 <= p < |filename| :: !MatchesAt(filename, p))
      && (r != "unknown" ==>
            exists i, e | 0 <= i < e <= |filename| ::
              && r == filename[i..e]
              && DottedPair(r)
              && (forall p | 0 <= p < i :: !MatchesAt(filename, p))
              && (e == |filename| || !IsDigit(filename[e])))
  {
    forall p | 0 <= p < |filename| {
      MatchEndComplete(filename, p);
    }
    match Search(filename, 0)
    case Some((i, e)) =>
      DottedPairStartsWithDigit(filename[i..e]);
      assert filename[i..e][0] != "unknown"[0];
    case None =>
  }

  lemma DottedPairStartsWithDigit(w: string)
    requires DottedPair(w)
    ensures |w| > 0 && IsDigit(w[0])
  {
    var d :| 0 < d < |w| - 1 && w[d] == '.' && AllDigits(w[..d]) && AllDigits(w[d + 1..]);
    assert w[0] == w[..d][0];
  }

  /** The search passes over characters that are not digits. */
  lemma {:induction false} SearchSkipsNonDigits(s: string, i: nat, j: nat)
    requires i <= j <= |s|
    requires forall p | i <= p < j :: !IsDigit(s[p])
    ensures Search(s, i) == Search(s, j)
    decreases j - i
  {
    if i < j {
      SearchSkipsNonDigits(s, i + 1, j);
    }
  }

  /** A name `<prefix><a>.<b><suffix>` whose prefix has no digit, whose digit
      runs `a` and `b` are non-empty and whose suffix does not start with a
      digit is labelled `<a>.<b>`. */
  lemma ExtractVersionOfName(prefix: string, a: string, b: string, suffix: string)
    requires forall p | 0 <= p < |prefix| :: !IsDigit(prefix[p])
    requires |a| > 0 && AllDigits(a) && |b| > 0 && AllDigits(b)
    requires |suffix| == 0 || !IsDigit(suffix[0])
    ensures ExtractVersion(prefix + a + "." + b + suffix) == a + "." + b
  {
    var s := prefix + a + "." + b + suffix;
    var i, j, e := |prefix|, |prefix| + |a|, |prefix| + |a| + 1 + |b|;
    NameChars(prefix, a, b, suffix);
    SearchSkipsNonDigits(s, 0, i);
    MatchEndOfPair(s, i, j, e);
    assert Search(s, i) == Some((i, e));
    assert s[i..e] == a + "." + b;
  }

  /** Where the characters of `<prefix><a>.<b><suffix>` come from. */
  lemma NameChars(prefix: string, a: string, b: string, suffix: string)
    ensures var s := prefix + a + "." + b + suffix;
            var i, j, e := |prefix|, |prefix| + |a|, |prefix| + |a| + 1 + |b|;
            && |s| == e + |suffix|
            && (forall k | 0 <= k < i :: s[k] == prefix[k])
            && (forall k | i <= k < j :: s[k] == a[k - i])
            && s[j] == '.'
            && (forall k | j + 1 <= k < e :: s[k] == b[k - j - 1])
            && (e < |s| ==> s[e] == suffix[0])
            && s[i..e] == a + "." + b
  {
    var s := prefix + a + "." + b + suffix;
    assert s == prefix + (a + ("." + (b + suffix)));
    assert s[|prefix|..|prefix| + |a| + 1 + |b|] == a + "." + b;
  }

  /** Digits from `i` to `j`, a dot at `j`, and digits from `j + 1` up to a
      non-digit at `e`: the greedy match at `i` ends at `e`. */
  lemma MatchEndOfPair(s: string, i: nat, j: nat, e: nat)
    requires i < j && j + 1 < e <= |s| && s[j] == '.'
    requires forall k | i <= k < j :: IsDigit(s[k])
    requires forall k | j + 1 <= k < e :: IsDigit(s[k])
    requires e == |s| || !IsDigit(s[e])
    ensures MatchEnd(s, i) == Some(e)
  {
    DigitRunEndIs(s, i, j);
    DigitRunEndIs(s, j + 1, e);
  }

  lemma {:induction false} DigitRunEndIs(s: string, i: nat, e: nat)
    requires i <= e <= |s|
    requires forall k | i <= k < e :: IsDigit(s[k])
    requires e == |s| || !IsDigit(s[e])
    ensures DigitRunEnd(s, i) == e
    decreases e - i
  {
    if i < e {
      DigitRunEndIs(s, i + 1, e);
    }
  }

  /** The label of `enterprise-attack-16.1.json`, for any digit-free prefix
      in place of `enterprise-attack-`. */
  lemma ExtractVersionExample(prefix: string)
    requires forall p | 0 <= p < |prefix| :: !IsDigit(prefix[p])
    ensures ExtractVersion(prefix + "16.1.json") == "16.1"
  {
    ExampleName(prefix);
    ExampleLabel(prefix);
  }

  lemma ExampleName(prefix: string)
    ensures prefix + "16" + "." + "1" + ".json" == prefix + "16.1.json"
    ensures "16" + "." + "1" == "16.1"
  {
  }

  lemma ExampleLabel(prefix: string)
    requires forall p | 0 <= p < |prefix| :: !IsDigit(prefix[p])
    ensures ExtractVersion(prefix + "16" + "." + "1" + ".json") == "16" + "." + "1"
  {
    ExtractVersionOfName(prefix, "16", "1", ".json");
  }

  /** A name without any digit is labelled "unknown". */
  lemma ExtractVersionNoDigits(filename: string)
    requires forall p | 0 <= p < |filename| :: !IsDigit(filename[p])
    ensures ExtractVersion(filename) == "unknown"
  {
    SearchSkipsNonDigits(filename, 0, |filename|);
  }

  /** A label contains no underscore: it is either "unknown" or digits and a dot. */
  lemma ExtractVersionNoUnderscore(filename: string)
    ensures '_' !in ExtractVersion(filename)
  {
    match Search(filename, 0)
    case Some((i, e)) =>
      DottedPairNoUnderscore(filename[i..e]);
    case None =>
  }

  /** A dotted pair is digits and one dot. */
  lemma DottedPairNoUnderscore(w: string)
    requires DottedPair(w)
    ensures '_' !in w
  {
    var d :| 0 < d < |w| - 1 && w[d] == '.' && AllDigits(w[..d]) && AllDigits(w[d + 1..]);
    forall k | 0 <= k < |w| ensures w[k] != '_' {
      if k < d { assert w[k] == w[..d][k]; }
      else if k > d { assert w[k] == w[d + 1..][k - d - 1]; }
    }
  }

  const ReportPrefix := "mitre_attack_changes_"
  const ReportSeparator := "_to_"
  const ReportSuffix := ".md"

  /** The report's file name, `mitre_attack_changes_{v1}_to_{v2}.md`. The
      name determines both labels, as long as the first has no underscore
      (which every extracted label satisfies). */
  function ReportFileName(version1: string, version2: string): (name: string)
    ensures '_' !in version1 ==> ParseReportFileName(name) == Some((version1, version2))
  {
    var name := ReportPrefix + version1 + ReportSeparator + version2 + ReportSuffix;
    ParseBuilt(version1, version2, name);
    name
  }

  /** Reads the two labels back out of a report file name; the first label
      ends at the first underscore after the prefix. */
  function ParseReportFileName(name: string): (r: Option<(string, string)>)
  {
    var p, q := |ReportPrefix|, |ReportSuffix|;
    if |name| < p + q || name[..p] != ReportPrefix || name[|name| - q..] != ReportSuffix then None
    else
      var middle := name[p..|name| - q];
      var k := IndexOf(middle, '_', 0);
      if k + |ReportSeparator| <= |middle| && middle[k..k + |ReportSeparator|] == ReportSeparator
      then Some((middle[..k], middle[k + |ReportSeparator|..]))
      else None
  }

  lemma ParseBuilt(version1: string, version2: string, name: string)
    requires name == ReportPrefix + version1 + ReportSeparator + version2 + ReportSuffix
    ensures '_' !in version1 ==> ParseReportFileName(name) == Some((version1, version2))
  {
    if '_' !in version1 {
      var p, q := |ReportPrefix|, |ReportSuffix|;
      var middle := version1 + ReportSeparator + version2;
      assert name == ReportPrefix + middle + ReportSuffix;
      assert name[..p] == ReportPrefix;
      assert name[|name| - q..] == ReportSuffix;
      assert name[p..|name| - q] == middle;
      assert middle[|version1|] == '_';
      assert forall i | 0 <= i < |version1| :: middle[i] == version1[i];
      assert IndexOf(middle, '_', 0) == |version1|;
      assert middle[..|version1|] == version1;
      assert middle[|version1|..|version1| + 4] == ReportSeparator;
      assert middle[|version1| + 4..] == version2;
    }
  }

  /** The names of two extracted labels always parse back to those labels. */
  lemma ReportFileNameOfVersions(file1: string, file2: string)
    ensures ParseReportFileName(ReportFileName(ExtractVersion(file1), ExtractVersion(file2)))
            == Some((ExtractVersion(file1), ExtractVersion(file2)))
  {
    ExtractVersionNoUnderscore(file1);
  }

  lemma ReportFileNameExample()
    ensures ReportFileName("16.1", "17.0") == "mitre_attack_changes_16.1_to_17.0.md"
  {
  }
}
