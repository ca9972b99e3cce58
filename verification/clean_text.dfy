/** `clean_text`: a fixed table of code-point substitutions applied one after
    the other with `str.replace`, turning typographic punctuation and a few
    accented letters into ASCII. */
module CleanText {
  import opened Strings

  /** A substitution table: each entry replaces one character by a string. */
  type Table = seq<(char, string)>

  /** The 18 substitutions, in the order the dictionary literal lists them. */
  const Replacements: Table := [
    ('\U{2019}', "'"),    // right single quotation mark
    ('\U{2018}', "'"),    // left single quotation mark
    ('\U{201C}', "\""),   // left double quotation mark
    ('\U{201D}', "\""),   // right double quotation mark
    ('\U{2013}', "-"),    // en dash
    ('\U{2014}', "--"),   // em dash
    ('\U{2026}', "..."),  // ellipsis
    ('\U{00E6}', "ae"),
    ('\U{00C6}', "AE"),
    ('\U{00FC}', "u"),
    ('\U{00DC}', "U"),
    ('\U{00F6}', "o"),
    ('\U{00D6}', "O"),
    ('\U{00E4}', "a"),
    ('\U{00C4}', "A"),
    ('\U{00DF}', "ss"),
    ('\U{00F1}', "n"),
    ('\U{00D1}', "N")
  ]

  /** The characters a table replaces. */
  function Keys(t: Table): set<char> {
    set i | 0 <= i < |t| :: t[i].0
  }

  /** No replacement text contains a character the table replaces, and none is empty. */
  ghost predicate WellFormed(t: Table) {
    && (forall i, k | 0 <= i < |t| && 0 <= k < |t[i].1| :: t[i].1[k] !in Keys(t))
    && (forall i | 0 <= i < |t| :: |t[i].1| > 0)
  }

  /** The loop of `clean_text`: apply each `str.replace` of the table in turn. */
  function ApplyAll(s: string, t: Table): string
    decreases |t|
  {
    if |t| == 0 then s else ApplyAll(ReplaceChar(s, t[0].0, t[0].1), t[1..])
  }

  /** Reference reading of a table: the replacement of one character, by its
      first entry, or the character itself when it has none. */
  function Substitute(t: Table, c: char): string {
    SubstituteFrom(t, c, 0)
  }

  /** The lookup behind `Substitute`, over the entries from index `i` on. */
  function SubstituteFrom(t: Table, c: char, i: nat): string
    requires i <= |t|
    decreases |t| - i
  {
    if i == |t| then [c]
    else if t[i].0 == c then t[i].1
    else SubstituteFrom(t, c, i + 1)
  }

  lemma {:induction false} SubstituteFromCases(t: Table, c: char, i: nat)
    requires i <= |t|
    ensures (forall j | i <= j < |t| :: t[j].0 != c) ==> SubstituteFrom(t, c, i) == [c]
    ensures (exists j | i <= j < |t| :: t[j].0 == c) ==>
              exists j | i <= j < |t| ::
                && t[j].0 == c && SubstituteFrom(t, c, i) == t[j].1
                && forall m | i <= m < j :: t[m].0 != c
    decreases |t| - i
  {
    if i < |t| && t[i].0 != c {
      SubstituteFromCases(t, c, i + 1);
    }
  }

  /** A key is replaced by the text of its first entry; any other character
      is kept. */
  lemma SubstituteCases(t: Table, c: char)
    ensures c !in Keys(t) ==> Substitute(t, c) == [c]
    ensures c in Keys(t) ==>
              exists i | 0 <= i < |t| ::
                && t[i].0 == c && Substitute(t, c) == t[i].1
                && forall m | 0 <= m < i :: t[m].0 != c
  {
    SubstituteFromCases(t, c, 0);
  }

  /** Prepending an entry shifts the lookup by one. */
  lemma {:induction false} SubstituteFromShift(e: (char, string), t: Table, c: char, i: nat)
    requires i <= |t|
    ensures SubstituteFrom([e] + t, c, i + 1) == SubstituteFrom(t, c, i)
    decreases |t| - i
  {
    if i < |t| {
      assert ([e] + t)[i + 1] == t[i];
      SubstituteFromShift(e, t, c, i + 1);
    }
  }

  /** Reference reading of a table: substitute every character independently. */
  function MapChars(s: string, t: Table): string
  {
    if |s| == 0 then [] else Substitute(t, s[0]) + MapChars(s[1..], t)
  }

  lemma {:induction false} MapCharsAppend(a: string, b: string, t: Table)
    ensures MapChars(a + b, t) == MapChars(a, t) + MapChars(b, t)
  {
    if |a| > 0 {
      assert (a + b)[1..] == a[1..] + b;
      MapCharsAppend(a[1..], b, t);
    } else {
      assert a + b == b;
    }
  }

  /** A text none of whose characters the table replaces is left as it is. */
  lemma {:induction false} MapCharsIdentity(s: string, t: Table)
    requires forall i | 0 <= i < |s| :: s[i] !in Keys(t)
    ensures MapChars(s, t) == s
  {
    if |s| > 0 {
      SubstituteCases(t, s[0]);
      MapCharsIdentity(s[1..], t);
      assert s == [s[0]] + s[1..];
    }
  }

  /** Every character of a substitution's output lies outside the table's keys. */
  lemma SubstituteAvoidsKeys(t: Table, c: char)
    requires WellFormed(t)
    ensures forall k | 0 <= k < |Substitute(t, c)| :: Substitute(t, c)[k] !in Keys(t)
    ensures |Substitute(t, c)| >= 1
  {
    SubstituteCases(t, c);
  }

  lemma {:induction false} MapCharsAvoidsKeys(s: string, t: Table)
    requires WellFormed(t)
    ensures forall k | 0 <= k < |MapChars(s, t)| :: MapChars(s, t)[k] !in Keys(t)
    ensures |MapChars(s, t)| >= |s|
  {
    if |s| > 0 {
      SubstituteAvoidsKeys(t, s[0]);
      MapCharsAvoidsKeys(s[1..], t);
      var a, b := Substitute(t, s[0]), MapChars(s[1..], t);
      assert forall k | |a| <= k < |a + b| :: (a + b)[k] == b[k - |a|];
    }
  }

  /** A character in no replacement text appears in the per-character reading
      only where it appeared in the input. */
  lemma {:induction false} MapCharsKeepsAbsent(s: string, t: Table, x: char)
    requires x !in s
    requires forall i | 0 <= i < |t| :: x !in t[i].1
    ensures x !in MapChars(s, t)
  {
    if |s| > 0 {
      SubstituteCases(t, s[0]);
      MapCharsKeepsAbsent(s[1..], t, x);
    }
  }

  /** One `str.replace` followed by the rest of the table is the per-character
      reading of the whole table, as long as the replacement text contains no
      key of the rest. */
  lemma {:induction false} ReplaceThenMap(s: string, c: char, rep: string, t: Table)
    requires forall k | 0 <= k < |rep| :: rep[k] !in Keys(t)
    ensures MapChars(ReplaceChar(s, c, rep), t) == MapChars(s, [(c, rep)] + t)
  {
    var t' := [(c, rep)] + t;
    assert t'[1..] == t;
    if |s| > 0 {
      var head := if s[0] == c then rep else [s[0]];
      MapCharsAppend(head, ReplaceChar(s[1..], c, rep), t);
      ReplaceThenMap(s[1..], c, rep, t);
      SubstituteFromShift((c, rep), t, s[0], 0);
      if s[0] == c {
        MapCharsIdentity(rep, t);
      } else {
        assert MapChars([s[0]], t) == Substitute(t, s[0]);
      }
    }
  }

  /** The sequential `str.replace` loop equals the per-character reference reading. */
  lemma {:induction false} ApplyAllIsMapChars(s: string, t: Table)
    requires WellFormed(t)
    ensures ApplyAll(s, t) == MapChars(s, t)
    decreases |t|
  {
    if |t| == 0 {
      MapCharsIdentity(s, t);
    } else {
      var t' := t[1..];
      assert t == [t[0]] + t';
      assert Keys(t') <= Keys(t) by {
        forall x | x in Keys(t') ensures x in Keys(t) {
          var i :| 0 <= i < |t'| && t'[i].0 == x;
          assert t[i + 1].0 == x;
        }
      }
      assert WellFormed(t') by {
        forall i, k | 0 <= i < |t'| && 0 <= k < |t'[i].1| ensures t'[i].1[k] !in Keys(t') {
          assert t'[i] == t[i + 1];
        }
      }
      ApplyAllIsMapChars(ReplaceChar(s, t[0].0, t[0].1), t');
      ReplaceThenMap(s, t[0].0, t[0].1, t');
    }
  }

  /** Every replacement text is ASCII and every replaced character is not. */
  lemma ReplacementsWellFormed()
    ensures |Replacements| == 18
    ensures forall i | 0 <= i < |Replacements| :: Replacements[i].0 >= '\U{80}'
    ensures forall i, k | 0 <= i < |Replacements| && 0 <= k < |Replacements[i].1| :: Replacements[i].1[k] < '\U{80}'
    ensures WellFormed(Replacements)
  {
    var t := Replacements;
    assert forall i, k | 0 <= i < |t| && 0 <= k < |t[i].1| :: t[i].1[k] < '\U{80}';
    assert forall i | 0 <= i < |t| :: t[i].0 >= '\U{80}';
  }

  /** `clean_text`: a falsy (empty) text is returned as it is; otherwise each
      table entry is applied in turn. */
  function Clean(text: string): (r: string)
    ensures |text| == 0 ==> r == text
    ensures r == MapChars(text, Replacements)
    ensures forall k | 0 <= k < |r| :: r[k] !in Keys(Replacements)
    ensures |r| >= |text|
  {
    ReplacementsWellFormed();
    ApplyAllIsMapChars(text, Replacements);
    MapCharsAvoidsKeys(text, Replacements);
    if |text| == 0 then text else ApplyAll(text, Replacements)
  }

  /** A text without any table character passes through unchanged. */
  lemma CleanPlainText(s: string)
    requires forall k | 0 <= k < |s| :: s[k] !in Keys(Replacements)
    ensures Clean(s) == s
  {
    MapCharsIdentity(s, Replacements);
  }

  /** Cleaning works character by character: it distributes over concatenation. */
  lemma CleanAppend(a: string, b: string)
    ensures Clean(a + b) == Clean(a) + Clean(b)
  {
    MapCharsAppend(a, b, Replacements);
  }

  /** Cleaning twice is cleaning once. */
  lemma CleanIdempotent(s: string)
    ensures Clean(Clean(s)) == Clean(s)
  {
    CleanPlainText(Clean(s));
  }

  /** Worked example: an em dash between two plain letters becomes two hyphens. */
  lemma CleanEmDash(a: char, b: char)
    requires a !in Keys(Replacements) && b !in Keys(Replacements)
    ensures Clean([a, '\U{2014}', b]) == [a, '-', '-', b]
  {
    EmDashAround(a, b);
    CleanIsMapChars([a, '\U{2014}', b]);
  }

  lemma EmDashAround(a: char, b: char)
    requires a !in Keys(Replacements) && b !in Keys(Replacements)
    ensures MapChars([a, '\U{2014}', b], Replacements) == [a, '-', '-', b]
  {
    assert SubstituteFrom(Replacements, '\U{2014}', 0) == "--";
    assert [a, '\U{2014}', b] == [a] + ['\U{2014}'] + [b];
    MapCharsAround([a], '\U{2014}', [b], Replacements);
  }

  lemma CleanIsMapChars(s: string)
    ensures Clean(s) == MapChars(s, Replacements)
  {
  }

  /** One character between two texts without table characters. */
  lemma MapCharsAround(a: string, c: char, b: string, t: Table)
    requires forall k | 0 <= k < |a| :: a[k] !in Keys(t)
    requires forall k | 0 <= k < |b| :: b[k] !in Keys(t)
    ensures MapChars(a + [c] + b, t) == a + Substitute(t, c) + b
  {
    var ac := a + [c];
    MapCharsAppend(ac, b, t);
    MapCharsAppend(a, [c], t);
    MapCharsSingle(c, t);
    MapCharsIdentity(a, t);
    MapCharsIdentity(b, t);
  }

  lemma MapCharsSingle(c: char, t: Table)
    ensures MapChars([c], t) == Substitute(t, c)
  {
    assert [c][1..] == [];
  }

  /** Cleaning never introduces a character that the table's replacement
      texts do not contain, such as `[`. */
  lemma CleanKeepsAbsent(s: string, x: char)
    requires x !in s
    requires forall i | 0 <= i < |Replacements| :: x !in Replacements[i].1
    ensures x !in Clean(s)
  {
    MapCharsKeepsAbsent(s, Replacements, x);
  }

  /** Every replacement text is made of quotes, dashes, dots and letters. */
  lemma ReplacementsAvoidBracket()
    ensures forall i | 0 <= i < |Replacements| :: '[' !in Replacements[i].1
  {
    var t := Replacements;
    assert forall i, k | 0 <= i < |t| && 0 <= k < |t[i].1| :: t[i].1[k] != '[';
  }

  /** Every character the table replaces lies outside ASCII. */
  lemma KeysAreNotAscii()
    ensures forall x | x in Keys(Replacements) :: x >= '\U{80}'
  {
  }
}
