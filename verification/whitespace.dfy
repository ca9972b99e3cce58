/** Python's `' '.join(text.split())`: split on runs of whitespace, drop the
    empty pieces, and rejoin the words with single spaces. */
module Whitespace {

  /** The characters `str.split()` with no argument splits on (the code points
      CPython classifies as whitespace). */
  predicate IsSpace(c: char) {
    || ('\t' <= c <= '\r')
    || ('\U{1C}' <= c <= ' ')
    || c == '\U{85}' || c == '\U{A0}' || c == '\U{1680}'
    || ('\U{2000}' <= c <= '\U{200A}')
    || c == '\U{2028}' || c == '\U{2029}' || c == '\U{202F}' || c == '\U{205F}'
    || c == '\U{3000}'
  }

  /** A word of a split: non-empty and free of whitespace. */
  predicate IsWord(w: string) {
    |w| > 0 && forall i | 0 <= i < |w| :: !IsSpace(w[i])
  }

  /** The length of the leading run of whitespace characters. */
  function SpaceLength(s: string): (n: nat)
    ensures n <= |s|
    ensures forall i | 0 <= i < n :: IsSpace(s[i])
    ensures n < |s| ==> !IsSpace(s[n])
  {
    if |s| > 0 && IsSpace(s[0]) then 1 + SpaceLength(s[1..]) else 0
  }

  /** The length of the leading run of non-whitespace characters. */
  function WordLength(s: string): (n: nat)
    ensures n <= |s|
    ensures forall i | 0 <= i < n :: !IsSpace(s[i])
    ensures n < |s| ==> IsSpace(s[n])
  {
    if |s| > 0 && !IsSpace(s[0]) then 1 + WordLength(s[1..]) else 0
  }

  /** `str.split()` with no separator. */
  function Split(s: string): (ws: seq<string>)
    ensures forall i | 0 <= i < |ws| :: IsWord(ws[i])
    decreases |s|
  {
    var t := s[SpaceLength(s)..];
    if |t| == 0 then []
    else
      var n := WordLength(t);
      [t[..n]] + Split(t[n..])
  }

  /** `' '.join(words)`. Words joined this way are normalized, and a join of
      at least one word starts and ends with a visible character. */
  function Join(ws: seq<string>): (r: string)
    ensures (forall i | 0 <= i < |ws| :: IsWord(ws[i])) ==>
              && Normalized(r)
              && (|ws| > 0 ==> |r| > 0 && !IsSpace(r[0]) && !IsSpace(r[|r| - 1]))
  {
    if |ws| == 0 then ""
    else if |ws| == 1 then ws[0]
    else
      var rest := Join(ws[1..]);
      assert forall i | 0 <= i < |ws[1..]| :: ws[1..][i] == ws[i + 1];
      SpacedNormalized(ws[0], rest);
      ws[0] + " " + rest
  }

  /** A word, a space and a normalized text with visible ends make a
      normalized text with visible ends. */
  lemma SpacedNormalized(w: string, rest: string)
    ensures IsWord(w) && Normalized(rest) && |rest| > 0 && !IsSpace(rest[0]) && !IsSpace(rest[|rest| - 1]) ==>
              var r := w + " " + rest;
              Normalized(r) && !IsSpace(r[0]) && !IsSpace(r[|r| - 1])
  {
    var r := w + " " + rest;
    if IsWord(w) && Normalized(rest) && |rest| > 0 && !IsSpace(rest[0]) && !IsSpace(rest[|rest| - 1]) {
      forall i | 0 <= i < |r| && IsSpace(r[i])
        ensures r[i] == ' ' && 0 < i < |r| - 1 && !IsSpace(r[i + 1])
      {
        if i > |w| {
          assert r[i] == rest[i - |w| - 1];
          if i + 1 < |r| { assert r[i + 1] == rest[i - |w|]; }
        } else {
          assert r[i + 1] == rest[0];
        }
      }
      assert r[|r| - 1] == rest[|rest| - 1];
    }
  }

  /** `' '.join(s.split())`: runs of whitespace become one space and leading
      and trailing whitespace disappears. The words are those of `s`, so
      words stay apart and nothing inside a word changes. */
  function Collapse(s: string): (r: string)
    ensures Normalized(r)
    ensures NonSpace(r) == NonSpace(s)
    ensures Split(r) == Split(s)
  {
    var ws := Split(s);
    SplitKeepsNonSpace(s);
    JoinNonSpace(ws);
    SplitJoin(ws);
    Join(ws)
  }

  /** Two texts with whitespace at the same positions and the same
      characters everywhere else. */
  predicate SameShape(a: string, b: string) {
    && |a| == |b|
    && forall i | 0 <= i < |a| :: (IsSpace(a[i]) <==> IsSpace(b[i])) && (!IsSpace(a[i]) ==> a[i] == b[i])
  }

  /** Which whitespace character separates the words does not matter to a split. */
  lemma {:induction false} SplitSameShape(a: string, b: string)
    requires SameShape(a, b)
    ensures Split(a) == Split(b)
    decreases |a|
  {
    var n := SpaceLength(a);
    SpaceLengthUnique(b, n);
    var ta, tb := a[n..], b[n..];
    assert SameShape(ta, tb);
    if |ta| > 0 {
      var m := WordLength(ta);
      WordLengthUnique(tb, m);
      assert ta[..m] == tb[..m];
      assert SameShape(ta[m..], tb[m..]);
      SplitSameShape(ta[m..], tb[m..]);
    }
  }

  /** The leading run of whitespace is the one that ends at the first visible character. */
  lemma {:induction false} SpaceLengthUnique(s: string, n: nat)
    requires n <= |s|
    requires forall i | 0 <= i < n :: IsSpace(s[i])
    requires n < |s| ==> !IsSpace(s[n])
    ensures SpaceLength(s) == n
  {
    if n > 0 {
      SpaceLengthUnique(s[1..], n - 1);
    }
  }

  /** The leading word is the one that ends at the first whitespace character. */
  lemma {:induction false} WordLengthUnique(s: string, n: nat)
    requires n <= |s|
    requires forall i | 0 <= i < n :: !IsSpace(s[i])
    requires n < |s| ==> IsSpace(s[n])
    ensures WordLength(s) == n
  {
    if n > 0 {
      WordLengthUnique(s[1..], n - 1);
    }
  }

  /** The text has no leading or trailing whitespace, its only whitespace
      character is the plain space, and no two spaces are adjacent. */
  predicate Normalized(r: string) {
    forall i | 0 <= i < |r| && IsSpace(r[i]) ::
      r[i] == ' ' && 0 < i < |r| - 1 && !IsSpace(r[i + 1])
  }

  /** Reference for what a split keeps: the non-whitespace characters, in order. */
  function NonSpace(s: string): string {
    if |s| == 0 then "" else (if IsSpace(s[0]) then "" else [s[0]]) + NonSpace(s[1..])
  }

  /** The concatenation of the words. */
  function Concat(ws: seq<string>): string {
    if |ws| == 0 then "" else ws[0] + Concat(ws[1..])
  }

  /** A character is in `NonSpace(s)` exactly when it is a non-whitespace
      character of `s`. */
  lemma {:induction false} InNonSpace(s: string, x: char)
    ensures x in NonSpace(s) <==> x in s && !IsSpace(x)
  {
    if |s| > 0 {
      InNonSpace(s[1..], x);
      assert s == [s[0]] + s[1..];
    }
  }

  /** What a collapse outputs: plain spaces and non-whitespace characters of
      its input. */
  lemma CollapseChars(s: string)
    ensures forall x | x in Collapse(s) :: x == ' ' || (x in s && !IsSpace(x))
  {
    var r := Collapse(s);
    forall x | x in r ensures x == ' ' || (x in s && !IsSpace(x)) {
      if IsSpace(x) {
        var i :| 0 <= i < |r| && r[i] == x;
      } else {
        InNonSpace(r, x);
        InNonSpace(s, x);
      }
    }
  }

  lemma {:induction false} NonSpaceAppend(a: string, b: string)
    ensures NonSpace(a + b) == NonSpace(a) + NonSpace(b)
  {
    if |a| > 0 {
      assert (a + b)[1..] == a[1..] + b;
      NonSpaceAppend(a[1..], b);
    } else {
      assert a + b == b;
    }
  }

  lemma {:induction false} NonSpaceOfWord(w: string)
    requires forall i | 0 <= i < |w| :: !IsSpace(w[i])
    ensures NonSpace(w) == w
  {
    if |w| > 0 {
      NonSpaceOfWord(w[1..]);
      assert w == [w[0]] + w[1..];
    }
  }

  lemma {:induction false} NonSpaceOfSpaces(s: string)
    requires forall i | 0 <= i < |s| :: IsSpace(s[i])
    ensures NonSpace(s) == ""
  {
    if |s| > 0 {
      NonSpaceOfSpaces(s[1..]);
    }
  }

  /** Splitting loses exactly the whitespace: the words, run together, are the
      text's non-whitespace characters in order. */
  lemma {:induction false} SplitKeepsNonSpace(s: string)
    ensures Concat(Split(s)) == NonSpace(s)
    decreases |s|
  {
    var k := SpaceLength(s);
    var t := s[k..];
    SkipLeadingSpace(s);
    if |t| > 0 {
      var n := WordLength(t);
      SplitFirstWord(t);
      NonSpaceWordThenRest(t, n);
      SplitKeepsNonSpace(t[n..]);
    }
  }

  /** Leading whitespace changes neither the split nor the non-whitespace content. */
  lemma SkipLeadingSpace(s: string)
    ensures Split(s) == Split(s[SpaceLength(s)..])
    ensures NonSpace(s) == NonSpace(s[SpaceLength(s)..])
  {
    var k := SpaceLength(s);
    assert s == s[..k] + s[k..];
    NonSpaceAppend(s[..k], s[k..]);
    NonSpaceOfSpaces(s[..k]);
    assert SpaceLength(s[k..]) == 0;
    assert s[k..][0..] == s[k..];
  }

  /** A text that starts with a word splits into that word and the split of the rest. */
  lemma SplitFirstWord(t: string)
    requires |t| > 0 && !IsSpace(t[0])
    ensures Concat(Split(t)) == t[..WordLength(t)] + Concat(Split(t[WordLength(t)..]))
  {
    var n := WordLength(t);
    var w, rest := t[..n], Split(t[n..]);
    assert t[0..] == t;
    assert Split(t) == [w] + rest;
    assert ([w] + rest)[1..] == rest;
  }

  lemma NonSpaceWordThenRest(t: string, n: nat)
    requires n <= |t|
    requires forall i | 0 <= i < n :: !IsSpace(t[i])
    ensures NonSpace(t) == t[..n] + NonSpace(t[n..])
  {
    assert t == t[..n] + t[n..];
    NonSpaceAppend(t[..n], t[n..]);
    NonSpaceOfWord(t[..n]);
  }

  /** Joining words and removing the whitespace gives their concatenation. */
  lemma {:induction false} JoinNonSpace(ws: seq<string>)
    requires forall i | 0 <= i < |ws| :: IsWord(ws[i])
    ensures NonSpace(Join(ws)) == Concat(ws)
  {
    if |ws| == 1 {
      NonSpaceOfWord(ws[0]);
      assert Concat(ws) == ws[0] + Concat([]);
    } else if |ws| > 1 {
      JoinNonSpace(ws[1..]);
      NonSpaceOfWord(ws[0]);
      NonSpaceSpaced(ws[0], Join(ws[1..]));
    }
  }

  /** The space between two texts is dropped, and nothing else. */
  lemma NonSpaceSpaced(w: string, rest: string)
    ensures NonSpace(w + " " + rest) == NonSpace(w) + NonSpace(rest)
  {
    NonSpaceAppend(w + " ", rest);
    NonSpaceAppend(w, " ");
    assert NonSpace(" ") == "";
  }

  /** Leading whitespace does not change a split. */
  lemma SplitSkipsSpace(s: string)
    requires |s| > 0 && IsSpace(s[0])
    ensures Split(s) == Split(s[1..])
  {
  }

  /** Splitting joined words gives the words back. */
  lemma {:induction false} SplitJoin(ws: seq<string>)
    requires forall i | 0 <= i < |ws| :: IsWord(ws[i])
    ensures Split(Join(ws)) == ws
  {
    if |ws| == 1 {
      SplitOneWord(ws[0]);
    } else if |ws| > 1 {
      var w, rest := ws[0], ws[1..];
      assert ws == [w] + rest;
      SplitJoin(rest);
      SplitJoinCons(w, rest);
    }
  }

  lemma SplitOneWord(w: string)
    requires IsWord(w)
    ensures Split(Join([w])) == [w]
  {
    SplitWordThen(w, "");
    assert w + "" == w;
  }

  /** One more word in front of words that split back. */
  lemma SplitJoinCons(w: string, ws: seq<string>)
    requires IsWord(w) && |ws| > 0
    requires Split(Join(ws)) == ws
    ensures Split(Join([w] + ws)) == [w] + ws
  {
    JoinCons(w, ws);
    SplitWordSpace(w, Join(ws));
  }

  /** A word, a space, and the rest: the word, then the rest's words. */
  lemma SplitWordSpace(w: string, rest: string)
    requires IsWord(w)
    ensures Split(w + " " + rest) == [w] + Split(rest)
  {
    var tail := " " + rest;
    assert w + " " + rest == w + tail;
    SplitWordThen(w, tail);
    SplitAfterSpace(rest);
  }

  lemma JoinCons(w: string, ws: seq<string>)
    requires |ws| > 0
    ensures Join([w] + ws) == w + " " + Join(ws)
  {
    var v := [w] + ws;
    assert v[0] == w;
    assert v[1..] == ws;
  }

  lemma SplitAfterSpace(s: string)
    ensures Split(" " + s) == Split(s)
  {
    SplitSkipsSpace(" " + s);
    assert (" " + s)[1..] == s;
  }

  /** A word followed by nothing or by whitespace splits off as the first word. */
  lemma SplitWordThen(w: string, tail: string)
    requires IsWord(w)
    requires |tail| == 0 || IsSpace(tail[0])
    ensures Split(w + tail) == [w] + Split(tail)
  {
    var r := w + tail;
    assert SpaceLength(r) == 0;
    assert r[0..] == r;
    WordLengthOfWord(w, tail);
    assert r[..|w|] == w;
    assert r[|w|..] == tail;
  }

  lemma {:induction false} WordLengthOfWord(w: string, tail: string)
    requires forall i | 0 <= i < |w| :: !IsSpace(w[i])
    requires |tail| == 0 || IsSpace(tail[0])
    ensures WordLength(w + tail) == |w|
  {
    if |w| > 0 {
      assert (w + tail)[1..] == w[1..] + tail;
      WordLengthOfWord(w[1..], tail);
    } else {
      assert w + tail == tail;
    }
  }

  /** Collapsing whitespace twice is collapsing it once. */
  lemma CollapseIdempotent(s: string)
    ensures Collapse(Collapse(s)) == Collapse(s)
  {
    SplitJoin(Split(s));
  }
}
