/** `re.sub(r'\[([^\]]+)\]\([^\)]+\)', r'\1', text)`: a left-to-right,
    non-overlapping rewrite of markdown links `[text](url)` to `text`. */
module Links {
  import opened Wrappers
  import opened Strings

  /** The match of the link pattern at the start of `s`, as the positions of
      the closing `]` and of the closing `)`. Neither `[^\]]+` nor `[^\)]+`
      can backtrack into a useful alternative, so the first `]` and the first
      `)` after it decide the match. */
  function LinkAt(s: string): (m: Option<(nat, nat)>)
    ensures m.Some? ==> 2 <= m.value.0 && m.value.0 + 3 <= m.value.1 < |s|
    ensures m.Some? ==> s[0] == '[' && s[m.value.0] == ']' && s[m.value.0 + 1] == '(' && s[m.value.1] == ')'
  {
    if |s| == 0 || s[0] != '[' then None
    else
      var j := IndexOf(s, ']', 1);
      if j < 2 || j + 1 >= |s| || s[j + 1] != '(' then None
      else
        var k := IndexOf(s, ')', j + 2);
        if k < j + 3 || k >= |s| then None else Some((j, k))
  }

  /** `s[..k+1]` is `[` text `](` url `)` with text free of `]`, url free of
      `)`, both non-empty, closing brackets at `j` and `k`. */
  ghost predicate LinkShape(s: string, j: nat, k: nat) {
    && 2 <= j && j + 3 <= k < |s|
    && s[0] == '[' && s[j] == ']' && s[j + 1] == '(' && s[k] == ')'
    && (forall i | 1 <= i < j :: s[i] != ']')
    && (forall i | j + 2 <= i < k :: s[i] != ')')
  }

  /** The substitution: each link is replaced by its text; every other
      character is copied, and the scan resumes after the replaced link. */
  function StripLinks(s: string): (r: string)
    ensures |r| <= |s|
    decreases |s|
  {
    if |s| == 0 then ""
    else match LinkAt(s)
      case Some((j, k)) => s[1..j] + StripLinks(s[k + 1..])
      case None => [s[0]] + StripLinks(s[1..])
  }

  /** The rewrite only removes characters: the output is the input with some
      characters left out. The result gives, for each output character, the
      input position it is copied from; the positions strictly increase. */
  function Kept(s: string): (idx: seq<nat>)
    ensures |idx| == |StripLinks(s)|
    ensures forall i | 0 <= i < |idx| :: idx[i] < |s| && StripLinks(s)[i] == s[idx[i]]
    ensures forall i, k | 0 <= i < k < |idx| :: idx[i] < idx[k]
    decreases |s|
  {
    if |s| == 0 then []
    else
      var (a, b, d) := Step(s);
      StripLinksStep(s);
      var rest := Kept(s[d..]);
      SplicedKept(s, a, b, d, StripLinks(s[d..]), rest);
      Spliced(a, b, d, rest)
  }

  /** One step of the scan: the input span `s[a..b]` it copies, and the
      position `d` where it resumes. */
  function Step(s: string): (t: (nat, nat, nat))
    requires |s| > 0
    ensures t.0 <= t.1 <= t.2 <= |s| && 0 < t.2
  {
    match LinkAt(s)
    case Some((j, k)) => (1, j, k + 1)
    case None => (0, 1, 1)
  }

  /** The output is the copied span followed by the output of the rest. */
  lemma StripLinksStep(s: string)
    requires |s| > 0
    ensures var (a, b, d) := Step(s); StripLinks(s) == s[a..b] + StripLinks(s[d..])
  {
    if LinkAt(s).None? {
      assert s[0..1] == [s[0]];
    }
  }

  /** The positions `a` to `b - 1`, then those of `rest` moved up by `d`. */
  function Spliced(a: nat, b: nat, d: nat, rest: seq<nat>): seq<nat>
    requires a <= b
  {
    seq(b - a, i requires 0 <= i < b - a => i + a) + seq(|rest|, i requires 0 <= i < |rest| => rest[i] + d)
  }

  /** Copying `s[a..b]` and then a text kept from `s[d..]` keeps the spliced
      positions, in increasing order. */
  lemma SplicedKept(s: string, a: nat, b: nat, d: nat, tail: string, rest: seq<nat>)
    requires a <= b <= d <= |s|
    requires |rest| == |tail|
    requires forall i | 0 <= i < |rest| :: rest[i] < |s| - d && tail[i] == s[d..][rest[i]]
    requires forall i, k | 0 <= i < k < |rest| :: rest[i] < rest[k]
    ensures var idx, out := Spliced(a, b, d, rest), s[a..b] + tail;
            && |idx| == |out|
            && (forall i | 0 <= i < |idx| :: idx[i] < |s| && out[i] == s[idx[i]])
            && (forall i, k | 0 <= i < k < |idx| :: idx[i] < idx[k])
  {
    var idx, out := Spliced(a, b, d, rest), s[a..b] + tail;
    forall i | 0 <= i < |idx|
      ensures idx[i] < |s| && out[i] == s[idx[i]]
    {
      if i >= b - a {
        assert idx[i] == rest[i - (b - a)] + d;
        assert out[i] == tail[i - (b - a)];
      }
    }
  }

  /** Everything the rewrite outputs was in its input. */
  lemma StripLinksChars(s: string)
    ensures forall c | c in StripLinks(s) :: c in s
  {
    forall c | c in StripLinks(s) ensures c in s {
      StripLinksHas(s, c);
    }
  }

  /** A character of the output is a character of the input. */
  lemma {:induction false} StripLinksHas(s: string, x: char)
    ensures x in StripLinks(s) ==> x in s
    decreases |s|
  {
    if |s| > 0 && x in StripLinks(s) {
      match LinkAt(s)
      case Some((j, k)) =>
        var rest := StripLinks(s[k + 1..]);
        assert StripLinks(s) == s[1..j] + rest;
        if x in s[1..j] {
          var p :| 0 <= p < j - 1 && s[1..j][p] == x;
          assert s[1 + p] == x;
        } else {
          StripLinksHas(s[k + 1..], x);
          var p :| 0 <= p < |s| - k - 1 && s[k + 1..][p] == x;
          assert s[k + 1 + p] == x;
        }
      case None =>
        assert StripLinks(s) == [s[0]] + StripLinks(s[1..]);
        if x != s[0] {
          StripLinksHas(s[1..], x);
          var p :| 0 <= p < |s| - 1 && s[1..][p] == x;
          assert s[1 + p] == x;
        }
    }
  }

  /** A text without `[` contains no link and is copied unchanged. */
  lemma {:induction false} StripLinksPlain(s: string)
    requires '[' !in s
    ensures StripLinks(s) == s
  {
    if |s| > 0 {
      assert s[0] != '[';
      assert '[' !in s[1..];
      StripLinksPlain(s[1..]);
    }
  }

  /** The markdown link `[text](url)`. */
  function Link(text: string, url: string): string {
    "[" + text + "](" + url + ")"
  }

  /** A link at the start of the text is matched up to its closing `)`. */
  lemma LinkAtLink(text: string, url: string, b: string)
    requires |text| > 0 && ']' !in text
    requires |url| > 0 && ')' !in url
    ensures LinkAt(Link(text, url) + b) == Some((|text| + 1, |text| + |url| + 3))
  {
    var s := Link(text, url) + b;
    var j, k := |text| + 1, |text| + |url| + 3;
    assert s[0] == '[' && s[j] == ']' && s[j + 1] == '(' && s[k] == ')';
    forall i | 1 <= i < j ensures s[i] != ']' {
      assert s[i] == text[i - 1];
    }
    forall i | j + 2 <= i < k ensures s[i] != ')' {
      assert s[i] == url[i - j - 2];
    }
    assert LinkShape(s, j, k);
  }

  /** One step of the scan at a character that cannot open a link. */
  lemma StripLinksCopies(s: string)
    requires |s| > 0 && s[0] != '['
    ensures StripLinks(s) == [s[0]] + StripLinks(s[1..])
  {
  }

  /** One step of the scan at a link. */
  lemma StripLinksReplaces(text: string, url: string, b: string)
    requires |text| > 0 && ']' !in text
    requires |url| > 0 && ')' !in url
    ensures StripLinks(Link(text, url) + b) == text + StripLinks(b)
  {
    var s := Link(text, url) + b;
    LinkAtLink(text, url, b);
    var j, k := |text| + 1, |text| + |url| + 3;
    assert s[1..j] == text;
    assert s[k + 1..] == b;
  }

  /** A link after a `[`-free prefix is replaced by its text, and the scan
      carries on after the closing `)`. */
  lemma StripLinksLink(a: string, text: string, url: string, b: string)
    requires '[' !in a
    requires |text| > 0 && ']' !in text
    requires |url| > 0 && ')' !in url
    ensures StripLinks(a + Link(text, url) + b) == a + text + StripLinks(b)
  {
    var t := Link(text, url) + b;
    assert a + Link(text, url) + b == a + t;
    StripLinksPrefix(a, t);
    StripLinksReplaces(text, url, b);
  }

  /** A `[`-free prefix is copied, and the scan goes on after it. */
  lemma {:induction false} StripLinksPrefix(a: string, t: string)
    requires '[' !in a
    ensures StripLinks(a + t) == a + StripLinks(t)
    decreases |a|
  {
    if |a| > 0 {
      assert a + t == [a[0]] + (a[1..] + t);
      StripLinksCons(a[0], a[1..] + t);
      StripLinksPrefix(a[1..], t);
      assert [a[0]] + (a[1..] + StripLinks(t)) == a + StripLinks(t);
    } else {
      assert a + t == t;
    }
  }

  /** A character other than `[` in front is copied. */
  lemma StripLinksCons(c: char, rest: string)
    requires c != '['
    ensures StripLinks([c] + rest) == [c] + StripLinks(rest)
  {
    var s := [c] + rest;
    StripLinksCopies(s);
    assert s[1..] == rest;
  }

  /** The scanner finds exactly the matches of the pattern: a match at the
      start of the text is a `LinkShape`, and every `LinkShape` is found. */
  lemma LinkAtMatches(s: string, j: nat, k: nat)
    ensures LinkAt(s) == Some((j, k)) <==> LinkShape(s, j, k)
  {
    if LinkShape(s, j, k) {
      var j' := IndexOf(s, ']', 1);
      assert j' == j;
      var k' := IndexOf(s, ')', j + 2);
      assert k' == k;
    }
  }

  /** A text with exactly one link and no other `[` loses just the link markup. */
  lemma StripLinksOneLink(a: string, text: string, url: string, b: string)
    requires '[' !in a && '[' !in b
    requires |text| > 0 && ']' !in text
    requires |url| > 0 && ')' !in url
    ensures StripLinks(a + Link(text, url) + b) == a + text + b
  {
    StripLinksLink(a, text, url, b);
    StripLinksPlain(b);
  }

  /** The description example `See [here](http://x) for more`, for any URL
      the pattern accepts. */
  lemma StripLinksExample(url: string)
    requires |url| > 0 && ')' !in url
    ensures StripLinks("See " + Link("here", url) + " for more") == "See here for more"
  {
    StripLinksOneLink("See ", "here", url, " for more");
  }
}
