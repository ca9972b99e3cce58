/** The report's sections, one per object category, and how each new
    object's name and description are turned into one report line. */
module Description {
  import opened Wrappers
  import Strings
  import CleanText
  import Whitespace
  import Links

  /** The five categories the report lists new objects for. */
  datatype Category = Technique | ThreatActor | Malware | Tool | Campaign

  /** The categories in the order the report prints their sections. */
  const Categories: seq<Category> := [Technique, ThreatActor, Malware, Tool, Campaign]

  /** The position of a category's section in the report. */
  function Rank(c: Category): (k: nat)
    ensures k < |Categories| && Categories[k] == c
  {
    match c
    case Technique => 0
    case ThreatActor => 1
    case Malware => 2
    case Tool => 3
    case Campaign => 4
  }

  /** The STIX `type` whose new objects a category's section lists. */
  function StixType(c: Category): string {
    match c
    case Technique => "attack-pattern"
    case ThreatActor => "intrusion-set"
    case Malware => "malware"
    case Tool => "tool"
    case Campaign => "campaign"
  }

  /** Different categories read different STIX types. */
  lemma StixTypeInjective(c: Category, d: Category)
    ensures StixType(c) == StixType(d) <==> c == d
  {
  }

  /** The sentence printed when an object has no description or an empty one. */
  function DefaultDescription(c: Category): string {
    match c
    case Technique => "Technique for adversary operations."
    case ThreatActor => "Advanced Persistent Threat group."
    case Malware => "Malware family."
    case Tool => "Tool for adversary operations."
    case Campaign => "Campaign."
  }

  /** Technique descriptions keep their markdown links; every other category
      has them replaced by their text. */
  predicate StripsLinks(c: Category) {
    c != Technique
  }

  /** The rewriting of a present, non-empty description: clean it, turn line
      breaks into spaces, strip links where the category does, and collapse
      whitespace. */
  function Rewrite(c: Category, text: string): (r: string)
    ensures Whitespace.Normalized(r)
  {
    Finish(c, CleanText.Clean(text))
  }

  /** No character of the substitution table survives the rewriting. */
  lemma RewriteAvoidsKeys(c: Category, text: string)
    ensures forall x | x in Rewrite(c, text) :: x !in CleanText.Keys(CleanText.Replacements)
  {
    var keys := CleanText.Keys(CleanText.Replacements);
    CleanText.KeysAreNotAscii();
    var cleaned := CleanText.Clean(text);
    forall x | x in cleaned ensures x !in keys {
      var i :| 0 <= i < |cleaned| && cleaned[i] == x;
    }
    FinishAvoids(c, cleaned, keys);
  }

  /** The steps after cleaning: line breaks become spaces, links are
      stripped where the category does, and whitespace collapses. The result
      is normalized, and a technique keeps every visible character and the
      cleaned text's words. */
  function Finish(c: Category, cleaned: string): (r: string)
    ensures Whitespace.Normalized(r)
    ensures !StripsLinks(c) ==> Whitespace.NonSpace(r) == Whitespace.NonSpace(cleaned)
    ensures !StripsLinks(c) ==> Whitespace.Split(r) == Whitespace.Split(cleaned)
  {
    var flat := Strings.ReplaceChar(cleaned, '\n', " ");
    NewlinesKeepNonSpace(cleaned);
    assert Whitespace.SameShape(flat, cleaned);
    Whitespace.SplitSameShape(flat, cleaned);
    Whitespace.Collapse(if StripsLinks(c) then Links.StripLinks(flat) else flat)
  }

  /** A set of non-space characters absent from the cleaned text stays absent. */
  lemma FinishAvoids(c: Category, cleaned: string, avoid: set<char>)
    requires ' ' !in avoid
    requires forall x | x in cleaned :: x !in avoid
    ensures forall x | x in Finish(c, cleaned) :: x !in avoid
  {
    var flat := Strings.ReplaceChar(cleaned, '\n', " ");
    var unlinked := if StripsLinks(c) then Links.StripLinks(flat) else flat;
    assert forall x | x in flat :: x !in avoid;
    Links.StripLinksChars(flat);
    assert forall x | x in unlinked :: x !in avoid;
    assert Finish(c, cleaned) == Whitespace.Collapse(unlinked);
    Whitespace.CollapseChars(unlinked);
  }

  /** The description cell of a report line. A description that is present
      and non-empty comes out normalized and free of table characters; any
      other gives the category's default sentence. */
  function Describe(c: Category, description: Option<string>): (r: string)
    ensures description.Some? && description.value != "" ==>
              Whitespace.Normalized(r) && forall x | x in r :: x !in CleanText.Keys(CleanText.Replacements)
    ensures description.None? || description.value == "" ==> r == DefaultDescription(c)
  {
    if description.Some? && description.value != "" then
      RewriteAvoidsKeys(c, description.value);
      Rewrite(c, description.value)
    else DefaultDescription(c)
  }

  /** The name cell of a report line: the cleaned `name`, or `N/A` without
      one. It is free of table characters, and a name without table
      characters is kept as it is. */
  function EntryName(name: Option<string>): (r: string)
    ensures forall k | 0 <= k < |r| :: r[k] !in CleanText.Keys(CleanText.Replacements)
    ensures name.None? ==> r == "N/A"
    ensures name.Some? && (forall k | 0 <= k < |name.value| :: name.value[k] !in CleanText.Keys(CleanText.Replacements))
            ==> r == name.value
  {
    NamePlain(name);
    CleanText.Clean(name.GetOr("N/A"))
  }

  /** The default name and a name without table characters are kept as they are. */
  lemma NamePlain(name: Option<string>)
    ensures name.None? ==> CleanText.Clean(name.GetOr("N/A")) == "N/A"
    ensures name.Some? && (forall k | 0 <= k < |name.value| :: name.value[k] !in CleanText.Keys(CleanText.Replacements))
            ==> CleanText.Clean(name.GetOr("N/A")) == name.value
  {
    var raw := name.GetOr("N/A");
    if name.None? {
      assert forall k | 0 <= k < |raw| :: raw[k] < '\U{80}';
      CleanText.CleanPlainText(raw);
    } else if forall k | 0 <= k < |raw| :: raw[k] !in CleanText.Keys(CleanText.Replacements) {
      CleanText.CleanPlainText(raw);
    }
  }

  /** Turning line breaks into spaces loses no visible character. */
  lemma {:induction false} NewlinesKeepNonSpace(s: string)
    ensures Whitespace.NonSpace(Strings.ReplaceChar(s, '\n', " ")) == Whitespace.NonSpace(s)
  {
    if |s| > 0 {
      NewlinesKeepNonSpace(s[1..]);
      var head := if s[0] == '\n' then " " else [s[0]];
      var rest := Strings.ReplaceChar(s[1..], '\n', " ");
      assert Strings.ReplaceChar(s, '\n', " ") == head + rest;
      Whitespace.NonSpaceAppend(head, rest);
      assert Whitespace.NonSpace(head) == (if Whitespace.IsSpace(s[0]) then "" else [s[0]]);
    }
  }

  /** A technique's description keeps every visible character of the cleaned
      text, in order, and keeps its words apart: only whitespace changes. */
  lemma TechniqueKeepsContent(text: string)
    ensures Whitespace.NonSpace(Rewrite(Technique, text)) == Whitespace.NonSpace(CleanText.Clean(text))
    ensures Whitespace.Split(Rewrite(Technique, text)) == Whitespace.Split(CleanText.Clean(text))
  {
  }

  /** Without a `[` in the description there is no link to strip, and every
      category rewrites it as a technique does. */
  lemma RewriteWithoutLinks(c: Category, text: string)
    requires '[' !in text
    ensures Rewrite(c, text) == Rewrite(Technique, text)
  {
    CleanText.ReplacementsAvoidBracket();
    CleanText.CleanKeepsAbsent(text, '[');
    FinishWithoutLinks(c, CleanText.Clean(text));
  }

  lemma FinishWithoutLinks(c: Category, cleaned: string)
    requires '[' !in cleaned
    ensures Finish(c, cleaned) == Finish(Technique, cleaned)
  {
    var flat := Strings.ReplaceChar(cleaned, '\n', " ");
    assert '[' !in flat;
    Links.StripLinksPlain(flat);
  }

  /** A text that cleaning and the line-break replacement leave as it is. */
  predicate Inert(s: string) {
    forall k | 0 <= k < |s| :: s[k] !in CleanText.Keys(CleanText.Replacements) && s[k] != '\n'
  }

  /** A plain text: inert, and without `[`. */
  predicate Plain(s: string) {
    Inert(s) && '[' !in s
  }

  lemma InertAppend(x: string, y: string)
    requires Inert(x) && Inert(y)
    ensures Inert(x + y)
  {
    assert forall k | |x| <= k < |x + y| :: (x + y)[k] == y[k - |x|];
  }

  /** A link between inert texts is inert: its brackets are ASCII. */
  lemma LinkInert(a: string, text: string, url: string, b: string)
    requires Inert(a) && Inert(text) && Inert(url) && Inert(b)
    ensures Inert(a + Links.Link(text, url) + b)
  {
    CleanText.KeysAreNotAscii();
    assert Inert("[") && Inert("](") && Inert(")");
    InertAppend("[", text);
    InertAppend("[" + text, "](");
    InertAppend("[" + text + "](", url);
    InertAppend("[" + text + "](" + url, ")");
    assert Links.Link(text, url) == "[" + text + "](" + url + ")";
    InertAppend(a, Links.Link(text, url));
    InertAppend(a + Links.Link(text, url), b);
  }

  /** In a description of any category but techniques, a markdown link
      `[text](url)` between plain texts is replaced by its text; a technique
      keeps the link. */
  lemma RewriteOneLink(c: Category, a: string, text: string, url: string, b: string)
    requires Plain(a) && Plain(b) && Inert(text) && Inert(url)
    requires |text| > 0 && ']' !in text
    requires |url| > 0 && ')' !in url
    ensures StripsLinks(c) ==> Rewrite(c, a + Links.Link(text, url) + b) == Whitespace.Collapse(a + text + b)
    ensures !StripsLinks(c) ==> Rewrite(c, a + Links.Link(text, url) + b) == Whitespace.Collapse(a + Links.Link(text, url) + b)
  {
    var s := a + Links.Link(text, url) + b;
    LinkInert(a, text, url, b);
    CleanText.CleanPlainText(s);
    assert '\n' !in s;
    Links.StripLinksOneLink(a, text, url, b);
  }
}
