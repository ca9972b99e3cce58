# ATT&CK release differ, Sigma exporter and Exchange subnet filter in Dafny

This project models three Python scripts of a security tooling repository.

- **The ATT&CK release differ** (`analyse_attack_markdown.py`). It compares two
  releases of the MITRE ATT&CK STIX bundle and writes a markdown change summary.
  - It reads each file name's version label (the first `digits.digits`).
  - It indexes the objects by id and counts them by `type`.
  - It splits the ids into new, removed and common, and finds the modified
    common ids.
  - It groups the new and removed ids by type, and lists the new objects of five
    categories with cleaned names and rewritten descriptions.
  - It computes the overview table, the statistics, the modification percentage
    and the output file name.
- **The Sigma rule exporter** (`sigma_rules_to_excel_exporter.py`). The model
  covers:
  - the twelve fields taken from each parsed rule;
  - the export loop that skips rules that fail;
  - the loop that asks GitHub for the latest release, which waits on a rate
    limit, skips the check when the reset is more than five minutes away, and
    backs off exponentially on request failures.
- **The Exchange Online subnet filter** (`get_microsoft_exchange_online_ip_ranges.py`).
  It concatenates the `ips` of the endpoint records whose service area is
  Exchange. It falls back to no records when the fetch fails.

Inputs are already-parsed values:
- records with optional fields;
- a YAML value type;
- a sequence of HTTP attempts, each paired with its clock reading.

Every operation is a pure function or a method with a loop. Most operations
are paired with a reference definition, an inverse or a stated invariant, and
a lemma relates the two. Some small computing functions carry only bounds or
shape facts in their own contracts.

Modules, one per file:

| module | file | models |
|---|---|---|
| `Wrappers` | wrappers.dfy | `Option` and `Result` |
| `Strings` | strings.dfy | `str.replace` of one character, and a scan for the next occurrence of a character used by the link scanner and the file-name parser |
| `CleanText` | clean_text.dfy | `clean_text` and its 18-entry table |
| `Whitespace` | whitespace.dfy | `' '.join(s.split())` |
| `Links` | links.dfy | the `[text](url)` → `text` substitution |
| `Version` | version.dfy | `extract_version` and the report file name |
| `Stix` | stix.dfy | the id index and the type counts |
| `MapSum` | map_sum.dfy | sums of counts over a map |
| `Differ` | differ.dfy | new/removed/common/modified ids and grouping by type |
| `Description` | description.dfy | categories, default sentences and the description pipeline |
| `Report` | report.dfy | the report figures, sections and file name |
| `SigmaFields` | sigma.dfy | `extract_relevant_fields` and the export loop |
| `ReleaseCheck` | release_check.dfy | `check_for_latest_release` |
| `Exchange` | exchange.dfy | the Exchange filter and its fallback |

When the releases share no id, the differ raises `ZeroDivisionError` at the
percentage (`len(modified_ids)*100//len(common_ids)`). It does not report 0%.
The model follows the code: `Report.Percent` and `Report.Analyse` return
`DivisionByZero` in that case.

## Model

| member | source | states |
|---|---|---|
| Version.MatchEnd | Python/analyse_attack_markdown.py:70 | a match of `\d+\.\d+` at a position is a dotted pair of digit runs that is not followed by a digit (greedy) |
| Version.MatchEndComplete | Python/analyse_attack_markdown.py:70 | the greedy matcher finds a match at a position exactly when some dotted pair starts there |
| Version.Search | Python/analyse_attack_markdown.py:70 | `re.search` returns the leftmost matching position; no earlier position matches, and no match means no position matches |
| Version.ExtractVersion | Python/analyse_attack_markdown.py:68-73 | the label is "unknown" exactly when no position of the name matches `\d+\.\d+`; otherwise it is a dotted pair of digit runs cut from the name |
| Version.ExtractVersionIsFirstMatch | Python/analyse_attack_markdown.py:68-73 | the label is the leftmost, greedy dotted pair in the name, and it is "unknown" exactly when no position matches |
| Version.ExtractVersionOfName | Python/analyse_attack_markdown.py:68-73 | a name made of a prefix without digits, `a.b` and a suffix that does not start with a digit yields exactly `a.b` |
| Version.ExtractVersionExample | Python/analyse_attack_markdown.py:69 | any name ending in `16.1.json` whose prefix has no digit yields "16.1" |
| Version.ExtractVersionNoDigits | Python/analyse_attack_markdown.py:73 | a name without digits yields "unknown" |
| Version.ExtractVersionNoUnderscore | Python/analyse_attack_markdown.py:68-73 | an extracted label never contains an underscore |
| Version.ReportFileName | Python/analyse_attack_markdown.py:283 | the file name `mitre_attack_changes_{v1}_to_{v2}.md` parses back to both labels when the first has no underscore |
| Version.ReportFileNameOfVersions | Python/analyse_attack_markdown.py:104-105 | the file name built from two extracted labels always determines both labels |
| Version.ReportFileNameExample | Python/analyse_attack_markdown.py:283 | labels 16.1 and 17.0 give `mitre_attack_changes_16.1_to_17.0.md` |
| CleanText.ApplyAllIsMapChars | Python/analyse_attack_markdown.py:100-101 | applying the replacements one after the other equals substituting each character through the table, given that no replacement text contains a replaced character |
| CleanText.ReplacementsWellFormed | Python/analyse_attack_markdown.py:80-99 | the 18 replaced characters are all non-ASCII, and every replacement text is non-empty ASCII |
| CleanText.Clean | Python/analyse_attack_markdown.py:76-102 | empty text is returned as it is; the result is the per-character substitution, contains no table character and is never shorter than the input |
| CleanText.CleanPlainText | Python/analyse_attack_markdown.py:100-102 | text without table characters is unchanged |
| CleanText.CleanAppend | Python/analyse_attack_markdown.py:100-101 | cleaning distributes over concatenation |
| CleanText.CleanIdempotent | Python/analyse_attack_markdown.py:76-102 | cleaning twice is cleaning once |
| CleanText.CleanEmDash | Python/analyse_attack_markdown.py:86 | an em dash between plain characters becomes `--` |
| CleanText.CleanKeepsAbsent | Python/analyse_attack_markdown.py:80-101 | a character absent from the input and from every replacement text is absent from the result |
| CleanText.SubstituteCases | Python/analyse_attack_markdown.py:80-99 | a character outside the table maps to itself; a table character maps to the replacement text of its first entry |
| Whitespace.Join | Python/analyse_attack_markdown.py:192 | joining non-empty words free of whitespace with single spaces gives a normalized text; given at least one word it is non-empty and neither starts nor ends with whitespace |
| Strings.ReplaceChar | Python/analyse_attack_markdown.py:190 | each occurrence of the character becomes the replacement; with a one-character replacement every other position keeps its character |
| Whitespace.Split | Python/analyse_attack_markdown.py:192 | `str.split()` yields non-empty words free of whitespace |
| Whitespace.SplitKeepsNonSpace | Python/analyse_attack_markdown.py:192 | the words of a split, concatenated, are exactly the input's non-whitespace characters in order |
| Whitespace.SplitJoin | Python/analyse_attack_markdown.py:192 | splitting words joined with single spaces gives back the words |
| Whitespace.Collapse | Python/analyse_attack_markdown.py:192 | the result has no leading, trailing or doubled whitespace and its only whitespace is the plain space; it splits into exactly the input's words, so words stay apart and keep their characters |
| Whitespace.SplitSameShape | Python/analyse_attack_markdown.py:190-192 | texts with whitespace at the same positions and the same characters elsewhere split into the same words, so turning line breaks into spaces does not change the words |
| Whitespace.CollapseIdempotent | Python/analyse_attack_markdown.py:192 | collapsing an already collapsed text changes nothing |
| Whitespace.CollapseChars | Python/analyse_attack_markdown.py:192 | every output character is a space or a non-whitespace character of the input |
| Links.LinkAt | Python/analyse_attack_markdown.py:208 | a match starts with `[` and gives the positions of a `]` immediately followed by `(` and of a later `)`, with at least one character of text and of url between them, inside the text |
| Links.LinkAtMatches | Python/analyse_attack_markdown.py:208 | the scanner matches at the start exactly when the text starts with `[`, non-`]` text, `](`, non-`)` url and `)`, with both parts non-empty |
| Links.StripLinks | Python/analyse_attack_markdown.py:208 | the substitution never lengthens the text |
| Links.StripLinksOneLink | Python/analyse_attack_markdown.py:208 | one link between texts without `[` is replaced by its text and nothing else changes |
| Links.StripLinksLink | Python/analyse_attack_markdown.py:208 | a link after a text without `[` is replaced by its text, and scanning resumes after the link |
| Links.StripLinksPlain | Python/analyse_attack_markdown.py:208 | a text without `[` is unchanged |
| Links.StripLinksChars | Python/analyse_attack_markdown.py:208 | every output character occurs in the input |
| Links.Kept | Python/analyse_attack_markdown.py:208 | the substitution only removes characters: each output character is the input character at a position, and the positions strictly increase |
| Links.StripLinksExample | Python/analyse_attack_markdown.py:207-208 | "See [here](url) for more" becomes "See here for more" |
| Description.Rank | Python/analyse_attack_markdown.py:184-268 | the five sections appear in the order techniques, threat actors, malware, tools, campaigns |
| Description.StixTypeInjective | Python/analyse_attack_markdown.py:184-253 | each section reads a different STIX type |
| Description.Rewrite | Python/analyse_attack_markdown.py:189-192 | a rewritten description is normalized: no leading, trailing or doubled whitespace |
| Description.Describe | Python/analyse_attack_markdown.py:189-212 | a present, non-empty description comes out normalized and free of table characters; a missing or empty one gives the category's default sentence |
| Description.EntryName | Python/analyse_attack_markdown.py:187 | a name comes out free of table characters; a missing name is `N/A`; a plain name is kept |
| Description.Finish | Python/analyse_attack_markdown.py:192-212 | the finished description is normalized; outside the link-stripping categories it keeps exactly the visible characters and exactly the words of the cleaned text |
| Description.TechniqueKeepsContent | Python/analyse_attack_markdown.py:189-192 | a technique description keeps every visible character and every word of the cleaned text, links included |
| Description.RewriteOneLink | Python/analyse_attack_markdown.py:204-212 | outside techniques, a link in a plain description is replaced by its text; a technique keeps the link |
| Description.RewriteWithoutLinks | Python/analyse_attack_markdown.py:206-210 | without `[` in the description, every category rewrites it the way techniques do |
| Stix.Index | Python/analyse_attack_markdown.py:119-120 | an id is indexed exactly when some object carries it; each indexed object carries its own id; the index is no larger than the object list |
| Stix.IndexKeepsLast | Python/analyse_attack_markdown.py:119 | a repeated id maps to the last object that carries it |
| Stix.IndexSmallerWithoutId | Python/analyse_attack_markdown.py:119-130 | an object without an id makes the index strictly smaller than the total object count |
| Stix.CountTypes | Python/analyse_attack_markdown.py:122-130 | counting fails with a `type` KeyError exactly when some object has no type; otherwise each count equals the number of objects of that type, and the counts sum to the object total |
| Differ.Compare | Python/analyse_attack_markdown.py:133-138 | new, removed and common are pairwise disjoint; new ∪ common is the later id set and removed ∪ common is the earlier one; |new| − |removed| is the growth of the index |
| Differ.Modified | Python/analyse_attack_markdown.py:141-144 | modified ⊆ common, and a common id is modified exactly when its `modified` values differ (absent on both sides counts as equal) |
| Differ.GroupByType | Python/analyse_attack_markdown.py:147-156 | every id is listed once, under its own type only; groups are non-empty; group sizes sum to the number of ids |
| Differ.GroupSizeIsCount | Python/analyse_attack_markdown.py:147-156 | a group's size is the number of ids of its type, and a group exists exactly when that number is non-zero |
| Report.Percent | Python/analyse_attack_markdown.py:274 | the floor percentage `part*100//whole`, a division by zero when `whole` is 0, and at most 100 when part ≤ whole |
| Report.TypeRows | Python/analyse_attack_markdown.py:168-172 | one row per category in report order; each holds the number of objects of that category's type in each release and the later minus the earlier |
| Report.Entries | Python/analyse_attack_markdown.py:186 | the lines of a section are numbered consecutively from the first number, one per id, in group order |
| Report.PresentFrom | Python/analyse_attack_markdown.py:184-253 | the categories with a group, each listed once, in report order |
| Report.Sections | Python/analyse_attack_markdown.py:184-268 | a section appears exactly for each category with new objects, in report order, and each is built from its category's group |
| Report.SectionsFacts | Python/analyse_attack_markdown.py:184-268 | each section has a `(n total)` equal to its count and lists each new object of its type once, numbered from 1 |
| Report.Analyse | Python/analyse_attack_markdown.py:104-283 | fails with a `type` KeyError when an object lacks a type, and with a division by zero when no id is common; otherwise the report has the labels, the overview deltas, the statistics (net = new − removed, total changed = new + removed, relationship counts, floor percentage ≤ 100), the sections and the file name |
| SigmaFields.GetFinds | Python/sigma_rules_to_excel_exporter.py:117-127 | `dict.get` finds a value exactly when the key is present, and the value found is that key's |
| SigmaFields.TagParts | Python/sigma_rules_to_excel_exporter.py:126 | `join` fails on null or scalar tags and on a non-string list item; it iterates the items of a list, the characters of a string and the keys of a mapping |
| SigmaFields.ExtractRelevantFields | Python/sigma_rules_to_excel_exporter.py:115-129 | extraction fails exactly when the rule is not a mapping, `logsource` is present but not a mapping, or `tags` cannot be joined; the first two give their own errors |
| SigmaFields.HeadersDistinct | Python/sigma_rules_to_excel_exporter.py:116-129 | the twelve column keys are pairwise distinct |
| SigmaFields.RowCopies | Python/sigma_rules_to_excel_exporter.py:115-129 | `file_path` is the argument verbatim; title, id, status, description, author and level are the rule's values, None when missing; a `logsource` mapping gives its `category` and `product`, None when missing |
| SigmaFields.RowDefaults | Python/sigma_rules_to_excel_exporter.py:122-126 | date and modified are the `str()` of the rule's values, "None" when missing; without `logsource` both logsource fields are None; without tags `mitre_attack` is "" |
| SigmaFields.TagsJoined | Python/sigma_rules_to_excel_exporter.py:124-126 | for a mapping rule whose `logsource` is absent or a mapping, a list of string tags is joined with ", " |
| SigmaFields.JoinWith | Python/sigma_rules_to_excel_exporter.py:126 | joining no parts gives "" and joining one part gives that part |
| SigmaFields.ExportRows | Python/sigma_rules_to_excel_exporter.py:138-146 | the loop's rows are the reference export: one row per file that loads and extracts, in visiting order |
| SigmaFields.ExportedPaths | Python/sigma_rules_to_excel_exporter.py:139-146 | there are no more rows than files, and each row's `file_path` is the path of a visited file |
| SigmaFields.ExportedAppend | Python/sigma_rules_to_excel_exporter.py:139-146 | export distributes over the file sequence, so a failing file adds no row |
| SigmaFields.Exported | Python/sigma_rules_to_excel_exporter.py:139-151 | the number of rows is the number of files that load and extract, never more than the files visited |
| ReleaseCheck.WaitTime | Python/sigma_rules_to_excel_exporter.py:75-76 | `max(0, reset − now) + 1`: at least 1, and exactly that value in each case |
| ReleaseCheck.ClassifyFacts | Python/sigma_rules_to_excel_exporter.py:72-91 | a request that raised is a failure; a rate limit with a malformed reset crashes, and otherwise waits the computed time or skips exactly when it exceeds 300 s; an unlimited response with an error status or a non-JSON body is a failure, a JSON non-object crashes, and a JSON object gives its `tag_name` or "unknown" |
| ReleaseCheck.Classify | Python/sigma_rules_to_excel_exporter.py:70-91 | a request that raised is a failure, and any wait lies between 1 and 300 seconds |
| ReleaseCheck.MissingResetWaitsOneSecond | Python/sigma_rules_to_excel_exporter.py:75-76 | a rate limit without a reset header waits one second on any clock past the epoch |
| ReleaseCheck.CheckForLatestRelease | Python/sigma_rules_to_excel_exporter.py:62-92 | the loop's outcome, sleeps and attempts equal the reference run over the verdicts of the attempts |
| ReleaseCheck.Loop | Python/sigma_rules_to_excel_exporter.py:69-92 | the run uses no more attempts than it is given and sleeps at most once per attempt; it makes no attempt exactly when the retries are already spent or there is nothing to try |
| ReleaseCheck.LoopShape | Python/sigma_rules_to_excel_exporter.py:70-92 | only failures count retries; there are at most `max_retries` failures; the check gives up exactly when it reaches them; every attempt but a returning last one is followed by one sleep |
| ReleaseCheck.WaitSleeps | Python/sigma_rules_to_excel_exporter.py:82-83 | a rate-limit wait sleeps the computed wait time |
| ReleaseCheck.BackoffSleeps | Python/sigma_rules_to_excel_exporter.py:88-91 | the k-th failure is followed by a sleep of 2^k seconds |
| ReleaseCheck.AllFailing | Python/sigma_rules_to_excel_exporter.py:70-92 | when every request raises, the check gives up after exactly `max_retries` attempts with sleeps 2, 4, …, 2^max_retries |
| ReleaseCheck.DefaultBackoff | Python/sigma_rules_to_excel_exporter.py:62 | with the default of five retries, the sleeps are 2, 4, 8, 16 and 32 seconds before giving up |
| Exchange.Data | Python/get_microsoft_exchange_online_ip_ranges.py:32-41 | a failed request or invalid JSON leaves no records |
| Exchange.CollectSubnets | Python/get_microsoft_exchange_online_ip_ranges.py:44-50 | the loop fails, at the first such record, exactly when some record lacks `serviceArea`; otherwise it returns the reference concatenation |
| Exchange.ExchangeOnlineSubnets | Python/get_microsoft_exchange_online_ip_ranges.py:32-50 | a fetch error gives the empty list; otherwise the list is the Exchange records' ips in order, or the KeyError |
| Exchange.ExchangeIpsAppend | Python/get_microsoft_exchange_online_ip_ranges.py:47-50 | the subnet list distributes over concatenation of the records |
| Exchange.DropsNothingElse | Python/get_microsoft_exchange_online_ip_ranges.py:48-49 | a record of another service area, or an Exchange record without `ips`, adds nothing wherever it stands |
| Exchange.ListedIff | Python/get_microsoft_exchange_online_ip_ranges.py:47-50 | a subnet is listed exactly when some Exchange record lists it |
| Exchange.ExchangeIps | Python/get_microsoft_exchange_online_ip_ranges.py:47-50 | the list's length is the total length of the Exchange records' ips, so duplicates are kept |

## Left out

- File I/O, `json.load`, `yaml.safe_load`, `Path.rglob`, HTTP requests, `time.sleep`, `time.time()`, git and subprocess calls: inputs are parsed values, and the clock readings and HTTP outcomes are parameters of each attempt.
- Console printing, the markdown text itself (headings, `:,` and `:+d` number formatting), the pandas DataFrame and the Excel file: the report is modelled as its figures, labels, sections and file name.
- `sys.exit`, `sys.argv` and `os.path.exists`: command-line handling has nothing to verify. Giving up after the retries is the `Exhausted` outcome.
- JSON `null` values: STIX fields are either absent or strings. An Exchange record's `ips` is absent or a list. `serviceArea` and `tag_name` are absent or strings.
- A missing `objects` key in a bundle: the model starts from the object list.
- Version.ExtractVersion: `\d` is taken as the ASCII digits. Python's `\d` on `str` also matches other Unicode decimal digits.
- Whitespace.IsSpace: the whitespace set of `str.split()` is written out as a fixed list of code points. It is not derived from the Unicode database.
- SigmaFields.Render: `str()` of a list or mapping, and of dates and numbers, is a parameter (`repr`) or the scalar's given text. Python's own rendering is not modelled.
- ReleaseCheck.Classify: `datetime.fromtimestamp(...).strftime` is left out, and so are the errors it can raise for an out-of-range reset. The response body is either a JSON object or some other value. A body that is not JSON counts as a `RequestException`, as requests' `JSONDecodeError` is one.
- ReleaseCheck.CheckForLatestRelease: the attempts are a finite list, so a run can stop with `OutOfScript`, meaning the list ran out before the loop ended. The script has no such outcome.
- Differ.GroupByType: Python walks a `set`, so the order inside a group is unspecified. The model picks any remaining id and states only the grouping's contents, uniqueness and sizes.
- Description.Describe: normalization and the absence of table characters are stated only for rewritten descriptions. The five default sentences are constants and are not checked against them.
- Report.Analyse: the markdown is not built, so the order of its lines and the two printed copies of the modification percentage are not modelled. A division by zero stops the script before any file is written, and the model returns only the error.
