/** The Sigma rule exporter's pure part: the fields taken from one parsed rule
    file, and the export loop that keeps the rules whose fields could be
    taken and skips the others. */
module SigmaFields {
  import opened Wrappers

  /** A value as `yaml.safe_load` builds it. A mapping keeps its keys in
      document order, and each key occurs once. `Scalar` stands for any other
      scalar (number, boolean, date) and carries the text `str()` gives for it. */
  datatype Yaml =
    | Null
    | Str(s: string)
    | Scalar(text: string)
    | Sequence(items: seq<Yaml>)
    | Mapping(entries: seq<(string, Yaml)>)

  /** `d.get(key)` on a mapping: the value of the key, if present. */
  function Get(entries: seq<(string, Yaml)>, key: string): Option<Yaml> {
    if |entries| == 0 then None
    else if entries[0].0 == key then Some(entries[0].1)
    else Get(entries[1..], key)
  }

  /** A key is found exactly when the mapping has it, and then with its own value. */
  lemma {:induction false} GetFinds(entries: seq<(string, Yaml)>, key: string)
    ensures Get(entries, key).Some? <==> exists i | 0 <= i < |entries| :: entries[i].0 == key
    ensures Get(entries, key).Some? ==> exists i | 0 <= i < |entries| :: entries[i] == (key, Get(entries, key).value)
  {
    if |entries| > 0 && entries[0].0 != key {
      GetFinds(entries[1..], key);
      assert forall i | 1 <= i < |entries| :: entries[i] == entries[1..][i - 1];
    }
  }

  /** `d.get(key)`: the value of the key, or `None` without it. */
  function Field(entries: seq<(string, Yaml)>, key: string): Yaml {
    Get(entries, key).GetOr(Null)
  }

  /** `str(v)`: `None` for a missing value, the string itself for a string,
      the scalar's own text, and `repr` for a list or a mapping, whose
      rendering is not modelled. */
  function Render(v: Yaml, repr: Yaml -> string): string {
    match v
    case Null => "None"
    case Str(s) => s
    case Scalar(text) => text
    case _ => repr(v)
  }

  /** `sep.join(parts)`. */
  function JoinWith(parts: seq<string>, sep: string): (r: string)
    ensures |parts| == 0 ==> r == ""
    ensures |parts| == 1 ==> r == parts[0]
  {
    if |parts| == 0 then ""
    else if |parts| == 1 then parts[0]
    else parts[0] + sep + JoinWith(parts[1..], sep)
  }

  /** Why a rule's fields could not be taken. */
  datatype RuleError =
    | RuleNotMapping        // the file did not load as a mapping (AttributeError on `.get`)
    | LogsourceNotMapping   // `logsource` is present but not a mapping (AttributeError)
    | TagsNotIterable       // `tags` is null or a scalar (TypeError)
    | TagNotString          // a tag in the list is not a string (TypeError)

  /** The strings `', '.join` sees when it iterates `tags`: the items of a
      list, the characters of a string, the keys of a mapping. */
  function TagParts(tags: Yaml): (r: Result<seq<string>, RuleError>)
    ensures r.Failure? <==> tags.Null? || tags.Scalar? || (tags.Sequence? && exists i | 0 <= i < |tags.items| :: !tags.items[i].Str?)
    ensures r.Failure? ==> r.error == (if tags.Sequence? then TagNotString else TagsNotIterable)
    ensures r.Success? && tags.Sequence? ==> |r.value| == |tags.items| && forall i | 0 <= i < |r.value| :: tags.items[i] == Str(r.value[i])
    ensures r.Success? && tags.Str? ==> |r.value| == |tags.s| && forall i | 0 <= i < |r.value| :: r.value[i] == [tags.s[i]]
    ensures r.Success? && tags.Mapping? ==> |r.value| == |tags.entries| && forall i | 0 <= i < |r.value| :: r.value[i] == tags.entries[i].0
  {
    match tags
    case Null => Failure(TagsNotIterable)
    case Scalar(_) => Failure(TagsNotIterable)
    case Str(s) => Success(seq(|s|, i requires 0 <= i < |s| => [s[i]]))
    case Mapping(entries) => Success(seq(|entries|, i requires 0 <= i < |entries| => entries[i].0))
    case Sequence(items) =>
      if forall i | 0 <= i < |items| :: items[i].Str? then Success(seq(|items|, i requires 0 <= i < |items| => items[i].s))
      else Failure(TagNotString)
  }

  /** The twelve columns of a row, in the order of the dictionary literal. */
  datatype Column =
    | Title | Id | Status | Description | Author | Date | Modified
    | LogsourceCategory | LogsourceProduct | MitreAttack | Level | FilePath

  /** The dictionary key, and the spreadsheet header, of each column. */
  function Header(c: Column): string {
    match c
    case Title => "title"
    case Id => "id"
    case Status => "status"
    case Description => "description"
    case Author => "author"
    case Date => "date"
    case Modified => "modified"
    case LogsourceCategory => "logsource_category"
    case LogsourceProduct => "logsource_product"
    case MitreAttack => "mitre_attack"
    case Level => "level"
    case FilePath => "file_path"
  }

  /** A row of the sheet: the dictionary `extract_relevant_fields` returns,
      one field per column, so every row has the same twelve keys. */
  datatype Row = Row(
    title: Yaml, id: Yaml, status: Yaml, description: Yaml, author: Yaml,
    date: string, modified: string,
    logsourceCategory: Yaml, logsourceProduct: Yaml,
    mitreAttack: string, level: Yaml, filePath: string)
  {
    /** The value under a column's key, as the spreadsheet cell receives it. */
    function Cell(c: Column): Yaml {
      match c
      case Title => title
      case Id => id
      case Status => status
      case Description => description
      case Author => author
      case Date => Str(date)
      case Modified => Str(modified)
      case LogsourceCategory => logsourceCategory
      case LogsourceProduct => logsourceProduct
      case MitreAttack => Str(mitreAttack)
      case Level => level
      case FilePath => Str(filePath)
    }
  }

  /** `extract_relevant_fields`: the row for one rule, or the error its
      evaluation raises. The dictionary is built in order, so a bad
      `logsource` is reported before bad `tags`. */
  function ExtractRelevantFields(rule: Yaml, filePath: string, repr: Yaml -> string): (r: Result<Row, RuleError>)
    ensures r.Failure? <==>
              || !rule.Mapping?
              || (Get(rule.entries, "logsource").Some? && !Get(rule.entries, "logsource").value.Mapping?)
              || TagParts(Get(rule.entries, "tags").GetOr(Sequence([]))).Failure?
    ensures !rule.Mapping? ==> r == Failure(RuleNotMapping)
    ensures (rule.Mapping? && Get(rule.entries, "logsource").Some? && !Get(rule.entries, "logsource").value.Mapping?)
              ==> r == Failure(LogsourceNotMapping)
  {
    if !rule.Mapping? then Failure(RuleNotMapping)
    else
      var e := rule.entries;
      var logsource := Get(e, "logsource").GetOr(Mapping([]));
      if !logsource.Mapping? then Failure(LogsourceNotMapping)
      else
        var tags :- TagParts(Get(e, "tags").GetOr(Sequence([])));
        Success(Row(
          Field(e, "title"), Field(e, "id"), Field(e, "status"), Field(e, "description"), Field(e, "author"),
          Render(Field(e, "date"), repr), Render(Field(e, "modified"), repr),
          Field(logsource.entries, "category"), Field(logsource.entries, "product"),
          JoinWith(tags, ", "), Field(e, "level"), filePath))
  }

  /** The keys of a row's dictionary: the twelve headers, each once. */
  lemma HeadersDistinct(c: Column, d: Column)
    ensures Header(c) == Header(d) <==> c == d
  {
  }

  /** The fields a rule that loads copies as they are: `file_path` verbatim,
      the plain keys' values (`None` when missing), and the `category` and
      `product` of a `logsource` mapping. */
  lemma RowCopies(rule: Yaml, filePath: string, repr: Yaml -> string)
    requires ExtractRelevantFields(rule, filePath, repr).Success?
    ensures var row := ExtractRelevantFields(rule, filePath, repr).value;
            && row.Cell(FilePath) == Str(filePath)
            && row.Cell(Title) == Field(rule.entries, "title")
            && row.Cell(Id) == Field(rule.entries, "id")
            && row.Cell(Status) == Field(rule.entries, "status")
            && row.Cell(Description) == Field(rule.entries, "description")
            && row.Cell(Author) == Field(rule.entries, "author")
            && row.Cell(Level) == Field(rule.entries, "level")
            && (Get(rule.entries, "status").None? ==> row.Cell(Status) == Null)
    ensures var row := ExtractRelevantFields(rule, filePath, repr).value;
            var logsource := Get(rule.entries, "logsource");
            logsource.Some? && logsource.value.Mapping? ==>
              && row.Cell(LogsourceCategory) == Field(logsource.value.entries, "category")
              && row.Cell(LogsourceProduct) == Field(logsource.value.entries, "product")
  {
  }

  /** `date` and `modified` are always the `str()` of the value, so `"None"`
      when the key is missing; a missing `logsource` gives `None` for both of
      its fields, and missing `tags` give `""` for `mitre_attack`. */
  lemma RowDefaults(rule: Yaml, filePath: string, repr: Yaml -> string)
    requires ExtractRelevantFields(rule, filePath, repr).Success?
    ensures var row := ExtractRelevantFields(rule, filePath, repr).value;
            var e := rule.entries;
            && row.Cell(Date) == Str(Render(Field(e, "date"), repr))
            && row.Cell(Modified) == Str(Render(Field(e, "modified"), repr))
            && (Get(e, "date").None? ==> row.Cell(Date) == Str("None"))
            && (Get(e, "modified").None? ==> row.Cell(Modified) == Str("None"))
            && (Get(e, "logsource").None? ==> row.Cell(LogsourceCategory) == Null && row.Cell(LogsourceProduct) == Null)
            && (Get(e, "tags").None? ==> row.Cell(MitreAttack) == Str(""))
  {
  }

  /** A list of string tags is joined with `", "`, whether `logsource` is
      absent or a mapping. */
  lemma TagsJoined(rule: Yaml, filePath: string, repr: Yaml -> string, tags: seq<string>)
    requires rule.Mapping?
    requires Get(rule.entries, "logsource").None? || Get(rule.entries, "logsource").value.Mapping?
    requires Get(rule.entries, "tags").Some? && Get(rule.entries, "tags").value.Sequence?
    requires var items := Get(rule.entries, "tags").value.items;
             |items| == |tags| && forall i | 0 <= i < |tags| :: items[i] == Str(tags[i])
    ensures ExtractRelevantFields(rule, filePath, repr).Success?
    ensures ExtractRelevantFields(rule, filePath, repr).value.mitreAttack == JoinWith(tags, ", ")
  {
    var parts := TagParts(Get(rule.entries, "tags").value);
    assert parts.Success?;
    assert parts.value == tags;
  }

  /** One file the export loop visits: its path, and the loaded document, or
      `None` when opening or loading it raised. */
  datatype RuleFile = RuleFile(path: string, document: Option<Yaml>)

  /** Whether the loop appends a row for a file. */
  predicate Exports(f: RuleFile, repr: Yaml -> string) {
    f.document.Some? && ExtractRelevantFields(f.document.value, f.path, repr).Success?
  }

  /** `parse_rules_to_excel`'s loop: a row per file, in visiting order, and
      any file whose loading or extraction raises is skipped. */
  method ExportRows(files: seq<RuleFile>, repr: Yaml -> string) returns (rows: seq<Row>)
    ensures rows == Exported(files, repr)
  {
    rows := [];
    var n := 0;
    while n < |files|
      invariant n <= |files|
      invariant rows == Exported(files[..n], repr)
    {
      var f := files[n];
      if f.document.Some? {
        var row := ExtractRelevantFields(f.document.value, f.path, repr);
        if row.Success? {
          rows := rows + [row.value];
        }
      }
      ExportedAppend(files[..n], [f], repr);
      assert files[..n + 1] == files[..n] + [f];
      n := n + 1;
    }
    assert files[..n] == files;
  }

  /** Reference definition of the exported rows: one per file that exports,
      so never more rows than files. */
  function Exported(files: seq<RuleFile>, repr: Yaml -> string): (rows: seq<Row>)
    ensures |rows| == ExportCount(files, repr) <= |files|
  {
    if |files| == 0 then []
    else
      (if Exports(files[0], repr) then [ExtractRelevantFields(files[0].document.value, files[0].path, repr).value] else [])
      + Exported(files[1..], repr)
  }

  /** Exporting distributes over the files visited: a failing file adds no
      row, a good one adds exactly its row. */
  lemma {:induction false} ExportedAppend(a: seq<RuleFile>, b: seq<RuleFile>, repr: Yaml -> string)
    ensures Exported(a + b, repr) == Exported(a, repr) + Exported(b, repr)
  {
    if |a| > 0 {
      assert (a + b)[1..] == a[1..] + b;
      ExportedAppend(a[1..], b, repr);
    } else {
      assert a + b == b;
    }
  }

  /** Each row comes from a visited file, and there are at most as many rows as files. */
  lemma {:induction false} ExportedPaths(files: seq<RuleFile>, repr: Yaml -> string)
    ensures |Exported(files, repr)| <= |files|
    ensures forall i | 0 <= i < |Exported(files, repr)| :: exists j | 0 <= j < |files| :: Exported(files, repr)[i].filePath == files[j].path
  {
    if |files| > 0 {
      ExportedPaths(files[1..], repr);
      var rows := Exported(files, repr);
      var rest := Exported(files[1..], repr);
      if Exports(files[0], repr) {
        RowCopies(files[0].document.value, files[0].path, repr);
        forall i | 0 <= i < |rows| ensures exists j | 0 <= j < |files| :: rows[i].filePath == files[j].path {
          if i > 0 {
            var j :| 0 <= j < |files[1..]| && rest[i - 1].filePath == files[1..][j].path;
            assert rows[i].filePath == files[j + 1].path;
          } else {
            assert rows[0].filePath == files[0].path;
          }
        }
      } else {
        forall i | 0 <= i < |rows| ensures exists j | 0 <= j < |files| :: rows[i].filePath == files[j].path {
          var j :| 0 <= j < |files[1..]| && rest[i].filePath == files[1..][j].path;
          assert rows[i].filePath == files[j + 1].path;
        }
      }
    }
  }

  /** The number of files that export a row. */
  function ExportCount(files: seq<RuleFile>, repr: Yaml -> string): nat {
    if |files| == 0 then 0 else (if Exports(files[0], repr) then 1 else 0) + ExportCount(files[1..], repr)
  }
}
