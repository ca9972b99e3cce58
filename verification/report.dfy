/** The change report between two releases: the overview table, the overall
    statistics, one section per category with new objects, the technical
    summary, and the name of the file the report is written to. Figures are
    kept as integers; their rendering (`:,` and `:+d`) is not modelled. */
module Report {
  import opened Wrappers
  import opened Stix
  import opened Description
  import Differ
  import Version

  /** A row of the overview table: the figure in each release and the signed change. */
  datatype CountRow = CountRow(before: nat, after: nat, change: int)

  function Row(before: nat, after: nat): CountRow {
    CountRow(before, after, after - before)
  }

  /** One numbered line of a section, for the object `obj` with id `id`; the
      line shows the object's cleaned name and its rewritten description. */
  datatype Entry = Entry(number: nat, category: Category, id: string, obj: StixObject) {
    function Name(): string {
      EntryName(obj.name)
    }

    function Text(): string {
      Describe(category, obj.description)
    }
  }

  /** A section: its category, the `(n total)` figure and its lines. */
  datatype Section = Section(category: Category, total: nat, entries: seq<Entry>)

  /** The change summary of two releases, as figures rather than text. */
  datatype ChangeReport = ChangeReport(
    version1: string,
    version2: string,
    totalObjects: CountRow,
    typeRows: seq<CountRow>,
    added: nat,
    removed: nat,
    modified: nat,
    netChange: int,
    sections: seq<Section>,
    relationshipsRemoved: nat,
    relationshipsAdded: nat,
    modificationRate: nat,
    totalChanged: nat,
    fileName: string)

  /** `part*100//whole`: the floor percentage, and a division by zero when
      `whole` is zero. */
  function Percent(part: nat, whole: nat): (r: Result<nat, Error>)
    ensures r.Failure? <==> whole == 0
    ensures r.Failure? ==> r.error == DivisionByZero
    ensures r.Success? ==> r.value * whole <= part * 100 < (r.value + 1) * whole
    ensures r.Success? && part <= whole ==> r.value <= 100
  {
    if whole == 0 then Failure(DivisionByZero)
    else
      PercentBounds(part, whole);
      Success(part * 100 / whole)
  }

  lemma PercentBounds(part: nat, whole: nat)
    requires whole > 0
    ensures (part * 100 / whole) * whole <= part * 100 < (part * 100 / whole + 1) * whole
    ensures part <= whole ==> part * 100 / whole <= 100
  {
  }

  /** `enumerate(group, first)`: one line per id, numbered on from `first`. */
  function Entries(c: Category, group: seq<string>, index: map<string, StixObject>, first: nat): (es: seq<Entry>)
    requires forall i | 0 <= i < |group| :: group[i] in index
    ensures |es| == |group|
    ensures forall i | 0 <= i < |es| :: es[i].number == first + i && es[i].id == group[i]
    ensures forall i | 0 <= i < |es| :: es[i] == Entry(first + i, c, group[i], index[group[i]])
    decreases |group|
  {
    if |group| == 0 then []
    else [Entry(first, c, group[0], index[group[0]])] + Entries(c, group[1..], index, first + 1)
  }

  /** Every listed id has an object. */
  ghost predicate Listable(groups: map<string, seq<string>>, index: map<string, StixObject>) {
    forall t, i | t in groups && 0 <= i < |groups[t]| :: groups[t][i] in index
  }

  /** The section of category `c` for its group of new ids. */
  function MakeSection(c: Category, group: seq<string>, index: map<string, StixObject>): Section
    requires forall i | 0 <= i < |group| :: group[i] in index
  {
    Section(c, |group|, Entries(c, group, index, 1))
  }

  /** The categories from rank `k` on whose type has a group, in report order. */
  function PresentFrom(k: nat, groups: map<string, seq<string>>): (cs: seq<Category>)
    requires k <= |Categories|
    ensures forall i | 0 <= i < |cs| :: k <= Rank(cs[i]) && StixType(cs[i]) in groups
    ensures forall c | k <= Rank(c) && StixType(c) in groups :: c in cs
    ensures forall i, j | 0 <= i < j < |cs| :: Rank(cs[i]) < Rank(cs[j])
    decreases |Categories| - k
  {
    if k == |Categories| then []
    else
      var c := Categories[k];
      var rest := PresentFrom(k + 1, groups);
      assert Rank(c) == k;
      if StixType(c) in groups then [c] + rest else rest
  }

  /** `if '<type>' in new_by_type:` for each category in turn: a section
      appears exactly for the categories with a group, in report order, and
      each is the section of its category's group. */
  function Sections(groups: map<string, seq<string>>, index: map<string, StixObject>): (ss: seq<Section>)
    requires Listable(groups, index)
    ensures forall c :: (exists i | 0 <= i < |ss| :: ss[i].category == c) <==> StixType(c) in groups
    ensures forall i, j | 0 <= i < j < |ss| :: Rank(ss[i].category) < Rank(ss[j].category)
    ensures forall i | 0 <= i < |ss| ::
              StixType(ss[i].category) in groups && ss[i] == MakeSection(ss[i].category, groups[StixType(ss[i].category)], index)
  {
    var cs := PresentFrom(0, groups);
    var ss := seq(|cs|, i requires 0 <= i < |cs| => MakeSection(cs[i], groups[StixType(cs[i])], index));
    PresentSections(cs, ss, groups);
    ss
  }

  /** Sections that follow the present categories one for one appear exactly
      for the categories with a group, in report order. */
  lemma PresentSections(cs: seq<Category>, ss: seq<Section>, groups: map<string, seq<string>>)
    requires cs == PresentFrom(0, groups)
    requires |ss| == |cs| && forall i | 0 <= i < |ss| :: ss[i].category == cs[i]
    ensures forall c :: (exists i | 0 <= i < |ss| :: ss[i].category == c) <==> StixType(c) in groups
    ensures forall i, j | 0 <= i < j < |ss| :: Rank(ss[i].category) < Rank(ss[j].category)
  {
    forall c ensures (exists i | 0 <= i < |ss| :: ss[i].category == c) <==> StixType(c) in groups {
      if StixType(c) in groups {
        assert c in cs;
        var i :| 0 <= i < |cs| && cs[i] == c;
        assert ss[i].category == c;
      }
    }
  }

  /** A section lists each of the given objects exactly once, numbered from 1. */
  ghost predicate ListsObjects(s: Section, ids: set<string>, index: map<string, StixObject>)
    requires ids <= index.Keys
  {
    && s.total == |ids| == |s.entries|
    && (forall i | 0 <= i < |s.entries| ::
          s.entries[i].number == i + 1 && s.entries[i].id in ids
          && s.entries[i] == Entry(i + 1, s.category, s.entries[i].id, index[s.entries[i].id]))
    && (forall id | id in ids :: exists i | 0 <= i < |s.entries| :: s.entries[i].id == id)
  }

  /** The version labels and the output file name. */
  ghost predicate Labels(rep: ChangeReport, file1: string, file2: string) {
    && rep.version1 == Version.ExtractVersion(file1)
    && rep.version2 == Version.ExtractVersion(file2)
    && rep.fileName == Version.ReportFileName(rep.version1, rep.version2)
  }

  /** The overview table: every object counts, with or without an id, and
      each change is the later figure minus the earlier one. */
  ghost predicate Overview(rep: ChangeReport, objs1: seq<StixObject>, objs2: seq<StixObject>) {
    && rep.totalObjects == CountRow(|objs1|, |objs2|, |objs2| - |objs1|)
    && |rep.typeRows| == |Categories|
    && forall k | 0 <= k < |Categories| ::
         var n1, n2 := Occurrences(objs1, StixType(Categories[k])), Occurrences(objs2, StixType(Categories[k]));
         rep.typeRows[k] == CountRow(n1, n2, n2 - n1)
  }

  /** The overall statistics and the technical summary, over the two indexes. */
  ghost predicate Statistics(rep: ChangeReport, idx1: map<string, StixObject>, idx2: map<string, StixObject>) {
    var added, removed := idx2.Keys - idx1.Keys, idx1.Keys - idx2.Keys;
    var common := idx1.Keys * idx2.Keys;
    var modified := set id | id in common && Differ.ModifiedDiffers(idx1[id], idx2[id]);
    && rep.added == |added| && rep.removed == |removed| && rep.modified == |modified|
    && rep.netChange == rep.added - rep.removed == |idx2.Keys| - |idx1.Keys|
    && rep.totalChanged == |added + removed|
    && rep.relationshipsAdded == |Differ.OfType(added, idx2, "relationship")|
    && rep.relationshipsRemoved == |Differ.OfType(removed, idx1, "relationship")|
    && rep.modificationRate * |common| <= rep.modified * 100 < (rep.modificationRate + 1) * |common|
    && rep.modificationRate <= 100
  }

  /** The sections: one exactly for each category with new objects, in report
      order, each listing those objects once. */
  ghost predicate Listing(ss: seq<Section>, added: set<string>, index: map<string, StixObject>)
    requires added <= index.Keys
  {
    && (forall c :: (exists i | 0 <= i < |ss| :: ss[i].category == c) <==> Differ.OfType(added, index, StixType(c)) != {})
    && (forall i, j | 0 <= i < j < |ss| :: Rank(ss[i].category) < Rank(ss[j].category))
    && (forall i | 0 <= i < |ss| :: ListsObjects(ss[i], Differ.OfType(added, index, StixType(ss[i].category)), index))
  }

  /** What a report says about the two releases it compares. */
  ghost predicate Describes(rep: ChangeReport, file1: string, objs1: seq<StixObject>, file2: string, objs2: seq<StixObject>) {
    var idx1, idx2 := Index(objs1), Index(objs2);
    && Labels(rep, file1, file2)
    && Overview(rep, objs1, objs2)
    && Statistics(rep, idx1, idx2)
    && Listing(rep.sections, idx2.Keys - idx1.Keys, idx2)
  }

  /** The per-type rows of the overview table, in report order, read from the
      two `defaultdict` counts: each row holds the number of objects of its
      type in each release and their difference. */
  function TypeRows(objs1: seq<StixObject>, objs2: seq<StixObject>,
                    counts1: map<string, nat>, counts2: map<string, nat>): (rows: seq<CountRow>)
    requires CountTypes(objs1) == Success(counts1) && CountTypes(objs2) == Success(counts2)
    ensures |rows| == |Categories|
    ensures forall k | 0 <= k < |Categories| ::
              var n1, n2 := Occurrences(objs1, StixType(Categories[k])), Occurrences(objs2, StixType(Categories[k]));
              rows[k] == CountRow(n1, n2, n2 - n1)
  {
    seq(|Categories|, k requires 0 <= k < |Categories| =>
          Row(Count(counts1, StixType(Categories[k])), Count(counts2, StixType(Categories[k]))))
  }

  /** The whole comparison. It fails with a KeyError when an object of either
      release has no `type`, and with a division by zero when the releases
      share no id; otherwise it returns the report. */
  method Analyse(file1: string, objs1: seq<StixObject>, file2: string, objs2: seq<StixObject>)
    returns (r: Result<ChangeReport, Error>)
    ensures r.Failure? <==> !AllTyped(objs1) || !AllTyped(objs2) || Index(objs1).Keys * Index(objs2).Keys == {}
    ensures r.Failure? && !(AllTyped(objs1) && AllTyped(objs2)) ==> r.error == MissingKey("type")
    ensures r.Failure? && AllTyped(objs1) && AllTyped(objs2) ==> r.error == DivisionByZero
    ensures r.Success? ==> Describes(r.value, file1, objs1, file2, objs2)
  {
    var counts1 :- CountTypes(objs1);
    var counts2 :- CountTypes(objs2);
    var idx1, idx2 := Index(objs1), Index(objs2);
    var d := Differ.Compare(idx1.Keys, idx2.Keys);
    var modified := Differ.Modified(d.common, idx1, idx2);
    IndexTyped(objs1);
    IndexTyped(objs2);
    var newByType := Differ.GroupByType(d.added, idx2);
    var removedByType := Differ.GroupByType(d.removed, idx1);
    SubsetSize(modified, d.common);
    var rate :- Percent(|modified|, |d.common|);
    var v1, v2 := Version.ExtractVersion(file1), Version.ExtractVersion(file2);
    var rep := ChangeReport(
      v1, v2,
      Row(|objs1|, |objs2|), TypeRows(objs1, objs2, counts1, counts2),
      |d.added|, |d.removed|, |modified|, |d.added| - |d.removed|,
      Sections(newByType, idx2),
      Differ.GroupSize(removedByType, "relationship"),
      Differ.GroupSize(newByType, "relationship"),
      rate,
      |d.added| + |d.removed|,
      Version.ReportFileName(v1, v2));
    OverviewHolds(rep, objs1, objs2, counts1, counts2);
    StatisticsHold(rep, idx1, idx2, newByType, removedByType);
    SectionsFacts(rep.sections, newByType, d.added, idx2);
    r := Success(rep);
  }

  lemma OverviewHolds(rep: ChangeReport, objs1: seq<StixObject>, objs2: seq<StixObject>,
                      counts1: map<string, nat>, counts2: map<string, nat>)
    requires CountTypes(objs1) == Success(counts1) && CountTypes(objs2) == Success(counts2)
    requires rep.totalObjects == Row(|objs1|, |objs2|) && rep.typeRows == TypeRows(objs1, objs2, counts1, counts2)
    ensures Overview(rep, objs1, objs2)
  {
  }

  lemma StatisticsHold(rep: ChangeReport, idx1: map<string, StixObject>, idx2: map<string, StixObject>,
                       newByType: map<string, seq<string>>, removedByType: map<string, seq<string>>)
    requires Differ.IsGrouping(newByType, idx2.Keys - idx1.Keys, idx2)
    requires Differ.IsGrouping(removedByType, idx1.Keys - idx2.Keys, idx1)
    requires var d := Differ.Compare(idx1.Keys, idx2.Keys);
             && rep.added == |d.added| && rep.removed == |d.removed|
             && rep.modified == |Differ.Modified(d.common, idx1, idx2)|
             && rep.netChange == |d.added| - |d.removed|
             && rep.totalChanged == |d.added| + |d.removed|
             && rep.relationshipsRemoved == Differ.GroupSize(removedByType, "relationship")
             && rep.relationshipsAdded == Differ.GroupSize(newByType, "relationship")
             && Percent(rep.modified, |d.common|) == Success(rep.modificationRate)
    ensures Statistics(rep, idx1, idx2)
  {
    var d := Differ.Compare(idx1.Keys, idx2.Keys);
    Differ.GroupSizeIsCount(newByType, d.added, idx2, "relationship");
    Differ.GroupSizeIsCount(removedByType, d.removed, idx1, "relationship");
    Differ.DisjointUnionSize(d.added, d.removed);
    SubsetSize(Differ.Modified(d.common, idx1, idx2), d.common);
  }

  /** A subset is no larger than its superset. */
  lemma SubsetSize(a: set<string>, b: set<string>)
    requires a <= b
    ensures |a| <= |b|
  {
    assert b == a + (b - a);
    Differ.DisjointUnionSize(a, b - a);
  }

  /** The sections built from a grouping of the new ids list exactly the new
      objects of each category present. */
  lemma SectionsFacts(ss: seq<Section>, groups: map<string, seq<string>>, ids: set<string>, index: map<string, StixObject>)
    requires Differ.IsGrouping(groups, ids, index)
    requires Listable(groups, index) && ss == Sections(groups, index)
    ensures Listing(ss, ids, index)
  {
    forall c ensures (exists i | 0 <= i < |ss| :: ss[i].category == c) <==> Differ.OfType(ids, index, StixType(c)) != {} {
      Differ.GroupSizeIsCount(groups, ids, index, StixType(c));
    }
    forall i | 0 <= i < |ss| ensures ListsObjects(ss[i], Differ.OfType(ids, index, StixType(ss[i].category)), index) {
      var c := ss[i].category;
      var t := StixType(c);
      Differ.GroupSizeIsCount(groups, ids, index, t);
      GroupSection(c, groups[t], ids, index, groups);
    }
  }

  /** The section of one group lists the ids of that group's type. */
  lemma GroupSection(c: Category, group: seq<string>, ids: set<string>, index: map<string, StixObject>,
                     groups: map<string, seq<string>>)
    requires Differ.IsGrouping(groups, ids, index)
    requires StixType(c) in groups && group == groups[StixType(c)]
    requires Listable(groups, index)
    ensures ListsObjects(MakeSection(c, group, index), Differ.OfType(ids, index, StixType(c)), index)
  {
    var t := StixType(c);
    var s := MakeSection(c, group, index);
    var of := Differ.OfType(ids, index, t);
    Differ.GroupSizeIsCount(groups, ids, index, t);
    forall id | id in of ensures exists i | 0 <= i < |s.entries| :: s.entries[i].id == id {
      var i :| 0 <= i < |group| && group[i] == id;
      assert s.entries[i].id == id;
    }
  }
}
