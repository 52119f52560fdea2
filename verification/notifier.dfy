/** The content of the digest `send_digest_email` builds: nothing for an
    empty change list; otherwise the change count and the changes grouped by
    category (`by_category`), one section per category in ascending order of
    the category name (`sorted(by_category.items())`). The text/HTML wording
    and the SMTP session are not modelled. */
module Notifier {
  import opened Wrappers
  import opened Records
  import StrOrder

  /** `change.get('category', 'Uncategorized')`. */
  function DigestCategory(c: ChangeRecord): string {
    c.category.GetOr(Uncategorized)
  }

  /** One category heading of the digest and the changes listed under it. */
  datatype Section = Section(category: string, changes: seq<ChangeRecord>)

  /** What the digest reports: the count in its subject and header, and its sections. */
  datatype Digest = Digest(count: nat, sections: seq<Section>)

  // ---------------------------------------------------------------------
  // Reference notions

  /** The changes of category `k`, in input order. */
  function InCategory(cs: seq<ChangeRecord>, k: string): seq<ChangeRecord>
    decreases |cs|
  {
    if |cs| == 0 then []
    else
      var n := |cs| - 1;
      InCategory(cs[..n], k) + if DigestCategory(cs[n]) == k then [cs[n]] else []
  }

  function CategoriesOf(cs: seq<ChangeRecord>): set<string> {
    set j | 0 <= j < |cs| :: DigestCategory(cs[j])
  }

  function SectionCategories(gs: seq<Section>): set<string> {
    set i | 0 <= i < |gs| :: gs[i].category
  }

  ghost predicate DistinctCategories(gs: seq<Section>) {
    forall i, j :: 0 <= i < j < |gs| ==> gs[i].category != gs[j].category
  }

  ghost predicate SortedByCategory(gs: seq<Section>) {
    forall i, j :: 0 <= i < j < |gs| ==> StrOrder.Less(gs[i].category, gs[j].category)
  }

  /** The number of entries listed across all sections. */
  function TotalSize(gs: seq<Section>): nat {
    if |gs| == 0 then 0 else |gs[0].changes| + TotalSize(gs[1..])
  }

  // ---------------------------------------------------------------------
  // Grouping: the `by_category` loop

  /** The position of the section for category `k`, or -1 (`category not in by_category`). */
  function Find(gs: seq<Section>, k: string): (r: int)
    ensures -1 <= r < |gs|
    ensures r >= 0 ==> gs[r].category == k
    ensures r < 0 ==> k !in SectionCategories(gs)
    decreases |gs|
  {
    if |gs| == 0 then -1
    else if gs[|gs| - 1].category == k then |gs| - 1
    else Find(gs[..|gs| - 1], k)
  }

  /** One iteration: append the change to its category's list, opening the
      list on the category's first appearance. */
  function AddChange(gs: seq<Section>, c: ChangeRecord): seq<Section> {
    var k := DigestCategory(c);
    var i := Find(gs, k);
    if i < 0 then gs + [Section(k, [c])]
    else gs[i := gs[i].(changes := gs[i].changes + [c])]
  }

  /** `by_category` after the loop, in the dict's insertion order. */
  function GroupByCategory(cs: seq<ChangeRecord>): seq<Section>
    decreases |cs|
  {
    if |cs| == 0 then [] else AddChange(GroupByCategory(cs[..|cs| - 1]), cs[|cs| - 1])
  }

  // ---------------------------------------------------------------------
  // Ordering: `sorted(by_category.items())`

  function InsertSection(s: Section, gs: seq<Section>): (r: seq<Section>)
    ensures multiset(r) == multiset([s] + gs)
    ensures TotalSize(r) == |s.changes| + TotalSize(gs)
    decreases |gs|
  {
    if |gs| == 0 then [s]
    else if StrOrder.Less(s.category, gs[0].category) then [s] + gs
    else
      var rest := InsertSection(s, gs[1..]);
      assert gs == [gs[0]] + gs[1..];
      assert ([gs[0]] + rest)[1..] == rest;
      [gs[0]] + rest
  }

  /** Insertion sort on the category name. */
  function SortSections(gs: seq<Section>): (r: seq<Section>)
    ensures multiset(r) == multiset(gs)
    ensures TotalSize(r) == TotalSize(gs)
    decreases |gs|
  {
    if |gs| == 0 then []
    else
      assert gs == [gs[0]] + gs[1..];
      InsertSection(gs[0], SortSections(gs[1..]))
  }

  /** `send_digest_email` up to sending: `None` for an empty change list
      (the early return), otherwise the count and the sorted sections. */
  function BuildDigest(changes: seq<ChangeRecord>): (r: Option<Digest>)
    ensures r.None? <==> |changes| == 0
    ensures r.Some? ==> r.value.count == |changes|
  {
    if |changes| == 0 then None
    else Some(Digest(|changes|, SortSections(GroupByCategory(changes))))
  }

  // ---------------------------------------------------------------------
  // Lemmas about the reference notions

  lemma {:induction false} InCategoryMembers(cs: seq<ChangeRecord>, k: string, x: ChangeRecord)
    ensures x in InCategory(cs, k) <==> x in cs && DigestCategory(x) == k
    decreases |cs|
  {
    if |cs| > 0 {
      var n := |cs| - 1;
      InCategoryMembers(cs[..n], k, x);
      assert cs == cs[..n] + [cs[n]];
    }
  }

  lemma CategoriesSnoc(cs: seq<ChangeRecord>)
    requires |cs| > 0
    ensures CategoriesOf(cs) == CategoriesOf(cs[..|cs| - 1]) + {DigestCategory(cs[|cs| - 1])}
  {
    var n := |cs| - 1;
    forall k | k in CategoriesOf(cs)
      ensures k in CategoriesOf(cs[..n]) + {DigestCategory(cs[n])}
    {
      var j :| 0 <= j < |cs| && DigestCategory(cs[j]) == k;
      if j < n {
        assert cs[..n][j] == cs[j];
      }
    }
  }

  lemma {:induction false} InCategoryEmpty(cs: seq<ChangeRecord>, k: string)
    requires k !in CategoriesOf(cs)
    ensures InCategory(cs, k) == []
    decreases |cs|
  {
    if |cs| > 0 {
      CategoriesSnoc(cs);
      InCategoryEmpty(cs[..|cs| - 1], k);
    }
  }

  lemma {:induction false} TotalSizeAppend(gs: seq<Section>, s: Section)
    ensures TotalSize(gs + [s]) == TotalSize(gs) + |s.changes|
    decreases |gs|
  {
    if |gs| > 0 {
      assert (gs + [s])[1..] == gs[1..] + [s];
      TotalSizeAppend(gs[1..], s);
    }
  }

  lemma {:induction false} TotalSizeGrow(gs: seq<Section>, i: int, c: ChangeRecord)
    requires 0 <= i < |gs|
    ensures TotalSize(gs[i := gs[i].(changes := gs[i].changes + [c])]) == TotalSize(gs) + 1
    decreases |gs|
  {
    if i > 0 {
      var gs' := gs[i := gs[i].(changes := gs[i].changes + [c])];
      assert gs'[1..] == gs[1..][i - 1 := gs[1..][i - 1].(changes := gs[1..][i - 1].changes + [c])];
      TotalSizeGrow(gs[1..], i - 1, c);
    }
  }

  // ---------------------------------------------------------------------
  // The grouping invariant

  ghost predicate GroupsOf(cs: seq<ChangeRecord>, gs: seq<Section>) {
    && DistinctCategories(gs)
    && SectionCategories(gs) == CategoriesOf(cs)
    && (forall i :: 0 <= i < |gs| ==> gs[i].changes == InCategory(cs, gs[i].category))
    && (forall i :: 0 <= i < |gs| ==> |gs[i].changes| > 0)
    && TotalSize(gs) == |cs|
  }

  /** The `by_category` loop builds one list per category seen, holding
      exactly that category's changes in input order, and loses or adds no change. */
  lemma {:induction false} GroupByCategoryGroups(cs: seq<ChangeRecord>)
    ensures GroupsOf(cs, GroupByCategory(cs))
    decreases |cs|
  {
    if |cs| > 0 {
      var n := |cs| - 1;
      var prev := cs[..n];
      assert cs == prev + [cs[n]];
      assert GroupByCategory(cs) == AddChange(GroupByCategory(prev), cs[n]);
      GroupByCategoryGroups(prev);
      AddChangeGroups(prev, GroupByCategory(prev), cs[n]);
    }
  }

  lemma AddChangeGroups(cs: seq<ChangeRecord>, gs: seq<Section>, c: ChangeRecord)
    requires GroupsOf(cs, gs)
    ensures GroupsOf(cs + [c], AddChange(gs, c))
  {
    var cs' := cs + [c];
    assert cs'[..|cs|] == cs;
    CategoriesSnoc(cs');
    if Find(gs, DigestCategory(c)) < 0 {
      AddChangeNewCategory(cs, gs, c);
    } else {
      AddChangeKnownCategory(cs, gs, c);
    }
  }

  lemma InCategorySnoc(cs: seq<ChangeRecord>, c: ChangeRecord, k: string)
    ensures InCategory(cs + [c], k) == InCategory(cs, k) + if DigestCategory(c) == k then [c] else []
  {
    assert (cs + [c])[..|cs|] == cs;
  }

  /** A change of a category not seen before opens a new section at the end. */
  lemma AddChangeNewCategory(cs: seq<ChangeRecord>, gs: seq<Section>, c: ChangeRecord)
    requires GroupsOf(cs, gs)
    requires CategoriesOf(cs + [c]) == CategoriesOf(cs) + {DigestCategory(c)}
    requires Find(gs, DigestCategory(c)) < 0
    ensures GroupsOf(cs + [c], AddChange(gs, c))
  {
    var k := DigestCategory(c);
    var s := Section(k, [c]);
    var gs' := AddChange(gs, c);
    assert gs' == gs + [s];
    AppendNewSection(gs, s);
    forall j | 0 <= j < |gs'|
      ensures gs'[j].changes == InCategory(cs + [c], gs'[j].category)
    {
      InCategorySnoc(cs, c, gs'[j].category);
      if j == |gs| {
        InCategoryEmpty(cs, k);
      } else {
        assert gs'[j] == gs[j] && gs[j].category in SectionCategories(gs);
      }
    }
    TotalSizeAppend(gs, s);
  }

  /** Appending a section of a category not yet present keeps the categories
      distinct and adds exactly that category. */
  lemma AppendNewSection(gs: seq<Section>, s: Section)
    requires DistinctCategories(gs) && s.category !in SectionCategories(gs)
    ensures DistinctCategories(gs + [s])
    ensures SectionCategories(gs + [s]) == SectionCategories(gs) + {s.category}
  {
    var gs' := gs + [s];
    forall i, j | 0 <= i < j < |gs'|
      ensures gs'[i].category != gs'[j].category
    {
      assert gs'[i] == gs[i];
      if j == |gs| {
        assert gs[i].category in SectionCategories(gs);
      } else {
        assert gs'[j] == gs[j];
      }
    }
    assert gs'[|gs|] == s;
    forall k | k in SectionCategories(gs')
      ensures k in SectionCategories(gs) + {s.category}
    {
      var i :| 0 <= i < |gs'| && gs'[i].category == k;
      if i < |gs| {
        assert gs'[i] == gs[i];
      }
    }
    forall k | k in SectionCategories(gs)
      ensures k in SectionCategories(gs')
    {
      var i :| 0 <= i < |gs| && gs[i].category == k;
      assert gs'[i] == gs[i];
    }
  }


  /** A change of a category already seen is appended to that category's section. */
  lemma AddChangeKnownCategory(cs: seq<ChangeRecord>, gs: seq<Section>, c: ChangeRecord)
    requires GroupsOf(cs, gs)
    requires CategoriesOf(cs + [c]) == CategoriesOf(cs) + {DigestCategory(c)}
    requires Find(gs, DigestCategory(c)) >= 0
    ensures GroupsOf(cs + [c], AddChange(gs, c))
  {
    var k := DigestCategory(c);
    var i := Find(gs, k);
    var gs' := AddChange(gs, c);
    assert gs' == gs[i := gs[i].(changes := gs[i].changes + [c])];
    GrowSectionShape(gs, i, c);
    forall j | 0 <= j < |gs'|
      ensures gs'[j].changes == InCategory(cs + [c], gs'[j].category)
    {
      InCategorySnoc(cs, c, gs'[j].category);
    }
    TotalSizeGrow(gs, i, c);
  }

  /** Appending a change to one section keeps every section's category. */
  lemma GrowSectionShape(gs: seq<Section>, i: int, c: ChangeRecord)
    requires 0 <= i < |gs| && DistinctCategories(gs)
    ensures var gs' := gs[i := gs[i].(changes := gs[i].changes + [c])];
            && (forall j :: 0 <= j < |gs| ==> gs'[j].category == gs[j].category)
            && DistinctCategories(gs')
            && SectionCategories(gs') == SectionCategories(gs)
  {
    var gs' := gs[i := gs[i].(changes := gs[i].changes + [c])];
    assert forall j :: 0 <= j < |gs| ==> gs'[j].category == gs[j].category;
  }

  // ---------------------------------------------------------------------
  // The sort

  /** Inserting keeps every category above a lower bound `b` if `s` and `gs` are. */
  lemma {:induction false} InsertSectionAbove(b: string, s: Section, gs: seq<Section>)
    requires StrOrder.Less(b, s.category)
    requires forall j :: 0 <= j < |gs| ==> StrOrder.Less(b, gs[j].category)
    ensures forall j :: 0 <= j < |InsertSection(s, gs)| ==> StrOrder.Less(b, InsertSection(s, gs)[j].category)
    decreases |gs|
  {
    if |gs| > 0 && !StrOrder.Less(s.category, gs[0].category) {
      InsertSectionAbove(b, s, gs[1..]);
    }
  }

  /** Inserting and sorting introduce no category that was not there. */
  lemma {:induction false} InsertSectionAvoids(k: string, s: Section, gs: seq<Section>)
    requires s.category != k
    requires forall j :: 0 <= j < |gs| ==> gs[j].category != k
    ensures forall j :: 0 <= j < |InsertSection(s, gs)| ==> InsertSection(s, gs)[j].category != k
    decreases |gs|
  {
    if |gs| > 0 && !StrOrder.Less(s.category, gs[0].category) {
      InsertSectionAvoids(k, s, gs[1..]);
    }
  }

  lemma {:induction false} SortSectionsAvoids(k: string, gs: seq<Section>)
    requires forall j :: 0 <= j < |gs| ==> gs[j].category != k
    ensures forall j :: 0 <= j < |SortSections(gs)| ==> SortSections(gs)[j].category != k
    decreases |gs|
  {
    if |gs| > 0 {
      SortSectionsAvoids(k, gs[1..]);
      InsertSectionAvoids(k, gs[0], SortSections(gs[1..]));
    }
  }

  lemma {:induction false} InsertSectionSorted(s: Section, gs: seq<Section>)
    requires SortedByCategory(gs)
    requires forall j :: 0 <= j < |gs| ==> gs[j].category != s.category
    ensures SortedByCategory(InsertSection(s, gs))
    decreases |gs|
  {
    if |gs| > 0 {
      var r := InsertSection(s, gs);
      if StrOrder.Less(s.category, gs[0].category) {
        forall j | 1 < j < |r|
          ensures StrOrder.Less(r[0].category, r[j].category)
        {
          StrOrder.LessTransitive(s.category, gs[0].category, gs[j - 1].category);
        }
      } else {
        StrOrder.LessTotal(s.category, gs[0].category);
        InsertSectionSorted(s, gs[1..]);
        InsertSectionAbove(gs[0].category, s, gs[1..]);
      }
    }
  }

  lemma {:induction false} SortSectionsSorted(gs: seq<Section>)
    requires DistinctCategories(gs)
    ensures SortedByCategory(SortSections(gs))
    decreases |gs|
  {
    if |gs| > 0 {
      SortSectionsSorted(gs[1..]);
      SortSectionsAvoids(gs[0].category, gs[1..]);
      InsertSectionSorted(gs[0], SortSections(gs[1..]));
    }
  }

  /** Every section of the sorted list is a section of the unsorted one, and
      every category of the unsorted list survives the sort. */
  lemma SortSectionsSameSections(gs: seq<Section>)
    ensures forall i :: 0 <= i < |SortSections(gs)| ==> SortSections(gs)[i] in gs
    ensures SectionCategories(SortSections(gs)) == SectionCategories(gs)
  {
    var r := SortSections(gs);
    forall i | 0 <= i < |r|
      ensures r[i] in gs
    {
      assert r[i] in multiset(gs);
    }
    forall k | k in SectionCategories(gs)
      ensures k in SectionCategories(r)
    {
      var m :| 0 <= m < |gs| && gs[m].category == k;
      assert gs[m] in multiset(r);
      var i :| 0 <= i < |r| && r[i] == gs[m];
    }
  }

  // ---------------------------------------------------------------------
  // The digest

  /** The digest of a non-empty change list: its sections are in strictly
      ascending category order; there is one section per category present,
      each listing exactly that category's changes in their input order;
      every change appears in the section of its own category and in no
      other; and the count in the subject and header equals both the number
      of changes and the number of listed entries. */
  lemma DigestSections(changes: seq<ChangeRecord>)
    requires |changes| > 0
    ensures var d := BuildDigest(changes).value;
            && SortedByCategory(d.sections)
            && SectionCategories(d.sections) == CategoriesOf(changes)
            && (forall i :: 0 <= i < |d.sections| ==>
                  && |d.sections[i].changes| > 0
                  && d.sections[i].changes == InCategory(changes, d.sections[i].category))
            && (forall j, i :: 0 <= j < |changes| && 0 <= i < |d.sections| ==>
                  (changes[j] in d.sections[i].changes <==> d.sections[i].category == DigestCategory(changes[j])))
            && d.count == |changes| == TotalSize(d.sections)
  {
    var gs := GroupByCategory(changes);
    var sorted := SortSections(gs);
    assert BuildDigest(changes).value.sections == sorted;
    GroupByCategoryGroups(changes);
    SortSectionsSorted(gs);
    SortSectionsSameSections(gs);
    SectionsFromGroups(changes, gs, sorted);
  }

  /** Sections taken from a grouping of `changes` each list exactly their
      category's changes. */
  lemma SectionsFromGroups(changes: seq<ChangeRecord>, gs: seq<Section>, rs: seq<Section>)
    requires GroupsOf(changes, gs)
    requires forall i :: 0 <= i < |rs| ==> rs[i] in gs
    ensures forall i :: 0 <= i < |rs| ==>
              |rs[i].changes| > 0 && rs[i].changes == InCategory(changes, rs[i].category)
    ensures forall j, i :: 0 <= j < |changes| && 0 <= i < |rs| ==>
              (changes[j] in rs[i].changes <==> rs[i].category == DigestCategory(changes[j]))
  {
    forall i | 0 <= i < |rs|
      ensures |rs[i].changes| > 0 && rs[i].changes == InCategory(changes, rs[i].category)
    {
      var m :| 0 <= m < |gs| && gs[m] == rs[i];
    }
    forall j, i | 0 <= j < |changes| && 0 <= i < |rs|
      ensures changes[j] in rs[i].changes <==> rs[i].category == DigestCategory(changes[j])
    {
      InCategoryMembers(changes, rs[i].category, changes[j]);
    }
  }

  /** Each change is listed in exactly one section. */
  lemma EachChangeInOneSection(changes: seq<ChangeRecord>, j: int)
    requires 0 <= j < |changes|
    ensures var d := BuildDigest(changes).value;
            && (exists i :: 0 <= i < |d.sections| && changes[j] in d.sections[i].changes)
            && (forall i1, i2 ::
                  (0 <= i1 < |d.sections| && 0 <= i2 < |d.sections|
                   && changes[j] in d.sections[i1].changes && changes[j] in d.sections[i2].changes) ==> i1 == i2)
  {
    DigestSections(changes);
    var d := BuildDigest(changes).value;
    var k := DigestCategory(changes[j]);
    assert k in CategoriesOf(changes);
    OneSectionOf(d.sections, changes[j], k);
  }

  /** In sections with distinct categories, an entry listed exactly under
      category `k`, which has a section, is listed in exactly one section. */
  lemma OneSectionOf(gs: seq<Section>, x: ChangeRecord, k: string)
    requires SortedByCategory(gs) && k in SectionCategories(gs)
    requires forall i :: 0 <= i < |gs| ==> (x in gs[i].changes <==> gs[i].category == k)
    ensures exists i :: 0 <= i < |gs| && x in gs[i].changes
    ensures forall i1, i2 ::
              (0 <= i1 < |gs| && 0 <= i2 < |gs| && x in gs[i1].changes && x in gs[i2].changes) ==> i1 == i2
  {
    var i :| 0 <= i < |gs| && gs[i].category == k;
    assert x in gs[i].changes;
    SortedCategoriesDistinct(gs);
  }

  lemma SortedCategoriesDistinct(gs: seq<Section>)
    requires SortedByCategory(gs)
    ensures forall i1, i2 :: 0 <= i1 < |gs| && 0 <= i2 < |gs| && gs[i1].category == gs[i2].category ==> i1 == i2
  {
    forall i1, i2 | 0 <= i1 < |gs| && 0 <= i2 < |gs| && gs[i1].category == gs[i2].category
      ensures i1 == i2
    {
      StrOrder.LessIrreflexive(gs[i1].category);
    }
  }

  /** A change without a category is listed under `Uncategorized`. */
  lemma UncategorizedDefault(changes: seq<ChangeRecord>, j: int)
    requires 0 <= j < |changes| && changes[j].category.None?
    ensures var d := BuildDigest(changes).value;
            forall i :: 0 <= i < |d.sections| && changes[j] in d.sections[i].changes ==>
              d.sections[i].category == Uncategorized
  {
    DigestSections(changes);
  }
}
