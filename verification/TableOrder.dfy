/** The order of the rows of the Table view (models/view_rows.c, `table_compare` and the sorting
    in `wena_view_table_rows`). Times and swimlane positions are integers. */
module TableOrder {
  import opened BitStreams
  import opened MergeSorting
  import opened NaturalOrder

  datatype Field = Title | List | Swimlane | Assignees | Members | Labels | Received | Start | Due | End

  datatype Row = Row(
    title: Text, listTitle: Text, swimlaneTitle: Text, swimlaneSort: int, swimlaneId: Text,
    assignees: Text, members: Text, labels: Text,
    received: Option<int>, start: Option<int>, due: Option<int>, end: Option<int>)

  function TableText(r: Row, field: Field): Text
  {
    match field
    case Title => r.title
    case List => r.listTitle
    case Swimlane => r.swimlaneTitle
    case Assignees => r.assignees
    case Members => r.members
    case Labels => r.labels
    case _ => []
  }

  /** The time a field shows, if it shows times. */
  function TableTime(r: Row, field: Field): Option<Option<int>>
  {
    match field
    case Received => Some(r.received)
    case Start => Some(r.start)
    case Due => Some(r.due)
    case End => Some(r.end)
    case _ => None
  }

  predicate Empty(r: Row, field: Field)
  {
    match TableTime(r, field)
    case Some(time) => time.None?
    case None => TableText(r, field) == []
  }

  // ----- the comparator

  /** The swimlane part, in a grouped table. */
  function CompareGroups(a: Row, b: Row): int
  {
    if a.swimlaneSort != b.swimlaneSort then Sign(a.swimlaneSort, b.swimlaneSort)
    else if Natural(a.swimlaneTitle, b.swimlaneTitle) != 0 then Natural(a.swimlaneTitle, b.swimlaneTitle)
    else Natural(a.swimlaneId, b.swimlaneId)
  }

  /** Two values of one field. */
  function CompareValues(field: Field, a: Row, b: Row): int
    requires !Empty(a, field) && !Empty(b, field)
  {
    match TableTime(a, field)
    case Some(time) => Sign(time.value, TableTime(b, field).value.value)
    case None => Natural(TableText(a, field), TableText(b, field))
  }

  /** The field part: empty values last, the direction only between two values. */
  function CompareFields(field: Field, descending: bool, a: Row, b: Row): int
  {
    if Empty(a, field) then if Empty(b, field) then 0 else 1
    else if Empty(b, field) then -1
    else if descending then -CompareValues(field, a, b)
    else CompareValues(field, a, b)
  }

  /** `table_compare`. */
  method TableCompare(field: Field, descending: bool, group: bool, a: Row, b: Row) returns (result: int)
    ensures result == Order(field, descending, group)(a, b)
  {
    hide Natural;
    if group {
      if a.swimlaneSort != b.swimlaneSort {
        return if a.swimlaneSort < b.swimlaneSort then -1 else 1;
      }
      result := CompareNatural(a.swimlaneTitle, b.swimlaneTitle);
      if result != 0 {
        return;
      }
      result := CompareNatural(a.swimlaneId, b.swimlaneId);
      if result != 0 {
        return;
      }
    }
    result := 0;
    var aEmpty, bEmpty := Empty(a, field), Empty(b, field);
    if TableTime(a, field).Some? {
      if !aEmpty && !bEmpty {
        var x, y := TableTime(a, field).value.value, TableTime(b, field).value.value;
        result := if x < y then -1 else if x > y then 1 else 0;
      }
    } else if !aEmpty && !bEmpty {
      result := CompareNatural(TableText(a, field), TableText(b, field));
    }
    if aEmpty {
      result := if bEmpty then 0 else 1;
    } else if bEmpty {
      result := -1;
    } else if result != 0 && descending {
      result := -result;
    }
    if result == 0 && field != Title {
      result := CompareNatural(a.title, b.title);
    }
  }

  // ----- preorders

  function Groups(group: bool): (Row, Row) -> int { (a, b) => if group then CompareGroups(a, b) else 0 }

  function Fields(field: Field, descending: bool): (Row, Row) -> int { (a, b) => CompareFields(field, descending, a, b) }

  function Titles(field: Field): (Row, Row) -> int { (a: Row, b: Row) => if field == Title then 0 else Natural(a.title, b.title) }

  /** The order of the table: by swimlane when grouped, by the field, and by title. */
  function Order(field: Field, descending: bool, group: bool): (Row, Row) -> int
  {
    Then(Groups(group), Then(Fields(field, descending), Titles(field)))
  }

  lemma GroupsArePreorder(group: bool)
    ensures Preorder(Groups(group))
  {
    hide Natural;
    var cmp := Groups(group);
    forall a: Row, b: Row, c: Row ensures Chain(cmp, a, b, c) {
      NaturalRanks(a.swimlaneTitle, b.swimlaneTitle, c.swimlaneTitle);
      NaturalRanks(a.swimlaneId, b.swimlaneId, c.swimlaneId);
    }
    forall a: Row, b: Row ensures cmp(a, b) < 0 <==> cmp(b, a) > 0 {
      NaturalRanks(a.swimlaneTitle, b.swimlaneTitle, a.swimlaneTitle);
      NaturalRanks(a.swimlaneId, b.swimlaneId, a.swimlaneId);
    }
  }

  lemma NaturalRanks(a: Text, b: Text, c: Text)
    ensures Natural(b, a) == -Natural(a, b) && Natural(c, b) == -Natural(b, c) && Natural(c, a) == -Natural(a, c)
    ensures Natural(a, b) <= 0 && Natural(b, c) <= 0 ==> Natural(a, c) <= 0
    ensures Natural(a, b) < 0 && Natural(b, c) <= 0 ==> Natural(a, c) < 0
    ensures Natural(a, b) <= 0 && Natural(b, c) < 0 ==> Natural(a, c) < 0
  {
    hide Natural;
    NaturalIsPreorder(a, b, c);
    NaturalIsPreorder(b, c, a);
    NaturalIsPreorder(c, a, b);
  }

  lemma FieldsArePreorder(field: Field, descending: bool)
    ensures Preorder(Fields(field, descending))
  {
    hide Natural, TableText;
    var cmp := Fields(field, descending);
    forall a: Row, b: Row, c: Row ensures Chain(cmp, a, b, c) {
      NaturalRanks(TableText(a, field), TableText(b, field), TableText(c, field));
      NaturalRanks(TableText(c, field), TableText(b, field), TableText(a, field));
    }
    forall a: Row, b: Row ensures cmp(a, b) < 0 <==> cmp(b, a) > 0 {
      NaturalRanks(TableText(a, field), TableText(b, field), TableText(a, field));
    }
  }

  lemma TitlesArePreorder(field: Field)
    ensures Preorder(Titles(field))
  {
    hide Natural;
    var cmp := Titles(field);
    forall a: Row, b: Row, c: Row ensures Chain(cmp, a, b, c) {
      NaturalRanks(a.title, b.title, c.title);
    }
    forall a: Row, b: Row ensures cmp(a, b) < 0 <==> cmp(b, a) > 0 {
      NaturalRanks(a.title, b.title, a.title);
    }
  }

  /** For every field, direction and grouping the rows are totally preordered. */
  lemma OrderIsPreorder(field: Field, descending: bool, group: bool)
    ensures Preorder(Order(field, descending, group))
  {
    hide Preorder, Groups, Fields, Titles, Then;
    GroupsArePreorder(group);
    FieldsArePreorder(field, descending);
    TitlesArePreorder(field);
    ThenIsPreorder(Fields(field, descending), Titles(field));
    ThenIsPreorder(Groups(group), Then(Fields(field, descending), Titles(field)));
  }

  /** Empty values go last in both directions, within a swimlane when grouped. */
  lemma EmptyLast(field: Field, descending: bool, group: bool, a: Row, b: Row)
    requires Empty(a, field) && !Empty(b, field) && (group ==> CompareGroups(a, b) == 0)
    ensures Order(field, descending, group)(a, b) > 0 && Order(field, descending, group)(b, a) < 0
  {
    hide Natural;
    NaturalRanks(a.swimlaneTitle, b.swimlaneTitle, a.swimlaneTitle);
    NaturalRanks(a.swimlaneId, b.swimlaneId, a.swimlaneId);
  }

  /** Reversing the direction reverses the order of two values, and nothing else. */
  lemma DirectionReverses(field: Field, a: Row, b: Row)
    ensures CompareFields(field, true, a, b) ==
            if Empty(a, field) || Empty(b, field) then CompareFields(field, false, a, b) else CompareFields(field, false, b, a)
  {
    hide Natural, TableText;
    NaturalRanks(TableText(a, field), TableText(b, field), TableText(a, field));
  }

  // ----- sorting the rows

  /** The characters of a string, each ranked by itself. */
  function Plain(s: Text): seq<Token> { seq(|s|, i requires 0 <= i < |s| => Token(s[i], 0)) }

  /** `by_title_bytes`. */
  function TitleBytes(): (Row, Row) -> int { (a: Row, b: Row) => CompareKeys(Plain(a.title), Plain(b.title)) }

  lemma TitleBytesIsPreorder()
    ensures Preorder(TitleBytes())
  {
    hide CompareKeys, Plain;
    forall a: Row, b: Row, c: Row ensures Chain(TitleBytes(), a, b, c) {
      if TitleBytes()(a, b) <= 0 && TitleBytes()(b, c) <= 0 {
        KeysTransitive(Plain(a.title), Plain(b.title), Plain(c.title));
      }
    }
    forall a: Row, b: Row ensures TitleBytes()(a, b) < 0 <==> TitleBytes()(b, a) > 0 {
      KeysReversed(Plain(a.title), Plain(b.title));
    }
  }

  /** `strcmp`: the first bytes that differ decide, and otherwise the longer title goes last. */
  lemma {:induction false} BytesOfTitles(a: Row, b: Row, n: nat)
    requires n <= |a.title| && n <= |b.title| && a.title[..n] == b.title[..n]
    ensures n < |a.title| && n < |b.title| && a.title[n] < b.title[n] ==> TitleBytes()(a, b) < 0 && TitleBytes()(b, a) > 0
    ensures n == |a.title| < |b.title| ==> TitleBytes()(a, b) < 0 && TitleBytes()(b, a) > 0
    ensures n == |a.title| == |b.title| ==> TitleBytes()(a, b) == 0
    decreases n
  {
    hide Plain;
    if n > 0 {
      var c, d := a.(title := a.title[1..]), b.(title := b.title[1..]);
      assert a.title[..n][0] == b.title[..n][0];
      assert c.title[..n - 1] == a.title[..n][1..] && d.title[..n - 1] == b.title[..n][1..];
      BytesOfTitles(c, d, n - 1);
      PlainStep(a.title);
      PlainStep(b.title);
    } else {
      PlainStep(a.title);
      PlainStep(b.title);
    }
  }

  lemma PlainStep(s: Text)
    ensures |Plain(s)| == |s|
    ensures s != [] ==> Plain(s)[0] == Token(s[0], 0) && Plain(s)[1..] == Plain(s[1..])
  {
  }

  // ----- what stands before what, in the rows' own fields

  /** Times: what is not set goes last, and the direction is that of the times that are. */
  ghost predicate TimesInOrder(descending: bool, x: Option<int>, y: Option<int>)
  {
    match (x, y)
    case (None, _) => y.None?
    case (Some(_), None) => true
    case (Some(m), Some(n)) => if descending then m >= n else m <= n
  }

  ghost predicate TextsInOrder(descending: bool, x: Text, y: Text)
  {
    if x == [] then y == []
    else y == [] || if descending then Natural(x, y) >= 0 else Natural(x, y) <= 0
  }

  /** Rows of one swimlane, of which `a` may stand before `b`. */
  ghost predicate FieldInOrder(field: Field, descending: bool, a: Row, b: Row)
  {
    match field
    case Title => TextsInOrder(descending, a.title, b.title)
    case List => TextsInOrder(descending, a.listTitle, b.listTitle)
    case Swimlane => TextsInOrder(descending, a.swimlaneTitle, b.swimlaneTitle)
    case Assignees => TextsInOrder(descending, a.assignees, b.assignees)
    case Members => TextsInOrder(descending, a.members, b.members)
    case Labels => TextsInOrder(descending, a.labels, b.labels)
    case Received => TimesInOrder(descending, a.received, b.received)
    case Start => TimesInOrder(descending, a.start, b.start)
    case Due => TimesInOrder(descending, a.due, b.due)
    case End => TimesInOrder(descending, a.end, b.end)
  }

  /** Rows of which `a` may stand before `b`: in a grouped table the swimlane's position decides,
      then its title and its id; then the field; then the titles, where the field says nothing. */
  ghost predicate RowsInOrder(field: Field, descending: bool, group: bool, a: Row, b: Row)
  {
    if group && a.swimlaneSort != b.swimlaneSort then a.swimlaneSort < b.swimlaneSort
    else if group && Natural(a.swimlaneTitle, b.swimlaneTitle) != 0 then Natural(a.swimlaneTitle, b.swimlaneTitle) < 0
    else if group && Natural(a.swimlaneId, b.swimlaneId) != 0 then Natural(a.swimlaneId, b.swimlaneId) < 0
    else
      && FieldInOrder(field, descending, a, b)
      && (field != Title && FieldInOrder(field, descending, b, a) ==> Natural(a.title, b.title) <= 0)
  }

  /** The comparator says exactly which of two rows may stand before the other. */
  lemma OrderOfFields(field: Field, descending: bool, group: bool, a: Row, b: Row)
    ensures Order(field, descending, group)(a, b) <= 0 <==> RowsInOrder(field, descending, group, a, b)
  {
    hide Natural;
    NaturalRanks(TableText(a, field), TableText(b, field), TableText(a, field));
  }

  /** Within one swimlane the field decides where it says something. */
  lemma FieldDecides(field: Field, descending: bool, group: bool, a: Row, b: Row)
    requires group ==> a.swimlaneSort == b.swimlaneSort && a.swimlaneTitle == b.swimlaneTitle && a.swimlaneId == b.swimlaneId
    ensures CompareFields(field, descending, a, b) != 0 ==>
              Order(field, descending, group)(a, b) == CompareFields(field, descending, a, b)
  {
    hide Natural, CompareFields;
    NaturalIsPreorder(a.swimlaneTitle, a.swimlaneTitle, a.swimlaneTitle);
    NaturalIsPreorder(a.swimlaneId, a.swimlaneId, a.swimlaneId);
  }

  /** Two times that are set, within one swimlane when grouped: the earlier goes first, and last when
      the direction is reversed. */
  lemma EarlierFirst(group: bool, a: Row, b: Row)
    requires group ==> a.swimlaneSort == b.swimlaneSort && a.swimlaneTitle == b.swimlaneTitle && a.swimlaneId == b.swimlaneId
    ensures a.received.Some? && b.received.Some? && a.received.value < b.received.value ==>
              Order(Received, false, group)(a, b) < 0 && Order(Received, true, group)(a, b) > 0
    ensures a.start.Some? && b.start.Some? && a.start.value < b.start.value ==>
              Order(Start, false, group)(a, b) < 0 && Order(Start, true, group)(a, b) > 0
    ensures a.due.Some? && b.due.Some? && a.due.value < b.due.value ==>
              Order(Due, false, group)(a, b) < 0 && Order(Due, true, group)(a, b) > 0
    ensures a.end.Some? && b.end.Some? && a.end.value < b.end.value ==>
              Order(End, false, group)(a, b) < 0 && Order(End, true, group)(a, b) > 0
  {
    hide Natural, Order;
    FieldDecides(Received, false, group, a, b);
    FieldDecides(Received, true, group, a, b);
    FieldDecides(Start, false, group, a, b);
    FieldDecides(Start, true, group, a, b);
    FieldDecides(Due, false, group, a, b);
    FieldDecides(Due, true, group, a, b);
    FieldDecides(End, false, group, a, b);
    FieldDecides(End, true, group, a, b);
  }

  /** Two texts that are not empty, likewise by the natural order. */
  lemma LesserFirst(group: bool, a: Row, b: Row)
    requires group ==> a.swimlaneSort == b.swimlaneSort && a.swimlaneTitle == b.swimlaneTitle && a.swimlaneId == b.swimlaneId
    ensures a.title != [] && Natural(a.title, b.title) < 0 ==>
              Order(Title, false, group)(a, b) < 0 && Order(Title, true, group)(a, b) > 0
    ensures a.listTitle != [] && Natural(a.listTitle, b.listTitle) < 0 ==>
              Order(List, false, group)(a, b) < 0 && Order(List, true, group)(a, b) > 0
    ensures a.swimlaneTitle != [] && Natural(a.swimlaneTitle, b.swimlaneTitle) < 0 ==>
              Order(Swimlane, false, group)(a, b) < 0 && Order(Swimlane, true, group)(a, b) > 0
    ensures a.assignees != [] && Natural(a.assignees, b.assignees) < 0 ==>
              Order(Assignees, false, group)(a, b) < 0 && Order(Assignees, true, group)(a, b) > 0
    ensures a.members != [] && Natural(a.members, b.members) < 0 ==>
              Order(Members, false, group)(a, b) < 0 && Order(Members, true, group)(a, b) > 0
    ensures a.labels != [] && Natural(a.labels, b.labels) < 0 ==>
              Order(Labels, false, group)(a, b) < 0 && Order(Labels, true, group)(a, b) > 0
  {
    hide Natural, Order;
    FieldDecides(Title, false, group, a, b);
    FieldDecides(Title, true, group, a, b);
    FieldDecides(List, false, group, a, b);
    FieldDecides(List, true, group, a, b);
    FieldDecides(Swimlane, false, group, a, b);
    FieldDecides(Swimlane, true, group, a, b);
    FieldDecides(Assignees, false, group, a, b);
    FieldDecides(Assignees, true, group, a, b);
    FieldDecides(Members, false, group, a, b);
    FieldDecides(Members, true, group, a, b);
    FieldDecides(Labels, false, group, a, b);
    FieldDecides(Labels, true, group, a, b);
    forall s: Text | s != [] ensures Natural(s, []) > 0 {
      NothingFirst(s);
    }
  }

  /** A sorted table, read row by row. */
  lemma TableInOrder(s: seq<Row>, field: Field, descending: bool, group: bool, i: nat, j: nat)
    requires Sorted(s, Then(Order(field, descending, group), TitleBytes())) && i < j < |s|
    ensures RowsInOrder(field, descending, group, s[i], s[j])
    ensures RowsInOrder(field, descending, group, s[j], s[i]) ==> TitleBytes()(s[i], s[j]) <= 0
  {
    hide Natural, RowsInOrder, Order, TitleBytes;
    OrderOfFields(field, descending, group, s[i], s[j]);
    OrderOfFields(field, descending, group, s[j], s[i]);
    OrderReversed(field, descending, group, s[i], s[j]);
  }

  lemma OrderReversed(field: Field, descending: bool, group: bool, a: Row, b: Row)
    ensures Order(field, descending, group)(a, b) < 0 <==> Order(field, descending, group)(b, a) > 0
  {
    hide Order;
    OrderIsPreorder(field, descending, group);
  }

  /** The two sorts of `wena_view_table_rows`: rows that rank the same in the table stand in the
      order of the bytes of their titles, and those of one title as they came. */
  method SortRows(rows: array<Row>, field: Field, descending: bool, group: bool)
    modifies rows
    ensures Sorted(rows[..], Then(Order(field, descending, group), TitleBytes()))
    ensures Stable(rows[..], old(rows[..]), Then(Order(field, descending, group), TitleBytes()))
    ensures forall i, j :: 0 <= i < j < rows.Length ==> RowsInOrder(field, descending, group, rows[i], rows[j])
  {
    hide Preorder, Order, TitleBytes, Sorted, Stable, Then, RowsInOrder;
    OrderIsPreorder(field, descending, group);
    TitleBytesIsPreorder();
    ghost var s := rows[..];
    Sort(rows, TitleBytes());
    ghost var byTitle := rows[..];
    Sort(rows, Order(field, descending, group));
    TwoSorts(s, byTitle, rows[..], TitleBytes(), Order(field, descending, group));
    ghost var sorted := rows[..];
    forall i, j | 0 <= i < j < rows.Length ensures RowsInOrder(field, descending, group, rows[i], rows[j]) {
      TableInOrder(sorted, field, descending, group, i, j);
    }
  }
}
