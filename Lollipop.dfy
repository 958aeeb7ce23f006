/**
 * The tabulation behind the progress lollipop chart: each indicator's goal
 * and progress status, the indicators with a measured status, their count per
 * (goal, status) group with the chart level of each group, the pivoted
 * goal-by-status table, the total, the largest group and the span of levels
 * each goal covers. Reading the YAML file and drawing the chart are not part
 * of this model; the data frames become sequences of rows.
 */
module Lollipop {
  import opened Wrappers
  import opened Strings

  // ---------------------------------------------------------------------------
  // Statuses, scores and chart levels
  // ---------------------------------------------------------------------------

  /** The five progress statuses that count as measured, from chart level 0 up to 4. */
  const Statuses: seq<string> :=
    ["deterioration", "limited_progress", "moderate_progress", "substantial_progress", "target_achieved"]

  /** `status2level`: the chart level of a status; any other string gets no level. */
  function StatusToLevel(status: string): (r: Option<nat>)
    ensures r.Some? <==> status in Statuses
    ensures r.Some? ==> r.value < |Statuses| && Statuses[r.value] == status
  {
    if status == "deterioration" then Some(0)
    else if status == "limited_progress" then Some(1)
    else if status == "moderate_progress" then Some(2)
    else if status == "substantial_progress" then Some(3)
    else if status == "target_achieved" then Some(4)
    else None
  }

  /** Listed by level, the five statuses are also in ascending string order. */
  lemma StatusesAscending()
    ensures forall i, j :: 0 <= i < j < |Statuses| ==> StrLess(Statuses[i], Statuses[j])
  {
    // The first characters alone, 'd' < 'l' < 'm' < 's' < 't', decide every pair.
    forall i, j | 0 <= i < j < |Statuses|
      ensures StrLess(Statuses[i], Statuses[j])
    {
      assert Statuses[i][0] < Statuses[j][0];
    }
  }

  /** `status2level` is order-preserving: between measured statuses, string order and level order agree. */
  lemma StatusToLevelOrder(a: string, b: string)
    requires a in Statuses && b in Statuses
    ensures StrLess(a, b) <==> StatusToLevel(a).value < StatusToLevel(b).value
  {
    var i, j := StatusToLevel(a).value, StatusToLevel(b).value;
    StatusesAscending();
    if i < j {
      assert StrLess(a, b);
    } else if j < i {
      assert StrLess(b, a);
      StrLessAsymmetric(b, a);
    } else {
      StrLessIrreflexive(a);
    }
  }

  /** A progress score: the word `target_achieved`, or a number on the scale from -5 to 5. */
  datatype Score = TargetAchieved | Num(value: real)

  /** `score2level`: half-open buckets [-5,-2.5), [-2.5,0), [0,2.5) and the closed bucket [2.5,5]. */
  function ScoreToLevel(score: Score): (r: Option<nat>)
    ensures score.TargetAchieved? ==> r == Some(4)
    ensures score.Num? ==> (r.Some? <==> -5.0 <= score.value <= 5.0)
    ensures score.Num? && r.Some? ==> r.value <= 3
  {
    match score
    case TargetAchieved => Some(4)
    case Num(x) =>
      if 2.5 <= x <= 5.0 then Some(3)
      else if 0.0 <= x < 2.5 then Some(2)
      else if -2.5 <= x < 0.0 then Some(1)
      else if -5.0 <= x < -2.5 then Some(0)
      else None
  }

  /** Each number in [-5, 5] falls in exactly one bucket, and the bucket is determined by the bounds. */
  lemma ScoreBuckets(x: real)
    requires -5.0 <= x <= 5.0
    ensures ScoreToLevel(Num(x)) == Some(0) <==> x < -2.5
    ensures ScoreToLevel(Num(x)) == Some(1) <==> -2.5 <= x < 0.0
    ensures ScoreToLevel(Num(x)) == Some(2) <==> 0.0 <= x < 2.5
    ensures ScoreToLevel(Num(x)) == Some(3) <==> 2.5 <= x
  {
  }

  /** A higher score never gets a lower level. */
  lemma ScoreToLevelMonotone(x: real, y: real)
    requires -5.0 <= x <= y <= 5.0
    ensures ScoreToLevel(Num(x)).value <= ScoreToLevel(Num(y)).value
  {
  }

  // ---------------------------------------------------------------------------
  // The indicator table and the measured filter
  // ---------------------------------------------------------------------------

  /** One entry of the progress file: an indicator id with its `progress_status` and `score`. The file
      is a YAML mapping, so the ids of its entries are taken to be distinct. */
  datatype Entry = Entry(id: string, status: Option<string>, score: Option<Score>)

  /** One row of the indicator data frame. */
  datatype Row = Row(id: string, goal: string, status: Option<string>, score: Option<Score>)

  /** An indicator's goal: its id up to the first '-'. */
  function GoalOf(id: string): (g: string)
    ensures g <= id && '-' !in g
    ensures |g| < |id| ==> id[|g|] == '-'
  {
    BeforeFirst(id, '-')
  }

  /** The goal is the segment before the first '-', or the whole id when there is no '-'. */
  lemma GoalOfSegments(id: string, goal: string, rest: string)
    ensures '-' !in id ==> GoalOf(id) == id
    ensures '-' !in goal ==> GoalOf(goal + "-" + rest) == goal
  {
    if '-' !in id {
      BeforeFirstUnique(id, '-', id);
    }
    if '-' !in goal {
      BeforeFirstOfJoin(goal, '-', rest);
    }
  }

  /** The data frame built from the file, one row per entry in file order. */
  function Progress(content: seq<Entry>): (rows: seq<Row>)
    ensures |rows| == |content|
    ensures forall i :: 0 <= i < |rows| ==>
      rows[i] == Row(content[i].id, GoalOf(content[i].id), content[i].status, content[i].score)
  {
    seq(|content|, i requires 0 <= i < |content| =>
      Row(content[i].id, GoalOf(content[i].id), content[i].status, content[i].score))
  }

  predicate IsMeasured(status: Option<string>)
  {
    status.Some? && status.value in Statuses
  }

  /** `df_measured`: the rows whose status is one of the five measured statuses, in order. */
  function Measured(rows: seq<Row>): (r: seq<Row>)
    ensures |r| <= |rows|
    ensures forall i :: 0 <= i < |r| ==> IsMeasured(r[i].status)
  {
    if rows == [] then []
    else (if IsMeasured(rows[0].status) then [rows[0]] else []) + Measured(rows[1..])
  }

  /** The filter keeps every occurrence of a measured row and none of the others. */
  lemma {:induction false} MeasuredCounts(rows: seq<Row>)
    ensures forall x :: multiset(Measured(rows))[x] == if IsMeasured(x.status) then multiset(rows)[x] else 0
  {
    if rows != [] {
      MeasuredCounts(rows[1..]);
      assert rows == [rows[0]] + rows[1..];
    }
  }

  /** The kept rows are exactly the rows with a measured status. */
  lemma MeasuredMembers(rows: seq<Row>)
    ensures forall x :: x in Measured(rows) <==> x in rows && IsMeasured(x.status)
  {
    MeasuredCounts(rows);
    forall x ensures x in Measured(rows) <==> x in rows && IsMeasured(x.status) {
      assert x in Measured(rows) <==> x in multiset(Measured(rows));
      assert x in rows <==> x in multiset(rows);
    }
  }

  /** The filter keeps the relative order of the rows: filtering a concatenation concatenates the filtered parts. */
  lemma {:induction false} MeasuredAppend(a: seq<Row>, b: seq<Row>)
    ensures Measured(a + b) == Measured(a) + Measured(b)
  {
    if a == [] {
      assert a + b == b;
    } else {
      MeasuredAppend(a[1..], b);
      MeasuredAppendStep(a, b);
    }
  }

  lemma MeasuredAppendStep(a: seq<Row>, b: seq<Row>)
    requires a != [] && Measured(a[1..] + b) == Measured(a[1..]) + Measured(b)
    ensures Measured(a + b) == Measured(a) + Measured(b)
  {
    assert (a + b)[0] == a[0] && (a + b)[1..] == a[1..] + b;
  }

  /** The number of file entries whose status is one of the five measured statuses. */
  function MeasuredEntries(content: seq<Entry>): nat
  {
    if content == [] then 0
    else (if IsMeasured(content[0].status) then 1 else 0) + MeasuredEntries(content[1..])
  }

  /** `df_measured` has one row per entry of the file with a measured status. */
  lemma {:induction false} ProgressMeasured(content: seq<Entry>)
    ensures |Measured(Progress(content))| == MeasuredEntries(content)
  {
    if content != [] {
      ProgressMeasured(content[1..]);
      assert Progress(content)[1..] == Progress(content[1..]);
    }
  }

  // ---------------------------------------------------------------------------
  // Group-by (goal, status), sorted as pandas sorts group keys
  // ---------------------------------------------------------------------------

  type Key = (string, string)

  /** The order of (goal, status) group keys: by goal, then by status. */
  predicate KeyLess(a: Key, b: Key)
  {
    StrLess(a.0, b.0) || (a.0 == b.0 && StrLess(a.1, b.1))
  }

  lemma KeyLessTransitive(a: Key, b: Key, c: Key)
    requires KeyLess(a, b) && KeyLess(b, c)
    ensures KeyLess(a, c)
  {
    if StrLess(a.0, b.0) && StrLess(b.0, c.0) {
      StrLessTransitive(a.0, b.0, c.0);
    } else if a.0 == b.0 == c.0 {
      StrLessTransitive(a.1, b.1, c.1);
    }
  }

  lemma KeyLessTotal(a: Key, b: Key)
    ensures a == b || KeyLess(a, b) || KeyLess(b, a)
  {
    StrLessTotal(a.0, b.0);
    StrLessTotal(a.1, b.1);
  }

  lemma KeyLessIrreflexive(a: Key)
    ensures !KeyLess(a, a)
  {
    StrLessIrreflexive(a.0);
    StrLessIrreflexive(a.1);
  }

  predicate KeysSorted(ks: seq<Key>)
  {
    forall i, j :: 0 <= i < j < |ks| ==> KeyLess(ks[i], ks[j])
  }

  /** Adds a key to a sorted list of distinct keys, unless it is already there (InsertStr below is the
      same insertion on plain strings, for the pivot's labels). */
  function InsertKey(ks: seq<Key>, k: Key): seq<Key>
  {
    if ks == [] then [k]
    else if ks[0] == k then ks
    else if KeyLess(k, ks[0]) then [k] + ks
    else [ks[0]] + InsertKey(ks[1..], k)
  }

  lemma {:induction false} InsertKeySorted(ks: seq<Key>, k: Key)
    requires KeysSorted(ks)
    ensures KeysSorted(InsertKey(ks, k))
    ensures forall x :: x in InsertKey(ks, k) <==> x in ks || x == k
  {
    if ks == [] {
    } else if ks[0] == k {
    } else if KeyLess(k, ks[0]) {
      var r := [k] + ks;
      forall i, j | 0 <= i < j < |r| ensures KeyLess(r[i], r[j]) {
        if i == 0 && j > 1 {
          KeyLessTransitive(k, ks[0], ks[j - 1]);
        }
      }
    } else {
      KeyLessTotal(k, ks[0]);
      InsertKeySorted(ks[1..], k);
      var t := InsertKey(ks[1..], k);
      var r := [ks[0]] + t;
      forall i, j | 0 <= i < j < |r| ensures KeyLess(r[i], r[j]) {
        if i == 0 {
          assert r[j] in t;
        }
      }
    }
  }

  /** The number of rows with a status that fall in the group `k`. */
  function Count(rows: seq<Row>, k: Key): nat
  {
    if rows == [] then 0
    else
      var last := rows[|rows| - 1];
      Count(rows[..|rows| - 1], k) + (if last.status == Some(k.1) && last.goal == k.0 then 1 else 0)
  }

  /** The number of rows that have a status (pandas drops groups keyed by a missing value). */
  function Keyed(rows: seq<Row>): nat
  {
    if rows == [] then 0
    else Keyed(rows[..|rows| - 1]) + (if rows[|rows| - 1].status.Some? then 1 else 0)
  }

  /** The group keys of the rows, sorted, each once. */
  function GroupKeys(rows: seq<Row>): seq<Key>
  {
    if rows == [] then []
    else
      var last := rows[|rows| - 1];
      var ks := GroupKeys(rows[..|rows| - 1]);
      if last.status.Some? then InsertKey(ks, (last.goal, last.status.value)) else ks
  }

  /** GroupKeys lists, in sorted order, exactly the keys that some row has. */
  lemma {:induction false} GroupKeysSpec(rows: seq<Row>)
    ensures KeysSorted(GroupKeys(rows))
    ensures forall k :: k in GroupKeys(rows) <==> Count(rows, k) > 0
  {
    if rows != [] {
      var init, last := rows[..|rows| - 1], rows[|rows| - 1];
      GroupKeysSpec(init);
      if last.status.Some? {
        InsertKeySorted(GroupKeys(init), (last.goal, last.status.value));
      }
    }
  }

  /** One row of `df_by_goal_status`: a group key and the number of indicators in it. */
  datatype Group = Group(goal: string, status: string, number: nat)

  function GroupsOf(ks: seq<Key>, rows: seq<Row>): (gs: seq<Group>)
    ensures |gs| == |ks|
    ensures forall i :: 0 <= i < |ks| ==> gs[i] == Group(ks[i].0, ks[i].1, Count(rows, ks[i]))
  {
    if ks == [] then [] else [Group(ks[0].0, ks[0].1, Count(rows, ks[0]))] + GroupsOf(ks[1..], rows)
  }

  /** `df_by_goal_status`: one group per (goal, status) that occurs, in key order, with its count. */
  function GroupBy(rows: seq<Row>): seq<Group>
  {
    GroupsOf(GroupKeys(rows), rows)
  }

  function KeyOf(g: Group): Key
  {
    (g.goal, g.status)
  }

  /** The groups are in strictly ascending key order, each count is at least 1 and is the number of rows in it,
      and every keyed row's group is present. */
  lemma GroupByCounts(rows: seq<Row>)
    ensures forall i, j :: 0 <= i < j < |GroupBy(rows)| ==> KeyLess(KeyOf(GroupBy(rows)[i]), KeyOf(GroupBy(rows)[j]))
    ensures forall i :: 0 <= i < |GroupBy(rows)| ==>
      GroupBy(rows)[i].number == Count(rows, KeyOf(GroupBy(rows)[i])) >= 1
    ensures forall k :: Count(rows, k) > 0 <==> exists i :: 0 <= i < |GroupBy(rows)| && KeyOf(GroupBy(rows)[i]) == k
  {
    var ks := GroupKeys(rows);
    var gs := GroupBy(rows);
    GroupKeysSpec(rows);
    assert forall i :: 0 <= i < |gs| ==> KeyOf(gs[i]) == ks[i];
    forall k | Count(rows, k) > 0
      ensures exists i :: 0 <= i < |gs| && KeyOf(gs[i]) == k
    {
      var i :| 0 <= i < |ks| && ks[i] == k;
      assert KeyOf(gs[i]) == k;
    }
  }

  /** `ntot`: the sum of the `number` column. */
  function Total(groups: seq<Group>): nat
  {
    if groups == [] then 0 else groups[0].number + Total(groups[1..])
  }

  /** How many times `k` occurs in `ks`. */
  function Occurrences(ks: seq<Key>, k: Key): nat
  {
    if ks == [] then 0 else (if ks[0] == k then 1 else 0) + Occurrences(ks[1..], k)
  }

  lemma {:induction false} OccurrencesSorted(ks: seq<Key>, k: Key)
    requires KeysSorted(ks)
    ensures Occurrences(ks, k) == if k in ks then 1 else 0
  {
    if ks != [] {
      OccurrencesSorted(ks[1..], k);
      if ks[0] == k {
        forall j | 0 < j < |ks| ensures ks[j] != k {
          KeyLessIrreflexive(k);
        }
      }
    }
  }

  /** Taking one more row into account adds one to the total of the group it belongs to. */
  lemma {:induction false} TotalStep(ks: seq<Key>, rows: seq<Row>)
    requires rows != []
    ensures Total(GroupsOf(ks, rows)) == Total(GroupsOf(ks, rows[..|rows| - 1])) +
      (var last := rows[|rows| - 1]; if last.status.Some? then Occurrences(ks, (last.goal, last.status.value)) else 0)
  {
    if ks != [] {
      TotalStep(ks[1..], rows);
    }
  }

  /** Over any sorted key list that covers every group, the counts add up to the number of keyed rows. */
  lemma {:induction false} TotalOfCovering(ks: seq<Key>, rows: seq<Row>)
    requires KeysSorted(ks)
    requires forall k :: Count(rows, k) > 0 ==> k in ks
    ensures Total(GroupsOf(ks, rows)) == Keyed(rows)
  {
    if rows == [] {
      TotalOfEmpty(ks, rows);
    } else {
      var init, last := rows[..|rows| - 1], rows[|rows| - 1];
      TotalOfCovering(ks, init);
      TotalStep(ks, rows);
      if last.status.Some? {
        var k := (last.goal, last.status.value);
        assert Count(rows, k) > 0;
        OccurrencesSorted(ks, k);
      }
    }
  }

  lemma {:induction false} TotalOfEmpty(ks: seq<Key>, rows: seq<Row>)
    requires rows == []
    ensures Total(GroupsOf(ks, rows)) == 0
  {
    if ks != [] {
      TotalOfEmpty(ks[1..], rows);
    }
  }

  /** `ntot` is the number of rows that have a status. */
  lemma GroupByTotal(rows: seq<Row>)
    ensures Total(GroupBy(rows)) == Keyed(rows)
  {
    GroupKeysSpec(rows);
    TotalOfCovering(GroupKeys(rows), rows);
  }

  /** Every row of a measured table has a status. */
  lemma {:induction false} KeyedMeasured(rows: seq<Row>)
    requires forall i :: 0 <= i < |rows| ==> IsMeasured(rows[i].status)
    ensures Keyed(rows) == |rows|
  {
    if rows != [] {
      KeyedMeasured(rows[..|rows| - 1]);
    }
  }

  /** A group built from measured rows has a measured status. */
  lemma {:induction false} CountMeasured(rows: seq<Row>, k: Key)
    requires forall i :: 0 <= i < |rows| ==> IsMeasured(rows[i].status)
    requires Count(rows, k) > 0
    ensures k.1 in Statuses
  {
    var init := rows[..|rows| - 1];
    if Count(init, k) > 0 {
      CountMeasured(init, k);
    }
  }

  /** The `score` column of `df_by_goal_status`: the chart level of each group's status. */
  function Levels(groups: seq<Group>): (levels: seq<Option<nat>>)
    ensures |levels| == |groups|
    ensures forall i :: 0 <= i < |groups| ==> levels[i] == StatusToLevel(groups[i].status)
    ensures AllMeasured(groups) ==> forall i :: 0 <= i < |levels| ==> levels[i].Some? && levels[i].value <= 4
  {
    seq(|groups|, i requires 0 <= i < |groups| => StatusToLevel(groups[i].status))
  }

  predicate AllMeasured(groups: seq<Group>)
  {
    forall i :: 0 <= i < |groups| ==> groups[i].status in Statuses
  }

  // ---------------------------------------------------------------------------
  // The whole tabulation, from the file's entries to the grouped table
  // ---------------------------------------------------------------------------

  /** `df_by_goal_status` computed from the file's entries. */
  function Tabulate(content: seq<Entry>): seq<Group>
  {
    GroupBy(Measured(Progress(content)))
  }

  /** What the chart relies on: every group is measured and non-empty, with a level in 0..4,
      its count is the number of measured indicators in it, and the counts add up to the number of
      measured indicators. */
  lemma TabulateFacts(content: seq<Entry>)
    ensures AllMeasured(Tabulate(content))
    ensures forall i :: 0 <= i < |Tabulate(content)| ==>
      Tabulate(content)[i].number == Count(Measured(Progress(content)), KeyOf(Tabulate(content)[i])) >= 1
    ensures forall i :: 0 <= i < |Tabulate(content)| ==>
      Levels(Tabulate(content))[i].Some? && Levels(Tabulate(content))[i].value <= 4
    ensures Total(Tabulate(content)) == |Measured(Progress(content))| == MeasuredEntries(content)
  {
    ProgressMeasured(content);
    var m := Measured(Progress(content));
    var gs := Tabulate(content);
    GroupByCounts(m);
    GroupByTotal(m);
    KeyedMeasured(m);
    forall i | 0 <= i < |gs| ensures gs[i].status in Statuses {
      CountMeasured(m, KeyOf(gs[i]));
    }
  }

  // ---------------------------------------------------------------------------
  // nmax and the level span of each goal
  // ---------------------------------------------------------------------------

  /** `nmax`: the largest group count; `None` for an empty table, where pandas gives NaN. */
  function MaxNumber(groups: seq<Group>): (r: Option<nat>)
    ensures r.None? <==> groups == []
    ensures r.Some? ==> forall i :: 0 <= i < |groups| ==> groups[i].number <= r.value
    ensures r.Some? ==> exists i :: 0 <= i < |groups| && groups[i].number == r.value
  {
    if groups == [] then None
    else
      match MaxNumber(groups[1..])
      case None => Some(groups[0].number)
      case Some(m) => Some(if groups[0].number >= m then groups[0].number else m)
  }

  /** The lowest and highest chart level among the groups of `goal`; `None` when the goal has no group. */
  function GoalSpan(groups: seq<Group>, goal: string): (r: Option<(nat, nat)>)
    requires AllMeasured(groups)
  {
    if groups == [] then None
    else
      var rest := GoalSpan(groups[1..], goal);
      if groups[0].goal != goal then rest
      else
        var l := StatusToLevel(groups[0].status).value;
        match rest
        case None => Some((l, l))
        case Some((lo, hi)) => Some((if l < lo then l else lo, if l > hi then l else hi))
  }

  /** The span is missing exactly when the goal has no group. */
  lemma {:induction false} GoalSpanNone(groups: seq<Group>, goal: string)
    requires AllMeasured(groups)
    ensures GoalSpan(groups, goal).None? <==> forall i :: 0 <= i < |groups| ==> groups[i].goal != goal
  {
    if groups != [] {
      var tail := groups[1..];
      assert forall i :: 0 <= i < |tail| ==> tail[i] == groups[i + 1];
      GoalSpanNone(tail, goal);
    }
  }

  /** The span bounds the level of every group of the goal. */
  lemma {:induction false} GoalSpanBounds(groups: seq<Group>, goal: string)
    requires AllMeasured(groups)
    ensures GoalSpan(groups, goal).Some? ==> var (lo, hi) := GoalSpan(groups, goal).value;
      && lo <= hi
      && forall i :: 0 <= i < |groups| && groups[i].goal == goal ==>
           lo <= StatusToLevel(groups[i].status).value <= hi
  {
    if groups != [] {
      var tail := groups[1..];
      assert forall i :: 0 < i < |groups| ==> groups[i] == tail[i - 1];
      GoalSpanBounds(tail, goal);
      GoalSpanNone(tail, goal);
    }
  }

  /** Both ends of the span are the level of some group of the goal. */
  lemma {:induction false} GoalSpanAttained(groups: seq<Group>, goal: string)
    requires AllMeasured(groups)
    ensures GoalSpan(groups, goal).Some? ==> var (lo, hi) := GoalSpan(groups, goal).value;
      && (exists i :: 0 <= i < |groups| && groups[i].goal == goal && StatusToLevel(groups[i].status).value == lo)
      && (exists i :: 0 <= i < |groups| && groups[i].goal == goal && StatusToLevel(groups[i].status).value == hi)
  {
    if groups != [] {
      var tail := groups[1..];
      GoalSpanAttained(tail, goal);
      var rest := GoalSpan(tail, goal);
      if rest.Some? {
        var (lo, hi) := rest.value;
        var i0 :| 0 <= i0 < |tail| && tail[i0].goal == goal && StatusToLevel(tail[i0].status).value == lo;
        var i1 :| 0 <= i1 < |tail| && tail[i1].goal == goal && StatusToLevel(tail[i1].status).value == hi;
        assert groups[i0 + 1] == tail[i0] && groups[i1 + 1] == tail[i1];
      }
    }
  }

  // ---------------------------------------------------------------------------
  // The pivoted table written to the CSV file
  // ---------------------------------------------------------------------------

  predicate StrsSorted(xs: seq<string>)
  {
    forall i, j :: 0 <= i < j < |xs| ==> StrLess(xs[i], xs[j])
  }

  /** Adds a string to a sorted list of distinct strings, unless it is already there: InsertKey's
      insertion, on the pivot's goal and status labels. */
  function InsertStr(xs: seq<string>, s: string): seq<string>
  {
    if xs == [] then [s]
    else if xs[0] == s then xs
    else if StrLess(s, xs[0]) then [s] + xs
    else [xs[0]] + InsertStr(xs[1..], s)
  }

  lemma {:induction false} InsertStrSorted(xs: seq<string>, s: string)
    requires StrsSorted(xs)
    ensures StrsSorted(InsertStr(xs, s))
    ensures forall x :: x in InsertStr(xs, s) <==> x in xs || x == s
  {
    if xs == [] {
    } else if xs[0] == s {
    } else if StrLess(s, xs[0]) {
      var r := [s] + xs;
      forall i, j | 0 <= i < j < |r| ensures StrLess(r[i], r[j]) {
        if i == 0 && j > 1 {
          StrLessTransitive(s, xs[0], xs[j - 1]);
        }
      }
    } else {
      StrLessTotal(s, xs[0]);
      InsertStrSorted(xs[1..], s);
      var t := InsertStr(xs[1..], s);
      var r := [xs[0]] + t;
      forall i, j | 0 <= i < j < |r| ensures StrLess(r[i], r[j]) {
        if i == 0 {
          assert r[j] in t;
        }
      }
    }
  }

  /** The pivot's index before conversion: the distinct goals, in string order. */
  function GoalIndex(groups: seq<Group>): (goals: seq<string>)
    ensures StrsSorted(goals)
    ensures forall g :: g in goals <==> exists i :: 0 <= i < |groups| && groups[i].goal == g
  {
    if groups == [] then []
    else
      var init := groups[..|groups| - 1];
      var rest := GoalIndex(init);
      InsertStrSorted(rest, groups[|groups| - 1].goal);
      assert forall i :: 0 <= i < |init| ==> init[i] == groups[i];
      InsertStr(rest, groups[|groups| - 1].goal)
  }

  /** The pivot's columns before renaming: the distinct statuses, in string order. */
  function StatusColumns(groups: seq<Group>): (cols: seq<string>)
    ensures StrsSorted(cols)
    ensures forall s :: s in cols <==> exists i :: 0 <= i < |groups| && groups[i].status == s
  {
    if groups == [] then []
    else
      var init := groups[..|groups| - 1];
      var rest := StatusColumns(init);
      InsertStrSorted(rest, groups[|groups| - 1].status);
      assert forall i :: 0 <= i < |init| ==> init[i] == groups[i];
      InsertStr(rest, groups[|groups| - 1].status)
  }

  /** A list of measured statuses in ascending chart level. */
  predicate ByLevel(cols: seq<string>)
  {
    forall i, j :: 0 <= i < j < |cols| ==> LevelBelow(cols[i], cols[j])
  }

  /** Both statuses are measured and the first has the lower chart level. */
  predicate LevelBelow(a: string, b: string)
  {
    StatusToLevel(a).Some? && StatusToLevel(b).Some? && StatusToLevel(a).value < StatusToLevel(b).value
  }

  /** The columns of a table built from measured statuses come in ascending chart level. */
  lemma MeasuredColumnsByLevel(groups: seq<Group>)
    requires AllMeasured(groups)
    ensures forall s :: s in StatusColumns(groups) ==> s in Statuses
    ensures ByLevel(StatusColumns(groups))
  {
    var cols := StatusColumns(groups);
    forall s | s in cols ensures s in Statuses {
      var k :| 0 <= k < |groups| && groups[k].status == s;
    }
    forall i, j | 0 <= i < j < |cols| ensures LevelBelow(cols[i], cols[j]) {
      assert cols[i] in cols && cols[j] in cols;
      StatusToLevelOrder(cols[i], cols[j]);
    }
  }

  /** The pivot's cell for a goal and a status: that group's count, or `None` (NaN) when there is no such group. */
  function Cell(groups: seq<Group>, goal: string, status: string): Option<nat>
  {
    if groups == [] then None
    else if groups[0].goal == goal && groups[0].status == status then Some(groups[0].number)
    else Cell(groups[1..], goal, status)
  }

  lemma {:induction false} CellOfGroupsOf(ks: seq<Key>, rows: seq<Row>, k: Key)
    ensures Cell(GroupsOf(ks, rows), k.0, k.1) == if k in ks then Some(Count(rows, k)) else None
  {
    if ks != [] {
      CellOfGroupsOf(ks[1..], rows, k);
      assert GroupsOf(ks, rows)[1..] == GroupsOf(ks[1..], rows);
    }
  }

  /** Each cell of the pivot built from the grouped rows is the count of that group, and NaN exactly
      when no row falls in it. */
  lemma PivotCellIsCount(rows: seq<Row>, goal: string, status: string)
    ensures Cell(GroupBy(rows), goal, status) ==
      if Count(rows, (goal, status)) > 0 then Some(Count(rows, (goal, status))) else None
  {
    GroupKeysSpec(rows);
    CellOfGroupsOf(GroupKeys(rows), rows, (goal, status));
  }

  /** The renaming applied to the pivot's columns; other names are left as they are. */
  const ColumnTitles: map<string, string> := map[
    "deterioration" := "Deterioration",
    "limited_progress" := "Limited progress",
    "moderate_progress" := "Progress made, but acceleration needed",
    "substantial_progress" := "On track",
    "target_achieved" := "Target achieved"]

  function ColumnName(status: string): string
  {
    if status in ColumnTitles then ColumnTitles[status] else status
  }

  function Renamed(cols: seq<string>): (names: seq<string>)
    ensures |names| == |cols|
    ensures forall j :: 0 <= j < |cols| ==> names[j] == ColumnName(cols[j])
    ensures (forall j :: 0 <= j < |cols| ==> cols[j] in Statuses) ==>
      forall j :: 0 <= j < |cols| ==> names[j] == ColumnTitles[cols[j]]
    ensures (forall j :: 0 <= j < |cols| ==> cols[j] in Statuses) && (forall i, j :: 0 <= i < j < |cols| ==> cols[i] != cols[j]) ==>
      forall i, j :: 0 <= i < j < |cols| ==> names[i] != names[j]
  {
    seq(|cols|, j requires 0 <= j < |cols| => ColumnName(cols[j]))
  }

  /** A row of the CSV: the goal as an integer and one cell per column. */
  datatype PivotRow = PivotRow(goal: nat, cells: seq<Option<nat>>)

  datatype PivotTable = PivotTable(columns: seq<string>, rows: seq<PivotRow>)

  /** The cells of one goal's row, one per column. */
  function CellsOf(groups: seq<Group>, goal: string, cols: seq<string>): (cells: seq<Option<nat>>)
    ensures |cells| == |cols|
    ensures forall j :: 0 <= j < |cols| ==> cells[j] == Cell(groups, goal, cols[j])
  {
    seq(|cols|, j requires 0 <= j < |cols| => Cell(groups, goal, cols[j]))
  }

  /** On the grouped table, a goal's row holds, per column, the count of that (goal, status) group, or NaN
      when no indicator falls in it. */
  lemma CellsOfCounts(rows: seq<Row>, goal: string, cols: seq<string>)
    ensures forall j :: 0 <= j < |cols| ==>
      CellsOf(GroupBy(rows), goal, cols)[j] ==
        if Count(rows, (goal, cols[j])) > 0 then Some(Count(rows, (goal, cols[j]))) else None
  {
    forall j | 0 <= j < |cols|
      ensures CellsOf(GroupBy(rows), goal, cols)[j] ==
        if Count(rows, (goal, cols[j])) > 0 then Some(Count(rows, (goal, cols[j]))) else None
    {
      PivotCellIsCount(rows, goal, cols[j]);
    }
  }

  /** The pivot's rows in index order, with `astype(int)` applied to the index: the first goal that is
      not a string of digits is the error. */
  function PivotRows(groups: seq<Group>, goals: seq<string>, cols: seq<string>): (r: Result<seq<PivotRow>, string>)
    ensures r.Err? <==> exists i :: 0 <= i < |goals| && ParseNat(goals[i]).None?
    ensures r.Ok? ==> |r.value| == |goals| && forall i :: 0 <= i < |goals| ==>
      r.value[i] == PivotRow(ParseNat(goals[i]).value, CellsOf(groups, goals[i], cols))
  {
    if goals == [] then Ok([])
    else
      match ParseNat(goals[0])
      case None => Err(goals[0])
      case Some(n) =>
        match PivotRows(groups, goals[1..], cols)
        case Err(g) => Err(g)
        case Ok(rest) => Ok([PivotRow(n, CellsOf(groups, goals[0], cols))] + rest)
  }

  predicate RowsByGoal(rows: seq<PivotRow>)
  {
    forall i, j :: 0 <= i < j < |rows| ==> rows[i].goal <= rows[j].goal
  }

  /** Places a row after every row whose goal is not larger. */
  function InsertRow(sorted: seq<PivotRow>, r: PivotRow): seq<PivotRow>
  {
    if sorted == [] then [r]
    else if r.goal < sorted[0].goal then [r] + sorted
    else [sorted[0]] + InsertRow(sorted[1..], r)
  }

  lemma {:induction false} InsertRowPermutes(sorted: seq<PivotRow>, r: PivotRow)
    ensures multiset(InsertRow(sorted, r)) == multiset(sorted) + multiset{r}
  {
    if sorted != [] && r.goal >= sorted[0].goal {
      InsertRowPermutes(sorted[1..], r);
      assert sorted == [sorted[0]] + sorted[1..];
    }
  }

  /** Inserting a row that respects a lower bound on the goals keeps that bound. */
  lemma {:induction false} InsertRowLowerBound(sorted: seq<PivotRow>, r: PivotRow, g: nat)
    requires forall i :: 0 <= i < |sorted| ==> g <= sorted[i].goal
    requires g <= r.goal
    ensures forall i :: 0 <= i < |InsertRow(sorted, r)| ==> g <= InsertRow(sorted, r)[i].goal
  {
    if sorted != [] && r.goal >= sorted[0].goal {
      InsertRowLowerBound(sorted[1..], r, g);
    }
  }

  lemma {:induction false} InsertRowSorted(sorted: seq<PivotRow>, r: PivotRow)
    requires RowsByGoal(sorted)
    ensures RowsByGoal(InsertRow(sorted, r))
  {
    if sorted != [] && r.goal >= sorted[0].goal {
      var rest := sorted[1..];
      InsertRowSorted(rest, r);
      InsertRowLowerBound(rest, r, sorted[0].goal);
      assert InsertRow(sorted, r) == [sorted[0]] + InsertRow(rest, r);
    }
  }

  /** `sort_index(ascending=True)` on the integer index. */
  function SortByGoal(rows: seq<PivotRow>): seq<PivotRow>
  {
    if rows == [] then [] else InsertRow(SortByGoal(rows[..|rows| - 1]), rows[|rows| - 1])
  }

  /** Sorting orders the rows by goal and keeps exactly the same rows. */
  lemma {:induction false} SortByGoalSorts(rows: seq<PivotRow>)
    ensures RowsByGoal(SortByGoal(rows))
    ensures multiset(SortByGoal(rows)) == multiset(rows)
  {
    if rows != [] {
      var init := rows[..|rows| - 1];
      SortByGoalSorts(init);
      InsertRowSorted(SortByGoal(init), rows[|rows| - 1]);
      InsertRowPermutes(SortByGoal(init), rows[|rows| - 1]);
      assert rows == init + [rows[|rows| - 1]];
    }
  }

  /** The CSV table: goals down the index, in ascending integer order, the renamed statuses across. */
  function Pivot(groups: seq<Group>): Result<PivotTable, string>
  {
    var cols := StatusColumns(groups);
    match PivotRows(groups, GoalIndex(groups), cols)
    case Err(g) => Err(g)
    case Ok(rows) => Ok(PivotTable(Renamed(cols), SortByGoal(rows)))
  }

  /** The pivot has one row per goal present, in ascending integer order, each cell the count of its
      group; it fails exactly when some goal is not an integer. */
  lemma PivotSpec(groups: seq<Group>)
    ensures Pivot(groups).Err? <==> exists i :: 0 <= i < |groups| && ParseNat(groups[i].goal).None?
    ensures Pivot(groups).Ok? ==>
      var t := Pivot(groups).value;
      && t.columns == Renamed(StatusColumns(groups))
      && RowsByGoal(t.rows)
      && |t.rows| == |GoalIndex(groups)|
      && multiset(t.rows) == multiset(PivotRows(groups, GoalIndex(groups), StatusColumns(groups)).value)
      && (forall r :: r in t.rows <==>
            (exists g :: g in GoalIndex(groups) && r == PivotRow(ParseNat(g).value, CellsOf(groups, g, StatusColumns(groups)))))
  {
    var goals, cols := GoalIndex(groups), StatusColumns(groups);
    var p := PivotRows(groups, goals, cols);
    if p.Err? {
      var i :| 0 <= i < |goals| && ParseNat(goals[i]).None?;
      assert goals[i] in goals;
    } else {
      forall i | 0 <= i < |groups| ensures ParseNat(groups[i].goal).Some? {
        assert groups[i].goal in goals;
      }
      var rows := p.value;
      SortByGoalSorts(rows);
      var sorted := SortByGoal(rows);
      assert |sorted| == |multiset(sorted)| == |multiset(rows)| == |rows|;
      forall r
        ensures r in sorted <==> exists g :: g in goals && r == PivotRow(ParseNat(g).value, CellsOf(groups, g, cols))
      {
        assert r in sorted <==> r in multiset(sorted);
        assert r in rows <==> r in multiset(rows);
        if r in rows {
          var i :| 0 <= i < |rows| && rows[i] == r;
          assert goals[i] in goals;
        }
        if exists g :: g in goals && r == PivotRow(ParseNat(g).value, CellsOf(groups, g, cols)) {
          var g :| g in goals && r == PivotRow(ParseNat(g).value, CellsOf(groups, g, cols));
          var i :| 0 <= i < |goals| && goals[i] == g;
          assert rows[i] == r;
        }
      }
    }
  }
}
