/**
 * The list logic the views share once the sheet is parsed: the team option
 * lists built with `new Set`, the two-key team filter of `applyFilters`, and
 * the `reduce` that groups tasks under a column value.
 */
module Engine {
  import opened Prelude
  import opened Csv

  /** `tasks.map(task => task[column])`: one entry per task, `None` for `undefined`. */
  function Column(tasks: seq<Row>, column: string): seq<Option<string>> {
    seq(|tasks|, i requires 0 <= i < |tasks| => Get(tasks[i], column))
  }

  /**
   * `[...new Set(tasks.map(task => task[column]))]`, the buttons or options of
   * a team filter: every value that occurs, each once.
   */
  function TeamOptions(tasks: seq<Row>, column: string): (options: seq<Option<string>>)
    ensures NoDuplicates(options)
    ensures forall i :: 0 <= i < |tasks| ==> Get(tasks[i], column) in options
  {
    var values := Column(tasks, column);
    assert forall i :: 0 <= i < |tasks| ==> values[i] == Get(tasks[i], column);
    Distinct(values)
  }

  /** A value is offered exactly when some task carries it. */
  lemma TeamOptionsExactly(tasks: seq<Row>, column: string, o: Option<string>)
    ensures o in TeamOptions(tasks, column) <==> exists i :: 0 <= i < |tasks| && Get(tasks[i], column) == o
  {
    DistinctMember(Column(tasks, column), o);
  }

  /** The options appear in the order in which their values are first met in the sheet. */
  lemma TeamOptionsFirstSeen(tasks: seq<Row>, column: string)
    ensures var values, options := Column(tasks, column), TeamOptions(tasks, column);
      forall i, j :: 0 <= i < j < |options| ==> IndexOf(values, options[i]) < IndexOf(values, options[j])
  {
    DistinctFirstSeen(Column(tasks, column));
  }

  // ---------------------------------------------------------------- filters

  /** `task => task[column] === value`; a missing column (`undefined`) never matches. */
  function HasValue(column: string, value: string): Row -> bool {
    t => Get(t, column) == Some(value)
  }

  /** The tasks whose `column` cell is `value`, in sheet order. */
  function WithValue(tasks: seq<Row>, column: string, value: string): (r: seq<Row>)
    ensures |r| <= |tasks|
    ensures forall i :: 0 <= i < |r| ==> Get(r[i], column) == Some(value)
  {
    Filter(tasks, HasValue(column, value))
  }

  /** A task passes the team filter; an empty selection (`모두`) lets every task through. */
  predicate Selected(task: Row, mainTeam: string, workTeam: string) {
    && (mainTeam == "" || Get(task, MainTeamColumn) == Some(mainTeam))
    && (workTeam == "" || Get(task, WorkTeamColumn) == Some(workTeam))
  }

  function IsSelected(mainTeam: string, workTeam: string): Row -> bool {
    t => Selected(t, mainTeam, workTeam)
  }

  /**
   * A selection is the two `filter` callbacks of `applyFilters`, each applied
   * only when its selection is non-empty; a task without the column is never
   * picked out by a non-empty selection.
   */
  lemma SelectedIsBothFilters(task: Row, mainTeam: string, workTeam: string)
    ensures Selected(task, mainTeam, workTeam) <==>
      && (mainTeam == "" || HasValue(MainTeamColumn, mainTeam)(task))
      && (workTeam == "" || HasValue(WorkTeamColumn, workTeam)(task))
    ensures Get(task, MainTeamColumn) == None && Selected(task, mainTeam, workTeam) ==> mainTeam == ""
    ensures Get(task, WorkTeamColumn) == None && Selected(task, mainTeam, workTeam) ==> workTeam == ""
  {
  }

  /** The reference meaning of the team filter: one pass keeping the selected tasks. */
  function Matching(tasks: seq<Row>, mainTeam: string, workTeam: string): (r: seq<Row>)
    ensures |r| <= |tasks|
    ensures forall i :: 0 <= i < |r| ==> Selected(r[i], mainTeam, workTeam)
  {
    Filter(tasks, IsSelected(mainTeam, workTeam))
  }

  /**
   * `applyFilters`: start from all tasks, narrow by the main team if one is
   * selected, then by the work team if one is selected. The result is the
   * single-pass filter by both selections.
   */
  method ApplyFilters(tasks: seq<Row>, mainTeam: string, workTeam: string) returns (filtered: seq<Row>)
    ensures filtered == Matching(tasks, mainTeam, workTeam)
  {
    filtered := tasks;
    if mainTeam != "" {
      filtered := WithValue(filtered, MainTeamColumn, mainTeam);
    }
    if workTeam != "" {
      filtered := WithValue(filtered, WorkTeamColumn, workTeam);
    }
    var selected := IsSelected(mainTeam, workTeam);
    if mainTeam != "" && workTeam != "" {
      FilterCompose(tasks, HasValue(MainTeamColumn, mainTeam), HasValue(WorkTeamColumn, workTeam), selected);
    } else if mainTeam != "" {
      FilterExt(tasks, HasValue(MainTeamColumn, mainTeam), selected);
    } else if workTeam != "" {
      FilterExt(tasks, HasValue(WorkTeamColumn, workTeam), selected);
    } else {
      FilterAll(tasks, selected);
    }
  }

  /** With both selections empty the filter returns every task, in order. */
  lemma MatchingAll(tasks: seq<Row>)
    ensures Matching(tasks, "", "") == tasks
  {
    FilterAll(tasks, IsSelected("", ""));
  }

  /**
   * The filter keeps exactly the selected tasks, every copy of each, in sheet
   * order.
   */
  lemma MatchingExactly(tasks: seq<Row>, mainTeam: string, workTeam: string, t: Row)
    ensures t in Matching(tasks, mainTeam, workTeam) <==> t in tasks && Selected(t, mainTeam, workTeam)
    ensures multiset(Matching(tasks, mainTeam, workTeam))[t] ==
      if Selected(t, mainTeam, workTeam) then multiset(tasks)[t] else 0
    ensures Subsequence(Matching(tasks, mainTeam, workTeam), tasks)
  {
    FilterCount(tasks, IsSelected(mainTeam, workTeam), t);
    FilterSubsequence(tasks, IsSelected(mainTeam, workTeam));
  }

  /** A task is in the column filter exactly when its cell holds the value; copies are kept. */
  lemma WithValueExactly(tasks: seq<Row>, column: string, value: string, t: Row)
    ensures t in WithValue(tasks, column, value) <==> t in tasks && Get(t, column) == Some(value)
    ensures multiset(WithValue(tasks, column, value))[t] ==
      if Get(t, column) == Some(value) then multiset(tasks)[t] else 0
    ensures Subsequence(WithValue(tasks, column, value), tasks)
  {
    FilterCount(tasks, HasValue(column, value), t);
    FilterSubsequence(tasks, HasValue(column, value));
  }

  // --------------------------------------------------------------- grouping

  /** A value written into a template or used as a property name: `undefined` becomes "undefined". */
  function AsText(value: Option<string>): string {
    match value
    case Some(v) => v
    case None => "undefined"
  }

  /** `acc[task[column]]` uses the cell as a property name. */
  function KeyOf(task: Row, column: string): string {
    AsText(Get(task, column))
  }

  /**
   * Two tasks share a group exactly when their cells are equal, except that a
   * missing cell and a cell reading "undefined" land in the same group.
   */
  lemma KeyOfMerges(t: Row, u: Row, column: string)
    ensures KeyOf(t, column) == KeyOf(u, column) <==>
      || Get(t, column) == Get(u, column)
      || (Get(t, column) == None && Get(u, column) == Some("undefined"))
      || (Get(t, column) == Some("undefined") && Get(u, column) == None)
  {
  }

  /** The group key of each task, in sheet order. */
  function Keys(tasks: seq<Row>, column: string): seq<string> {
    seq(|tasks|, i requires 0 <= i < |tasks| => KeyOf(tasks[i], column))
  }

  /**
   * The reference meaning of one group: the tasks under `key`, in sheet order
   * (what `acc[key]` holds once every task has been pushed).
   */
  function Group(tasks: seq<Row>, column: string, key: string): (g: seq<Row>)
    ensures forall i :: 0 <= i < |g| ==> KeyOf(g[i], column) == key
  {
    if tasks == [] then []
    else
      var init, last := tasks[..|tasks| - 1], tasks[|tasks| - 1];
      if KeyOf(last, column) == key then Group(init, column, key) + [last] else Group(init, column, key)
  }

  /** A group holds every copy of each task with its key and nothing else. */
  lemma {:induction false} GroupCount(tasks: seq<Row>, column: string, key: string, t: Row)
    ensures multiset(Group(tasks, column, key))[t] == if KeyOf(t, column) == key then multiset(tasks)[t] else 0
    ensures t in Group(tasks, column, key) <==> t in tasks && KeyOf(t, column) == key
  {
    if tasks != [] {
      var init := tasks[..|tasks| - 1];
      assert tasks == init + [tasks[|tasks| - 1]];
      GroupCount(init, column, key, t);
    }
  }

  lemma {:induction false} GroupSubsequence(tasks: seq<Row>, column: string, key: string)
    ensures Subsequence(Group(tasks, column, key), tasks)
    decreases |tasks|
  {
    if tasks != [] {
      var init := tasks[..|tasks| - 1];
      var g := Group(init, column, key);
      GroupSubsequence(init, column, key);
      assert (g + [tasks[|tasks| - 1]])[..|g|] == g;
    }
  }

  /** The key list names each key once per task of its group. */
  lemma {:induction false} KeysCountGroups(tasks: seq<Row>, column: string, key: string)
    ensures multiset(Keys(tasks, column))[key] == |Group(tasks, column, key)|
  {
    if tasks != [] {
      var init := tasks[..|tasks| - 1];
      assert Keys(tasks, column) == Keys(init, column) + [KeyOf(tasks[|tasks| - 1], column)];
      KeysCountGroups(init, column, key);
    }
  }

  /** A key that no task carries has an empty group. */
  lemma {:induction false} GroupOfAbsentKey(tasks: seq<Row>, column: string, key: string)
    requires key !in Keys(tasks, column)
    ensures Group(tasks, column, key) == []
  {
    if tasks != [] {
      var init := tasks[..|tasks| - 1];
      assert Keys(init, column) == Keys(tasks, column)[..|tasks| - 1];
      GroupOfAbsentKey(init, column, key);
      assert Keys(tasks, column)[|tasks| - 1] == KeyOf(tasks[|tasks| - 1], column);
    }
  }

  /** What the task at position `i` does to the key order. */
  lemma KeysStep(tasks: seq<Row>, column: string, i: nat)
    requires i < |tasks|
    ensures var key, names := KeyOf(tasks[i], column), Distinct(Keys(tasks[..i], column));
      Distinct(Keys(tasks[..i + 1], column)) == if key in names then names else names + [key]
    ensures KeyOf(tasks[i], column) !in Distinct(Keys(tasks[..i], column)) ==>
      Group(tasks[..i], column, KeyOf(tasks[i], column)) == []
  {
    var prefix, key := tasks[..i], KeyOf(tasks[i], column);
    var keys := Keys(tasks[..i + 1], column);
    assert keys[..|keys| - 1] == Keys(prefix, column);
    if key !in Distinct(Keys(prefix, column)) {
      DistinctMember(Keys(prefix, column), key);
      GroupOfAbsentKey(prefix, column, key);
    }
  }

  /** What the task at position `i` does to the group under `k`. */
  lemma GroupStep(tasks: seq<Row>, column: string, i: nat, k: string)
    requires i < |tasks|
    ensures Group(tasks[..i + 1], column, k) ==
      if k == KeyOf(tasks[i], column) then Group(tasks[..i], column, k) + [tasks[i]] else Group(tasks[..i], column, k)
  {
    assert tasks[..i + 1][..i] == tasks[..i];
  }

  /** The accumulator of the grouping `reduce` after it has seen `prefix`. */
  ghost predicate Grouped(prefix: seq<Row>, column: string, keys: seq<string>, groups: map<string, seq<Row>>) {
    && keys == Distinct(Keys(prefix, column))
    && (forall k :: k in groups <==> k in keys)
    && (forall k :: k in groups ==> groups[k] == Group(prefix, column, k))
  }

  /** The empty accumulator of the `reduce` describes no tasks. */
  lemma GroupedEmpty(tasks: seq<Row>, column: string)
    ensures Grouped(tasks[..0], column, [], map[])
  {
    assert Keys(tasks[..0], column) == [];
  }

  /** Pushing the task at position `i` onto its key's array keeps every array equal to its group. */
  lemma PushStep(tasks: seq<Row>, column: string, i: nat, groups: map<string, seq<Row>>)
    requires i < |tasks|
    requires forall k :: k in groups ==> groups[k] == Group(tasks[..i], column, k)
    requires KeyOf(tasks[i], column) !in groups ==> Group(tasks[..i], column, KeyOf(tasks[i], column)) == []
    ensures var key := KeyOf(tasks[i], column);
      var groups' := groups[key := (if key in groups then groups[key] else []) + [tasks[i]]];
      forall k :: k in groups' ==> groups'[k] == Group(tasks[..i + 1], column, k)
  {
    var key := KeyOf(tasks[i], column);
    var groups' := groups[key := (if key in groups then groups[key] else []) + [tasks[i]]];
    forall k | k in groups'
      ensures groups'[k] == Group(tasks[..i + 1], column, k)
    {
      GroupStep(tasks, column, i, k);
    }
  }

  /** One call of the `reduce` callback keeps the accumulator in step with the tasks seen. */
  lemma GroupedStep(tasks: seq<Row>, column: string, i: nat,
                    keys: seq<string>, groups: map<string, seq<Row>>,
                    keys': seq<string>, groups': map<string, seq<Row>>)
    requires i < |tasks| && Grouped(tasks[..i], column, keys, groups)
    requires var key := KeyOf(tasks[i], column);
      && keys' == (if key in groups then keys else keys + [key])
      && groups' == groups[key := (if key in groups then groups[key] else []) + [tasks[i]]]
    ensures Grouped(tasks[..i + 1], column, keys', groups')
  {
    KeysAfterStep(tasks, column, i, keys, groups, keys');
    GroupsAfterStep(tasks, column, i, keys, groups, groups');
  }

  /** The key order after one more task: its key is appended when it is new. */
  lemma KeysAfterStep(tasks: seq<Row>, column: string, i: nat,
                      keys: seq<string>, groups: map<string, seq<Row>>, keys': seq<string>)
    requires i < |tasks| && Grouped(tasks[..i], column, keys, groups)
    requires var key := KeyOf(tasks[i], column);
      keys' == (if key in groups then keys else keys + [key])
    ensures keys' == Distinct(Keys(tasks[..i + 1], column))
  {
    KeysStep(tasks, column, i);
  }

  /** The arrays after one more task: each is still its key's group. */
  lemma GroupsAfterStep(tasks: seq<Row>, column: string, i: nat,
                        keys: seq<string>, groups: map<string, seq<Row>>, groups': map<string, seq<Row>>)
    requires i < |tasks| && Grouped(tasks[..i], column, keys, groups)
    requires var key := KeyOf(tasks[i], column);
      groups' == groups[key := (if key in groups then groups[key] else []) + [tasks[i]]]
    ensures forall k :: k in groups' ==> groups'[k] == Group(tasks[..i + 1], column, k)
  {
    KeysStep(tasks, column, i);
    PushStep(tasks, column, i, groups);
  }

  /**
   * `tasks.reduce(...)` in `groupTasksByTeam` and in the schedule view: walk
   * the tasks, open an empty array the first time a key is met, and push the
   * task onto its key's array. `keys` is the order in which the keys were
   * added to the accumulator, which is the order `for ... in` visits them.
   */
  method GroupBy(tasks: seq<Row>, column: string) returns (keys: seq<string>, groups: map<string, seq<Row>>)
    ensures keys == Distinct(Keys(tasks, column))
    ensures forall k :: k in groups <==> k in keys
    ensures forall k :: k in groups ==> groups[k] == Group(tasks, column, k)
  {
    keys, groups := [], map[];
    var i := 0;
    GroupedEmpty(tasks, column);
    while i < |tasks|
      invariant 0 <= i <= |tasks|
      invariant Grouped(tasks[..i], column, keys, groups)
    {
      var task := tasks[i];
      var key := KeyOf(task, column);
      ghost var keys0, groups0 := keys, groups;
      if key !in groups {
        keys := keys + [key];
        groups := groups[key := []];
      }
      groups := groups[key := groups[key] + [task]];
      GroupedStep(tasks, column, i, keys0, groups0, keys, groups);
      i := i + 1;
    }
    assert tasks[..i] == tasks;
  }

  /**
   * Grouping is a partition by key: every task lies in the group of its own
   * key, that key is among the group names, and no other group holds it.
   */
  lemma GroupPartition(tasks: seq<Row>, column: string, t: Row, key: string)
    ensures t in Group(tasks, column, key) <==> t in tasks && KeyOf(t, column) == key
    ensures t in tasks ==> KeyOf(t, column) in Distinct(Keys(tasks, column))
  {
    GroupCount(tasks, column, key, t);
    if t in tasks {
      var i :| 0 <= i < |tasks| && tasks[i] == t;
      assert Keys(tasks, column)[i] == KeyOf(t, column);
    }
  }

  /** Every group that is created holds at least one task. */
  lemma GroupsNonEmpty(tasks: seq<Row>, column: string, key: string)
    requires key in Distinct(Keys(tasks, column))
    ensures Group(tasks, column, key) != []
  {
    var keys := Keys(tasks, column);
    DistinctMember(keys, key);
    var i :| 0 <= i < |keys| && keys[i] == key;
    GroupCount(tasks, column, key, tasks[i]);
  }

  /** Inside a group the tasks keep their sheet order, and groups are named in first-seen order. */
  lemma GroupOrder(tasks: seq<Row>, column: string, key: string)
    ensures Subsequence(Group(tasks, column, key), tasks)
    ensures var keys, names := Keys(tasks, column), Distinct(Keys(tasks, column));
      forall i, j :: 0 <= i < j < |names| ==> IndexOf(keys, names[i]) < IndexOf(keys, names[j])
  {
    GroupSubsequence(tasks, column, key);
    DistinctFirstSeen(Keys(tasks, column));
  }

  /** The groups named by `keys`, one after the other. */
  function Concat(tasks: seq<Row>, column: string, keys: seq<string>): seq<Row> {
    if keys == [] then []
    else Concat(tasks, column, keys[..|keys| - 1]) + Group(tasks, column, keys[|keys| - 1])
  }

  lemma {:induction false} ConcatCount(tasks: seq<Row>, column: string, keys: seq<string>, t: Row)
    requires NoDuplicates(keys)
    ensures multiset(Concat(tasks, column, keys))[t] ==
      if KeyOf(t, column) in keys then multiset(tasks)[t] else 0
  {
    if keys != [] {
      var init, last := keys[..|keys| - 1], keys[|keys| - 1];
      assert keys == init + [last];
      ConcatCount(tasks, column, init, t);
      GroupCount(tasks, column, last, t);
    }
  }

  /** The groups together hold every task exactly as often as the sheet does. */
  lemma GroupsArePermutation(tasks: seq<Row>, column: string)
    ensures multiset(Concat(tasks, column, Distinct(Keys(tasks, column)))) == multiset(tasks)
  {
    var names := Distinct(Keys(tasks, column));
    forall t
      ensures multiset(Concat(tasks, column, names))[t] == multiset(tasks)[t]
    {
      ConcatCount(tasks, column, names, t);
      if t in tasks {
        GroupPartition(tasks, column, t, KeyOf(t, column));
      }
    }
  }

  /**
   * script.js groups the filtered tasks by main team: every task of every
   * group passes the filter, and once a main team is chosen there is at most
   * one group, named after that team.
   */
  lemma FilteredGroups(tasks: seq<Row>, mainTeam: string, workTeam: string)
    ensures var filtered := Matching(tasks, mainTeam, workTeam);
      forall k, t :: t in Group(filtered, MainTeamColumn, k) ==> Selected(t, mainTeam, workTeam)
    ensures var filtered := Matching(tasks, mainTeam, workTeam);
      mainTeam != "" ==> Distinct(Keys(filtered, MainTeamColumn)) in {[], [mainTeam]}
  {
    var filtered := Matching(tasks, mainTeam, workTeam);
    forall k, t | t in Group(filtered, MainTeamColumn, k)
      ensures Selected(t, mainTeam, workTeam)
    {
      GroupCount(filtered, MainTeamColumn, k, t);
      MatchingExactly(tasks, mainTeam, workTeam, t);
    }
    if mainTeam != "" {
      DistinctOfConstant(Keys(filtered, MainTeamColumn), mainTeam);
    }
  }
}
