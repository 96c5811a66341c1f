/**
 * The page state of the two list views: the parsed tasks kept in `allTasks`
 * and the team options offered by the filter, and what a filter selection
 * shows (a flat table in detailed_process_script.js, team cards in script.js).
 */
module Board {
  import opened Prelude
  import opened Csv
  import opened Engine

  class TaskBoard {
    /** `allTasks`: every parsed task, kept for re-filtering. */
    var allTasks: seq<Row>
    /** The main-team and work-team options of `createFilters`. */
    var mainTeams: seq<Option<string>>
    var workTeams: seq<Option<string>>

    /** The options always describe the tasks held. */
    ghost predicate Valid()
      reads this
    {
      && mainTeams == TeamOptions(allTasks, MainTeamColumn)
      && workTeams == TeamOptions(allTasks, WorkTeamColumn)
    }

    /** Before the sheet arrives: `let allTasks = []`, and no options. */
    constructor()
      ensures allTasks == [] && mainTeams == [] && workTeams == []
      ensures Valid()
    {
      allTasks, mainTeams, workTeams := [], [], [];
    }

    /**
     * The `then` step after the fetch: parse the sheet into `allTasks`
     * (stamping line numbers in the detailed view) and build the options.
     */
    method Load(csvText: string, withRowIndex: bool)
      modifies this
      ensures allTasks == Parse(csvText, withRowIndex)
      ensures Valid()
    {
      var tasks := ParseCsv(csvText, withRowIndex);
      allTasks := tasks;
      mainTeams := TeamOptions(tasks, MainTeamColumn);
      workTeams := TeamOptions(tasks, WorkTeamColumn);
    }

    /** `applyFilters` in detailed_process_script.js: the rows of the table. */
    method FilteredTasks(mainTeam: string, workTeam: string) returns (filtered: seq<Row>)
      ensures filtered == Matching(allTasks, mainTeam, workTeam)
    {
      filtered := ApplyFilters(allTasks, mainTeam, workTeam);
    }

    /** `applyFilters` in script.js: the filtered tasks grouped into one card per main team. */
    method FilteredGroups(mainTeam: string, workTeam: string) returns (keys: seq<string>, groups: map<string, seq<Row>>)
      ensures var filtered := Matching(allTasks, mainTeam, workTeam);
        && keys == Distinct(Keys(filtered, MainTeamColumn))
        && (forall k :: k in groups <==> k in keys)
        && (forall k :: k in groups ==> groups[k] == Group(filtered, MainTeamColumn, k))
    {
      var filtered := ApplyFilters(allTasks, mainTeam, workTeam);
      keys, groups := GroupBy(filtered, MainTeamColumn);
    }
  }

  /**
   * Clicking one of the main-team buttons of a loaded board shows some task,
   * except for the "undefined" button when no cell reads "undefined": that
   * button stands for tasks without a main team, and no task's cell equals
   * the text "undefined". The empty team's button shows every task. A
   * button's `data-filter-value` is `AsText(option)`.
   */
  lemma MainTeamButtonShowsTasks(b: TaskBoard, option: Option<string>)
    requires b.Valid() && option in b.mainTeams
    ensures Matching(b.allTasks, AsText(option), "") != [] <==>
      option.Some? || Some("undefined") in b.mainTeams
  {
    var tasks, value := b.allTasks, AsText(option);
    TeamOptionsExactly(tasks, MainTeamColumn, option);
    TeamOptionsExactly(tasks, MainTeamColumn, Some("undefined"));
    var i :| 0 <= i < |tasks| && Get(tasks[i], MainTeamColumn) == option;
    if value == "" {
      MatchingAll(tasks);
    } else if option.Some? || Some("undefined") in b.mainTeams {
      var j :| 0 <= j < |tasks| && Get(tasks[j], MainTeamColumn) == Some(value);
      MatchingExactly(tasks, value, "", tasks[j]);
    } else if Matching(tasks, value, "") != [] {
      var t := Matching(tasks, value, "")[0];
      MatchingExactly(tasks, value, "", t);
    }
  }

  /** The same for the work-team buttons. */
  lemma WorkTeamButtonShowsTasks(b: TaskBoard, option: Option<string>)
    requires b.Valid() && option in b.workTeams
    ensures Matching(b.allTasks, "", AsText(option)) != [] <==>
      option.Some? || Some("undefined") in b.workTeams
  {
    var tasks, value := b.allTasks, AsText(option);
    TeamOptionsExactly(tasks, WorkTeamColumn, option);
    TeamOptionsExactly(tasks, WorkTeamColumn, Some("undefined"));
    var i :| 0 <= i < |tasks| && Get(tasks[i], WorkTeamColumn) == option;
    if value == "" {
      MatchingAll(tasks);
    } else if option.Some? || Some("undefined") in b.workTeams {
      var j :| 0 <= j < |tasks| && Get(tasks[j], WorkTeamColumn) == Some(value);
      MatchingExactly(tasks, "", value, tasks[j]);
    } else if Matching(tasks, "", value) != [] {
      var t := Matching(tasks, "", value)[0];
      MatchingExactly(tasks, "", value, t);
    }
  }
}
