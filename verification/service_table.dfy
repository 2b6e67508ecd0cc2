/** The table logic that `ServiceTableWidget` and both `ServiceManagerApp`
    windows share: how a row and its two buttons are derived from a service
    record, the command a button issues, the loop of `populate_table` that
    fills the rows and the loop of `filter_services` that hides the rows
    whose name does not match the search text. */
module ServiceTable {
  import opened PyStr
  import opened Process
  import opened ServiceManagerLogic
  import opened QtTable

  /** The Start/Stop button: "Stop" and checked when the status contains
      "running", "Start" and unchecked otherwise; bound to the row's own name
      with the verbs start (checked) and stop (unchecked). */
  function StartStopButton(s: Service): (b: Button) {
    var running := Contains(s.status, "running");
    Button(if running then "Stop" else "Start", running, s.name, "start", "stop")
  }

  /** The Enable/Disable button: "Disable" and checked when the status contains
      "enabled", "Enable" and unchecked otherwise; bound to the row's own name
      with the verbs enable (checked) and disable (unchecked). */
  function EnableDisableButton(s: Service): (b: Button) {
    var enabled := Contains(s.status, "enabled");
    Button(if enabled then "Disable" else "Enable", enabled, s.name, "enable", "disable")
  }

  /** Row i of the table after populate_table, for record i. */
  function RowFor(s: Service): (r: Row) {
    Filled(s.name, s.description, s.status, StartStopButton(s), EnableDisableButton(s))
  }

  function RowsFor(services: seq<Service>): (rows: seq<Row>)
    ensures |rows| == |services|
    ensures forall i :: 0 <= i < |rows| ==> rows[i] == RowFor(services[i])
  {
    seq(|services|, i requires 0 <= i < |services| => RowFor(services[i]))
  }

  /** The command line a click on `b` issues: the checkable button flips its
      check state and passes the new state to toggle_service, which picks the
      enabling verb when checked and the disabling one otherwise. */
  function Click(b: Button): (command: seq<string>) {
    ControlCommand(Action(Toggled(b).checked, b.enableVerb, b.disableVerb), b.service)
  }

  /** The Start/Stop button reads "Stop" and starts checked exactly when the
      status contains "running"; otherwise it reads "Start", unchecked. */
  lemma StartStopReflectsStatus(s: Service)
    ensures StartStopButton(s).checked <==> Contains(s.status, "running")
    ensures StartStopButton(s).caption == (if Contains(s.status, "running") then "Stop" else "Start")
    ensures StartStopButton(s).caption == "Stop" <==> StartStopButton(s).checked
  {
  }

  /** The Enable/Disable button reads "Disable" and starts checked exactly when
      the status contains "enabled"; otherwise it reads "Enable", unchecked. */
  lemma EnableDisableReflectsStatus(s: Service)
    ensures EnableDisableButton(s).checked <==> Contains(s.status, "enabled")
    ensures EnableDisableButton(s).caption == (if Contains(s.status, "enabled") then "Disable" else "Enable")
    ensures EnableDisableButton(s).caption == "Disable" <==> EnableDisableButton(s).checked
  {
  }

  /** A click on a row's Start/Stop button issues `sudo systemctl stop <name>`
      for a running service and `sudo systemctl start <name>` otherwise, so the
      verb is the one the caption names, and the name is the row's own. */
  lemma StartStopClick(s: Service)
    ensures Click(StartStopButton(s)) ==
      ["sudo", "systemctl", if Contains(s.status, "running") then "stop" else "start", s.name]
    ensures Click(StartStopButton(s))[2] == (if StartStopButton(s).caption == "Stop" then "stop" else "start")
  {
  }

  /** A click on a row's Enable/Disable button issues `sudo systemctl disable
      <name>` for an enabled service and `sudo systemctl enable <name>`
      otherwise, with the row's own name. */
  lemma EnableDisableClick(s: Service)
    ensures Click(EnableDisableButton(s)) ==
      ["sudo", "systemctl", if Contains(s.status, "enabled") then "disable" else "enable", s.name]
    ensures Click(EnableDisableButton(s))[2] == (if EnableDisableButton(s).caption == "Disable" then "disable" else "enable")
  {
  }

  /** A click flips the button but not its caption, so until the table is
      rebuilt every further click on it issues the other verb: after a click
      whose command failed, the same caption issues the opposite command. */
  lemma ClicksAlternate(b: Button)
    ensures Toggled(b).caption == b.caption && Toggled(b).service == b.service
    ensures Click(b)[2] == (if b.checked then b.disableVerb else b.enableVerb)
    ensures Click(Toggled(b))[2] == (if b.checked then b.enableVerb else b.disableVerb)
    ensures Toggled(Toggled(b)) == b
  {
  }

  /** The second click on a freshly built Start/Stop button, after a first
      click whose command failed: the caption is unchanged, but the command is
      `start` for a running service and `stop` otherwise. */
  lemma StartStopSecondClick(s: Service)
    ensures Toggled(StartStopButton(s)).caption == StartStopButton(s).caption
    ensures Click(Toggled(StartStopButton(s))) ==
      ["sudo", "systemctl", if Contains(s.status, "running") then "start" else "stop", s.name]
  {
  }

  /** The same for the Enable/Disable button: the second click issues `enable`
      for an enabled service and `disable` otherwise. */
  lemma EnableDisableSecondClick(s: Service)
    ensures Toggled(EnableDisableButton(s)).caption == EnableDisableButton(s).caption
    ensures Click(Toggled(EnableDisableButton(s))) ==
      ["sudo", "systemctl", if Contains(s.status, "enabled") then "enable" else "disable", s.name]
  {
  }

  /** After populate_table there is one row per record, and row i shows record
      i's name, description and status in columns 0, 1 and 2, while both its
      buttons act on record i's own name. */
  lemma RowHoldsRecord(services: seq<Service>, i: nat)
    requires i < |services|
    ensures |RowsFor(services)| == |services|
    ensures var r := RowsFor(services)[i];
      && HasItem(r, 0) && HasItem(r, 1) && HasItem(r, 2)
      && Text(r, 0) == services[i].name
      && Text(r, 1) == services[i].description
      && Text(r, 2) == services[i].status
      && !HasItem(r, 3) && !HasItem(r, 4)
      && Click(r.startStop)[3] == services[i].name && Click(r.enableDisable)[3] == services[i].name
  {
  }

  /** Whether filter_services shows a row: the lowercased search text occurs in
      the lowercased name of the row. */
  predicate Shown(r: Row, searchText: string)
    requires r.Filled?
  {
    Contains(Lower(r.name), Lower(searchText))
  }

  /** The hidden flags filter_services leaves: row i is hidden exactly when it
      is not shown. */
  function HiddenFor(rows: seq<Row>, searchText: string): (flags: seq<bool>)
    requires forall i :: 0 <= i < |rows| ==> rows[i].Filled?
    ensures |flags| == |rows|
    ensures forall i :: 0 <= i < |rows| ==> (flags[i] <==> !Shown(rows[i], searchText))
  {
    seq(|rows|, i requires 0 <= i < |rows| => !Shown(rows[i], searchText))
  }

  /** An empty search shows every row. */
  lemma EmptySearchShowsAll(rows: seq<Row>)
    requires forall i :: 0 <= i < |rows| ==> rows[i].Filled?
    ensures forall i :: 0 <= i < |rows| ==> !HiddenFor(rows, "")[i]
  {
    forall i | 0 <= i < |rows|
      ensures Shown(rows[i], "")
    {
      ContainsEmpty(Lower(rows[i].name));
    }
  }

  /** The search ignores the case of ASCII letters in the search text: a row is
      shown for a text exactly when it is shown for its lowercase form, and
      exactly when that form occurs somewhere in the lowercased name. */
  lemma ShownIgnoresCase(r: Row, searchText: string)
    requires r.Filled?
    ensures Shown(r, searchText) <==> Shown(r, Lower(searchText))
    ensures Shown(r, searchText) <==> exists i :: OccursAt(Lower(r.name), Lower(searchText), i)
  {
    LowerIdempotent(searchText);
    ContainsAt(Lower(r.name), Lower(searchText));
    assert Shown(r, searchText) == Contains(Lower(r.name), Lower(searchText));
    assert Shown(r, Lower(searchText)) == Contains(Lower(r.name), Lower(searchText));
  }

  /** The hidden flags follow row positions, not services, across a refresh:
      with the search text "b" applied to a table sorted in descending order
      (b above a), a refresh that lists a before b leaves a shown and b hidden,
      the opposite of what the search text selects. */
  lemma RefreshKeepsFlagsByPosition()
    ensures var a, b := Service("a", "x", "y"), Service("b", "x", "y");
      var before := [RowFor(b), RowFor(a)];
      var after := RowsFor([a, b]);
      && HiddenFor(before, "b") == [false, true]
      && Resize(HiddenFor(before, "b"), 2, false) == [false, true]
      && HiddenFor(after, "b") == [true, false]
  {
    var a, b := Service("a", "x", "y"), Service("b", "x", "y");
    assert Lower("a") == "a" && Lower("b") == "b";
    assert !Contains("a", "b") && Contains("b", "b");
    assert RowsFor([a, b]) == [RowFor(a), RowFor(b)];
  }

  /** The loop of populate_table after the records are fetched: setRowCount,
      then row by row the three items and the two buttons. */
  method FillRows(table: Table, services: seq<Service>)
    requires table.Valid()
    modifies table
    ensures table.Valid() && table.Complete()
    ensures table.rows == RowsFor(services)
    ensures table.hidden == Resize(old(table.hidden), |services|, false)
  {
    table.SetRowCount(|services|);
    for row := 0 to |services|
      invariant table.Valid() && |table.rows| == |services|
      invariant forall i :: 0 <= i < row ==> table.rows[i] == RowFor(services[i])
      invariant table.hidden == Resize(old(table.hidden), |services|, false)
    {
      table.SetRow(row, RowFor(services[row]));
    }
  }

  /** The loop of filter_services: every row's hidden flag is set from the
      lowercased search text and the row's lowercased name; the rows
      themselves are not touched. */
  method HideUnmatched(table: Table, searchText: string)
    requires table.Valid() && table.Complete()
    modifies table
    ensures table.Valid() && table.Complete()
    ensures table.rows == old(table.rows)
    ensures table.hidden == HiddenFor(table.rows, searchText)
  {
    var filterText := Lower(searchText);
    for row := 0 to |table.rows|
      invariant table.Valid() && table.rows == old(table.rows)
      invariant forall i :: 0 <= i < row ==> (table.hidden[i] <==> !Shown(table.rows[i], searchText))
    {
      var serviceName := Lower(table.rows[row].name);
      table.SetRowHidden(row, !Contains(serviceName, filterText));
    }
  }
}
