/** `ServiceManagerApp` of the first single-file version (no dark mode): a
    maximised window holding a search field and a QTableWidget (`table`), with
    its own copies of get_services, populate_table, toggle_service,
    filter_services and sort_table. Its get_services and run_command are the
    same code as `ServiceManagerLogic.GetServices` and `Process.RunCommand`. */
module GuiApp {
  import opened Process
  import opened ServiceManagerLogic
  import opened QtTable
  import opened ServiceTable

  class ServiceManagerApp {
    const table: Table
    var sortOrder: SortOrder

    /** Every row has its flag and holds a service (filter_services reads
        the name item of every row). */
    predicate Valid()
      reads this, table
    {
      table.Valid() && table.Complete()
    }

    /** A window whose table is still empty (initUI creates and fills it). */
    constructor()
      ensures Valid()
      ensures table.rows == [] && table.hidden == []
      ensures sortOrder == AscendingOrder
    {
      table := new Table();
      sortOrder := AscendingOrder;
    }

    /** `initUI`: fill the table, then set the sort order to ascending; when
        the listing command raises, initUI stops before that assignment. */
    method InitUI(listing: Outcome) returns (raised: Option<Error>)
      requires Valid()
      modifies this, table
      ensures Valid()
      ensures raised.None? <==> listing.Exited? && listing.returncode == 0
      ensures raised.None? ==>
        table.rows == RowsFor(ServiceList(listing.stdout))
        && table.hidden == Resize(old(table.hidden), |table.rows|, false)
        && sortOrder == AscendingOrder
      ensures raised.Some? ==>
        raised.value == Run(ListUnits, listing).error
        && table.rows == old(table.rows) && table.hidden == old(table.hidden)
        && sortOrder == old(sortOrder)
    {
      raised := PopulateTable(listing);
      if raised.None? {
        sortOrder := AscendingOrder;
      }
    }

    /** `populate_table`: fetch the records; if the listing command raises, the
        exception propagates before the table is touched; otherwise there is
        one row per record, row i holding record i, and the rows that survive
        the resize keep their hidden flag. */
    method PopulateTable(listing: Outcome) returns (raised: Option<Error>)
      requires Valid()
      modifies table
      ensures Valid()
      ensures raised.None? <==> listing.Exited? && listing.returncode == 0
      ensures raised.Some? ==> raised.value == Run(ListUnits, listing).error
      ensures raised.Some? ==> table.rows == old(table.rows) && table.hidden == old(table.hidden)
      ensures raised.None? ==> table.rows == RowsFor(ServiceList(listing.stdout))
      ensures raised.None? ==> table.hidden == Resize(old(table.hidden), |table.rows|, false)
    {
      var services := GetServices(listing);
      if services.Failure? {
        return Some(services.error);
      }
      FillRows(table, services.value);
      return None;
    }

    /** `toggle_service`: issue `sudo systemctl <verb> <name>` through
        `run_command`, whose message box shows the command's standard output or,
        on a non-zero exit, its standard error; the table is rebuilt only when
        the command succeeded. A command that cannot be started raises. */
    method ToggleService(checked: bool, serviceName: string, actionEnable: string, actionDisable: string,
                         control: Outcome, listing: Outcome)
      returns (command: seq<string>, shown: Option<string>, raised: Option<Error>)
      requires Valid()
      modifies table
      ensures Valid()
      ensures command == ["sudo", "systemctl", if checked then actionEnable else actionDisable, serviceName]
      ensures shown == if control.Exited? then Some(if control.returncode == 0 then control.stdout else control.stderr) else None
      ensures control.NotStarted? ==> raised == Some(OSError(control.reason))
      ensures !(control.Exited? && control.returncode == 0) ==>
        table.rows == old(table.rows) && table.hidden == old(table.hidden)
      ensures control.Exited? && control.returncode != 0 ==> raised.None?
      ensures control.Exited? && control.returncode == 0 ==>
        (raised.None? <==> listing.Exited? && listing.returncode == 0)
      ensures control.Exited? && control.returncode == 0 && raised.None? ==>
        table.rows == RowsFor(ServiceList(listing.stdout))
        && table.hidden == Resize(old(table.hidden), |table.rows|, false)
      ensures control.Exited? && control.returncode == 0 && raised.Some? ==>
        raised.value == Run(ListUnits, listing).error
        && table.rows == old(table.rows) && table.hidden == old(table.hidden)
    {
      var action := Action(checked, actionEnable, actionDisable);
      command := ControlCommand(action, serviceName);
      var result := RunCommand(command, control);
      if result.Failure? {
        return command, None, Some(result.error);
      }
      shown := Some(result.value.message);
      raised := None;
      if result.value.ok {
        raised := PopulateTable(listing);
      }
    }

    /** A click on the checkable button in column 3 (Start/Stop) or 4
        (Enable/Disable) of a row: Qt flips its check state, then the slot
        populate_table connected calls toggle_service with the new state and
        the verbs and name bound to the button. The caption is left alone, so
        when no rebuild follows, the flipped button keeps its caption and the
        next click on it issues the other verb. */
    method ClickButton(row: nat, column: int, control: Outcome, listing: Outcome)
      returns (command: seq<string>, shown: Option<string>, raised: Option<Error>)
      requires Valid() && row < |table.rows| && (column == 3 || column == 4)
      modifies table
      ensures Valid()
      ensures command == Click(ButtonAt(old(table.rows)[row], column))
      ensures shown == if control.Exited? then Some(if control.returncode == 0 then control.stdout else control.stderr) else None
      ensures control.NotStarted? ==> raised == Some(OSError(control.reason))
      ensures !(control.Exited? && control.returncode == 0) ==>
        table.rows == PressedRows(old(table.rows), row, column) && table.hidden == old(table.hidden)
      ensures control.Exited? && control.returncode != 0 ==> raised.None?
      ensures control.Exited? && control.returncode == 0 ==>
        (raised.None? <==> listing.Exited? && listing.returncode == 0)
      ensures control.Exited? && control.returncode == 0 && raised.None? ==>
        table.rows == RowsFor(ServiceList(listing.stdout))
        && table.hidden == Resize(old(table.hidden), |table.rows|, false)
      ensures control.Exited? && control.returncode == 0 && raised.Some? ==>
        raised.value == Run(ListUnits, listing).error
        && table.rows == PressedRows(old(table.rows), row, column) && table.hidden == old(table.hidden)
    {
      var checked := table.PressButton(row, column);
      var b := ButtonAt(table.rows[row], column);
      command, shown, raised := ToggleService(checked, b.service, b.enableVerb, b.disableVerb, control, listing);
    }

    /** `filter_services`: hide exactly the rows whose lowercased name does not
        contain the lowercased search text; rows and their order stay. */
    method FilterServices(searchText: string)
      requires Valid()
      modifies table
      ensures Valid()
      ensures table.rows == old(table.rows)
      ensures table.hidden == HiddenFor(table.rows, searchText)
    {
      HideUnmatched(table, searchText);
    }

    /** `sort_table`: sort by the clicked column in the current order, then
        flip the order for the next click. */
    method SortTable(index: int)
      requires Valid()
      modifies this, table
      ensures Valid()
      ensures Entries(table.rows, table.hidden)
        == SortEntries(Entries(old(table.rows), old(table.hidden)), index, old(sortOrder))
      ensures sortOrder == Flip(old(sortOrder))
    {
      table.SortItems(index, sortOrder);
      sortOrder := Flip(sortOrder);
    }
  }
}
