# systemctl_gui service manager, modelled in Dafny

systemctl_gui is a small PyQt5 desktop front end to systemd. It runs
`systemctl list-units --type=service --all --no-pager` and parses the listing
into `(name, description, status)` records. It shows one table row per record,
with a Start/Stop and an Enable/Disable button. A click runs
`sudo systemctl <verb> <name>` and rebuilds the table if that succeeded.
A search field hides the rows whose name does not contain the search text,
and clicking a column header sorts by that column, alternating ascending and
descending.

The repository holds the same logic three times:

- the structured version:
  - `structured/service_manager_logic.py`: `ServiceManager.get_services`;
  - `structured/service_table_widget.py`: `ServiceTableWidget`;
  - `structured/utility.py`: `run_command`;
- two single-file `ServiceManagerApp` windows, `service_manager_pyqt.py` and
  `gui.py`.

This project models all three.

The modules:

- `PyStr` (`py_str.dfy`) holds the Python string operations the parser and
  the filter depend on:
  - `str.split(maxsplit=n)` with CPython's exact whitespace set, and `str.split()`;
  - `str.splitlines()` with its full line-break set, where "\r\n" is one break;
  - `str.lower()`;
  - the substring test `in`.
- `Process` (`process.dfy`):
  - `subprocess.run(..., check=True)` over a process outcome given as input;
  - `run_command`;
  - the control command line.
- `ServiceManagerLogic` (`listing.dfy`): the listing parser, proved against a
  line-by-line specification.
- `QtTable` (`qt_table.dfy`) holds the state of a QTableWidget: rows, hidden
  flags, `setRowCount`, `setItem`/`setCellWidget`, `setRowHidden` and
  `sortItems`.
- `ServiceTable` (`service_table.dfy`) holds what the three windows share:
  - the row and button derivation;
  - the command a button click issues;
  - the populate loop and the filter loop.
- `TableWidget`, `PyqtApp` and `GuiApp` (`table_widget.dfy`, `pyqt_app.dfy`,
  `gui_app.dfy`) are the three window classes. Each has its sort-order field
  and `populate_table`, `toggle_service`, `filter_services` and `sort_table`.

The parser follows the code:

- A line must split into at least five fields.
- The status is the single fourth field, which is the SUB column.
- The description is the untouched remainder of the line.
- A leading marker column gets no special treatment.

For `nginx.service loaded active running Nginx web server`, the parser gives
name `nginx.service`, status `running` and description `Nginx web server`.
`ServiceManagerLogic.ParseListingLine` proves this layout for every line of
that shape.

A refresh keeps the hidden flags by row position, since `setRowCount` keeps
the rows that survive. After a sort, a successful toggle can therefore leave
the wrong rows hidden until the search text is edited again.
`ServiceTable.RefreshKeepsFlagsByPosition` shows a two-row instance.

A button's check state flips on every click, while its caption changes only
when the table is rebuilt. After a command that failed, the caption and the
state disagree, and the next click on the same button issues the verb
opposite to its caption. `ServiceTable.StartStopSecondClick` and
`ServiceTable.EnableDisableSecondClick` state the second click.

## Model

| member | source | states |
|---|---|---|
| `PyStr.Split` | structured/service_manager_logic.py:12 | `line.split(maxsplit=n)`: at most n+1 fields, each non-empty and not starting with whitespace |
| `PyStr.Tokens` | structured/service_manager_logic.py:12 | reference definition of `split()`: the maximal whitespace-free runs, each non-empty and free of whitespace |
| `PyStr.SplitLengthFrom` | structured/service_manager_logic.py:12-14 | `split(maxsplit=n)` returns min(number of words, n+1) fields, so `len(parts) < 5` means fewer than five words |
| `PyStr.SplitFieldFrom` | structured/service_manager_logic.py:12-16 | each field before the last is exactly the word `split()` finds at that position |
| `PyStr.SplitRemainderFrom` | structured/service_manager_logic.py:12 | the last field is the verbatim suffix of the line, starting after the whitespace that ends the previous field; its words are the remaining words of the line |
| `PyStr.SplitJoinFields` | structured/service_manager_logic.py:12 | round trip: words separated by any non-empty whitespace, then a tail not starting with whitespace, split back with maxsplit = number of words into those words and the tail verbatim |
| `PyStr.SplitLines` | structured/service_manager_logic.py:10 | `stdout.splitlines()`: no line holds a line break; there are no lines exactly when the text is empty |
| `PyStr.SplitLinesFirst` | structured/service_manager_logic.py:10 | a first line without breaks, ended by "\n", is the first element of splitlines() and the rest are the lines of the remaining text |
| `PyStr.SplitJoinLines` | structured/service_manager_logic.py:10 | round trip: splitlines() of lines each ended by "\n" gives back those lines |
| `PyStr.SplitLinesOneLine` | structured/service_manager_logic.py:10 | a break-free text is one line, or none when empty, with or without a final "\n" |
| `PyStr.Lower` | structured/service_table_widget.py:61-63 | `str.lower()` lowercases each character in place, so it keeps the length and leaves no upper-case ASCII letter |
| `PyStr.LowerIdempotent` | structured/service_table_widget.py:61-63 | lowercasing twice is lowercasing once |
| `PyStr.ContainsAt` | structured/service_table_widget.py:64 | `needle in hay` holds exactly when the needle occurs in the hay at some position |
| `PyStr.ContainsEmpty` | structured/service_table_widget.py:64 | the empty string is in every string |
| `Process.Run` | structured/service_manager_logic.py:7 | `subprocess.run(check=True)` returns the captured output only for exit code 0, raises CalledProcessError with the code and both streams for any other code, and raises OSError when the command cannot be started |
| `Process.RunCommand` | structured/utility.py:7-14 | `run_command` (also service_manager_pyqt.py:104-111 and gui.py:93-100) returns True and shows stdout exactly on exit code 0, returns False and shows stderr on any other exit code, and lets OSError through |
| `Process.RunCommandMatchesRun` | structured/utility.py:7-14 | run_command reports success exactly when the checked run returns, and raises exactly the non-CalledProcessError failures |
| `Process.Action` | structured/service_table_widget.py:55 | the verb is the enabling one when checked and the disabling one otherwise (also service_manager_pyqt.py:99, gui.py:88) |
| `Process.ControlCommand` | structured/service_table_widget.py:56 | the command is exactly the four tokens sudo, systemctl, verb, service name (also service_manager_pyqt.py:100, gui.py:89) |
| `ServiceManagerLogic.ParseLine` | structured/service_manager_logic.py:12-18 | a line yields a record with a non-empty name, status and description, or nothing |
| `ServiceManagerLogic.ParseLines` | structured/service_manager_logic.py:11-18 | at most one record per line |
| `ServiceManagerLogic.GetServices` | structured/service_manager_logic.py:5-19 | the append loop (also service_manager_pyqt.py:82-96 and gui.py:71-85) returns the records of the lines after the first exactly when the listing exits with 0; otherwise it raises what `subprocess.run(check=True)` raises, never an empty list |
| `ServiceManagerLogic.ParseLineExactly` | structured/service_manager_logic.py:12-14 | a line yields a record exactly when it has at least five whitespace-separated words; blank and short lines are skipped |
| `ServiceManagerLogic.ParseLineFields` | structured/service_manager_logic.py:12-17 | the name is the first word and the status the fourth, both free of whitespace; the description is the verbatim rest of the line after the whitespace following the fourth word, never empty, holding the line's words from the fifth on |
| `ServiceManagerLogic.ParseLinesAppend` | structured/service_manager_logic.py:11-18 | records come out in line order: the records of a + b are those of a followed by those of b |
| `ServiceManagerLogic.ParseLinesStep` | structured/service_manager_logic.py:11-18 | one more line adds its own record, or nothing, after the records of the earlier lines |
| `ServiceManagerLogic.ParseLinesOne` | structured/service_manager_logic.py:11-18 | one line contributes its own record or nothing |
| `ServiceManagerLogic.HeaderNeverYields` | structured/service_manager_logic.py:10-11 | whatever the first line holds, the records are those of the lines after it |
| `ServiceManagerLogic.ServiceListOfLines` | structured/service_manager_logic.py:10-18 | output made of a header and listing lines yields exactly the records of the listing lines, in order |
| `ServiceManagerLogic.HeaderOnlyYieldsNothing` | structured/service_manager_logic.py:10-11 | empty output and output holding only a header yield no records |
| `ServiceManagerLogic.ServiceCount` | structured/service_manager_logic.py:10-18 | the number of records is at most the number of lines minus one |
| `ServiceManagerLogic.ParseListingLine` | structured/service_manager_logic.py:12-18 | a line laid out as systemctl prints it (any indentation and padding) yields the UNIT column as name, the SUB column as status and the description verbatim |
| `QtTable.Flip` | structured/service_table_widget.py:68 | the next sort order always differs from the current one |
| `QtTable.FlipTwice` | structured/service_table_widget.py:66-68 | two flips restore the order |
| `QtTable.SortEntriesPermutes` | structured/service_table_widget.py:67 | sorting only rearranges the rows, each keeping its hidden flag |
| `QtTable.SortByTextOrdered` | structured/service_table_widget.py:67 | the rows holding items come out ordered by the column text in the requested direction |
| `QtTable.SortEntriesOrdered` | structured/service_table_widget.py:67 | after sortItems the rows with an item in the column come first, ordered, and the rest follow |
| `QtTable.SortByTextStable` | structured/service_table_widget.py:67 | the sort is stable: rows with equal text keep their relative order |
| `QtTable.SortWidgetColumnKeepsOrder` | structured/service_table_widget.py:67 | sorting by a button column, which holds no items, leaves the rows where they are |
| `QtTable.Table.constructor` | structured/service_table_widget.py:9 | a new table has no rows |
| `QtTable.Table.SetRowCount` | structured/service_table_widget.py:22 | rows beyond n are removed with their flags; new rows are blank and shown; surviving rows keep content and flag |
| `QtTable.Table.SetRow` | structured/service_table_widget.py:29-45 | filling one row changes only that row and no hidden flag |
| `QtTable.Table.SetRowHidden` | structured/service_table_widget.py:64 | changes only that row's hidden flag |
| `QtTable.Table.PressButton` | structured/service_table_widget.py:34-37 | a click on a checkable button flips only its check state and reports the new state; its caption, the other cells and the hidden flags stay |
| `QtTable.Table.SortItems` | structured/service_table_widget.py:67 | the rows with their flags become the sorted arrangement of the old ones; a fully filled table stays fully filled |
| `ServiceTable.StartStopReflectsStatus` | structured/service_table_widget.py:33-35 | the Start/Stop button reads "Stop" and starts checked exactly when the status contains "running", otherwise "Start" and unchecked (also service_manager_pyqt.py:61-63, gui.py:53-55) |
| `ServiceTable.EnableDisableReflectsStatus` | structured/service_table_widget.py:40-42 | the Enable/Disable button reads "Disable" and starts checked exactly when the status contains "enabled", otherwise "Enable" and unchecked (also service_manager_pyqt.py:68-70, gui.py:60-62) |
| `ServiceTable.StartStopClick` | structured/service_table_widget.py:37 | a click on Start/Stop issues `sudo systemctl stop <name>` for a running service and `start` otherwise: the verb the caption names, for the row's own service |
| `ServiceTable.EnableDisableClick` | structured/service_table_widget.py:44 | a click on Enable/Disable issues `disable` for an enabled service and `enable` otherwise, for the row's own service |
| `ServiceTable.ClicksAlternate` | structured/service_table_widget.py:34-37 | a click keeps the caption and the bound service, the first click issues the verb opposite to the check state and the next one the other verb, and two clicks restore the button |
| `ServiceTable.StartStopSecondClick` | structured/service_table_widget.py:33-37 | the second click on a fresh Start/Stop button keeps the caption but issues `start` for a running service and `stop` otherwise |
| `ServiceTable.EnableDisableSecondClick` | structured/service_table_widget.py:40-44 | the second click on a fresh Enable/Disable button keeps the caption but issues `enable` for an enabled service and `disable` otherwise |
| `ServiceTable.RowHoldsRecord` | structured/service_table_widget.py:26-45 | row i shows record i's name, description and status in columns 0-2, holds only widgets in columns 3-4, and both its buttons act on record i's name |
| `ServiceTable.EmptySearchShowsAll` | structured/service_table_widget.py:60-64 | an empty search text hides no row |
| `ServiceTable.ShownIgnoresCase` | structured/service_table_widget.py:61-64 | the search ignores letter case in the search text, and matches exactly when the lowercased text occurs somewhere in the lowercased name |
| `ServiceTable.RefreshKeepsFlagsByPosition` | structured/service_table_widget.py:22 | concrete instance: the hidden flags a refresh keeps by position can hide the row the search selects and show the one it rejects |
| `ServiceTable.FillRows` | structured/service_table_widget.py:22-45 | the populate loop leaves one filled row per record, row i built from record i, and the surviving rows' hidden flags |
| `ServiceTable.HideUnmatched` | structured/service_table_widget.py:61-64 | the filter loop hides row i exactly when its lowercased name does not contain the lowercased search text; rows and order are untouched |
| `TableWidget.ServiceTableWidget.constructor` | structured/service_table_widget.py:8-13 | the widget starts with an empty table and ascending sort order |
| `TableWidget.ServiceTableWidget.InitUI` | structured/service_table_widget.py:15-17 | initialisation fills the table from the listing, keeping the surviving rows' hidden flags, or raises what the listing raises and leaves the table untouched |
| `TableWidget.ServiceTableWidget.PopulateTable` | structured/service_table_widget.py:19-52 | when the listing exits with 0, row i holds record i; otherwise the exception propagates and the table is untouched |
| `TableWidget.ServiceTableWidget.ToggleService` | structured/service_table_widget.py:54-58 | issues `sudo systemctl <verb> <name>`, shows stdout or stderr, rebuilds the table only on exit code 0 (surviving rows keep their hidden flags), and leaves the table unchanged on failure or when the refresh raises |
| `TableWidget.ServiceTableWidget.ClickButton` | structured/service_table_widget.py:34-44 | a click flips the button and issues the command for its new state; without a rebuild the flipped button stays in the table under its old caption |
| `TableWidget.ServiceTableWidget.FilterServices` | structured/service_table_widget.py:60-64 | only the hidden flags change, each to "name does not match" |
| `TableWidget.ServiceTableWidget.SortTable` | structured/service_table_widget.py:66-68 | sorts in the current order, then flips the order |
| `PyqtApp.ServiceManagerApp.constructor` | service_manager_pyqt.py:12-14 | the window starts with an empty table |
| `PyqtApp.ServiceManagerApp.InitUI` | service_manager_pyqt.py:16-45 | fills the table, keeping the surviving rows' hidden flags, then sets the sort order to ascending; if the listing raises, it raises that exception and the table and the sort order stay as they were |
| `PyqtApp.ServiceManagerApp.PopulateTable` | service_manager_pyqt.py:47-80 | when the listing exits with 0, row i holds record i; otherwise the exception propagates and the table is untouched |
| `PyqtApp.ServiceManagerApp.ToggleService` | service_manager_pyqt.py:98-102 | issues `sudo systemctl <verb> <name>`, shows stdout or stderr, rebuilds only on exit code 0 (surviving rows keep their hidden flags), and leaves the table unchanged otherwise |
| `PyqtApp.ServiceManagerApp.ClickButton` | service_manager_pyqt.py:62-72 | a click flips the button and issues the command for its new state; without a rebuild the flipped button stays in the table under its old caption |
| `PyqtApp.ServiceManagerApp.FilterServices` | service_manager_pyqt.py:118-122 | hides row i exactly when its lowercased name does not contain the lowercased search text; contents and order untouched |
| `PyqtApp.ServiceManagerApp.SortTable` | service_manager_pyqt.py:124-126 | sorts in the current order, then flips it |
| `GuiApp.ServiceManagerApp.constructor` | gui.py:10-12 | the window starts with an empty table |
| `GuiApp.ServiceManagerApp.InitUI` | gui.py:14-37 | fills the table, keeping the surviving rows' hidden flags, then sets the sort order to ascending; if the listing raises, it raises that exception and the table and the sort order stay as they were |
| `GuiApp.ServiceManagerApp.PopulateTable` | gui.py:39-69 | when the listing exits with 0, row i holds record i; otherwise the exception propagates and the table is untouched |
| `GuiApp.ServiceManagerApp.ToggleService` | gui.py:87-91 | issues `sudo systemctl <verb> <name>`, shows stdout or stderr, rebuilds only on exit code 0 (surviving rows keep their hidden flags), and leaves the table unchanged otherwise |
| `GuiApp.ServiceManagerApp.ClickButton` | gui.py:54-64 | a click flips the button and issues the command for its new state; without a rebuild the flipped button stays in the table under its old caption |
| `GuiApp.ServiceManagerApp.FilterServices` | gui.py:107-111 | hides row i exactly when its lowercased name does not contain the lowercased search text; contents and order untouched |
| `GuiApp.ServiceManagerApp.SortTable` | gui.py:113-115 | sorts in the current order, then flips it |

## Left out

- Process execution is not performed. `subprocess.run` becomes an `Outcome` input: an exit code with both captured streams, or a command that could not be started.
- `show_message` and its message box are not modelled. `ToggleService` returns the text the box would show.
- The window layout is not modelled. This covers the search label, `setColumnCount`, header labels, resize modes, minimum button sizes, `apply_table_style`, the dark/light stylesheets and `toggle_dark_mode`, because none of them touch the modelled state.
- `structured/service_manager.py` is not modelled, because it only wires the widget to the search field.
- `PyStr.Lower` lowercases ASCII letters only; Python's `str.lower()` covers all of Unicode.
- `QtTable.Table.SortItems` compares texts by code point, while Qt compares UTF-16 code units; the two orders differ only between characters beyond U+FFFF and those in U+E000–U+FFFF.
- Qt's click handling is modelled only by its effect: `QtTable.Table.PressButton` flips the check state before the slot runs, as Qt does for checkable buttons. Keyboard activation, auto-repeat and button groups are not modelled.
- The search text is a parameter of `FilterServices`, standing for `search_input.text()` at the time of the call.
- Signal wiring is not modelled. This covers `textChanged`, `sectionClicked` and `clicked.connect`. The methods stand for the slots those signals call, and `ClickButton` stands for a button's click together with the lambda connected to it.
- The window constructors cannot fail in Dafny. Construction is split into a constructor that builds an empty table and `InitUI`, which returns the exception a failing listing raises.
- In `PyqtApp.ServiceManagerApp` and `GuiApp.ServiceManagerApp`, the Dafny constructor already gives `sortOrder` a value, because a Dafny field must have one. In Python the attribute exists only after initUI completes.
- Each window copy of `get_services` and `run_command` is modelled by the single `ServiceManagerLogic.GetServices` and `Process.RunCommand`, because the copies are the same code.
