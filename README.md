# BliPi Do launcher: command builder, menu loader and dispatch

BliPi Do is a small GTK launcher. It is started with a list of files or
directories. It shows a tree of actions read from an XML menu
(`/etc/blipi-do/actions.xml`). When the user picks a row, it runs that
row's shell command with the files as quoted arguments and the row's
options as `--flag` tokens. The command's output and exit code go into a
text view, and after a successful run the window closes.

This project models the logic behind that, as five Dafny modules:

- `TextUtil`: the `std::string` operations the code relies on.
  - `Find` is `find` from a position.
  - `ReplaceAll` is used for escaping, and `Split` and `Join` work on one separator.
  - `Concat` is plain concatenation, `IntToString` stands for `std::to_string`, and `ParseInt` is its read-back, used only to state that the printed code is the exit code (`IntToStringRoundTrip`).
- `CommandLine`: the string work of `Window::perform_action`.
  - The in-place escaping loop (`EscapeQuotes`) and the per-argument loop (`BuildCommand`).
  - The `;`-splitting option loop (`AppendOptions`, `AppendOption`).
  - The header, the shell line, and the result text and auto-close decision after the run.
- `Menu`: `ConfigParser::parse_xml_menu` and the two lookups.
  - The parsed XML is a datatype (`Xml`). The GTK tree store is a class `TreeStore` holding a forest of `MenuNode`s.
  - A tree iterator is its path (`Path`, the child indices that `gtk_tree_path_compare` compares).
  - `ConfigParser` is a class whose `actionItems` sequence grows as the loader walks the document.
  - The functions `Rows`, `Bindings` and `FirstMatch` say what the loader and the lookups compute.
- `MenuFacts`: what the loader promises about its result.
  - The node count, and the pre-order order of the bindings.
  - At most one binding per row.
  - Lookup correctness against the XML.
- `Launcher`: the `Window` class.
  - Argument capture and menu loading in the constructor.
  - The run log of `perform_action`.
  - The two selection handlers, whose decisions are the functions `RowReaction` and `ButtonReaction`.
  - The end-to-end facts that connect a row of the loaded menu to the job it schedules.

Process I/O is abstracted:
- `popen`, `fgets`, `pclose` and `WEXITSTATUS` become a `RunResult` input: either the shell could not be started, or the run printed some output chunks and then exited with a code.
- The scheduling calls of the handlers become a `pending` queue of `ActionData`.
- The 500 ms delayed `gtk_main_quit` becomes the flag `quitScheduled`.

Edge cases the code decides and the model keeps:
- An `Item` with `label=""` still gets a row: only a missing label is rejected (config_parser.cpp:34).
- An `Item` with `action=""` still gets a binding, because only a missing action is tested (config_parser.cpp:39); the handlers then treat it as having no action (window.cpp:230, 251).
- Options are split on every `;` and empty fragments are dropped (window.cpp:141-143, 155-156).

## Model

| member | source | states |
|---|---|---|
| Launcher.Window.constructor | src/com/window.cpp:7-11 | `args` is exactly `argv[1..]` in order, without the program name; the tree store and the bindings are those the loader produces for the document's root children, and are empty when the document could not be read (load_actions, lines 104-110) |
| CommandLine.EscapeQuotes | src/com/window.cpp:127-132 | the find/replace loop stops, and its result is the argument with every `"` replaced by `\"` and nothing else changed (equal to `ReplaceAll`) |
| CommandLine.UnescapeEscaped | src/com/window.cpp:127-132 | escaping loses nothing: reading `\"` back as `"` recovers the argument |
| CommandLine.EscapedQuotesArePreceded | src/com/window.cpp:129-131 | every `"` left in an escaped argument is preceded by a backslash, i.e. no inserted quote is processed again |
| CommandLine.EscapedLength | src/com/window.cpp:130 | escaping adds exactly one character per quote |
| TextUtil.ReplaceAllAppend | src/com/window.cpp:127-132 | replacing all occurrences distributes over concatenation |
| TextUtil.ReplaceAllAbsent | src/com/window.cpp:129 | text without the character is left unchanged |
| CommandLine.BuildCommand | src/com/window.cpp:124-164 | the command is `action`, then one ` "escaped"` token per argument in order, then the option text; with empty options it is just action plus quoted arguments |
| CommandLine.QuotedArgsPieces | src/com/window.cpp:125-134 | the argument text is the concatenation of ` "` + Escaped(arg) + `"` for each argument in input order, so an empty argument still gives `""` |
| CommandLine.AppendOptions | src/com/window.cpp:137-164 | the while loop over `;` positions plus the tail fragment appends exactly `OptionText(options)`; empty options append nothing |
| CommandLine.AppendOption | src/com/window.cpp:143-150 | a fragment adds nothing when empty, ` ` + fragment when its first two characters are `--`, and ` --` + fragment otherwise |
| CommandLine.OptionTextIsMapFilterSplit | src/com/window.cpp:139-163 | the option text is `concat(map(token, filter(non-empty, split(options, ';'))))` |
| CommandLine.FragmentTextIsMapFilter | src/com/window.cpp:141-163 | fragment by fragment, the text drops empty fragments and keeps the others in order |
| CommandLine.OptionTextConcatenates | src/com/window.cpp:141-153 | the text of `a;b` is the text of `a` followed by the text of `b`, so fragments keep their order |
| CommandLine.ThreeFlags | src/com/window.cpp:141-163 | for three `;`-free fragments with an empty one between the last two, the text is their three pieces in order |
| CommandLine.OptionExample | src/com/window.cpp:145-149 | `"verbose;--force;;dry-run"` gives ` --verbose --force --dry-run` |
| CommandLine.NoOptionsNoTokens | src/com/window.cpp:137 | an empty option string contributes no text |
| TextUtil.JoinSplit | src/com/window.cpp:139-155 | joining the `;`-fragments with `;` gives the option string back |
| TextUtil.SplitJoin | src/com/window.cpp:139-155 | splitting a join of `;`-free fragments gives those fragments back |
| TextUtil.SplitPartsFree | src/com/window.cpp:142 | no fragment contains the separator |
| CommandLine.ResultTextClassifies | src/com/window.cpp:194-199 | the result line starts with `\nExit code: `, ends in the suffix the code selects, and everything between the two is a non-empty decimal numeral that reads back as the exit code; the suffix is ` (Success)\n` exactly when the code is 0 and ` (Failed)\n` exactly when it is not |
| TextUtil.IntToStringRoundTrip | src/com/window.cpp:194 | the decimal text of the exit code reads back as the same integer |
| Launcher.Window.PerformAction | src/com/window.cpp:116-211 | the log is cleared, then the header `Executing: ` + command + `\n\n`, then either every output chunk in order and the result line, or only `Failed to execute command\n`; the shell gets `command + " 2>&1"`; the close is scheduled exactly when the run exited with 0; nothing else changes |
| Launcher.Window.ShowOutput | src/com/window.cpp:181-189 | every chunk the command printed is appended to the log, in order |
| Launcher.Window.ShowResult | src/com/window.cpp:194-207 | the result line for the exit code is appended, and the close is scheduled when the code is 0 |
| Launcher.ButtonReaction | src/com/window.cpp:249-263 | with no selection it shows "Please select an item first"; it schedules a job exactly when the selected path has a binding with a non-empty action, using that binding's action and options; otherwise it shows "Please select an item with an action defined"; it never does nothing |
| Launcher.RowReaction | src/com/window.cpp:228-239 | it does nothing exactly when the path is not a row; it schedules exactly when the row has a binding with a non-empty action, using that binding's action and options; otherwise it shows "This item has no action defined" |
| Launcher.Window.OnButtonClicked | src/com/window.cpp:242-264 | the log and the queue change as `ButtonReaction` decides, with at most one job queued; the menu is unchanged |
| Launcher.Window.OnRowActivated | src/com/window.cpp:221-240 | the log and the queue change as `RowReaction` decides for the activated path; the menu is unchanged |
| Launcher.RowDispatch | src/com/window.cpp:228-238 | for the loaded menu, activating a path is ignored exactly when no labelled Item produced that row; it schedules exactly when that Item has a non-empty `action` attribute, with that action and its `options` attribute (or ""); otherwise it shows the no-action message |
| Launcher.ButtonDispatch | src/com/window.cpp:249-259 | for the loaded menu, the button schedules the same job for a row as activating it does; every other selected path shows the no-action message |
| Menu.TreeStore.Append | src/com/config_parser.cpp:35-37 | the new row is the last child of `parent`, carries the label and has no children; its path is `parent` + [former child count] |
| Menu.ConfigParser.ParseXmlMenu | src/com/config_parser.cpp:26-62 | the store gains, under `parent`, exactly the rows `Rows(nodes)` after its existing children, and the bindings gain exactly `Bindings(nodes, …)` at the end |
| Menu.ConfigParser.ParseItem | src/com/config_parser.cpp:29-58 | one `Item` element: with a label, its row then (when it has an action) its binding, then its children's rows and bindings under the new row; without a label, nothing |
| Menu.ConfigParser.PushBinding | src/com/config_parser.cpp:39-45 | a labelled item adds a binding exactly when it has `action`; the binding carries the label, the action, `options` or "" and the new row's path |
| Menu.ConfigParser.GetActionForIter | src/com/config_parser.cpp:64-80 | the result is the action of the first binding whose path equals the query, or "" when none does |
| Menu.ConfigParser.GetOptionsForIter | src/com/config_parser.cpp:82-98 | the result is the options of that same first matching binding, or "" |
| Menu.FirstMatch | src/com/config_parser.cpp:65-78 | a found index is the first binding at or after `from` with an equal path; no index means no binding from there has that path |
| Menu.Labelled | src/com/config_parser.cpp:27-34 | only `Item` elements with a `label` are kept, and there are no more of them than there are nodes |
| Menu.ItemShape | src/com/config_parser.cpp:28-34 | a node that is not a labelled `Item` element adds no row and no binding |
| MenuFacts.SkippedNode | src/com/config_parser.cpp:28-34 | a text node, a comment, another element or an unlabelled Item is skipped together with its whole subtree, wherever it sits among its siblings |
| MenuFacts.RowsFollowLabelled | src/com/config_parser.cpp:34-55 | the k-th row is the k-th labelled Item, with its label and its children's rows, so siblings keep document order |
| MenuFacts.RowCount | src/com/config_parser.cpp:27-58 | the number of tree nodes equals the number of labelled Items whose ancestors are all labelled Items |
| MenuFacts.BindingsLocated | src/com/config_parser.cpp:36-54 | every binding made for a sibling list lies under `parent`, among the rows made for that list |
| MenuFacts.BindingsPreOrder | src/com/config_parser.cpp:45-54 | bindings are in strict pre-order of their paths, because each is pushed before the recursion into its children |
| MenuFacts.DistinctRows | src/com/config_parser.cpp:36-45 | no two bindings have the same path |
| MenuFacts.SourceIsRow | src/com/config_parser.cpp:34-37 | a path names a labelled Item exactly when it is a row of the store, and that row carries the item's label |
| MenuFacts.BindingResolves | src/com/config_parser.cpp:39-45 | the first binding found for any path is the one its source item calls for (label, action, options or ""), and there is none when the path is no row or the item has no action |
| MenuFacts.Lookup | src/com/config_parser.cpp:64-98 | for the whole document, both lookups return the item's `action` and `options` (or "") when it has an action, and "" with no binding otherwise |
| Menu.GraftGraft | src/com/config_parser.cpp:36 | appending two runs of children in turn gives the same tree as appending them together |
| Menu.GraftKeepsRows | src/com/config_parser.cpp:36 | appending children keeps every existing row, with its label, at the same path |
| Menu.GraftAddsRows | src/com/config_parser.cpp:36 | the k-th appended child sits at `parent` + [former child count + k] |

## Left out

- GTK window setup, widgets, icons, key handling, text-buffer rendering and event pumping (`gtk_main_iteration`). These are UI code. The text view is modelled only as the string `log`.
- Process I/O: `popen`, `fgets`, `pclose` and `WEXITSTATUS`. The run is an input (`RunResult`). Its output chunks are taken as given and the 255-byte `fgets` chunking is not modelled. The exit code is an unbounded `int`, not the 0-255 range `WEXITSTATUS` yields.
- The `std::cout` line at the start of `perform_action`. It goes to the console, not to the window.
- The timeouts (50, 200 and 500 ms), `perform_action_idle` and the `ActionData` heap handoff. A scheduled run is an entry in the `pending` queue with no delay and no reference to the window. A scheduled close is the `quitScheduled` flag.
- libxml2 reading and parsing (`xmlReadFile`, `xmlDocGetRootElement`, `ConfigParser::load_xml`) and the error message of `load_actions`. The constructor takes the already-parsed root children, or None when the file could not be read.
- `xmlFree`, `xmlFreeDoc`, `xmlCleanupParser`, and `GtkTreeIter`/`GtkTreePath` allocation and freeing. This is memory management. A tree iterator is its path.
- Byte-level text: strings are sequences of characters, without libxml2's UTF-8 handling.
- Only `"` is escaped, as in the code. Backslashes and other shell metacharacters inside an argument are not escaped; the model states this and does not change it.
- src/main.cpp and the headers are not part of this model beyond the `ActionItem` and `ActionData` fields.
