/**
  The launcher window of window.cpp: it keeps the positional arguments it
  was started with, loads the menu, reacts to the two ways of choosing a
  row, and runs the chosen action with the arguments and its options.
 */
module Launcher {
  import opened TextUtil
  import opened CommandLine
  import opened Menu
  import opened MenuFacts

  /** ActionData of window.hpp without its `window` field: what a handler
      hands to g_timeout_add for perform_action_idle. */
  datatype ActionData = ActionData(action: string, options: string)

  /** What a selection handler does: replace the output view's text,
      schedule a run, or nothing at all. */
  datatype Reaction = Show(text: string) | Schedule(job: ActionData) | Ignore

  const NoSelection: string := "Please select an item first"
  const NoActionSelected: string := "Please select an item with an action defined"
  const NoActionRow: string := "This item has no action defined"

  /** on_button_clicked's decision for the current selection. */
  function ButtonReaction(items: seq<ActionItem>, selected: Option<Path>): (r: Reaction)
    ensures r != Ignore
    ensures r.Schedule? <==>
      selected.Some? && BindingFor(items, selected.value).Some? && BindingFor(items, selected.value).value.action != ""
    ensures r.Schedule? ==>
      r.job == ActionData(BindingFor(items, selected.value).value.action, BindingFor(items, selected.value).value.options)
    ensures r.Show? ==> r.text == (if selected.None? then NoSelection else NoActionSelected)
  {
    if selected.None? then Show(NoSelection)
    else
      var action := ActionFor(items, selected.value);
      if action != "" then Schedule(ActionData(action, OptionsFor(items, selected.value)))
      else Show(NoActionSelected)
  }

  /** on_row_activated's decision for an activated path; a path that names
      no row (gtk_tree_model_get_iter fails) is ignored. */
  function RowReaction(items: seq<ActionItem>, forest: seq<MenuNode>, path: Path): (r: Reaction)
    ensures r.Ignore? <==> !(path != [] && Reaches(forest, path))
    ensures r.Schedule? <==>
      path != [] && Reaches(forest, path) && BindingFor(items, path).Some? && BindingFor(items, path).value.action != ""
    ensures r.Schedule? ==> r.job == ActionData(BindingFor(items, path).value.action, BindingFor(items, path).value.options)
    ensures r.Show? ==> r.text == NoActionRow
  {
    if !(path != [] && Reaches(forest, path)) then Ignore
    else
      var action := ActionFor(items, path);
      if action != "" then Schedule(ActionData(action, OptionsFor(items, path)))
      else Show(NoActionRow)
  }

  /** Activating a row of the loaded menu schedules the action of the
      Item element that produced the row, with that element's options,
      exactly when the element has a non-empty action attribute; a row
      without one shows NoActionRow, and a path with no row is ignored. */
  lemma RowDispatch(menu: seq<Xml>, p: Path)
    ensures RowReaction(Bindings(menu, [], 0), Rows(menu), p).Ignore? <==> SourceAt(menu, p).None?
    ensures RowReaction(Bindings(menu, [], 0), Rows(menu), p).Schedule? <==>
      SourceAt(menu, p).Some? && "action" in SourceAt(menu, p).value.attrs &&
      SourceAt(menu, p).value.attrs["action"] != ""
    ensures RowReaction(Bindings(menu, [], 0), Rows(menu), p).Schedule? ==>
      RowReaction(Bindings(menu, [], 0), Rows(menu), p).job ==
        ActionData(SourceAt(menu, p).value.attrs["action"], OptionsAttr(SourceAt(menu, p).value))
    ensures RowReaction(Bindings(menu, [], 0), Rows(menu), p).Show? ==>
      RowReaction(Bindings(menu, [], 0), Rows(menu), p).text == NoActionRow
  {
    SourceIsRow(menu, p);
    Lookup(menu, p);
  }

  /** Pressing the button with row `p` selected schedules the same job as
      activating that row; every other selected path shows
      NoActionSelected. */
  lemma ButtonDispatch(menu: seq<Xml>, p: Path)
    ensures ButtonReaction(Bindings(menu, [], 0), Some(p)).Schedule? <==>
      SourceAt(menu, p).Some? && "action" in SourceAt(menu, p).value.attrs &&
      SourceAt(menu, p).value.attrs["action"] != ""
    ensures ButtonReaction(Bindings(menu, [], 0), Some(p)).Schedule? ==>
      ButtonReaction(Bindings(menu, [], 0), Some(p)) == RowReaction(Bindings(menu, [], 0), Rows(menu), p)
    ensures !ButtonReaction(Bindings(menu, [], 0), Some(p)).Schedule? ==>
      ButtonReaction(Bindings(menu, [], 0), Some(p)) == Show(NoActionSelected)
  {
    SourceIsRow(menu, p);
    Lookup(menu, p);
  }

  /** The output view's text after each reaction; "nothing" keeps it. */
  function ShownAfter(r: Reaction, log: string): string
  {
    if r.Show? then r.text else log
  }

  /** The scheduled runs after each reaction; only Schedule adds one. */
  function PendingAfter(r: Reaction, pending: seq<ActionData>): seq<ActionData>
  {
    if r.Schedule? then pending + [r.job] else pending
  }

  class Window {
    /** The positional arguments (files or directories), in order. */
    var args: seq<string>
    /** The text shown in the output view. */
    var log: string
    /** Runs handed to g_timeout_add and not yet started, oldest first. */
    var pending: seq<ActionData>
    /** Whether gtk_main_quit has been scheduled after a successful run. */
    var quitScheduled: bool
    const parser: ConfigParser
    const store: TreeStore
    /** The top-level nodes of the loaded menu document ([] when it could not be read). */
    ghost const menu: seq<Xml>

    /** The tree store and the bindings are what the document produces. */
    ghost predicate Valid()
      reads this, parser, store
    {
      store.forest == Rows(menu) && parser.actionItems == Bindings(menu, [], 0)
    }

    /** Window::Window: the arguments after the program name, then the menu
        from the document's root children (`document` is None when
        xmlReadFile or xmlDocGetRootElement gave NULL). */
    constructor(argv: seq<string>, document: Option<seq<Xml>>)
      ensures |args| == if |argv| == 0 then 0 else |argv| - 1
      ensures forall k :: 0 <= k < |args| ==> args[k] == argv[k + 1]
      ensures menu == (if document.Some? then document.value else [])
      ensures Valid()
      ensures log == "" && pending == [] && !quitScheduled
      ensures fresh(parser) && fresh(store)
    {
      var captured: seq<string> := [];
      var i := 1;
      while i < |argv|
        invariant 1 <= i <= if |argv| == 0 then 1 else |argv|
        invariant |captured| == i - 1
        invariant forall k :: 0 <= k < |captured| ==> captured[k] == argv[k + 1]
      {
        captured := captured + [argv[i]];
        i := i + 1;
      }
      args := captured;
      log := "";
      pending := [];
      quitScheduled := false;
      parser := new ConfigParser();
      store := new TreeStore();
      menu := if document.Some? then document.value else [];
      new;
      if document.Some? {
        parser.ParseXmlMenu(document.value, store, []);
      }
      assert [] + Rows(menu) == Rows(menu);
      assert [] + Bindings(menu, [], 0) == Bindings(menu, [], 0);
    }

    /** perform_action: clears the output view, shows the command, hands
        `command + " 2>&1"` to the shell (returned as `shellLine`), then
        shows the output and the result line, or the spawn failure; a
        successful run schedules the window to close. */
    method PerformAction(action: string, options: string, run: RunResult) returns (shellLine: string)
      modifies this
      ensures shellLine == ShellLine(CommandFor(action, args, options))
      ensures log == SessionLog(CommandFor(action, args, options), run)
      ensures quitScheduled == (old(quitScheduled) || AutoClose(run))
      ensures args == old(args) && pending == old(pending)
    {
      log := "";
      var command := BuildCommand(action, args, options);
      var text := Header(command);
      log := log + text;
      assert log == Header(command);
      shellLine := ShellLine(command);
      match run
      case SpawnFailed =>
        log := log + SpawnFailure;
      case Exited(output, exitCode) =>
        ShowOutput(output);
        ShowResult(exitCode);
        AppendAssoc(Header(command), Concat(output), ResultText(exitCode));
    }

    /** The result line after pclose: the exit code, classified as success
        or failure; a successful run schedules gtk_main_quit. */
    method ShowResult(exitCode: int)
      modifies this
      ensures log == old(log) + ResultText(exitCode)
      ensures quitScheduled == (old(quitScheduled) || exitCode == 0)
      ensures args == old(args) && pending == old(pending)
    {
      var resultText := ExitPrefix + IntToString(exitCode);
      if exitCode == 0 {
        resultText := resultText + SuccessSuffix;
      } else {
        resultText := resultText + FailedSuffix;
      }
      log := log + resultText;
      if exitCode == 0 {
        quitScheduled := true;
      }
    }

    /** The fgets loop of perform_action: every chunk the command printed
        is appended to the output view, in order. */
    method ShowOutput(output: seq<string>)
      modifies this
      ensures log == old(log) + Concat(output)
      ensures args == old(args) && pending == old(pending) && quitScheduled == old(quitScheduled)
    {
      ghost var log0 := log;
      var k := 0;
      while k < |output|
        invariant k <= |output|
        invariant log == log0 + Concat(output[..k])
        invariant args == old(args) && pending == old(pending) && quitScheduled == old(quitScheduled)
      {
        assert output[..k + 1][..k] == output[..k];
        AppendAssoc(log0, Concat(output[..k]), output[k]);
        log := log + output[k];
        k := k + 1;
      }
      assert output[..k] == output;
    }

    /** on_button_clicked for the current selection (None when no row is selected). */
    method OnButtonClicked(selected: Option<Path>)
      requires Valid()
      modifies this
      ensures log == ShownAfter(ButtonReaction(parser.actionItems, selected), old(log))
      ensures pending == PendingAfter(ButtonReaction(parser.actionItems, selected), old(pending))
      ensures args == old(args) && quitScheduled == old(quitScheduled)
      ensures Valid()
    {
      if selected.Some? {
        var action := parser.GetActionForIter(selected.value);
        if action != "" {
          var options := parser.GetOptionsForIter(selected.value);
          pending := pending + [ActionData(action, options)];
        } else {
          log := NoActionSelected;
        }
      } else {
        log := NoSelection;
      }
    }

    /** on_row_activated for an activated path. */
    method OnRowActivated(path: Path)
      requires Valid()
      modifies this
      ensures log == ShownAfter(RowReaction(parser.actionItems, store.forest, path), old(log))
      ensures pending == PendingAfter(RowReaction(parser.actionItems, store.forest, path), old(pending))
      ensures args == old(args) && quitScheduled == old(quitScheduled)
      ensures Valid()
    {
      if path != [] && Reaches(store.forest, path) {
        var action := parser.GetActionForIter(path);
        if action != "" {
          var options := parser.GetOptionsForIter(path);
          pending := pending + [ActionData(action, options)];
        } else {
          log := NoActionRow;
        }
      }
    }
  }
}
