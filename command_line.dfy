/**
  The string work inside Window::perform_action: quoting the positional
  arguments, turning the ';'-delimited option string into flag tokens,
  and the text reported once the external command has finished.
 */
module CommandLine {
  import opened TextUtil

  /** An argument as it appears between its double quotes: every '"'
      becomes '\"'; backslashes and every other character are untouched. */
  function Escaped(arg: string): string
  {
    ReplaceAll(arg, '"', "\\\"")
  }

  /** Reads back an escaped argument: '\"' stands for '"'. */
  function Unescape(t: string): string
  {
    if t == [] then []
    else if |t| >= 2 && t[0] == '\\' && t[1] == '"' then ['"'] + Unescape(t[2..])
    else [t[0]] + Unescape(t[1..])
  }

  lemma EscapedNotQuoteFirst(s: string)
    requires Escaped(s) != []
    ensures Escaped(s)[0] != '"'
  {
  }

  /** Escaping loses nothing: the argument is recovered from its escaped form. */
  lemma {:induction false} UnescapeEscaped(s: string)
    ensures Unescape(Escaped(s)) == s
  {
    if s != [] {
      var rest := Escaped(s[1..]);
      UnescapeEscaped(s[1..]);
      if s[0] == '"' {
        assert Escaped(s) == "\\\"" + rest;
        assert Escaped(s)[2..] == rest;
      } else {
        assert Escaped(s) == [s[0]] + rest;
        assert Escaped(s)[1..] == rest;
        if s[0] == '\\' && rest != [] {
          EscapedNotQuoteFirst(s[1..]);
        }
      }
      assert s == [s[0]] + s[1..];
    }
  }

  /** Every double quote left in an escaped argument is preceded by a backslash. */
  lemma {:induction false} EscapedQuotesArePreceded(s: string, i: nat)
    requires i < |Escaped(s)| && Escaped(s)[i] == '"'
    ensures i > 0 && Escaped(s)[i - 1] == '\\'
  {
    var rest := Escaped(s[1..]);
    if s[0] == '"' {
      assert Escaped(s) == "\\\"" + rest;
      if i >= 2 {
        EscapedQuotesArePreceded(s[1..], i - 2);
      }
    } else {
      assert Escaped(s) == [s[0]] + rest;
      if i >= 1 {
        EscapedQuotesArePreceded(s[1..], i - 1);
      }
    }
  }

  /** The escaping grows the argument by exactly one character per quote. */
  lemma EscapedLength(s: string)
    ensures |Escaped(s)| == |s| + Count(s, '"')
  {
    ReplaceAllLength(s, '"', "\\\"");
  }

  /** The escaping loop of perform_action: find the next '"' from `pos`,
      replace it by '\"' and continue two characters further on, so the
      inserted quote is never looked at again. */
  method EscapeQuotes(arg: string) returns (escaped: string)
    ensures escaped == Escaped(arg)
  {
    escaped := arg;
    var pos: nat := 0;
    ghost var done: nat := 0;  // characters of `arg` already rewritten
    var found := Find(escaped, '"', pos);
    while found.Some?
      invariant done <= |arg|
      invariant escaped == Escaped(arg[..done]) + arg[done..]
      invariant pos == |Escaped(arg[..done])|
      invariant found == Find(escaped, '"', pos)
      decreases |escaped| - pos
    {
      var p := found.value;
      ghost var next := done + (p - pos) + 1;
      EscapeRound(arg, escaped, done, pos, p, next);
      escaped := escaped[..p] + "\\\"" + escaped[p + 1..];
      pos := p + 2;
      done := next;
      found := Find(escaped, '"', pos);
    }
    EscapeRest(arg, escaped, done, pos);
  }

  /** One round of the escaping loop: the characters up to the quote found
      at `p` are copied, and that quote becomes '\"'. */
  lemma EscapeRound(arg: string, escaped: string, done: nat, pos: nat, p: nat, next: nat)
    requires done <= |arg| && escaped == Escaped(arg[..done]) + arg[done..]
    requires pos == |Escaped(arg[..done])|
    requires pos <= p < |escaped| && escaped[p] == '"'
    requires forall i :: pos <= i < p ==> escaped[i] != '"'
    requires next == done + (p - pos) + 1
    ensures next <= |arg|
    ensures escaped[..p] + "\\\"" + escaped[p + 1..] == Escaped(arg[..next]) + arg[next..]
    ensures p + 2 == |Escaped(arg[..next])|
  {
    var gap := p - pos;
    var e0 := Escaped(arg[..done]);
    var tail := arg[done..];
    assert escaped[..pos] == e0 && escaped[pos..] == tail;
    assert forall i :: done <= i <= done + gap ==> arg[i] == tail[i - done] == escaped[pos + (i - done)];
    EscapeStep(arg, done, gap);
    assert escaped[..p] == e0 + arg[done..done + gap] by {
      assert escaped[pos..p] == tail[..gap] == arg[done..done + gap];
      assert escaped[..p] == escaped[..pos] + escaped[pos..p];
    }
    assert escaped[p + 1..] == arg[next..] by {
      assert escaped[p + 1..] == tail[gap + 1..];
    }
  }

  /** One round of the escaping loop: a run of `gap` characters without a
      quote, then the quote that the loop rewrites. */
  lemma EscapeStep(arg: string, done: nat, gap: nat)
    requires done + gap < |arg| && arg[done + gap] == '"'
    requires forall i :: done <= i < done + gap ==> arg[i] != '"'
    ensures Escaped(arg[..done + gap + 1]) == Escaped(arg[..done]) + arg[done..done + gap] + "\\\""
  {
    assert arg[..done + gap + 1] == arg[..done] + arg[done..done + gap] + [arg[done + gap]];
    ReplaceAllAppend(arg[..done] + arg[done..done + gap], [arg[done + gap]], '"', "\\\"");
    ReplaceAllAppend(arg[..done], arg[done..done + gap], '"', "\\\"");
    ReplaceAllAbsent(arg[done..done + gap], '"', "\\\"");
  }

  /** The loop's exit: what is left after the last quote is copied as it is. */
  lemma EscapeRest(arg: string, escaped: string, done: nat, pos: nat)
    requires done <= |arg| && escaped == Escaped(arg[..done]) + arg[done..]
    requires pos == |Escaped(arg[..done])|
    requires forall i :: pos <= i < |escaped| ==> escaped[i] != '"'
    ensures escaped == Escaped(arg)
  {
    var rest := arg[done..];
    assert escaped[pos..] == rest;
    assert forall i :: 0 <= i < |rest| ==> rest[i] == escaped[pos + i];
    ReplaceAllAbsent(rest, '"', "\\\"");
    ReplaceAllAppend(arg[..done], rest, '"', "\\\"");
    assert arg[..done] + rest == arg;
  }

  /** The text appended for the positional arguments: one token
      ` "<escaped argument>"` per argument, in order. */
  function QuotedArgs(args: seq<string>): string
  {
    if args == [] then []
    else QuotedArgs(args[..|args| - 1]) + " \"" + Escaped(args[|args| - 1]) + "\""
  }

  /** A fragment that already starts with "--" is kept as it is. */
  predicate HasFlagPrefix(fragment: string)
  {
    |fragment| >= 2 && fragment[..2] == "--"
  }

  /** The token appended for one non-empty option fragment. */
  function OptionToken(fragment: string): string
  {
    if HasFlagPrefix(fragment) then " " + fragment else " --" + fragment
  }

  /** What one fragment contributes: nothing when it is empty, its token otherwise. */
  function Piece(fragment: string): string
  {
    if fragment == [] then [] else OptionToken(fragment)
  }

  /** The text appended for a list of fragments, fragment by fragment. */
  function FragmentText(fragments: seq<string>): string
  {
    if fragments == [] then []
    else FragmentText(fragments[..|fragments| - 1]) + Piece(fragments[|fragments| - 1])
  }

  /** The text appended for the option string. */
  function OptionText(options: string): string
  {
    FragmentText(Split(options, ';'))
  }

  /** The whole command line built from an action, the positional
      arguments and the option string. */
  function CommandFor(action: string, args: seq<string>, options: string): string
  {
    action + QuotedArgs(args) + OptionText(options)
  }

  /** The fragments that are not empty, in their original order. */
  function NonEmpty(fragments: seq<string>): (kept: seq<string>)
    ensures |kept| <= |fragments|
    ensures forall k :: 0 <= k < |kept| ==> kept[k] != []
  {
    if fragments == [] then []
    else
      var last := fragments[|fragments| - 1];
      NonEmpty(fragments[..|fragments| - 1]) + (if last == [] then [] else [last])
  }

  /** The token of every fragment, in order. */
  function Tokens(fragments: seq<string>): (tokens: seq<string>)
    ensures |tokens| == |fragments|
  {
    seq(|fragments|, k requires 0 <= k < |fragments| => OptionToken(fragments[k]))
  }

  /** The fragment-by-fragment text is map(token, filter(non-empty, fragments)),
      concatenated: empty fragments are dropped and the others keep their order. */
  lemma {:induction false} FragmentTextIsMapFilter(fragments: seq<string>)
    ensures FragmentText(fragments) == Concat(Tokens(NonEmpty(fragments)))
  {
    if fragments != [] {
      var init := fragments[..|fragments| - 1];
      var last := fragments[|fragments| - 1];
      FragmentTextIsMapFilter(init);
      var kept := NonEmpty(init);
      if last != [] {
        assert NonEmpty(fragments) == kept + [last];
        var tokens := Tokens(kept);
        assert Tokens(kept + [last]) == tokens + [OptionToken(last)];
        assert (tokens + [OptionToken(last)])[..|tokens|] == tokens;
      } else {
        assert NonEmpty(fragments) == kept;
      }
    }
  }

  /** So the option text is map(token, filter(non-empty, split(options, ';'))). */
  lemma OptionTextIsMapFilterSplit(options: string)
    ensures OptionText(options) == Concat(Tokens(NonEmpty(Split(options, ';'))))
  {
    FragmentTextIsMapFilter(Split(options, ';'));
  }

  lemma {:induction false} FragmentTextAppend(a: seq<string>, b: seq<string>)
    ensures FragmentText(a + b) == FragmentText(a) + FragmentText(b)
  {
    if b == [] {
      assert a + b == a;
    } else {
      var init := b[..|b| - 1];
      assert (a + b)[..|a + b| - 1] == a + init;
      FragmentTextAppend(a, init);
      AppendAssoc(FragmentText(a), FragmentText(init), Piece(b[|b| - 1]));
    }
  }

  /** An empty option string contributes nothing (so the guard
      `!options.empty()` changes nothing). */
  lemma NoOptionsNoTokens()
    ensures OptionText("") == ""
  {
    assert Split("", ';') == [[]];
    assert Split("", ';')[..0] == [];
  }

  /** Fragments are emitted in their original order: the text for
      a + ";" + b is the text for a followed by the text for b. */
  lemma OptionTextConcatenates(a: string, b: string)
    ensures OptionText(a + ";" + b) == OptionText(a) + OptionText(b)
  {
    var fa := Split(a, ';');
    var fb := Split(b, ';');
    SplitPartsFree(a, ';');
    SplitPartsFree(b, ';');
    JoinSplit(a, ';');
    JoinSplit(b, ';');
    JoinAppend(fa, fb, ';');
    SplitJoin(fa + fb, ';');
    FragmentTextAppend(fa, fb);
  }

  lemma {:induction false} JoinAppend(a: seq<string>, b: seq<string>, sep: char)
    requires |a| >= 1 && |b| >= 1
    ensures Join(a + b, sep) == Join(a, sep) + [sep] + Join(b, sep)
  {
    if |a| == 1 {
      assert (a + b)[1..] == b;
    } else {
      assert (a + b)[1..] == a[1..] + b;
      JoinAppend(a[1..], b, sep);
    }
  }

  /** Three flags with an empty fragment between the last two: the empty
      fragment is dropped and the others keep their order. */
  lemma ThreeFlags(a: string, b: string, c: string)
    requires forall i :: 0 <= i < |a| ==> a[i] != ';'
    requires forall i :: 0 <= i < |b| ==> b[i] != ';'
    requires forall i :: 0 <= i < |c| ==> c[i] != ';'
    ensures OptionText(a + ";" + b + ";;" + c) == Piece(a) + Piece(b) + Piece(c)
  {
    var t1 := ";" + c;
    var t2 := b + ";" + t1;
    assert a + ";" + b + ";;" + c == a + ";" + t2;
    assert OptionText(t1) == Piece(c) by {
      assert t1 == [] + ";" + c;
      OptionTextConcatenates([], c);
      NoOptionsNoTokens();
      OptionTextSingle(c);
    }
    assert OptionText(t2) == Piece(b) + Piece(c) by {
      OptionTextConcatenates(b, t1);
      OptionTextSingle(b);
    }
    assert OptionText(a + ";" + t2) == Piece(a) + (Piece(b) + Piece(c)) by {
      OptionTextConcatenates(a, t2);
      OptionTextSingle(a);
    }
  }

  /** A sample option string: the empty fragment between ";;" is dropped
      (the emptiness test of window.cpp:143), "--force" is kept as it is and
      the other fragments gain the "--" prefix (window.cpp:145-149). */
  lemma OptionExample()
    ensures OptionText("verbose;--force;;dry-run") == " --verbose --force --dry-run"
  {
    OptionExampleFragments();
    OptionExamplePieces();
  }

  lemma OptionExampleFragments()
    ensures OptionText("verbose;--force;;dry-run") == Piece("verbose") + Piece("--force") + Piece("dry-run")
  {
    assert "verbose;--force;;dry-run" == "verbose" + ";" + "--force" + ";;" + "dry-run";
    ThreeFlags("verbose", "--force", "dry-run");
  }

  lemma OptionExamplePieces()
    ensures Piece("verbose") == " --verbose"
    ensures Piece("--force") == " --force"
    ensures Piece("dry-run") == " --dry-run"
    ensures Piece("verbose") + Piece("--force") + Piece("dry-run") == " --verbose --force --dry-run"
  {
    assert "verbose"[0] != '-' && "dry-run"[0] != '-';
    assert "--force"[..2] == "--";
    assert " --verbose" + " --force" + " --dry-run" == " --verbose --force --dry-run";
  }

  /** A fragment without ';' contributes exactly its own piece. */
  lemma OptionTextSingle(fragment: string)
    requires forall i :: 0 <= i < |fragment| ==> fragment[i] != ';'
    ensures OptionText(fragment) == Piece(fragment)
  {
    SplitNoSep(fragment, ';');
    assert [fragment][..0] == [];
  }

  /** The option loop of perform_action: cut `options` at each ';' found
      from `start`, append the token of every non-empty fragment, then
      handle the fragment after the last ';'. */
  method AppendOptions(prefix: string, options: string) returns (command: string)
    ensures command == prefix + OptionText(options)
  {
    command := prefix;
    if options != [] {
      var start: nat := 0;
      var end := Find(options, ';', start);
      assert options[start..] == options;
      while end.Some?
        invariant start <= |options|
        invariant end == Find(options, ';', start)
        invariant BuiltUpTo(prefix, options, command, start)
        decreases |options| - start
      {
        var e := end.value;
        var option := options[start..e];
        ghost var before := command;
        ghost var from := start;
        command := AppendOption(command, option);
        start := e + 1;
        OptionRound(prefix, options, from, e, start, before, command);
        end := Find(options, ';', start);
      }
      var option := options[start..];
      ghost var before := command;
      command := AppendOption(command, option);
      OptionTail(prefix, options, start, before, command);
    } else {
      NoOptionsNoTokens();
    }
  }

  /** The option loop's invariant: the command built so far, followed by
      the text of the options from `start` on, is the whole command. */
  predicate BuiltUpTo(prefix: string, options: string, command: string, start: nat)
    requires start <= |options|
  {
    prefix + OptionText(options) == command + OptionText(options[start..])
  }

  /** One round of the option loop keeps its invariant: the command so
      far followed by the text of what is left is the whole command. */
  lemma OptionRound(prefix: string, options: string, start: nat, e: nat, next: nat, before: string, command: string)
    requires start <= e < |options| && options[e] == ';' && next == e + 1
    requires forall i :: start <= i < e ==> options[i] != ';'
    requires BuiltUpTo(prefix, options, before, start)
    requires command == before + Piece(options[start..e])
    ensures BuiltUpTo(prefix, options, command, next)
  {
    OptionTextStep(options, start, e);
    AppendAssoc(before, Piece(options[start..e]), OptionText(options[e + 1..]));
  }

  /** What is left of the option string contributes the piece of its first
      fragment, then the pieces of the rest. */
  lemma OptionTextStep(options: string, start: nat, e: nat)
    requires start <= e < |options| && options[e] == ';'
    requires forall i :: start <= i < e ==> options[i] != ';'
    ensures OptionText(options[start..]) == Piece(options[start..e]) + OptionText(options[e + 1..])
  {
    var head := options[start..e];
    var later := Split(options[e + 1..], ';');
    calc {
      OptionText(options[start..]);
      FragmentText(Split(options[start..], ';'));
      { SplitStep(options, start, e); }
      FragmentText([head] + later);
      { FragmentTextAppend([head], later); }
      FragmentText([head]) + FragmentText(later);
      { FragmentTextSingle(head); }
      Piece(head) + FragmentText(later);
    }
  }

  lemma FragmentTextSingle(fragment: string)
    ensures FragmentText([fragment]) == Piece(fragment)
  {
    assert [fragment][..0] == [];
    assert [] + Piece(fragment) == Piece(fragment);
  }

  /** The loop's exit: after the last ';' what is left is a single
      fragment, so appending its piece completes the command. */
  lemma OptionTail(prefix: string, options: string, start: nat, before: string, command: string)
    requires start <= |options|
    requires forall i :: start <= i < |options| ==> options[i] != ';'
    requires BuiltUpTo(prefix, options, before, start)
    requires command == before + Piece(options[start..])
    ensures command == prefix + OptionText(options)
  {
    var rest := options[start..];
    assert forall i :: 0 <= i < |rest| ==> rest[i] == options[start + i];
    OptionTextSingle(rest);
  }

  /** One round of the option loop: the fragment up to the next ';' is
      the first fragment of what is left. */
  lemma SplitStep(options: string, start: nat, e: nat)
    requires start <= e < |options| && options[e] == ';'
    requires forall i :: start <= i < e ==> options[i] != ';'
    ensures Split(options[start..], ';') == [options[start..e]] + Split(options[e + 1..], ';')
  {
    var rest := options[start..];
    var i := e - start;
    forall j | 0 <= j < i
      ensures rest[j] != ';'
    {
      assert rest[j] == options[start + j];
    }
    assert rest[i] == options[e];
    SplitAtFirst(rest, ';', i);
    SliceOfSuffix(options, start, e);
  }

  /** The body shared by the loop and the tail: an empty fragment adds
      nothing, one whose first two characters are "--" is added after a
      space, any other one after " --". */
  method AppendOption(command: string, option: string) returns (extended: string)
    ensures extended == command + Piece(option)
  {
    extended := command;
    if option != [] {
      var head := if |option| < 2 then option else option[..2];
      if head != "--" {
        extended := extended + " --" + option;
      } else {
        extended := extended + " " + option;
      }
    }
  }

  /** The command built by perform_action: the action, one quoted token per
      positional argument, then the option tokens. */
  method BuildCommand(action: string, args: seq<string>, options: string) returns (command: string)
    ensures command == CommandFor(action, args, options)
    ensures options == "" ==> command == action + QuotedArgs(args)
  {
    command := action;
    for i := 0 to |args|
      invariant command == action + QuotedArgs(args[..i])
    {
      var escapedArg := EscapeQuotes(args[i]);
      assert args[..i + 1][..i] == args[..i];
      command := command + " \"" + escapedArg + "\"";
    }
    assert args[..|args|] == args;
    command := AppendOptions(command, options);
    NoOptionsNoTokens();
  }

  /** The argument tokens read back: `QuotedArgs` is a sequence of
      ` "` + Escaped(arg) + `"` pieces, one per argument, in order. */
  lemma {:induction false} QuotedArgsPieces(args: seq<string>)
    ensures QuotedArgs(args) == Concat(seq(|args|, k requires 0 <= k < |args| => " \"" + Escaped(args[k]) + "\""))
  {
    var pieces := seq(|args|, k requires 0 <= k < |args| => " \"" + Escaped(args[k]) + "\"");
    if args != [] {
      var init := args[..|args| - 1];
      var q := QuotedArgs(init);
      var e := Escaped(args[|args| - 1]);
      QuotedArgsPieces(init);
      assert pieces[..|pieces| - 1] == seq(|init|, k requires 0 <= k < |init| => " \"" + Escaped(init[k]) + "\"");
      assert pieces[|pieces| - 1] == " \"" + e + "\"";
      assert QuotedArgs(args) == q + " \"" + e + "\"";
      AppendAssoc(q, " \"", e);
      AppendAssoc(q, " \"" + e, "\"");
    }
  }

  /** The string handed to the shell: standard error merged into standard output. */
  function ShellLine(command: string): string
  {
    command + " 2>&1"
  }

  /** The header shown before the command runs. */
  function Header(command: string): string
  {
    "Executing: " + command + "\n\n"
  }

  /** What the external run produced: either the shell could not be
      started, or it printed some output and then exited with a code. */
  datatype RunResult = SpawnFailed | Exited(output: seq<string>, exitCode: int)

  const ExitPrefix: string := "\nExit code: "
  const SuccessSuffix: string := " (Success)\n"
  const FailedSuffix: string := " (Failed)\n"
  const SpawnFailure: string := "Failed to execute command\n"

  /** The line appended once the command has exited. */
  function ResultText(exitCode: int): string
  {
    ExitPrefix + IntToString(exitCode) + (if exitCode == 0 then SuccessSuffix else FailedSuffix)
  }

  /** The result line is the prefix, then the exit code in decimal and
      nothing else, then the suffix the code selects: " (Success)" exactly
      when the code is 0 and " (Failed)" exactly when it is not. */
  lemma ResultTextClassifies(exitCode: int)
    ensures var t := ResultText(exitCode);
      var suffix := if exitCode == 0 then SuccessSuffix else FailedSuffix;
      && |t| > |ExitPrefix| + |suffix|
      && t[..|ExitPrefix|] == ExitPrefix
      && t[|t| - |suffix|..] == suffix
      && (exitCode == 0 <==> t[|t| - |SuccessSuffix|..] == SuccessSuffix)
      && (exitCode != 0 <==> t[|t| - |FailedSuffix|..] == FailedSuffix)
      && var mid := t[|ExitPrefix|..|t| - |suffix|];
         mid != [] && IsNumeral(mid) && ParseInt(mid) == exitCode
  {
    var t := ResultText(exitCode);
    var suffix := if exitCode == 0 then SuccessSuffix else FailedSuffix;
    var digits := IntToString(exitCode);
    assert t == ExitPrefix + digits + suffix;
    assert t[|ExitPrefix|..|t| - |suffix|] == digits;
    assert t[|t| - |suffix|..] == suffix;
    IntToStringRoundTrip(exitCode);
    if exitCode == 0 {
      assert t[|t| - |FailedSuffix|..] == t[|t| - |SuccessSuffix|..][1..];
    } else {
      assert t[|t| - 3] == 'd';
    }
  }

  /** Everything perform_action writes to the (cleared) output view for one run. */
  function SessionLog(command: string, run: RunResult): string
  {
    Header(command) + match run
      case SpawnFailed => SpawnFailure
      case Exited(output, exitCode) => Concat(output) + ResultText(exitCode)
  }

  /** Whether perform_action schedules the window to close. */
  predicate AutoClose(run: RunResult)
  {
    run.Exited? && run.exitCode == 0
  }
}
