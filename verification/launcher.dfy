/**
 * The desktop shell's command processing: which script files become commands, how an
 * input line is split and dispatched, the sorted help listing, presets, and how a
 * script's entry point is chosen. Widgets, sounds and imports are left to parameters.
 */
module Launcher {
  import opened Common

  // ---------------------------------------------------------------------------
  // Python string helpers

  /** Python's `str.isspace` characters. */
  predicate IsSpace(c: char) {
    ('\t' <= c <= '\r') || ('\U{1C}' <= c <= ' ') || c == '\U{85}' || c == '\U{A0}' ||
    c == '\U{1680}' || ('\U{2000}' <= c <= '\U{200A}') || c == '\U{2028}' || c == '\U{2029}' ||
    c == '\U{202F}' || c == '\U{205F}' || c == '\U{3000}'
  }

  predicate NoSpace(s: string) {
    forall i :: 0 <= i < |s| ==> !IsSpace(s[i])
  }

  /** ASCII case folding; other characters are kept. */
  function Lower(s: string): (r: string)
    ensures |r| == |s|
    ensures forall i :: 0 <= i < |s| ==> r[i] == if 'A' <= s[i] <= 'Z' then (s[i] as int + 32) as char else s[i]
  {
    seq(|s|, i requires 0 <= i < |s| => if 'A' <= s[i] <= 'Z' then (s[i] as int + 32) as char else s[i])
  }

  predicate StartsWith(s: string, p: string) {
    |p| <= |s| && s[..|p|] == p
  }

  predicate EndsWith(s: string, p: string) {
    |p| <= |s| && s[|s| - |p|..] == p
  }

  /** Number of leading whitespace characters. */
  function LeadingSpaces(s: string): (n: nat)
    ensures n <= |s| && (n < |s| ==> !IsSpace(s[n]))
    ensures forall i :: 0 <= i < n ==> IsSpace(s[i])
    decreases |s|
  {
    if |s| > 0 && IsSpace(s[0]) then 1 + LeadingSpaces(s[1..]) else 0
  }

  /** Number of leading characters that are not whitespace. */
  function WordLength(s: string): (n: nat)
    ensures n <= |s| && (n < |s| ==> IsSpace(s[n]))
    ensures NoSpace(s[..n])
    decreases |s|
  {
    if |s| > 0 && !IsSpace(s[0]) then
      var n := 1 + WordLength(s[1..]);
      assert s[..n] == [s[0]] + s[1..][..n - 1];
      n
    else 0
  }

  /** `str.split()` with no separator: the maximal runs of non-whitespace, in order. */
  function Split(s: string): (words: seq<string>)
    ensures forall i :: 0 <= i < |words| ==> |words[i]| > 0 && NoSpace(words[i])
    decreases |s|
  {
    var t := s[LeadingSpaces(s)..];
    if |t| == 0 then []
    else
      var n := WordLength(t);
      [t[..n]] + Split(t[n..])
  }

  /** `str.strip()`: the text between leading and trailing whitespace. */
  function Strip(s: string): (r: string)
    ensures |r| == 0 || (!IsSpace(r[0]) && !IsSpace(r[|r| - 1]))
    decreases |s|
  {
    if |s| > 0 && IsSpace(s[0]) then Strip(s[1..])
    else if |s| > 0 && IsSpace(s[|s| - 1]) then Strip(s[..|s| - 1])
    else s
  }

  /** Words joined with single spaces. */
  function JoinSpaces(words: seq<string>): string {
    if |words| == 0 then ""
    else if |words| == 1 then words[0]
    else words[0] + " " + JoinSpaces(words[1..])
  }

  /** Splitting words joined by single spaces gives the words back. */
  lemma {:induction false} SplitJoin(words: seq<string>)
    requires forall i :: 0 <= i < |words| ==> |words[i]| > 0 && NoSpace(words[i])
    ensures Split(JoinSpaces(words)) == words
    decreases |words|
  {
    if |words| > 0 {
      var w := words[0];
      var s := JoinSpaces(words);
      var rest := if |words| == 1 then "" else " " + JoinSpaces(words[1..]);
      assert s == w + rest;
      assert LeadingSpaces(s) == 0;
      assert s[0..] == s;
      WordOfJoin(w, rest);
      assert s[..|w|] == w && s[|w|..] == rest;
      SplitJoin(words[1..]);
      if |words| == 1 {
        assert Split(rest) == [];
      } else {
        SplitSkipsSpace(JoinSpaces(words[1..]));
        assert Split(rest) == words[1..];
      }
    }
  }

  /** A word followed by nothing or by whitespace is read whole. */
  lemma {:induction false} WordOfJoin(w: string, rest: string)
    requires |w| > 0 && NoSpace(w) && (|rest| == 0 || IsSpace(rest[0]))
    ensures WordLength(w + rest) == |w|
    decreases |w|
  {
    var s := w + rest;
    if |w| > 1 {
      assert s[1..] == w[1..] + rest;
      WordOfJoin(w[1..], rest);
    } else {
      assert s[1..] == rest;
    }
  }

  /** One leading space does not change the split. */
  lemma SplitSkipsSpace(s: string)
    ensures Split(" " + s) == Split(s)
  {
    var t := " " + s;
    assert t[1..] == s;
    assert LeadingSpaces(t) == 1 + LeadingSpaces(s);
    assert t[LeadingSpaces(t)..] == s[LeadingSpaces(s)..];
  }

  // ---------------------------------------------------------------------------
  // load_commands

  /** A directory entry becomes a command: a `.py` file other than the launcher and config, not private. */
  predicate IsCommandFile(filename: string) {
    EndsWith(filename, ".py") && Lower(filename) != "launcher.py" && Lower(filename) != "config.py"
    && !StartsWith(filename, "_")
  }

  function Stem(filename: string): string
    requires EndsWith(filename, ".py")
  {
    filename[..|filename| - 3]
  }

  /** The key a command file is stored under: its lowercased stem. */
  function KeyOf(filename: string): string
    requires EndsWith(filename, ".py")
  {
    Lower(Stem(filename))
  }

  /** Entry `i` is a command file stored under `k`, and no later entry before `n` is. */
  predicate LastWithKey(filenames: seq<string>, n: nat, i: int, k: string)
    requires n <= |filenames|
  {
    0 <= i < n && IsCommandFile(filenames[i]) && KeyOf(filenames[i]) == k &&
    forall j :: i < j < n && IsCommandFile(filenames[j]) ==> KeyOf(filenames[j]) != k
  }

  /** The command table built from a listing in order, each entry overwriting an equal key. */
  function Commands(filenames: seq<string>): map<string, string>
    decreases |filenames|
  {
    if |filenames| == 0 then map[]
    else
      var m := Commands(filenames[..|filenames| - 1]);
      var f := filenames[|filenames| - 1];
      if IsCommandFile(f) then m[KeyOf(f) := Stem(f)] else m
  }

  /** Every command file's key is in the table. */
  lemma {:induction false} CommandsHasEveryKey(filenames: seq<string>, i: nat)
    requires i < |filenames| && IsCommandFile(filenames[i])
    ensures KeyOf(filenames[i]) in Commands(filenames)
    decreases |filenames|
  {
    var n := |filenames| - 1;
    if i < n {
      assert filenames[..n][i] == filenames[i];
      CommandsHasEveryKey(filenames[..n], i);
    }
  }

  /** Each key is stored with the stem of the last command file that has it. */
  lemma {:induction false} CommandsLastWins(filenames: seq<string>, k: string)
    requires k in Commands(filenames)
    ensures exists i :: LastWithKey(filenames, |filenames|, i, k) && Commands(filenames)[k] == Stem(filenames[i])
    decreases |filenames|
  {
    var n := |filenames| - 1;
    var init := filenames[..n];
    var f := filenames[n];
    if IsCommandFile(f) && k == KeyOf(f) {
      assert LastWithKey(filenames, |filenames|, n, k);
    } else {
      CommandsLastWins(init, k);
      var i :| LastWithKey(init, n, i, k) && Commands(init)[k] == Stem(init[i]);
      assert init[i] == filenames[i];
      assert forall j :: i < j < n ==> init[j] == filenames[j];
      assert LastWithKey(filenames, |filenames|, i, k);
    }
  }

  /**
   * `load_commands` over a directory listing: each command file is stored under its
   * lowercased stem with the stem itself as value; a later file with the same key wins.
   */
  method LoadCommands(filenames: seq<string>) returns (cmds: map<string, string>)
    ensures forall i :: 0 <= i < |filenames| && IsCommandFile(filenames[i]) ==> KeyOf(filenames[i]) in cmds
    ensures forall k :: k in cmds ==>
      exists i :: LastWithKey(filenames, |filenames|, i, k) && cmds[k] == Stem(filenames[i])
  {
    cmds := map[];
    var n := 0;
    while n < |filenames|
      invariant 0 <= n <= |filenames|
      invariant cmds == Commands(filenames[..n])
    {
      var filename := filenames[n];
      assert filenames[..n + 1][..n] == filenames[..n];
      if IsCommandFile(filename) {
        var name := filename[..|filename| - 3];
        cmds := cmds[Lower(name) := name];
      }
      n := n + 1;
    }
    assert filenames[..n] == filenames;
    forall i | 0 <= i < |filenames| && IsCommandFile(filenames[i])
      ensures KeyOf(filenames[i]) in cmds
    {
      CommandsHasEveryKey(filenames, i);
    }
    forall k | k in cmds
      ensures exists i :: LastWithKey(filenames, |filenames|, i, k) && cmds[k] == Stem(filenames[i])
    {
      CommandsLastWins(filenames, k);
    }
  }

  // ---------------------------------------------------------------------------
  // process_command

  /** What an input line makes the shell do. */
  datatype Action =
    | NeedPrefix
    | Nothing
    | Exit
    | Calculator
    | ShowHelp
    | Info
    | ApplyPreset(preset: string)
    | Clear
    | TaskManager
    | RunScript(command: string, args: seq<string>)
    | UnknownCommand(command: string)

  /** Commands the shell handles itself, ahead of any script of the same name. */
  predicate IsBuiltin(command: string) {
    command == "exit" || command == "calculator" || command == "help" || command == "info" ||
    command == "clear" || command == "taskmanager"
  }

  /**
   * `process_command`: strip, require the prefix, split the rest into words, lowercase
   * the first; built-ins come first (`preset` only with exactly one argument), then
   * scripts, then the unknown-command error.
   */
  function ProcessCommand(input: string, prefix: string, commands: map<string, string>): (a: Action)
    ensures a == NeedPrefix <==> !StartsWith(Strip(input), prefix)
    ensures a == Nothing <==> StartsWith(Strip(input), prefix) && Split(Strip(input)[|prefix|..]) == []
    ensures a.RunScript? ==>
      var words := Split(Strip(input)[|prefix|..]);
      |words| > 0 && a.command == Lower(words[0]) && a.args == words[1..] &&
      a.command in commands && !IsBuiltin(a.command) && (a.command == "preset" ==> |a.args| != 1)
    ensures a.UnknownCommand? ==>
      a.command !in commands && !IsBuiltin(a.command) && |a.command| > 0
    ensures a.ApplyPreset? ==>
      var words := Split(Strip(input)[|prefix|..]);
      |words| == 2 && Lower(words[0]) == "preset" && a.preset == words[1]
    ensures StartsWith(Strip(input), prefix) && Split(Strip(input)[|prefix|..]) != [] ==>
      var words := Split(Strip(input)[|prefix|..]);
      var head := Lower(words[0]);
      (head == "exit" ==> a == Exit) &&
      (head == "calculator" ==> a == Calculator) &&
      (head == "help" ==> a == ShowHelp) &&
      (head == "info" ==> a == Info) &&
      (head == "clear" ==> a == Clear) &&
      (head == "taskmanager" ==> a == TaskManager) &&
      (a.ApplyPreset? <==> head == "preset" && |words| == 2) &&
      (head == "preset" && |words| == 2 ==> a == ApplyPreset(words[1])) &&
      (!IsBuiltin(head) && !(head == "preset" && |words| == 2) ==>
        a == if head in commands then RunScript(head, words[1..]) else UnknownCommand(head))
  {
    var cmd := Strip(input);
    if !StartsWith(cmd, prefix) then NeedPrefix
    else
      var parts := Split(cmd[|prefix|..]);
      if |parts| == 0 then Nothing
      else
        ChooseAction(Lower(parts[0]), parts[1..], commands)
  }

  /** The action of a lower-cased command word and its arguments, in `process_command`'s order. */
  function ChooseAction(command: string, args: seq<string>, commands: map<string, string>): (a: Action)
    ensures a.RunScript? ==>
      a.command == command && a.args == args && command in commands && !IsBuiltin(command) &&
      (command == "preset" ==> |args| != 1)
    ensures a.UnknownCommand? ==> a.command == command && command !in commands && !IsBuiltin(command)
    ensures a.ApplyPreset? <==> command == "preset" && |args| == 1
    ensures a.ApplyPreset? ==> a.preset == args[0]
    ensures a != NeedPrefix && a != Nothing
    ensures command == "exit" ==> a == Exit
    ensures command == "calculator" ==> a == Calculator
    ensures command == "help" ==> a == ShowHelp
    ensures command == "info" ==> a == Info
    ensures command == "clear" ==> a == Clear
    ensures command == "taskmanager" ==> a == TaskManager
    ensures !IsBuiltin(command) && !(command == "preset" && |args| == 1) ==>
      a == if command in commands then RunScript(command, args) else UnknownCommand(command)
  {
    if command == "exit" then Exit
    else if command == "calculator" then Calculator
    else if command == "help" then ShowHelp
    else if command == "info" then Info
    else if command == "preset" && |args| == 1 then ApplyPreset(args[0])
    else if command == "clear" then Clear
    else if command == "taskmanager" then TaskManager
    else if command in commands then RunScript(command, args)
    else UnknownCommand(command)
  }

  /** A built-in name is never handed to a script, even when a script has that name. */
  lemma BuiltinsShadowScripts(input: string, prefix: string, commands: map<string, string>)
    requires StartsWith(Strip(input), prefix)
    requires var words := Split(Strip(input)[|prefix|..]); |words| > 0 && IsBuiltin(Lower(words[0]))
    ensures !ProcessCommand(input, prefix, commands).RunScript?
    ensures !ProcessCommand(input, prefix, commands).UnknownCommand?
  {
  }

  /** The prefix, a command word and its arguments, typed with single spaces, dispatch as written. */
  lemma TypedCommandRunsScript(prefix: string, command: string, args: seq<string>, commands: map<string, string>)
    requires |prefix| > 0 && !IsSpace(prefix[0]) && NoSpace(prefix)
    requires |command| > 0 && NoSpace(command) && Lower(command) == command
    requires forall i :: 0 <= i < |args| ==> |args[i]| > 0 && NoSpace(args[i])
    requires command in commands && !IsBuiltin(command) && command != "preset"
    ensures ProcessCommand(prefix + JoinSpaces([command] + args), prefix, commands) == RunScript(command, args)
  {
    var words := [command] + args;
    var line := prefix + JoinSpaces(words);
    StripKeepsWords(prefix, words);
    assert line[|prefix|..] == JoinSpaces(words);
    SplitJoin(words);
    assert words[1..] == args;
  }

  /** A line that starts with a non-space prefix and ends with a word has nothing to strip. */
  lemma StripKeepsWords(prefix: string, words: seq<string>)
    requires |prefix| > 0 && !IsSpace(prefix[0])
    requires |words| > 0 && forall i :: 0 <= i < |words| ==> |words[i]| > 0 && NoSpace(words[i])
    ensures Strip(prefix + JoinSpaces(words)) == prefix + JoinSpaces(words)
  {
    JoinEndsWithWord(words);
  }

  lemma {:induction false} JoinEndsWithWord(words: seq<string>)
    requires |words| > 0 && forall i :: 0 <= i < |words| ==> |words[i]| > 0 && NoSpace(words[i])
    ensures var s := JoinSpaces(words); |s| > 0 && !IsSpace(s[|s| - 1])
    decreases |words|
  {
    if |words| > 1 {
      JoinEndsWithWord(words[1..]);
    }
  }

  // ---------------------------------------------------------------------------
  // help listing

  /** Python's string order: code point by code point, a proper prefix first. */
  predicate LessEq(a: string, b: string)
    decreases |a|
  {
    |a| == 0 || (|b| > 0 && (a[0] < b[0] || (a[0] == b[0] && LessEq(a[1..], b[1..]))))
  }

  lemma {:induction false} LessEqTotal(a: string, b: string)
    ensures LessEq(a, b) || LessEq(b, a)
    decreases |a|
  {
    if |a| > 0 && |b| > 0 && a[0] == b[0] {
      LessEqTotal(a[1..], b[1..]);
    }
  }

  lemma {:induction false} LessEqTransitive(a: string, b: string, c: string)
    requires LessEq(a, b) && LessEq(b, c)
    ensures LessEq(a, c)
    decreases |a|
  {
    if |a| > 0 && a[0] == b[0] && b[0] == c[0] {
      LessEqTransitive(a[1..], b[1..], c[1..]);
    }
  }

  predicate Sorted(s: seq<string>) {
    forall i :: 0 < i < |s| ==> LessEq(s[i - 1], s[i])
  }

  /** `x` placed before the first element it does not exceed. */
  function Insert(x: string, s: seq<string>): (r: seq<string>)
    requires Sorted(s)
    ensures Sorted(r) && multiset(r) == multiset(s) + multiset{x}
    ensures |r| > 0 && (r[0] == x || (|s| > 0 && r[0] == s[0]))
    decreases |s|
  {
    if |s| == 0 then [x]
    else if LessEq(x, s[0]) then [x] + s
    else
      LessEqTotal(x, s[0]);
      var tail := Insert(x, s[1..]);
      assert s == [s[0]] + s[1..];
      [s[0]] + tail
  }

  /** `sorted`: the elements in non-decreasing order, with the same multiplicities. */
  function Sort(s: seq<string>): (r: seq<string>)
    ensures Sorted(r) && multiset(r) == multiset(s)
    decreases |s|
  {
    if |s| == 0 then []
    else
      assert s == [s[0]] + s[1..];
      Insert(s[0], Sort(s[1..]))
  }

  /** In a sorted list every earlier element is at most every later one. */
  lemma {:induction false} SortedPairwise(s: seq<string>, i: nat, j: nat)
    requires Sorted(s) && i <= j < |s|
    ensures LessEq(s[i], s[j])
    decreases j - i
  {
    if i == j {
      LessEqTotal(s[i], s[i]);
    } else {
      SortedPairwise(s, i, j - 1);
      LessEqTransitive(s[i], s[j - 1], s[j]);
    }
  }

  /** The entries of the help listing before sorting. */
  function HelpEntries(scriptKeys: seq<string>, presets: seq<string>): seq<string> {
    scriptKeys + ["info"] + seq(|presets|, i requires 0 <= i < |presets| => "preset " + presets[i])
      + ["help", "exit", "clear"]
  }

  /** The help listing: every script key, "info", one "preset X" per preset and the three built-ins, sorted. */
  function HelpList(scriptKeys: seq<string>, presets: seq<string>): (r: seq<string>)
    ensures Sorted(r) && multiset(r) == multiset(HelpEntries(scriptKeys, presets))
    ensures |r| == |scriptKeys| + |presets| + 4
  {
    var r := Sort(HelpEntries(scriptKeys, presets));
    assert |r| == |multiset(r)|;
    r
  }

  /** Each listed name appears in the listing. */
  lemma HelpListsEverything(scriptKeys: seq<string>, presets: seq<string>, name: string)
    requires name in HelpEntries(scriptKeys, presets)
    ensures name in HelpList(scriptKeys, presets)
  {
    var r := HelpList(scriptKeys, presets);
    assert multiset(HelpEntries(scriptKeys, presets))[name] > 0;
    assert multiset(r)[name] > 0;
  }

  // ---------------------------------------------------------------------------
  // apply_preset and run_script

  /** `apply_preset`: an unknown name reports an error and keeps the current preset. */
  function ApplyPresetTo(current: string, name: string, presets: set<string>): (r: (string, bool))
    ensures r.1 <==> name in presets
    ensures r.0 == if name in presets then name else current
  {
    if name !in presets then (current, false) else (name, true)
  }

  /** What the imported module offers. */
  datatype Module = Module(hasRunarg: bool, hasRun: bool)

  datatype RunOutcome =
    | NotFound
    | ImportFailed(script: string)
    | CalledRunarg(script: string, args: seq<string>)
    | CalledRun(script: string)
    | NoEntryPoint(script: string)

  /**
   * `run_script`: look the command up (an empty module name counts as missing), import
   * it, then call `runarg` with the arguments if it exists, else `run`, else report.
   */
  function RunScriptOf(command: string, args: seq<string>, commands: map<string, string>,
                       load: string -> Option<Module>): (r: RunOutcome)
    ensures r == NotFound <==> Lower(command) !in commands || commands[Lower(command)] == ""
    ensures r.CalledRun? ==> load(r.script).Some? && !load(r.script).value.hasRunarg
    ensures r.CalledRunarg? ==> r.args == args && load(r.script).Some? && load(r.script).value.hasRunarg
    ensures r != NotFound ==> r.script == commands[Lower(command)]
    ensures r != NotFound ==>
      var name := commands[Lower(command)];
      (load(name).None? ==> r == ImportFailed(name)) &&
      (load(name).Some? && load(name).value.hasRunarg ==> r == CalledRunarg(name, args)) &&
      (load(name).Some? && !load(name).value.hasRunarg && load(name).value.hasRun ==> r == CalledRun(name)) &&
      (load(name).Some? && !load(name).value.hasRunarg && !load(name).value.hasRun ==> r == NoEntryPoint(name))
  {
    var key := Lower(command);
    if key !in commands || commands[key] == "" then NotFound
    else
      var name := commands[key];
      match load(name)
      case None => ImportFailed(name)
      case Some(m) =>
        if m.hasRunarg then CalledRunarg(name, args)
        else if m.hasRun then CalledRun(name)
        else NoEntryPoint(name)
  }

  /** Folding case twice is folding it once. */
  lemma LowerIdempotent(s: string)
    ensures Lower(Lower(s)) == Lower(s)
  {
  }

  /**
   * A line that `process_command` hands to a script reaches that script's module in
   * `run_script`: the lookup by the lower-cased word finds the same entry.
   */
  lemma DispatchedScriptIsFound(input: string, prefix: string, commands: map<string, string>,
                                load: string -> Option<Module>)
    requires ProcessCommand(input, prefix, commands).RunScript?
    requires commands[ProcessCommand(input, prefix, commands).command] != ""
    ensures var a := ProcessCommand(input, prefix, commands);
      var r := RunScriptOf(a.command, a.args, commands, load);
      r != NotFound && r.script == commands[a.command] &&
      (r.CalledRunarg? ==> r.args == a.args)
  {
    var a := ProcessCommand(input, prefix, commands);
    var words := Split(Strip(input)[|prefix|..]);
    LowerIdempotent(words[0]);
  }
}
