/** What the console does with one entered line, as functions of the
    registered commands: the key the line is looked up under, the text the
    handler receives, what each kind of handler logs and how it ends, and
    the entries the console adds. The console object in module Console is
    proved against these functions. */
module Dispatch {
  import opened Items
  import opened Commands
  import Text

  const HelpCommand: string := "help"
  const SetCommand: string := "set"
  const GetCommand: string := "get"
  const ErrorNoVar: string := "No variable provided"
  const ErrorSetGetNotFound: string := "Command doesn't exist and/or variable is not registered"

  /** The message of the exception a string range past the end throws. */
  const RangeMessage: string := "Index and length must refer to a location within the string. (Parameter 'length')"

  /** The message of the exception a lookup of a missing key throws. */
  function KeyNotFoundMessage(key: string): string {
    "The given key '" + key + "' was not present in the dictionary."
  }

  /** The key of the help entry registered beside each command. */
  function HelpKey(name: string): string {
    HelpCommand + " " + name
  }

  /** The three fixed entries the help listing starts with. */
  const HelpEntries: seq<ConsoleItem> := [
    ConsoleItem(Log, "help [command_name:String] (Optional)\n\t\t- Display command(s) information\n"),
    ConsoleItem(Log, "set [variable_name:String] [data]\n\t\t- Assign data to given variable\n"),
    ConsoleItem(Log, "get [variable_name:String]\n\t\t- Display data of given variable\n")
  ]

  /** The keys of a command map, in the order the map enumerates them:
      each key once. */
  ghost predicate Enumerates(commands: map<string, Command>, order: seq<string>) {
    (forall k :: k in commands <==> k in order) && Distinct(order)
  }

  predicate Distinct(s: seq<string>) {
    forall i, j :: 0 <= i < j < |s| ==> s[i] != s[j]
  }

  // ---------------------------------------------------------------------------
  // Handlers
  // ---------------------------------------------------------------------------

  /** What a handler run logs while it runs, and how it ends. */
  datatype Run = Run(logged: seq<ConsoleItem>, outcome: Outcome)

  /** The key can be tested by the listing without a range failure. */
  predicate Testable(k: string) {
    |k| >= 4 || k == SetCommand || k == GetCommand
  }

  /** The listing shows the help of the command under this key. */
  predicate Shown(k: string) {
    |k| >= 4 && k[..3] != SetCommand && k[..3] != GetCommand && k[..4] != HelpCommand
  }

  /** The body of the help listing after its fixed lines: each key in
      turn is skipped when it starts with "set", "get" or "help", and its
      command's help is logged otherwise; a key too short for the
      three- or four-character test ends the run with a range failure. */
  function Listing(keys: seq<string>, commands: map<string, Command>): Run
    requires forall k :: k in keys ==> k in commands
  {
    if keys == [] then Run([], Returned)
    else
      var k := keys[0];
      if |k| < 3 then Run([], Threw(RangeMessage))
      else if k[..3] == SetCommand || k[..3] == GetCommand then Listing(keys[1..], commands)
      else if |k| < 4 then Run([], Threw(RangeMessage))
      else if k[..4] == HelpCommand then Listing(keys[1..], commands)
      else
        var rest := Listing(keys[1..], commands);
        Run([ConsoleItem(Log, Help(commands[k]))] + rest.logged, rest.outcome)
  }

  /** One turn of the listing, from position `i` of the keys. */
  lemma ListingStep(keys: seq<string>, commands: map<string, Command>, i: nat)
    requires forall k :: k in keys ==> k in commands
    requires i < |keys|
    ensures forall k :: k in keys[i + 1..] ==> k in commands
    ensures var k, rest := keys[i], Listing(keys[i + 1..], commands);
      Listing(keys[i..], commands) ==
        if |k| < 3 then Run([], Threw(RangeMessage))
        else if k[..3] == SetCommand || k[..3] == GetCommand then rest
        else if |k| < 4 then Run([], Threw(RangeMessage))
        else if k[..4] == HelpCommand then rest
        else Run([ConsoleItem(Log, Help(commands[k]))] + rest.logged, rest.outcome)
  {
    assert keys[i..][0] == keys[i];
    assert keys[i..][1..] == keys[i + 1..];
  }

  /** The keys whose help the listing shows, in order: exactly the keys
      that pass the filter. */
  function ShownKeys(keys: seq<string>): (shown: seq<string>)
    ensures |shown| <= |keys|
    ensures forall i :: 0 <= i < |shown| ==> shown[i] in keys && Shown(shown[i])
    ensures forall k :: k in keys && Shown(k) ==> k in shown
  {
    if keys == [] then []
    else if Shown(keys[0]) then [keys[0]] + ShownKeys(keys[1..])
    else ShownKeys(keys[1..])
  }

  /** The listing ends normally exactly when every key is testable; a
      failure is always the range failure. */
  lemma {:induction false} ListingOutcome(keys: seq<string>, commands: map<string, Command>)
    requires forall k :: k in keys ==> k in commands
    ensures Listing(keys, commands).outcome.Returned? <==> forall i :: 0 <= i < |keys| ==> Testable(keys[i])
    ensures Listing(keys, commands).outcome.Threw? ==> Listing(keys, commands).outcome.message == RangeMessage
  {
    if keys != [] {
      ListingOutcome(keys[1..], commands);
      assert forall i :: 1 <= i < |keys| ==> keys[i] == keys[1..][i - 1];
      var k := keys[0];
      if |k| >= 3 && (k[..3] == SetCommand || k[..3] == GetCommand) {
        assert Testable(k);
      }
    }
  }

  /** A listing that ends normally logs the help of exactly the shown
      keys, in order, as Log entries. */
  lemma {:induction false} ListingShows(keys: seq<string>, commands: map<string, Command>)
    requires forall k :: k in keys ==> k in commands
    requires forall i :: 0 <= i < |keys| ==> Testable(keys[i])
    ensures var logged := Listing(keys, commands).logged;
      |logged| == |ShownKeys(keys)| &&
      forall i :: 0 <= i < |logged| ==> logged[i] == ConsoleItem(Log, Help(commands[ShownKeys(keys)[i]]))
  {
    if keys != [] {
      assert forall i :: 0 <= i < |keys[1..]| ==> Testable(keys[1..][i]) by {
        forall i | 0 <= i < |keys[1..]| ensures Testable(keys[1..][i]) {
          assert keys[1..][i] == keys[i + 1];
        }
      }
      ListingShows(keys[1..], commands);
      assert Testable(keys[0]);
    }
  }

  /** What running a command's handler on `input` logs and how it ends. */
  function CallRun(c: Command, input: string, commands: map<string, Command>, order: seq<string>): Run
    requires forall k :: k in order ==> k in commands
  {
    match c.handler
    case HelpAll =>
      var body := Listing(order, commands);
      Run(HelpEntries + body.logged, body.outcome)
    case HelpFor(name) =>
      if name in commands then Run([ConsoleItem(Log, Help(commands[name]))], Returned)
      else Run([], Threw(KeyNotFoundMessage(name)))
    case User(action) => Run([], action(input))
    case Null => Run([], Threw(NullReferenceMessage))
  }

  // ---------------------------------------------------------------------------
  // Parsing the line
  // ---------------------------------------------------------------------------

  /** The key a line is looked up under, or none when `set`/`get` comes
      without a variable name. */
  datatype Key = NoVariable | Key(key: string)

  /** The first space-separated token of the line. */
  function First(line: string): string {
    Text.Split(line, ' ')[0]
  }

  /** The text the handler receives: the tokens after the first, joined
      again by single spaces. */
  function Arguments(line: string): string {
    Text.Join(' ', Text.Split(line, ' ')[1..])
  }

  function DispatchKey(line: string): Key {
    var tokens := Text.Split(line, ' ');
    var first := tokens[0];
    if first == HelpCommand then Key(Text.Trim(first + " " + Arguments(line)))
    else if first == SetCommand || first == GetCommand then
      if |tokens| == 1 then NoVariable else Key(Text.Trim(first + " " + Arguments(line)))
    else Key(Text.Trim(first))
  }

  /** The arguments are the text after the first space, verbatim, or
      nothing when the line has no space. */
  lemma ArgumentsAfterSpace(line: string)
    ensures ' ' in line ==> Arguments(line) == line[Text.IndexOf(line, ' ') + 1..]
    ensures ' ' !in line ==> Arguments(line) == ""
    ensures ' ' in line ==> First(line) == line[..Text.IndexOf(line, ' ')]
    ensures ' ' !in line ==> First(line) == line
  {
    Text.RestAfterFirst(line, ' ');
    Text.FirstPiece(line, ' ');
  }

  /** The key, told without tokens: a `help` line, and a `set`/`get` line
      with a space, is looked up under the whole line trimmed; `set` or
      `get` alone has no key; any other line is looked up under its first
      token trimmed. */
  lemma DispatchKeyWhole(line: string)
    ensures First(line) == HelpCommand ==> DispatchKey(line) == Key(Text.Trim(line))
    ensures First(line) == SetCommand || First(line) == GetCommand ==>
      DispatchKey(line) == if ' ' in line then Key(Text.Trim(line)) else NoVariable
    ensures First(line) != HelpCommand && First(line) != SetCommand && First(line) != GetCommand ==>
      DispatchKey(line) == Key(Text.Trim(First(line)))
  {
    ArgumentsAfterSpace(line);
    if ' ' in line {
      DispatchSpaced(line);
    } else {
      DispatchUnspaced(line);
    }
  }

  lemma DispatchSpaced(line: string)
    requires ' ' in line
    ensures var first := First(line);
      DispatchKey(line) ==
        if first == HelpCommand || first == SetCommand || first == GetCommand then Key(Text.Trim(line))
        else Key(Text.Trim(first))
  {
    ArgumentsAfterSpace(line);
    var tokens := Text.Split(line, ' ');
    var i := Text.IndexOf(line, ' ');
    assert tokens[0] + " " + Arguments(line) == line by {
      assert line == line[..i] + [' '] + line[i + 1..];
    }
    assert |tokens| != 1;
  }

  lemma DispatchUnspaced(line: string)
    requires ' ' !in line
    ensures DispatchKey(line) ==
      if line == SetCommand || line == GetCommand then NoVariable else Key(Text.Trim(line))
  {
    ArgumentsAfterSpace(line);
    var tokens := Text.Split(line, ' ');
    assert |tokens| == 1 && tokens[0] == line && Arguments(line) == "";
    if line == HelpCommand {
      assert tokens[0] + " " + Arguments(line) == HelpCommand + " ";
      TrimHelpWord();
    }
  }


  /** The line `help` alone is looked up under `help`. */
  lemma HelpDispatch()
    ensures DispatchKey(HelpCommand) == Key(HelpCommand) && Arguments(HelpCommand) == ""
  {
    assert ' ' !in HelpCommand;
    DispatchUnspaced(HelpCommand);
    ArgumentsAfterSpace(HelpCommand);
    TrimHelpWord();
  }

  /** `help` trims to itself, with or without one trailing space. */
  lemma TrimHelpWord()
    ensures Text.Trim(HelpCommand + " ") == HelpCommand && Text.Trim(HelpCommand) == HelpCommand
  {
    var s := HelpCommand + " ";
    assert s[0] == 'h' && !Text.IsWhiteSpace('h');
    assert Text.TrimStart(s) == s;
    assert s[4] == ' ' && Text.IsWhiteSpace(' ');
    assert s[..4] == HelpCommand;
    assert Text.TrimEnd(s) == Text.TrimEnd(HelpCommand);
    assert HelpCommand[3] == 'p' && !Text.IsWhiteSpace('p');
    assert Text.TrimEnd(HelpCommand) == HelpCommand;
    assert Text.TrimStart(HelpCommand) == HelpCommand;
  }


  // ---------------------------------------------------------------------------
  // The response to a line
  // ---------------------------------------------------------------------------

  /** The entries the console adds after the echo for a line that is not
      blank: the dispatch error, or what the handler logged followed by the
      entry `Invoke` returns when that entry is not of kind None. */
  function Respond(commands: map<string, Command>, order: seq<string>, line: string): seq<ConsoleItem>
    requires forall k :: k in order ==> k in commands
  {
    match DispatchKey(line)
    case NoVariable => [ConsoleItem(Error, ErrorNoVar)]
    case Key(k) =>
      if k !in commands then [ConsoleItem(Error, ErrorSetGetNotFound)]
      else
        var run := CallRun(commands[k], Arguments(line), commands, order);
        var out := Invoke(commands[k], run.outcome);
        run.logged + (if out.kind != None then [out] else [])
  }

  /** The entries the console adds for an entered line: none for an
      empty line, otherwise the echo of the line as a Log entry followed by
      the answer. */
  function Echoed(commands: map<string, Command>, order: seq<string>, line: string): seq<ConsoleItem>
    requires forall k :: k in order ==> k in commands
  {
    if line == "" then [] else [ConsoleItem(Log, line)] + Answer(commands, order, line)
  }

  /** The entries after the echo: none for a blank line.  The definition
      sits behind four layers of `AnswerFolded`, so that the methods that
      only pass an answer on never see the dispatch functions unfolded;
      `AnswerOpen` states it. */
  function Answer(commands: map<string, Command>, order: seq<string>, line: string): seq<ConsoleItem>
    requires forall k :: k in order ==> k in commands
  {
    AnswerFolded(commands, order, line, 4)
  }

  function AnswerFolded(commands: map<string, Command>, order: seq<string>, line: string, layers: nat): seq<ConsoleItem>
    requires forall k :: k in order ==> k in commands
  {
    if layers > 0 then AnswerFolded(commands, order, line, layers - 1)
    else if Text.AllWhite(line) then [] else Respond(commands, order, line)
  }

  lemma AnswerOpen(commands: map<string, Command>, order: seq<string>, line: string)
    requires forall k :: k in order ==> k in commands
    ensures Answer(commands, order, line) == if Text.AllWhite(line) then [] else Respond(commands, order, line)
  {
    assert AnswerFolded(commands, order, line, 3) == AnswerFolded(commands, order, line, 2);
    assert AnswerFolded(commands, order, line, 2) == AnswerFolded(commands, order, line, 1);
    assert AnswerFolded(commands, order, line, 1) == AnswerFolded(commands, order, line, 0);
  }

  /** An empty line adds nothing; any other line is first echoed as a Log
      entry; a blank line stops there. */
  lemma EchoedShape(commands: map<string, Command>, order: seq<string>, line: string)
    requires forall k :: k in order ==> k in commands
    ensures line == "" ==> Echoed(commands, order, line) == []
    ensures line != "" ==> Echoed(commands, order, line) == [ConsoleItem(Log, line)] + Answer(commands, order, line)
    ensures line != "" && Text.AllWhite(line) ==> Echoed(commands, order, line) == [ConsoleItem(Log, line)]
  {
    AnswerOpen(commands, order, line);
  }

  /** A line whose key is missing, or a `set`/`get` without a name, gets
      exactly one Error entry and runs no handler. */
  lemma RespondRefused(commands: map<string, Command>, order: seq<string>, line: string)
    requires forall k :: k in order ==> k in commands
    requires DispatchKey(line).NoVariable? || DispatchKey(line).key !in commands
    ensures |Respond(commands, order, line)| == 1
    ensures Respond(commands, order, line)[0].kind == Error
    ensures Respond(commands, order, line)[0].data ==
      if DispatchKey(line).NoVariable? then ErrorNoVar else ErrorSetGetNotFound
  {
  }

  /** A program-supplied handler receives the text after the first space
      verbatim; the console shows nothing more when it returns, and one
      Error entry naming the command and the message when it throws. */
  lemma RespondUser(commands: map<string, Command>, order: seq<string>, line: string, action: string -> Outcome)
    requires forall k :: k in order ==> k in commands
    requires DispatchKey(line).Key? && DispatchKey(line).key in commands
    requires commands[DispatchKey(line).key].handler == User(action)
    ensures var outcome := action(if ' ' in line then line[Text.IndexOf(line, ' ') + 1..] else "");
      Respond(commands, order, line) ==
        match outcome
        case Returned => []
        case Threw(m) => [ConsoleItem(Error, commands[DispatchKey(line).key].name + ": " + m)]
  {
    ArgumentsAfterSpace(line);
  }

  /** Typing `help` runs the listing: the fixed lines, the help of every
      shown command, and an Error entry when a short key stopped it. */
  lemma RespondHelp(commands: map<string, Command>, order: seq<string>)
    requires forall k :: k in order ==> k in commands
    requires HelpCommand in commands && commands[HelpCommand].handler == HelpAll
    requires commands[HelpCommand].name == HelpCommand
    ensures var body := Listing(order, commands);
      Respond(commands, order, HelpCommand) ==
        HelpEntries + body.logged +
        (if body.outcome.Threw? then [ConsoleItem(Error, HelpCommand + ": " + RangeMessage)] else [])
  {
    HelpDispatch();
    var c := commands[HelpCommand];
    var body := Listing(order, commands);
    var run := CallRun(c, Arguments(HelpCommand), commands, order);
    assert run == Run(HelpEntries + body.logged, body.outcome);
    ListingOutcome(order, commands);
    var out := Invoke(c, run.outcome);
    assert out.kind != None <==> body.outcome.Threw?;
    assert body.outcome.Threw? ==> out == ConsoleItem(Error, HelpCommand + ": " + RangeMessage);
  }



  /** Typing `help <name>` for a command whose help entry is in place shows
      that command's help text and nothing else. */
  lemma RespondHelpFor(commands: map<string, Command>, order: seq<string>, name: string)
    requires forall k :: k in order ==> k in commands
    requires name != [] && ' ' !in name && !Text.IsWhiteSpace(name[|name| - 1])
    requires name in commands && HelpKey(name) in commands
    requires commands[HelpKey(name)].handler == HelpFor(name)
    ensures Respond(commands, order, HelpKey(name)) == [ConsoleItem(Log, Help(commands[name]))]
  {
    var line := HelpKey(name);
    HelpKeyDispatch(name);
    var c := commands[line];
    assert CallRun(c, Arguments(line), commands, order) == Run([ConsoleItem(Log, Help(commands[name]))], Returned);
    assert Invoke(c, Returned) == NONE;
  }

  /** A `help <name>` line is looked up under itself. */
  lemma HelpKeyDispatch(name: string)
    requires name != [] && ' ' !in name && !Text.IsWhiteSpace(name[|name| - 1])
    ensures DispatchKey(HelpKey(name)) == Key(HelpKey(name))
  {
    var line := HelpKey(name);
    assert ' ' in line && Text.IndexOf(line, ' ') == 4 by {
      assert line[4] == ' ';
      assert line[..4] == HelpCommand;
    }
    ArgumentsAfterSpace(line);
    assert line[..4] == HelpCommand;
    DispatchKeyWhole(line);
    Text.TrimKeeps(line);
  }

  // ---------------------------------------------------------------------------
  // Scripts
  // ---------------------------------------------------------------------------

  /** The entries a run of the lines adds, line after line. */
  function ScriptEntries(commands: map<string, Command>, order: seq<string>, lines: seq<string>): seq<ConsoleItem>
    requires forall k :: k in order ==> k in commands
  {
    if lines == [] then []
    else ScriptEntries(commands, order, lines[..|lines| - 1]) + Echoed(commands, order, lines[|lines| - 1])
  }

  /** One more line of a script adds its own entries and push after those
      of the lines before it. */
  lemma ScriptStep(commands: map<string, Command>, order: seq<string>, lines: seq<string>, i: nat)
    requires forall k :: k in order ==> k in commands
    requires i < |lines|
    ensures ScriptEntries(commands, order, lines[..i + 1]) ==
      ScriptEntries(commands, order, lines[..i]) + Echoed(commands, order, lines[i])
    ensures ScriptPushes(lines[..i + 1]) ==
      ScriptPushes(lines[..i]) + (if Text.AllWhite(lines[i]) then [] else [lines[i]])
  {
    assert lines[..i + 1][..i] == lines[..i];
  }

  lemma Associate<X>(a: seq<X>, b: seq<X>, c: seq<X>)
    ensures a + b + c == a + (b + c)
  {
  }

  /** The lines a run pushes to the history: the lines that are not blank. */
  function ScriptPushes(lines: seq<string>): (pushed: seq<string>)
    ensures |pushed| <= |lines|
    ensures forall i :: 0 <= i < |pushed| ==> pushed[i] in lines && !Text.AllWhite(pushed[i])
  {
    if lines == [] then []
    else
      var init := lines[..|lines| - 1];
      var last := lines[|lines| - 1];
      assert forall l :: l in init ==> l in lines;
      ScriptPushes(init) + (if Text.AllWhite(last) then [] else [last])
  }
}
