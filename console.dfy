/** The console driver: the registry of commands and scripts, the two
    autocomplete trees, the history and the list of entries, and the
    operations that register, unregister and run. */
module Console {
  import opened Items
  import opened Commands
  import opened Dispatch
  import T = TernaryTree
  import AC = AutoComplete
  import H = History
  import Text

  const HelpDescription: string := "Display commands information"
  const DuplicateCommand: string := "ERROR: Command already exists"
  const EmptyCommandName: string := "Empty command name given."
  const SpacedCommandName: string := "ERROR: Whitespace separated command names are forbidden."
  /** The capacity the history is created with. */
  const HistoryCapacity: nat := 100

  /** The command registered under `help <name>` beside command `name`. */
  function HelpEntry(name: string): Command {
    Commands.Command(HelpKey(name), "Displays help info about command " + name, HelpFor(name), [])
  }

  function ScriptNotFound(name: string): string {
    "Script \"" + name + "\" not found"
  }

  function ScriptStarted(name: string): string {
    "Run \"" + name + "\""
  }

  function DuplicateScript(name: string): string {
    "ERROR: Script " + name + " already registered"
  }

  /** How an operation that may throw ends. */
  datatype Status = Done | Thrown(message: string)

  /** A registered script: its file path and the lines loaded from it. */
  datatype Script = Script(path: string, data: seq<string>)

  /** What reading a script file gives: its lines, or the failure. */
  datatype LoadResult = Loaded(lines: seq<string>) | LoadFailed(message: string)

  /** A script about to run: one with no lines is loaded first, and a
      failed load is reported by an Error entry. */
  function Reloaded(script: Script, reload: LoadResult): (r: (Script, seq<ConsoleItem>))
    ensures r.0.path == script.path
    ensures |script.data| > 0 ==> r == (script, [])
    ensures |r.1| <= 1 && (|r.1| == 1 <==> |script.data| == 0 && reload.LoadFailed?)
  {
    if |script.data| > 0 then (script, [])
    else
      match reload
      case Loaded(lines) => (script.(data := lines), [])
      case LoadFailed(message) => (script, [ConsoleItem(Error, message)])
  }

  /** A key of the form `help <suffix>`. */
  predicate IsHelpKey(k: string) {
    |k| >= 5 && k[..5] == HelpCommand + " "
  }

  /** The enumeration order after removing the keys in `gone`. */
  function Without(order: seq<string>, gone: set<string>): (r: seq<string>)
    ensures forall k :: k in r <==> k in order && k !in gone
  {
    if order == [] then []
    else (if order[0] in gone then [] else [order[0]]) + Without(order[1..], gone)
  }

  lemma {:induction false} WithoutDistinct(order: seq<string>, gone: set<string>)
    requires Distinct(order)
    ensures Distinct(Without(order, gone))
  {
    if order != [] {
      WithoutDistinct(order[1..], gone);
      assert order[0] !in order[1..];
    }
  }

  /** What the console keeps true of its command map: the order lists
      each key once, each command is stored under its own name, a name
      without spaces is registered exactly when its `help` entry is, and
      the suffix of every `help` key has no space. */
  ghost predicate Registry(commands: map<string, Command>, order: seq<string>) {
    RegistryFolded(commands, order, 3)
  }

  /** `RegistryState` behind a few layers, for proof speed only (see
      `RemovalFolded` in module AutoComplete); `RegistryOpen` unfolds it. */
  ghost predicate RegistryFolded(commands: map<string, Command>, order: seq<string>, layers: nat) {
    if layers > 0 then RegistryFolded(commands, order, layers - 1) else RegistryState(commands, order)
  }

  lemma RegistryOpen(commands: map<string, Command>, order: seq<string>)
    ensures Registry(commands, order) == RegistryState(commands, order)
  {
    assert RegistryFolded(commands, order, 2) == RegistryFolded(commands, order, 1);
    assert RegistryFolded(commands, order, 1) == RegistryFolded(commands, order, 0);
  }

  ghost predicate RegistryState(commands: map<string, Command>, order: seq<string>) {
    Enumerates(commands, order) &&
    (forall k :: k in commands ==> commands[k].name == k) &&
    (forall n {:trigger HelpKey(n)} :: ' ' !in n ==> (n in commands <==> HelpKey(n) in commands)) &&
    (forall k :: k in commands && IsHelpKey(k) ==> ' ' !in k[5..])
  }

  /** Every key the order lists is registered. */
  lemma RegistryListed(commands: map<string, Command>, order: seq<string>)
    requires Registry(commands, order)
    ensures forall k :: k in order ==> k in commands
  {
    RegistryOpen(commands, order);
  }

  lemma HelpKeyShape(n: string)
    ensures IsHelpKey(HelpKey(n)) && HelpKey(n)[5..] == n && ' ' in HelpKey(n)
  {
    assert HelpKey(n)[4] == ' ';
  }

  /** Registering a name without spaces, and its help entry, keeps the
      registry. */
  lemma RegistryAdd(commands: map<string, Command>, order: seq<string>, name: string, c: Command)
    requires Registry(commands, order)
    requires ' ' !in name && name !in commands && c.name == name
    ensures HelpKey(name) !in commands
    ensures Registry(commands[name := c][HelpKey(name) := HelpEntry(name)], order + [name, HelpKey(name)])
  {
    var commands' := commands[name := c][HelpKey(name) := HelpEntry(name)];
    var order' := order + [name, HelpKey(name)];
    RegistryOpen(commands, order);
    RegistryOpen(commands', order');
    HelpKeyShape(name);
    assert !IsHelpKey(name) by {
      if |name| >= 5 {
        assert name[..5][4] == name[4];
        assert (HelpCommand + " ")[4] == ' ';
      }
    }
    forall n | ' ' !in n
      ensures n in commands' <==> HelpKey(n) in commands'
    {
      HelpKeyShape(n);
      assert HelpKey(n) == HelpKey(name) ==> n == name;
    }
    forall k | k in commands' && IsHelpKey(k)
      ensures ' ' !in k[5..]
    {
    }
    forall i, j | 0 <= i < j < |order'| ensures order'[i] != order'[j] {
      if j >= |order| && i < |order| {
        assert order[i] in commands;
      }
    }
  }

  /** Unregistering a registered name together with its help entry keeps
      the registry. */
  lemma RegistryRemove(commands: map<string, Command>, order: seq<string>, name: string)
    requires Registry(commands, order)
    requires name in commands && HelpKey(name) in commands
    ensures Registry(commands - {name, HelpKey(name)}, Without(order, {name, HelpKey(name)}))
  {
    var gone := {name, HelpKey(name)};
    var commands' := commands - gone;
    RegistryOpen(commands, order);
    RegistryOpen(commands', Without(order, gone));
    HelpKeyShape(name);
    assert ' ' !in name;
    WithoutDistinct(order, gone);
    forall n | ' ' !in n
      ensures n in commands' <==> HelpKey(n) in commands'
    {
      assert n in commands <==> HelpKey(n) in commands;
      PairGone(commands, name, n);
    }
  }

  /** Removing a name and its `help` key keeps every other name paired
      with its own `help` key. */
  lemma PairGone(commands: map<string, Command>, name: string, n: string)
    requires ' ' !in name && ' ' !in n && (n in commands <==> HelpKey(n) in commands)
    ensures var rest := commands - {name, HelpKey(name)};
      n in rest <==> HelpKey(n) in rest
  {
    HelpKeyShape(n);
    HelpKeyShape(name);
    assert n != HelpKey(name) && HelpKey(n) != name;
    assert HelpKey(n) == HelpKey(name) <==> n == name;
  }

  /** Unregistering keys that are not of the `help` form and contain a
      space keeps the registry. */
  lemma RegistryRemoveSpaced(commands: map<string, Command>, order: seq<string>, gone: set<string>)
    requires Registry(commands, order)
    requires forall k :: k in gone ==> ' ' in k && !IsHelpKey(k)
    ensures Registry(commands - gone, Without(order, gone))
  {
    RegistryOpen(commands, order);
    RegistryOpen(commands - gone, Without(order, gone));
    WithoutDistinct(order, gone);
    forall n | ' ' !in n
      ensures n in commands - gone <==> HelpKey(n) in commands - gone
    {
      HelpKeyShape(n);
    }
  }

  /** The command tree holds `help`, `set` and `get` after inserting the
      last two into a tree holding only the first. */
  lemma BuiltinWords(t0: T.Tree, t1: T.Tree, t2: T.Tree)
    requires t0 == AC.InsertRest(T.Nil, HelpCommand)
    requires t1 == AC.InsertRest(t0, SetCommand) && t2 == AC.InsertRest(t1, GetCommand)
    ensures forall u :: T.Has(t0, u) <==> u == HelpCommand
    ensures forall u :: T.Has(t2, u) <==> u == HelpCommand || u == SetCommand || u == GetCommand
  {
    forall u ensures T.Has(t2, u) <==> u == HelpCommand || u == SetCommand || u == GetCommand {
      T.InsertHas(T.Nil, HelpCommand, u);
      T.InsertHas(t0, SetCommand, u);
      T.InsertHas(t1, GetCommand, u);
    }
    forall u ensures T.Has(t0, u) <==> u == HelpCommand {
      T.InsertHas(T.Nil, HelpCommand, u);
    }
  }

  /** After a registration, the command answers `ArgumentCount` with the
      number of argument names it was registered with, and its help entry,
      registered without any, answers 0. */
  lemma RegisteredArguments(commands: map<string, Command>, name: string, description: string,
                            handler: Handler, args: seq<string>)
    ensures var m := commands[name := Commands.Command(name, description, handler, args)]
                             [HelpKey(name) := HelpEntry(name)];
      ArgumentCount(m[name]) == |args| && ArgumentCount(m[HelpKey(name)]) == 0
  {
    assert |HelpKey(name)| == |name| + 5;
  }

  class ConsoleSystem {
    const cmdTree: AC.AutoComplete
    const varTree: AC.AutoComplete
    const history: H.CommandHistory
    var items: seq<ConsoleItem>
    var commands: map<string, Command>
    /** The order in which the command map enumerates its keys. */
    var order: seq<string>
    var scripts: map<string, Script>

    ghost predicate Valid()
      reads this`commands, this`order, cmdTree, varTree, history, history.buffer
    {
      (forall k :: k in order ==> k in commands) && ValidFolded(5)
    }

    /** `ValidState` behind a few layers, for proof speed only;
        `ValidOpen` unfolds it. */
    ghost predicate ValidFolded(layers: nat)
      reads this`commands, this`order, cmdTree, varTree, history, history.buffer
    {
      if layers > 0 then ValidFolded(layers - 1) else ValidState()
    }

    lemma ValidOpen()
      ensures Valid() == ValidState()
      ensures ValidState() ==> forall k :: k in order ==> k in commands
    {
      assert ValidFolded(4) == ValidFolded(3);
      assert ValidFolded(3) == ValidFolded(2);
      assert ValidFolded(2) == ValidFolded(1);
      assert ValidFolded(1) == ValidFolded(0);
      if ValidState() {
        RegistryListed(commands, order);
      }
    }

    /** The trees and the history keep their own invariants, and the
        command map keeps the registry. */
    ghost predicate ValidState()
      reads this`commands, this`order, cmdTree, varTree, history, history.buffer
    {
      cmdTree != varTree && cmdTree.Valid() && varTree.Valid() && history.Valid() &&
      Registry(commands, order)
    }

    /** A console with `help` and its help entry registered, `help` in both
        trees, `set` and `get` in the command tree, and nothing else. */
    constructor ()
      ensures Valid() && fresh(cmdTree) && fresh(varTree) && fresh(history) && fresh(history.buffer)
      ensures items == [] && scripts == map[] && history.lines == [] && history.capacity == HistoryCapacity
      ensures commands == map[HelpCommand := Commands.Command(HelpCommand, HelpDescription, HelpAll, []),
                              HelpKey(HelpCommand) := HelpEntry(HelpCommand)]
      ensures order == [HelpCommand, HelpKey(HelpCommand)]
      ensures forall u :: T.Has(cmdTree.Tree(), u) <==> u == HelpCommand || u == SetCommand || u == GetCommand
      ensures forall u :: T.Has(varTree.Tree(), u) <==> u == HelpCommand
    {
      cmdTree := new AC.AutoComplete();
      varTree := new AC.AutoComplete();
      history := new H.CommandHistory(HistoryCapacity);
      items, commands, order, scripts := [], map[], [], map[];
      new;
      RegistryOpen(map[], []);
      ValidOpen();
      RegisterBuiltins();
    }

    /** The registrations the constructor makes on the empty console: the
        `help` command, then `set` and `get` in the command tree. */
    method RegisterBuiltins()
      requires Valid() && commands == map[] && order == [] && cmdTree.Tree() == T.Nil && varTree.Tree() == T.Nil
      modifies this, cmdTree, varTree
      ensures Valid() && items == old(items) && scripts == old(scripts)
      ensures commands == map[HelpCommand := Commands.Command(HelpCommand, HelpDescription, HelpAll, []),
                              HelpKey(HelpCommand) := HelpEntry(HelpCommand)]
      ensures order == [HelpCommand, HelpKey(HelpCommand)]
      ensures forall u :: T.Has(cmdTree.Tree(), u) <==> u == HelpCommand || u == SetCommand || u == GetCommand
      ensures forall u :: T.Has(varTree.Tree(), u) <==> u == HelpCommand
    {
      assert HelpCommand !in commands && HelpCommand != "" && ' ' !in HelpCommand;
      var status := RegisterCommand(HelpCommand, HelpDescription, HelpAll, []);
      ValidOpen();
      ghost var t0 := cmdTree.Tree();
      cmdTree.Insert(SetCommand);
      ghost var t1 := cmdTree.Tree();
      cmdTree.Insert(GetCommand);
      ValidOpen();
      BuiltinWords(t0, t1, cmdTree.Tree());
    }

    method Log(kind: ItemType, msg: string)
      modifies this`items
      ensures items == old(items) + [ConsoleItem(kind, msg)]
    {
      items := items + [ConsoleItem(kind, msg)];
    }

    /** Registers `command` and its help entry; a duplicate or a name with a
        space throws and changes nothing, an empty name logs an error. */
    method RegisterCommand(command: string, description: string, handler: Handler, args: seq<string>)
      returns (status: Status)
      requires Valid()
      modifies this, cmdTree, varTree
      ensures Valid() && scripts == old(scripts)
      ensures command in old(commands) ==>
        status == Thrown(DuplicateCommand) && items == old(items) &&
        commands == old(commands) && order == old(order) && unchanged(cmdTree, varTree)
      ensures command !in old(commands) && command == "" ==>
        status == Done && items == old(items) + [ConsoleItem(Error, EmptyCommandName)] &&
        commands == old(commands) && order == old(order) && unchanged(cmdTree, varTree)
      ensures command !in old(commands) && command != "" && ' ' in command ==>
        status == Thrown(SpacedCommandName) && items == old(items) &&
        commands == old(commands) && order == old(order) && unchanged(cmdTree, varTree)
      ensures command !in old(commands) && command != "" && ' ' !in command ==>
        status == Done && items == old(items) &&
        commands == old(commands)[command := Commands.Command(command, description, handler, args)]
                                 [HelpKey(command) := HelpEntry(command)] &&
        order == old(order) + [command, HelpKey(command)] &&
        ArgumentCount(commands[command]) == |args| && ArgumentCount(commands[HelpKey(command)]) == 0 &&
        cmdTree.Tree() == AC.InsertRest(old(cmdTree.Tree()), command) &&
        varTree.Tree() == AC.InsertRest(old(varTree.Tree()), command) &&
        T.Has(cmdTree.Tree(), command) && T.Has(varTree.Tree(), command)
    {
      ValidOpen();
      if command in commands {
        assert Valid();
        return Thrown(DuplicateCommand);
      } else if command == "" {
        Log(Error, EmptyCommandName);
        assert Valid();
        return Done;
      }
      var splitCommand := Text.Split(command, ' ');
      if |splitCommand| > 1 {
        assert Valid();
        return Thrown(SpacedCommandName);
      }
      ghost var c0, v0 := cmdTree.Tree(), varTree.Tree();
      cmdTree.Insert(command);
      varTree.Insert(command);
      T.InsertHas(c0, command, command);
      T.InsertHas(v0, command, command);
      var c := Commands.Command(command, description, handler, args);
      RegistryAdd(commands, order, command, c);
      commands := commands[command := c][HelpKey(command) := HelpEntry(command)];
      order := order + [command, HelpKey(command)];
      status := Done;
      ValidOpen();
    }

    /** Removes `command` and its help entry, from the map and from both
        trees, when both are registered; otherwise changes nothing. */
    method UnregisterCommand(command: string)
      requires Valid()
      modifies this, cmdTree, varTree
      ensures Valid() && items == old(items) && scripts == old(scripts)
      ensures command != "" && command in old(commands) && HelpKey(command) in old(commands) ==>
        commands == old(commands) - {command, HelpKey(command)} &&
        order == Without(old(order), {command, HelpKey(command)}) &&
        cmdTree.Tree() == T.Remove(old(cmdTree.Tree()), command) &&
        varTree.Tree() == T.Remove(old(varTree.Tree()), command) &&
        !T.Has(cmdTree.Tree(), command) && !T.Has(varTree.Tree(), command)
      ensures !(command != "" && command in old(commands) && HelpKey(command) in old(commands)) ==>
        commands == old(commands) && order == old(order) && unchanged(cmdTree, varTree)
    {
      if command == "" {
        return;
      }
      var helpCommand := HelpKey(command);
      ValidOpen();
      if command in commands && helpCommand in commands {
        ghost var c0, v0 := cmdTree.Tree(), varTree.Tree();
        cmdTree.Remove(command);
        varTree.Remove(command);
        T.RemoveHas(c0, command, command);
        T.RemoveHas(v0, command, command);
        RegistryRemove(commands, order, command);
        commands := commands - {command, helpCommand};
        order := Without(order, {command, helpCommand});
        ValidOpen();
      }
    }

    /** Removes the `set` and `get` entries of a variable, and the name from
        the variable tree, when both entries are registered. */
    method UnregisterVariable(name: string)
      requires Valid()
      modifies this, varTree
      ensures Valid() && items == old(items) && scripts == old(scripts)
      ensures var keys := {SetCommand + " " + name, GetCommand + " " + name};
        if name != "" && keys <= old(commands).Keys then
          commands == old(commands) - keys && order == Without(old(order), keys) &&
          varTree.Tree() == T.Remove(old(varTree.Tree()), name)
        else
          commands == old(commands) && order == old(order) && unchanged(varTree)
    {
      if name == "" {
        return;
      }
      if SetCommand + " " + name in commands && GetCommand + " " + name in commands {
        DropVariable(name);
      }
    }

    /** The removal half of `UnregisterVariable`, once both keys are known
        to be registered. */
    method DropVariable(name: string)
      requires Valid() && name != ""
      requires SetCommand + " " + name in commands && GetCommand + " " + name in commands
      modifies this`commands, this`order, varTree
      ensures Valid()
      ensures var keys := {SetCommand + " " + name, GetCommand + " " + name};
        commands == old(commands) - keys && order == Without(old(order), keys)
      ensures varTree.Tree() == T.Remove(old(varTree.Tree()), name)
    {
      var setCommand := SetCommand + " " + name;
      var getCommand := GetCommand + " " + name;
      ValidOpen();
      varTree.Remove(name);
      assert setCommand[3] == ' ' && getCommand[3] == ' ';
      assert setCommand[0] != 'h' && getCommand[0] != 'h';
      RegistryRemoveSpaced(commands, order, {setCommand, getCommand});
      commands := commands - {setCommand, getCommand};
      order := Without(order, {setCommand, getCommand});
      ValidOpen();
    }

    /** Registers a script, loading it at once; a duplicate name or a
        failed load throws and changes nothing. */
    method RegisterScript(name: string, path: string, load: LoadResult) returns (status: Status)
      requires Valid()
      modifies this`scripts, varTree
      ensures Valid()
      ensures name in old(scripts) ==>
        status == Thrown(DuplicateScript(name)) && scripts == old(scripts) && unchanged(varTree)
      ensures name !in old(scripts) && load.LoadFailed? ==>
        status == Thrown(load.message) && scripts == old(scripts) && unchanged(varTree)
      ensures name !in old(scripts) && load.Loaded? ==>
        status == Done && scripts == old(scripts)[name := Script(path, load.lines)] &&
        varTree.Tree() == AC.InsertRest(old(varTree.Tree()), name)
    {
      ValidOpen();
      if name !in scripts {
        match load
        case LoadFailed(message) =>
          return Thrown(message);
        case Loaded(lines) =>
          scripts := scripts[name := Script(path, lines)];
          varTree.Insert(name);
          ValidOpen();
          return Done;
      } else {
        return Thrown(DuplicateScript(name));
      }
    }

    /** Removes a registered script and its name from the variable tree. */
    method UnregisterScript(name: string)
      requires Valid()
      modifies this`scripts, varTree
      ensures Valid()
      ensures name != "" && name in old(scripts) ==>
        scripts == old(scripts) - {name} && varTree.Tree() == T.Remove(old(varTree.Tree()), name)
      ensures !(name != "" && name in old(scripts)) ==> scripts == old(scripts) && unchanged(varTree)
    {
      if name == "" {
        return;
      }
      ValidOpen();
      if name in scripts {
        varTree.Remove(name);
        scripts := scripts - {name};
        ValidOpen();
      }
    }

    /** The built-in `help` listing: the fixed lines, then the help of each
        registered command in enumeration order. */
    method ListCommands() returns (outcome: Outcome)
      requires forall k :: k in order ==> k in commands
      modifies this`items
      ensures items == old(items) + HelpEntries + Listing(order, commands).logged
      ensures outcome == Listing(order, commands).outcome
    {
      items := items + HelpEntries;
      ghost var done: seq<ConsoleItem> := [];
      var i := 0;
      while i < |order|
        invariant 0 <= i <= |order|
        invariant items == old(items) + HelpEntries + done
        invariant forall k :: k in order[i..] ==> k in commands
        invariant Listing(order, commands) ==
          Run(done + Listing(order[i..], commands).logged, Listing(order[i..], commands).outcome)
      {
        var k := order[i];
        ListingStep(order, commands, i);
        if |k| < 3 {
          return Threw(RangeMessage);
        }
        if k[..3] == SetCommand || k[..3] == GetCommand {
          i := i + 1;
          continue;
        }
        if |k| < 4 {
          return Threw(RangeMessage);
        }
        if k[..4] == HelpCommand {
          i := i + 1;
          continue;
        }
        var entry := ConsoleItem(ItemType.Log, Help(commands[k]));
        Associate(done, [entry], Listing(order[i + 1..], commands).logged);
        Associate(old(items) + HelpEntries, done, [entry]);
        items := items + [entry];
        done := done + [entry];
        i := i + 1;
      }
      outcome := Returned;
    }

    /** Runs a command's handler on `input`: what it logs goes to the
        entries, and how it ends is returned. */
    method Call(c: Command, input: string) returns (outcome: Outcome)
      requires forall k :: k in order ==> k in commands
      modifies this`items
      ensures items == old(items) + CallRun(c, input, commands, order).logged
      ensures outcome == CallRun(c, input, commands, order).outcome
    {
      match c.handler
      case HelpAll =>
        outcome := ListCommands();
      case HelpFor(name) =>
        if name in commands {
          Log(ItemType.Log, Help(commands[name]));
          outcome := Returned;
        } else {
          outcome := Threw(KeyNotFoundMessage(name));
        }
      case User(action) =>
        outcome := action(input);
      case Null =>
        outcome := Threw(NullReferenceMessage);
    }

    /** The dispatch key of a line, computed as the source does: the
        first token, extended by the rest of the line for `help`, `set`
        and `get`, and trimmed. */
    static method ResolveKey(lineSplit: seq<string>, ghost line: string) returns (key: Key)
      requires lineSplit == Text.Split(line, ' ')
      ensures key == DispatchKey(line)
    {
      var commandName := lineSplit[0];
      var isSet := commandName == SetCommand;
      var isGet := commandName == GetCommand;
      var isHelp := if !(isSet || isGet) then commandName == HelpCommand else false;
      if isHelp {
        commandName := commandName + " " + Text.Join(' ', lineSplit[1..]);
      } else if isSet || isGet {
        if |lineSplit| == 1 {
          return NoVariable;
        } else {
          commandName := commandName + " " + Text.Join(' ', lineSplit[1..]);
        }
      }
      key := Key(Text.Trim(commandName));
    }

    /** Looks up `key`, runs the command found under it and logs its
        result, or logs the error of a missing key. */
    method Dispatch(lineSplit: seq<string>, key: Key, ghost line: string)
      requires forall k :: k in order ==> k in commands
      requires lineSplit == Text.Split(line, ' ') && key == DispatchKey(line)
      modifies this`items
      ensures items == old(items) + Respond(commands, order, line)
    {
      match key
      case NoVariable =>
        Log(Error, ErrorNoVar);
      case Key(commandName) =>
        if commandName !in commands {
          Log(Error, ErrorSetGetNotFound);
        } else {
          var arguments := Text.Join(' ', lineSplit[1..]);
          var c := commands[commandName];
          var outcome := Call(c, arguments);
          var out := Invoke(c, outcome);
          if out.kind != None {
            items := items + [out];
          }
        }
    }

    /** Parses a line that is not blank: the line goes to the history
        first, then its key is looked up and the command run. */
    method ParseCommandLine(line: string)
      requires Valid()
      modifies this`items, history, history.buffer
      ensures Valid()
      ensures items == old(items) + Answer(commands, order, line)
      ensures history.lines == old(history.lines) + (if Text.AllWhite(line) then [] else [line])
    {
      ValidOpen();
      AnswerOpen(commands, order, line);
      if Text.AllWhite(line) {
        return;
      }
      var lineSplit := Text.Split(line, ' ');
      history.PushBack(line);
      ValidOpen();
      var key := ResolveKey(lineSplit, line);
      Dispatch(lineSplit, key, line);
    }

    /** Echoes a non-empty line as a Log entry and parses it. */
    method RunCommand(line: string)
      requires Valid()
      modifies this`items, history, history.buffer
      ensures Valid()
      ensures items == old(items) + Echoed(commands, order, line)
      ensures history.lines == old(history.lines) + (if Text.AllWhite(line) then [] else [line])
    {
      ValidOpen();
      EchoedShape(commands, order, line);
      if line == "" {
        return;
      }
      ghost var before := items;
      Log(ItemType.Log, line);
      ParseCommandLine(line);
      assert items == before + ([ConsoleItem(ItemType.Log, line)] + Answer(commands, order, line));
    }

    /** Runs a registered script line by line, loading it first when it
        has no lines; a missing script is reported by an Error entry. */
    method RunScript(name: string, reload: LoadResult)
      requires Valid()
      modifies this`items, this`scripts, history, history.buffer
      ensures Valid()
      ensures name !in old(scripts) ==>
        items == old(items) + [ConsoleItem(Error, ScriptNotFound(name))] &&
        scripts == old(scripts) && history.lines == old(history.lines)
      ensures name in old(scripts) ==>
        var (script, failure) := Reloaded(old(scripts)[name], reload);
        scripts == old(scripts)[name := script] &&
        items == old(items) + [ConsoleItem(Info, ScriptStarted(name))] + failure +
                 ScriptEntries(commands, order, script.data) &&
        history.lines == old(history.lines) + ScriptPushes(script.data)
    {
      if name !in scripts {
        Log(Error, ScriptNotFound(name));
        return;
      }
      Log(Info, ScriptStarted(name));
      var value := scripts[name];
      if |value.data| == 0 {
        match reload
        case Loaded(lines) =>
          value := value.(data := lines);
          scripts := scripts[name := value];
        case LoadFailed(message) =>
          Log(Error, message);
      } else {
        assert scripts == old(scripts)[name := value];
      }
      ghost var reloaded := Reloaded(old(scripts)[name], reload);
      assert value == reloaded.0 && items == old(items) + [ConsoleItem(Info, ScriptStarted(name))] + reloaded.1;
      RunLines(value.data);
    }

    /** Runs each line through `RunCommand`, in order. */
    method RunLines(data: seq<string>)
      requires Valid()
      modifies this`items, history, history.buffer
      ensures Valid()
      ensures items == old(items) + ScriptEntries(commands, order, data)
      ensures history.lines == old(history.lines) + ScriptPushes(data)
    {
      var i := 0;
      while i < |data|
        invariant 0 <= i <= |data|
        invariant Valid()
        invariant items == old(items) + ScriptEntries(commands, order, data[..i])
        invariant history.lines == old(history.lines) + ScriptPushes(data[..i])
      {
        ScriptStep(commands, order, data, i);
        ghost var done := ScriptEntries(commands, order, data[..i]);
        RunCommand(data[i]);
        Associate(old(items), done, Echoed(commands, order, data[i]));
        Associate(old(history.lines), ScriptPushes(data[..i]), if Text.AllWhite(data[i]) then [] else [data[i]]);
        i := i + 1;
      }
      assert data[..|data|] == data;
    }
  }
}
