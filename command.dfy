/** A registered command: its name, its description, the handler it runs
    and the argument names it was declared with. Running a command turns
    the handler's outcome into one console entry; a failure of the handler
    never escapes. */
module Commands {
  import opened Items

  /** How a handler run ends: normally, or by throwing with a message. */
  datatype Outcome = Returned | Threw(message: string)

  /** The handlers a command can hold: the console's own `help` listing,
      the help entry of one command, a handler supplied by the program
      (modelled by the outcome it has on each input), or none at all. */
  datatype Handler =
    | HelpAll
    | HelpFor(command: string)
    | User(action: string -> Outcome)
    | Null

  datatype Command = Command(name: string, description: string, handler: Handler, arguments: seq<string>)

  /** The message of the exception a call through a missing handler throws. */
  const NullReferenceMessage: string := "Object reference not set to an instance of an object."

  /** The number of argument names the command was declared with. */
  function ArgumentCount(c: Command): (n: nat)
    ensures n == |c.arguments|
  {
    |c.arguments|
  }

  /** The argument list shown in the help text; no command shows one. */
  function DisplayArguments(c: Command): string {
    ""
  }

  /** The help text: the name, the argument list, the description on an
      indented line, and a blank line. */
  function Help(c: Command): (text: string) {
    c.name + " " + DisplayArguments(c) + "\n\t\t- " + c.description + "\n\n"
  }

  /** The help text starts with the name and a space, ends with two line
      breaks, and holds the description between the fixed separator and
      those; so the description can be read back from it. */
  lemma HelpShape(c: Command)
    ensures |Help(c)| == |c.name| + |c.description| + 8
    ensures Help(c)[..|c.name| + 1] == c.name + " "
    ensures Help(c)[|c.name| + 1..|c.name| + 6] == "\n\t\t- "
    ensures Help(c)[|c.name| + 6..|Help(c)| - 2] == c.description
    ensures Help(c)[|Help(c)| - 2..] == "\n\n"
  {
    var text := c.name + " " + "\n\t\t- " + c.description + "\n\n";
    assert Help(c) == text;
  }

  /** Two commands of the same name have the same help text exactly when
      their descriptions agree. */
  lemma HelpDistinguishes(a: Command, b: Command)
    requires a.name == b.name
    ensures Help(a) == Help(b) <==> a.description == b.description
  {
    HelpShape(a);
    HelpShape(b);
  }

  /** The entry `Invoke` returns for a handler outcome: nothing to show
      after a normal return, otherwise an Error entry naming the command
      and carrying the message. */
  function Invoke(c: Command, outcome: Outcome): (item: ConsoleItem) {
    match outcome
    case Returned => NONE
    case Threw(message) => ConsoleItem(Error, c.name + ": " + message)
  }

  /** `Invoke` shows an entry exactly when the handler threw; that entry
      is an Error entry from which the command name and the message can be
      read back. */
  lemma InvokeShows(c: Command, outcome: Outcome)
    ensures Invoke(c, outcome).kind != None <==> outcome.Threw?
    ensures outcome.Returned? ==> Invoke(c, outcome) == NONE
    ensures outcome.Threw? ==>
      var item := Invoke(c, outcome);
      item.kind == Error && item.data[..|c.name|] == c.name &&
      item.data[|c.name|..|c.name| + 2] == ": " &&
      item.data[|c.name| + 2..] == outcome.message &&
      item.Get() == ErrorPrefix + c.name + ": " + outcome.message
  {
    if outcome.Threw? {
      var item := Invoke(c, outcome);
      assert item.data == c.name + ": " + outcome.message;
      assert item.data[..|c.name|] == c.name;
      assert item.Get() == ErrorPrefix + (c.name + ": " + outcome.message);
    }
  }

  /** Two failures of one command give the same entry only for the same
      message: no failure is hidden behind another. */
  lemma InvokeKeepsMessage(c: Command, m1: string, m2: string)
    ensures Invoke(c, Threw(m1)) == Invoke(c, Threw(m2)) <==> m1 == m2
  {
    InvokeShows(c, Threw(m1));
    InvokeShows(c, Threw(m2));
  }
}
