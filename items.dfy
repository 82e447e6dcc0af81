/** The entries of the console window: a kind, the text, and the prefix
    each kind is shown with; and the log object that collects them. */
module Items {

  /** The kinds of entry, in the order of their numeric values 0..5. */
  datatype ItemType = Command | Log | Warning | Error | Info | None

  /** The prefixes of a command echo, a warning and an error. */
  const CommandPrefix: string := "> "
  const WarningPrefix: string := "\t[WARNING]: "
  const ErrorPrefix: string := "[ERROR]: "

  /** One console entry. The creation time stamp is not modelled. */
  datatype ConsoleItem = ConsoleItem(kind: ItemType, data: string)
  {
    /** The text shown for the entry; an entry of kind None shows nothing. */
    function Get(): (shown: string)
      ensures kind != None ==> shown == Prefix(kind) + data
      ensures kind != None ==> |shown| == |Prefix(kind)| + |data|
      ensures kind != None ==> shown[|Prefix(kind)|..] == data
      ensures kind == None ==> shown == ""
    {
      match kind
      case Command => CommandPrefix + data
      case Log => "\t" + data
      case Warning => WarningPrefix + data
      case Error => ErrorPrefix + data
      case Info => data
      case None => ""
    }

    /** The text grows, the kind stays. */
    function Append(s: string): (r: ConsoleItem)
      ensures r.kind == kind && |r.data| == |data| + |s|
      ensures r.data[..|data|] == data && r.data[|data|..] == s
    {
      this.(data := data + s)
    }
  }

  /** The entry a command returns when it has nothing to show. */
  const NONE: ConsoleItem := ConsoleItem(None, "")

  /** The constructor with its defaults: a Log entry with no text. */
  const Blank: ConsoleItem := ConsoleItem(Log, "")

  /** The text put before the data when an entry of kind `kind` is shown. */
  function Prefix(kind: ItemType): string {
    match kind
    case Command => CommandPrefix
    case Log => "\t"
    case Warning => WarningPrefix
    case Error => ErrorPrefix
    case Info => ""
    case None => ""
  }

  /** Showing an appended entry shows the old entry followed by the text. */
  lemma GetAppend(item: ConsoleItem, s: string)
    requires item.kind != None
    ensures item.Append(s).Get() == item.Get() + s
  {
    var d := item.data;
    match item.kind
    case Command => assert CommandPrefix + (d + s) == CommandPrefix + d + s;
    case Log => assert "\t" + (d + s) == "\t" + d + s;
    case Warning => assert WarningPrefix + (d + s) == WarningPrefix + d + s;
    case Error => assert ErrorPrefix + (d + s) == ErrorPrefix + d + s;
    case Info =>
  }

  /** Two shown entries of the same visible kind are equal exactly when
      their texts are: the formatting loses nothing. */
  lemma GetInjective(a: ConsoleItem, b: ConsoleItem)
    requires a.kind == b.kind && a.kind != None
    ensures a.Get() == b.Get() <==> a.data == b.data
  {
    if a.Get() == b.Get() {
      assert a.data == a.Get()[|Prefix(a.kind)|..];
    }
  }

  /** The log object: the entries in the order they were added. */
  class ItemLog {
    var items: seq<ConsoleItem>

    /** The log starts empty (the source never creates its list; the
        model gives it an empty one). */
    constructor ()
      ensures items == []
    {
      items := [];
    }

    method Clear()
      modifies this
      ensures items == []
    {
      items := [];
    }

    /** Adds one blank entry of the given kind at the end. */
    method Log(kind: ItemType)
      modifies this
      ensures items == old(items) + [ConsoleItem(kind, "")]
    {
      items := items + [ConsoleItem(kind, "")];
    }

    /** `Append` as written: the last entry is fetched as a copy of the
        stored value, the copy is extended and dropped, and the stored
        entry does not change. */
    method AppendAsWritten(s: string)
      requires |items| > 0
      modifies this
      ensures items == AppendLastAsWritten(old(items), s)
    {
      var copy := items[|items| - 1];
      copy := copy.Append(s);
    }

    /** `Append` as intended: the text is added to the stored last entry. */
    method Append(s: string)
      requires |items| > 0
      modifies this
      ensures items == AppendLast(old(items), s)
    {
      items := items[|items| - 1 := items[|items| - 1].Append(s)];
    }
  }

  /** The entries after the as-written `Append`. */
  function AppendLastAsWritten(items: seq<ConsoleItem>, s: string): (r: seq<ConsoleItem>)
    requires |items| > 0
  {
    items
  }

  /** The entries after an `Append` that reaches the stored entry. */
  function AppendLast(items: seq<ConsoleItem>, s: string): (r: seq<ConsoleItem>)
    requires |items| > 0
    ensures |r| == |items| && r[..|r| - 1] == items[..|items| - 1]
    ensures r[|r| - 1].kind == items[|items| - 1].kind
    ensures r[|r| - 1].data == items[|items| - 1].data + s
  {
    items[|items| - 1 := items[|items| - 1].Append(s)]
  }

  /** The as-written `Append` loses every non-empty text it is given,
      while the intended one shows it at the end of the last entry. */
  lemma AppendLost(items: seq<ConsoleItem>, s: string)
    requires |items| > 0 && s != [] && items[|items| - 1].kind != None
    ensures AppendLastAsWritten(items, s) != AppendLast(items, s)
    ensures AppendLast(items, s)[|items| - 1].Get() == items[|items| - 1].Get() + s
  {
    var last := items[|items| - 1];
    assert |AppendLast(items, s)[|items| - 1].data| > |last.data|;
    GetAppend(last, s);
  }
}
