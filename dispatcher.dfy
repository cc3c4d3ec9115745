/** The command registry of the terminal interface: commands are registered
    by name, listed in the order of their first registration, and executed
    by name after the name has been checked against the safe pattern. */
module CommandDispatcher {
  import opened Text

  /** The longest command name that is executed. */
  const MaxCommandLength := 32

  /** The hint to the help command that ends both refusals. */
  const HelpHint: string := " Type /help for available commands."

  const InvalidCommandReply: string := "Invalid command." + HelpHint

  function UnknownCommandReply(command: string): (reply: string)
    ensures |reply| == 18 + |command| + 36
    ensures StartsWith(reply, "Unknown command: /")
    ensures reply[18..18 + |command|] == command
    ensures EndsWith(reply, "." + HelpHint)
  {
    "Unknown command: /" + command + "." + HelpHint
  }

  /** A name is executed only if it is 1 to 32 characters of lower-case
      ASCII letters, digits and hyphens. */
  function IsValidCommandName(command: string): (b: bool)
    ensures b <==> 0 < |command| <= MaxCommandLength
                   && forall i :: 0 <= i < |command| ==> IsSafeNameChar(command[i])
  {
    |command| > 0 && |command| <= MaxCommandLength && MatchesSafeName(command)
  }

  /** A registered command. The handler maps the arguments to the reply. */
  datatype CommandDefinition = CommandDefinition(
    name: string,
    description: string,
    usage: string,
    handler: seq<string> -> string)

  /** A valid name is its own lower-case form, so the lower-casing done by
      the parser never turns a valid name into a different one. */
  lemma ValidNameIsLowerCase(command: string)
    requires IsValidCommandName(command)
    ensures Lower(command) == command
    ensures NoUpper(command) && NoSpace(command) && NoControl(command)
  {
    SafeNameClasses(command);
    LowerOfNoUpper(command);
  }

  /** The two refusals can always be told apart, and the unknown-command
      reply names the command it refused. */
  lemma RepliesDistinct(a: string, b: string)
    ensures InvalidCommandReply != UnknownCommandReply(a)
    ensures UnknownCommandReply(a) == UnknownCommandReply(b) ==> a == b
  {
    assert InvalidCommandReply[0] == 'I';
    assert UnknownCommandReply(a)[0] == 'U';
    if UnknownCommandReply(a) == UnknownCommandReply(b) {
      assert |a| == |b|;
      assert a == UnknownCommandReply(a)[18..18 + |a|];
    }
  }

  /** No two positions of `s` hold the same element. */
  ghost predicate Distinct(s: seq<string>) {
    forall i, j :: 0 <= i < j < |s| ==> s[i] != s[j]
  }

  /** A sequence without repeats has as many elements as its set. */
  lemma {:induction false} DistinctCardinality(s: seq<string>)
    requires Distinct(s)
    ensures |set x | x in s| == |s|
  {
    if s != [] {
      var t := s[..|s| - 1];
      var e := s[|s| - 1];
      assert Distinct(t);
      DistinctCardinality(t);
      assert e !in t;
      assert (set x | x in s) == (set x | x in t) + {e};
    }
  }

  /** A map whose keys are exactly the elements of a sequence without
      repeats has as many entries as the sequence has elements. */
  lemma KeyCount(order: seq<string>, commands: map<string, CommandDefinition>)
    requires Distinct(order)
    requires forall k :: k in commands <==> k in order
    ensures |commands| == |order|
  {
    DistinctCardinality(order);
    assert commands.Keys == set x | x in order;
  }

  /** Definitions listed along a sequence of distinct keys, each stored
      under its own name, carry distinct names, and every key's name is
      among them. */
  lemma ListingNames(order: seq<string>, commands: map<string, CommandDefinition>,
                     defs: seq<CommandDefinition>)
    requires Distinct(order)
    requires forall k :: k in commands <==> k in order
    requires forall k :: k in commands ==> commands[k].name == k
    requires |defs| == |order|
    requires forall i :: 0 <= i < |defs| ==> defs[i] == commands[order[i]]
    ensures |defs| == |commands|
    ensures forall i, j :: 0 <= i < j < |defs| ==> defs[i].name != defs[j].name
    ensures forall k :: k in commands <==> exists i :: 0 <= i < |defs| && defs[i].name == k
  {
    KeyCount(order, commands);
    assert forall i :: 0 <= i < |defs| ==> defs[i].name == order[i];
    forall k | k in commands
      ensures exists i :: 0 <= i < |defs| && defs[i].name == k
    {
      var j :| 0 <= j < |order| && order[j] == k;
      assert defs[j].name == k;
    }
  }

  /** The registry: a map from name to definition that, like a JavaScript
      `Map`, remembers the order in which its keys were first inserted. */
  class Dispatcher {
    var order: seq<string>
    var commands: map<string, CommandDefinition>

    /** Every key appears once in `order`, and every definition is stored
        under its own name. */
    ghost predicate Valid()
      reads this
    {
      Distinct(order)
      && (forall k :: k in commands <==> k in order)
      && (forall k :: k in commands ==> commands[k].name == k)
    }

    constructor ()
      ensures Valid()
      ensures order == [] && commands == map[]
    {
      order := [];
      commands := map[];
    }

    /** Stores `cmd` under its name, replacing an earlier definition of the
        same name but keeping that name's place in the listing. The name is
        not checked: a command registered under an invalid name is held but
        can never be executed. */
    method Register(cmd: CommandDefinition)
      requires Valid()
      modifies this
      ensures Valid()
      ensures commands == old(commands)[cmd.name := cmd]
      ensures order == if cmd.name in old(commands) then old(order) else old(order) + [cmd.name]
    {
      if cmd.name !in commands {
        order := order + [cmd.name];
      }
      commands := commands[cmd.name := cmd];
    }

    /** Answers a command: an invalid name is refused before the registry
        is consulted, an unregistered name is reported, and a registered
        one is answered by its handler. */
    method Execute(command: string, args: seq<string>) returns (reply: string)
      ensures !IsValidCommandName(command) ==> reply == InvalidCommandReply
      ensures IsValidCommandName(command) && command !in commands
              ==> reply == UnknownCommandReply(command)
      ensures IsValidCommandName(command) && command in commands
              ==> reply == commands[command].handler(args)
    {
      if !IsValidCommandName(command) {
        return InvalidCommandReply;
      }
      if command !in commands {
        return UnknownCommandReply(command);
      }
      reply := commands[command].handler(args);
    }

    /** Lists every registered definition once, in the order of first
        registration. */
    method GetCommands() returns (defs: seq<CommandDefinition>)
      requires Valid()
      ensures |defs| == |order| == |commands|
      ensures forall i :: 0 <= i < |defs| ==> defs[i] == commands[order[i]]
      ensures forall i, j :: 0 <= i < j < |defs| ==> defs[i].name != defs[j].name
      ensures forall k :: k in commands <==> exists i :: 0 <= i < |defs| && defs[i].name == k
    {
      defs := [];
      var i := 0;
      while i < |order|
        invariant 0 <= i <= |order|
        invariant |defs| == i
        invariant forall j :: 0 <= j < i ==> defs[j] == commands[order[j]]
      {
        defs := defs + [commands[order[i]]];
        i := i + 1;
      }
      ListingNames(order, commands, defs);
    }

    /** Whether a definition is stored under exactly this name. */
    method HasCommand(name: string) returns (b: bool)
      ensures b <==> name in commands
    {
      b := name in commands;
    }
  }

  /** A fresh registry knows no command: a valid name is reported unknown. */
  method EmptyDispatcherReportsUnknown(args: seq<string>) returns (reply: string, listed: nat)
    ensures reply == UnknownCommandReply("help")
    ensures listed == 0
  {
    var d := new Dispatcher();
    reply := d.Execute("help", args);
    var defs := d.GetCommands();
    listed := |defs|;
  }

  /** A command registered under a name outside the pattern is held but is
      refused before lookup. */
  method InvalidNameIsHeldButRefused(cmd: CommandDefinition, args: seq<string>)
    returns (held: bool, reply: string)
    requires !IsValidCommandName(cmd.name)
    ensures held
    ensures reply == InvalidCommandReply
  {
    var d := new Dispatcher();
    d.Register(cmd);
    held := d.HasCommand(cmd.name);
    reply := d.Execute(cmd.name, args);
  }

  /** Registering a second definition under the same name replaces the
      first: one entry is listed and the second handler answers. */
  method ReRegisteringReplaces(first: CommandDefinition, second: CommandDefinition, args: seq<string>)
    returns (defs: seq<CommandDefinition>, reply: string)
    requires first.name == second.name && IsValidCommandName(first.name)
    ensures |defs| == 1 && defs[0] == second
    ensures reply == second.handler(args)
  {
    var d := new Dispatcher();
    d.Register(first);
    d.Register(second);
    defs := d.GetCommands();
    reply := d.Execute(second.name, args);
  }

  /** Commands are listed in the order of their first registration. */
  method ListingFollowsRegistration(a: CommandDefinition, b: CommandDefinition)
    returns (defs: seq<CommandDefinition>)
    requires a.name != b.name
    ensures |defs| == 2 && defs[0] == a && defs[1] == b
  {
    var d := new Dispatcher();
    d.Register(a);
    d.Register(b);
    assert d.order == [a.name, b.name];
    assert d.commands[a.name] == a && d.commands[b.name] == b;
    defs := d.GetCommands();
  }
}
