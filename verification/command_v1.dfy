/**
 The v1 command table (package `command` at the repository root): commands
 are registered under lower-cased names, kept in registration order for the
 usage text, and executed from a text line whose first word names the
 command (in any case) and whose remaining words are its arguments.

 A command's function is nil, the predefined help function, or a foreign
 function; running a foreign function is the parameter `invoke`.
 */
module CommandV1 {
  import opened Wrappers
  import opened Text

  /** A documented parameter of a command. */
  datatype ParamData = ParamData(name: Bytes, usage: Bytes)

  /** The function of a command: nil, the built-in help, or a foreign function. */
  datatype Func<F> = Nil | Help | Custom(f: F)

  datatype CommandData<F> = CommandData(name: Bytes, usage: Bytes, params: seq<ParamData>, cmd: Func<F>)

  /** The table: the name index and the registration-ordered list. */
  datatype Command<F> = Command(m: map<Bytes, CommandData<F>>, commands: seq<CommandData<F>>)

  /** The errors of `Add`. */
  datatype AddError = NilCommand | EmptyName

  /** The errors of `Exec`. */
  datatype ExecError = NameNotSet | NotFound(name: Bytes) | NotDefined(name: Bytes)

  /** What a successful `Exec` returns: the help text, or the foreign function's result. */
  datatype Outcome<R> = Usage(text: Bytes) | Ran(value: R)

  function AddMessage(e: AddError): Bytes {
    match e
    case NilCommand => "command pointer is nil"
    case EmptyName => "command name is empty"
  }

  function ExecMessage(e: ExecError): Bytes {
    match e
    case NameNotSet => "name should be set"
    case NotFound(name) => "command " + name + " not found"
    case NotDefined(name) => "command " + name + " is not defined"
  }

  // ---------------------------------------------------------------------------
  // Invariant
  // ---------------------------------------------------------------------------

  /** The names of a list of commands. */
  function NamesOf<F>(cs: seq<CommandData<F>>): set<Bytes> {
    set i | 0 <= i < |cs| :: cs[i].name
  }

  /** A stored name: non-empty and already lower-case. */
  ghost predicate Lowered(name: Bytes) {
    name != [] && ToLower(name) == name
  }

  /**
   The list holds each name once, the index maps exactly the listed names
   to their entries, and every name is lower-case.
   */
  ghost predicate Inv<F>(c: Command<F>) {
    (forall i, j :: 0 <= i < j < |c.commands| ==> c.commands[i].name != c.commands[j].name) &&
    (forall i :: 0 <= i < |c.commands| ==> c.commands[i].name in c.m && c.m[c.commands[i].name] == c.commands[i]) &&
    c.m.Keys == NamesOf(c.commands) &&
    (forall i :: 0 <= i < |c.commands| ==> Lowered(c.commands[i].name))
  }

  // ---------------------------------------------------------------------------
  // Registration
  // ---------------------------------------------------------------------------

  /** The position of the first command with the given name, or the list's length. */
  function IndexOfName<F>(cs: seq<CommandData<F>>, name: Bytes): (i: nat)
    ensures i <= |cs|
    ensures i < |cs| ==> cs[i].name == name
    ensures forall j :: 0 <= j < i ==> cs[j].name != name
    ensures i == |cs| <==> name !in NamesOf(cs)
    decreases |cs|
  {
    if cs == [] then 0
    else if cs[0].name == name then 0
    else
      var k := IndexOfName(cs[1..], name);
      assert NamesOf(cs) == {cs[0].name} + NamesOf(cs[1..]) by {
        forall n | n in NamesOf(cs) ensures n in {cs[0].name} + NamesOf(cs[1..]) {
          var j :| 0 <= j < |cs| && cs[j].name == n;
          if j > 0 {
            assert cs[1..][j - 1].name == n;
          }
        }
        forall n | n in NamesOf(cs[1..]) ensures n in NamesOf(cs) {
          var j :| 0 <= j < |cs[1..]| && cs[1..][j].name == n;
          assert cs[j + 1].name == n;
        }
      }
      k + 1
  }

  /** `findAndReplace`: the first command of the same name is replaced in place; otherwise the command is appended. */
  function FindAndReplace<F>(cs: seq<CommandData<F>>, d: CommandData<F>): (r: seq<CommandData<F>>)
    ensures d.name in NamesOf(cs) ==> |r| == |cs| && r[IndexOfName(cs, d.name)] == d
    ensures d.name !in NamesOf(cs) ==> r == cs + [d]
    ensures forall i :: 0 <= i < |cs| && i != IndexOfName(cs, d.name) ==> r[i] == cs[i]
  {
    var i := IndexOfName(cs, d.name);
    if i < |cs| then cs[i := d] else cs + [d]
  }

  /** The command as stored: its name lower-cased. */
  function Stored<F>(d: CommandData<F>): (s: CommandData<F>)
    ensures s.name == ToLower(d.name) && s.usage == d.usage && s.params == d.params && s.cmd == d.cmd
  {
    d.(name := ToLower(d.name))
  }

  /**
   One iteration of `Add`'s loop for a valid command: store it under its
   lower-cased name, replacing a command of that name in place in the list
   or appending it; nothing else changes.
   */
  function AddOne<F>(c: Command<F>, d: CommandData<F>): (r: Command<F>)
    requires d.name != []
    ensures ToLower(d.name) in r.m && r.m[ToLower(d.name)] == Stored(d)
    ensures forall n :: n != ToLower(d.name) ==> (n in r.m <==> n in c.m) && (n in c.m ==> r.m[n] == c.m[n])
    ensures Inv(c) && ToLower(d.name) in c.m ==>
              |r.commands| == |c.commands| && r.commands[IndexOfName(c.commands, ToLower(d.name))] == Stored(d)
    ensures Inv(c) && ToLower(d.name) !in c.m ==> r.commands == c.commands + [Stored(d)]
    ensures Inv(c) ==> forall i :: 0 <= i < |c.commands| && c.commands[i].name != ToLower(d.name) ==>
                         r.commands[i] == c.commands[i]
    ensures Inv(c) ==> Inv(r)
  {
    var s := Stored(d);
    var r := Command(c.m[s.name := s], FindAndReplace(c.commands, s));
    assert Inv(c) ==> Inv(r) by {
      if Inv(c) {
        AddOneInv(c, s, r);
      }
    }
    r
  }

  lemma AddOneInv<F>(c: Command<F>, s: CommandData<F>, r: Command<F>)
    requires Inv(c) && s.name != [] && ToLower(s.name) == s.name
    requires r == Command(c.m[s.name := s], FindAndReplace(c.commands, s))
    ensures Inv(r)
  {
    var k := IndexOfName(c.commands, s.name);
    if k < |c.commands| {
      ReplaceInv(c, s, k, r);
    } else {
      AppendInv(c, s, r);
    }
  }

  lemma ReplaceInv<F>(c: Command<F>, s: CommandData<F>, k: nat, r: Command<F>)
    requires Inv(c) && Lowered(s.name)
    requires k < |c.commands| && c.commands[k].name == s.name
    requires r == Command(c.m[s.name := s], c.commands[k := s])
    ensures Inv(r)
  {
    assert forall i :: 0 <= i < |r.commands| ==> r.commands[i].name == c.commands[i].name;
    assert forall i :: 0 <= i < |r.commands| ==> r.commands[i].name in r.m && r.m[r.commands[i].name] == r.commands[i] by {
      forall i | 0 <= i < |r.commands| ensures r.commands[i].name in r.m && r.m[r.commands[i].name] == r.commands[i] {
        if i != k {
          assert r.commands[i] == c.commands[i];
          assert c.commands[i].name != c.commands[k].name;
        }
      }
    }
    assert NamesOf(r.commands) == NamesOf(c.commands) by {
      SameNames(c.commands, r.commands);
    }
  }

  lemma SameNames<F>(xs: seq<CommandData<F>>, ys: seq<CommandData<F>>)
    requires |xs| == |ys| && forall i :: 0 <= i < |xs| ==> xs[i].name == ys[i].name
    ensures NamesOf(xs) == NamesOf(ys)
  {
    forall n | n in NamesOf(xs) ensures n in NamesOf(ys) {
      var j :| 0 <= j < |xs| && xs[j].name == n;
      assert ys[j].name == n;
    }
    forall n | n in NamesOf(ys) ensures n in NamesOf(xs) {
      var j :| 0 <= j < |ys| && ys[j].name == n;
      assert xs[j].name == n;
    }
  }

  lemma AppendInv<F>(c: Command<F>, s: CommandData<F>, r: Command<F>)
    requires Inv(c) && Lowered(s.name) && s.name !in NamesOf(c.commands)
    requires r == Command(c.m[s.name := s], c.commands + [s])
    ensures Inv(r)
  {
    var n0 := |c.commands|;
    assert NamesOf(r.commands) == NamesOf(c.commands) + {s.name} by {
      forall n | n in NamesOf(r.commands) ensures n in NamesOf(c.commands) + {s.name} {
        var j :| 0 <= j < |r.commands| && r.commands[j].name == n;
        if j < n0 {
          assert c.commands[j].name == n;
        }
      }
      assert r.commands[n0].name == s.name;
      forall n | n in NamesOf(c.commands) ensures n in NamesOf(r.commands) {
        var j :| 0 <= j < n0 && c.commands[j].name == n;
        assert r.commands[j].name == n;
      }
    }
    forall i | 0 <= i < |r.commands| ensures r.commands[i].name in r.m && r.m[r.commands[i].name] == r.commands[i] {
      if i < n0 {
        assert r.commands[i] == c.commands[i];
      }
    }
    forall i, j | 0 <= i < j < |r.commands| ensures r.commands[i].name != r.commands[j].name {
      if j == n0 {
        assert r.commands[i].name in NamesOf(c.commands);
      } else {
        assert r.commands[i] == c.commands[i] && r.commands[j] == c.commands[j];
      }
    }
    forall i | 0 <= i < |r.commands| ensures Lowered(r.commands[i].name) {
      if i < n0 {
        assert r.commands[i] == c.commands[i];
      }
    }
  }

  /** A command `Add` accepts: not nil and named. */
  predicate Valid<F>(d: Option<CommandData<F>>) {
    d.Some? && d.value.name != []
  }

  /** The position of the first command `Add` rejects, or the list's length. */
  function FirstInvalid<F>(cmds: seq<Option<CommandData<F>>>): (k: nat)
    ensures k <= |cmds|
    ensures forall i :: 0 <= i < k ==> Valid(cmds[i])
    ensures k < |cmds| ==> !Valid(cmds[k])
    decreases |cmds|
  {
    if cmds == [] || !Valid(cmds[0]) then 0 else FirstInvalid(cmds[1..]) + 1
  }

  /** The error for a rejected command. */
  function ErrorOf<F>(d: Option<CommandData<F>>): AddError {
    if d.None? then NilCommand else EmptyName
  }

  /**
   `Add`: register the commands in order, stopping at the first nil or
   unnamed one with its error; the commands before it stay registered.
   */
  function Add<F>(c: Command<F>, cmds: seq<Option<CommandData<F>>>): (r: (Command<F>, Option<AddError>))
    ensures r.1.None? <==> FirstInvalid(cmds) == |cmds|
    ensures r.1.Some? ==> r.1.value == ErrorOf(cmds[FirstInvalid(cmds)])
    ensures r.0.m.Keys == c.m.Keys + set i | 0 <= i < FirstInvalid(cmds) :: ToLower(cmds[i].value.name)
    ensures Inv(c) ==> Inv(r.0)
    decreases |cmds|
  {
    if cmds == [] then (c, None)
    else if cmds[0].None? then (c, Some(NilCommand))
    else if cmds[0].value.name == [] then (c, Some(EmptyName))
    else
      var c1 := AddOne(c, cmds[0].value);
      var r := Add(c1, cmds[1..]);
      AddKeysStep(c, cmds, c1, r.0);
      r
  }

  /** The names one valid first command and the rest of the list leave registered. */
  lemma AddKeysStep<F>(c: Command<F>, cmds: seq<Option<CommandData<F>>>, c1: Command<F>, r: Command<F>)
    requires cmds != [] && Valid(cmds[0])
    requires c1.m.Keys == c.m.Keys + {ToLower(cmds[0].value.name)}
    requires r.m.Keys == c1.m.Keys + set i | 0 <= i < FirstInvalid(cmds[1..]) :: ToLower(cmds[1..][i].value.name)
    ensures r.m.Keys == c.m.Keys + set i | 0 <= i < FirstInvalid(cmds) :: ToLower(cmds[i].value.name)
  {
    var k := FirstInvalid(cmds);
    assert forall i :: 0 <= i < k - 1 ==> cmds[1..][i] == cmds[i + 1];
    PrefixNamesCons(cmds, k);
  }

  /** The lower-cased names of the first k commands: the first one's and those of the next k-1. */
  lemma PrefixNamesCons<F>(cmds: seq<Option<CommandData<F>>>, k: nat)
    requires 1 <= k <= |cmds|
    requires forall i :: 0 <= i < k ==> cmds[i].Some?
    requires forall i :: 0 <= i < k - 1 ==> cmds[1..][i].Some?
    ensures (set i | 0 <= i < k :: ToLower(cmds[i].value.name))
         == {ToLower(cmds[0].value.name)} + set i | 0 <= i < k - 1 :: ToLower(cmds[1..][i].value.name)
  {
    var rest := cmds[1..];
    var tail := set i | 0 <= i < k - 1 :: ToLower(rest[i].value.name);
    var all := set i | 0 <= i < k :: ToLower(cmds[i].value.name);
    forall n | n in all ensures n in {ToLower(cmds[0].value.name)} + tail {
      var i :| 0 <= i < k && n == ToLower(cmds[i].value.name);
      if i > 0 {
        assert rest[i - 1] == cmds[i];
      }
    }
    forall n | n in tail ensures n in all {
      var i :| 0 <= i < k - 1 && n == ToLower(rest[i].value.name);
      assert rest[i] == cmds[i + 1];
    }
  }

  /**
   Everything from the first invalid command on is ignored: the registry is
   the one the valid prefix alone builds, and that prefix adds without error.
   */
  lemma {:induction false} AddStopsAtFirstInvalid<F>(c: Command<F>, cmds: seq<Option<CommandData<F>>>)
    ensures Add(c, cmds).0 == Add(c, cmds[..FirstInvalid(cmds)]).0
    ensures Add(c, cmds[..FirstInvalid(cmds)]).1 == None
    decreases |cmds|
  {
    var k := FirstInvalid(cmds);
    var prefix := cmds[..k];
    assert FirstInvalid(prefix) == |prefix| by {
      assert forall i :: 0 <= i < |prefix| ==> prefix[i] == cmds[i];
      FirstInvalidOfValid(prefix);
    }
    if k > 0 {
      var c1 := AddOne(c, cmds[0].value);
      assert prefix[0] == cmds[0];
      assert prefix[1..] == cmds[1..][..FirstInvalid(cmds[1..])];
      AddStopsAtFirstInvalid(c1, cmds[1..]);
    } else {
      assert prefix == [];
    }
  }

  /** With no error, the final command of the list is stored under its lower-cased name. */
  lemma AddLastWins<F>(c: Command<F>, cmds: seq<Option<CommandData<F>>>)
    requires cmds != [] && FirstInvalid(cmds) == |cmds|
    ensures var d := cmds[|cmds| - 1].value;
            Get(Add(c, cmds).0, ToLower(d.name)) == Some(Stored(d))
  {
    AddLast(c, cmds);
  }

  /**
   With no error, every command is stored under its lower-cased name unless
   a later command of the list has the same lower-cased name.
   */
  lemma {:induction false} AddStoresLastOfName<F>(c: Command<F>, cmds: seq<Option<CommandData<F>>>, i: nat)
    requires FirstInvalid(cmds) == |cmds| && i < |cmds|
    requires forall j :: i < j < |cmds| ==> ToLower(cmds[j].value.name) != ToLower(cmds[i].value.name)
    ensures Get(Add(c, cmds).0, ToLower(cmds[i].value.name)) == Some(Stored(cmds[i].value))
    decreases |cmds|
  {
    if i == |cmds| - 1 {
      AddLastWins(c, cmds);
    } else {
      var init := cmds[..|cmds| - 1];
      AddLast(c, cmds);
      AddStoresLastOfName(c, init, i);
      AddOneKeeps(Add(c, init).0, cmds[|cmds| - 1].value, ToLower(cmds[i].value.name), Stored(cmds[i].value));
    }
  }

  /** `Add` of a valid list is `Add` of all but the last command followed by one more step. */
  lemma AddLast<F>(c: Command<F>, cmds: seq<Option<CommandData<F>>>)
    requires cmds != [] && FirstInvalid(cmds) == |cmds|
    ensures FirstInvalid(cmds[..|cmds| - 1]) == |cmds| - 1
    ensures Add(c, cmds).0 == AddOne(Add(c, cmds[..|cmds| - 1]).0, cmds[|cmds| - 1].value)
  {
    var init := cmds[..|cmds| - 1];
    var last := cmds[|cmds| - 1];
    assert FirstInvalid(init) == |init| by {
      assert forall k :: 0 <= k < |init| ==> init[k] == cmds[k];
      FirstInvalidOfValid(init);
    }
    assert init + [last] == cmds;
    AddSplit(c, init, last);
  }

  /** One more step for another name leaves a name's command alone. */
  lemma AddOneKeeps<F>(c: Command<F>, d: CommandData<F>, n: Bytes, v: CommandData<F>)
    requires d.name != [] && n != ToLower(d.name) && Get(c, n) == Some(v)
    ensures Get(AddOne(c, d), n) == Some(v)
  {
  }

  /** A name no accepted command lower-cases to keeps the command it had. */
  lemma {:induction false} AddKeepsOthers<F>(c: Command<F>, cmds: seq<Option<CommandData<F>>>, n: Bytes)
    requires n in c.m
    requires forall i :: 0 <= i < FirstInvalid(cmds) ==> ToLower(cmds[i].value.name) != n
    ensures Get(Add(c, cmds).0, n) == Some(c.m[n])
    decreases |cmds|
  {
    if cmds != [] && Valid(cmds[0]) {
      var c1 := AddOne(c, cmds[0].value);
      assert forall i :: 0 <= i < FirstInvalid(cmds[1..]) ==> cmds[1..][i] == cmds[i + 1];
      AddKeepsOthers(c1, cmds[1..], n);
    }
  }

  lemma {:induction false} AddSplit<F>(c: Command<F>, init: seq<Option<CommandData<F>>>, last: Option<CommandData<F>>)
    requires FirstInvalid(init) == |init| && Valid(last)
    ensures Add(c, init + [last]) == (AddOne(Add(c, init).0, last.value), None)
    decreases |init|
  {
    if init == [] {
      assert [last][1..] == [];
    } else {
      assert (init + [last])[1..] == init[1..] + [last];
      assert FirstInvalid(init[1..]) == |init[1..]| by {
        assert forall i :: 0 <= i < |init[1..]| ==> init[1..][i] == init[i + 1];
        FirstInvalidOfValid(init[1..]);
      }
      AddSplit(AddOne(c, init[0].value), init[1..], last);
    }
  }

  lemma FirstInvalidOfValid<F>(cmds: seq<Option<CommandData<F>>>)
    requires forall i :: 0 <= i < |cmds| ==> Valid(cmds[i])
    ensures FirstInvalid(cmds) == |cmds|
  {
  }

  /** `Get`: the command stored under exactly this name (no case folding). */
  function Get<F>(c: Command<F>, name: Bytes): (r: Option<CommandData<F>>)
    ensures r.Some? <==> name in c.m
    ensures r.Some? ==> r.value == c.m[name]
  {
    if name in c.m then Some(c.m[name]) else None
  }

  /** Stored names are lower-case, so `Get` with a name holding an upper-case byte finds nothing. */
  lemma GetIsCaseSensitive<F>(c: Command<F>, name: Bytes)
    requires Inv(c) && ToLower(name) != name
    ensures Get(c, name) == None
  {
  }

  /** The predefined help command. */
  function HelpData<F>(): CommandData<F> {
    CommandData("help", "show this help message", [], Help)
  }

  /** `New`: a table holding only the help command. */
  function New<F>(): (c: Command<F>)
    ensures Inv(c)
    ensures c.m.Keys == {"help"} && c.m["help"] == HelpData()
    ensures c.commands == [HelpData()]
  {
    var empty := Command(map[], []);
    assert Inv(empty);
    HelpLower();
    AddOne(empty, HelpData())
  }

  lemma HelpLower()
    ensures ToLower("help") == "help"
  {
    var s: Bytes := "help";
    assert forall i :: 0 <= i < |s| ==> !IsUpper(s[i]);
  }

  // ---------------------------------------------------------------------------
  // Usage text
  // ---------------------------------------------------------------------------

  /** The parameter names after a command's name: " p1 p2 ...". */
  function Heading(ps: seq<ParamData>): Bytes
    decreases |ps|
  {
    if ps == [] then [] else Heading(ps[..|ps| - 1]) + " " + ps[|ps| - 1].name
  }

  /** The parameter lines of a command: "\n    p - usage" for each. */
  function Details(ps: seq<ParamData>): Bytes
    decreases |ps|
  {
    if ps == [] then []
    else Details(ps[..|ps| - 1]) + "\n" + "  " + "  " + ps[|ps| - 1].name + " - " + ps[|ps| - 1].usage
  }

  /** A command's usage block: "  name p1 p2 - usage" and its parameter lines. */
  function Block<F>(d: CommandData<F>): Bytes {
    "  " + d.name + Heading(d.params) + " - " + d.usage + Details(d.params)
  }

  /** The blocks of the commands, one per line group, separated by newlines. */
  function UsageText<F>(cs: seq<CommandData<F>>): Bytes
    decreases |cs|
  {
    if cs == [] then []
    else if |cs| == 1 then Block(cs[0])
    else UsageText(cs[..|cs| - 1]) + "\n" + Block(cs[|cs| - 1])
  }

  /** The usage text is the blocks joined by newlines, in registration order. */
  lemma {:induction false} UsageIsJoin<F>(cs: seq<CommandData<F>>)
    ensures UsageText(cs) == Join(seq(|cs|, i requires 0 <= i < |cs| => Block(cs[i])), "\n")
    decreases |cs|
  {
    var blocks := seq(|cs|, i requires 0 <= i < |cs| => Block(cs[i]));
    if |cs| > 1 {
      var init := cs[..|cs| - 1];
      UsageIsJoin(init);
      var initBlocks := seq(|init|, i requires 0 <= i < |init| => Block(init[i]));
      assert blocks == initBlocks + [Block(cs[|cs| - 1])];
      JoinSnoc(initBlocks, Block(cs[|cs| - 1]), "\n");
    }
  }

  lemma {:induction false} JoinSnoc(xs: seq<Bytes>, x: Bytes, sep: Bytes)
    requires xs != []
    ensures Join(xs + [x], sep) == Join(xs, sep) + sep + x
    decreases |xs|
  {
    if |xs| == 1 {
      assert xs + [x] == [xs[0], x];
    } else {
      assert (xs + [x])[1..] == xs[1..] + [x];
      JoinSnoc(xs[1..], x, sep);
    }
  }

  /** `String`: the usage text, built the way the Go loops build it. */
  method String<F>(c: Command<F>) returns (usage: Bytes)
    ensures usage == UsageText(c.commands)
  {
    usage := [];
    var i := 0;
    while i < |c.commands|
      invariant 0 <= i <= |c.commands|
      invariant usage == UsageText(c.commands[..i])
    {
      var d := c.commands[i];
      var prefix := if i > 0 then usage + "\n" else usage;
      usage := AppendBlock(prefix, d);
      assert c.commands[..i + 1][..i] == c.commands[..i];
      assert c.commands[..i + 1][i] == d;
      i := i + 1;
    }
    assert c.commands[..i] == c.commands;
  }

  /** One pass of `String`'s outer loop: the command's block appended. */
  method AppendBlock<F>(prefix: Bytes, d: CommandData<F>) returns (usage: Bytes)
    ensures usage == prefix + Block(d)
  {
    usage := prefix + "  " + d.name;
    usage := AppendHeading(usage, d.params);
    usage := usage + " - " + d.usage;
    usage := AppendDetails(usage, d.params);
    BlockParts(prefix, d);
  }

  lemma BlockParts<F>(prefix: Bytes, d: CommandData<F>)
    ensures prefix + "  " + d.name + Heading(d.params) + " - " + d.usage + Details(d.params) == prefix + Block(d)
  {
  }

  /** `String`'s first inner loop: " p" for each parameter. */
  method AppendHeading(start: Bytes, ps: seq<ParamData>) returns (usage: Bytes)
    ensures usage == start + Heading(ps)
  {
    usage := start;
    var j := 0;
    while j < |ps|
      invariant 0 <= j <= |ps|
      invariant usage == start + Heading(ps[..j])
    {
      assert ps[..j + 1][..j] == ps[..j];
      usage := usage + " " + ps[j].name;
      j := j + 1;
    }
    assert ps[..j] == ps;
  }

  /** `String`'s second inner loop: "\n    p - usage" for each parameter. */
  method AppendDetails(start: Bytes, ps: seq<ParamData>) returns (usage: Bytes)
    ensures usage == start + Details(ps)
  {
    usage := start;
    var j := 0;
    while j < |ps|
      invariant 0 <= j <= |ps|
      invariant usage == start + Details(ps[..j])
    {
      assert ps[..j + 1][..j] == ps[..j];
      usage := usage + "\n" + "  " + "  " + ps[j].name + " - " + ps[j].usage;
      j := j + 1;
    }
    assert ps[..j] == ps;
  }

  // ---------------------------------------------------------------------------
  // Execution
  // ---------------------------------------------------------------------------

  /** The text the help function returns. */
  function HelpText<F>(c: Command<F>): Bytes {
    "\nUsage of commands:\n" + UsageText(c.commands)
  }

  /**
   `Exec`: split the line into words; the first, lower-cased, names the
   command and the rest are its arguments. Errors: no word, no such
   command, or a command whose function is nil.
   */
  function Exec<F, R>(c: Command<F>, line: Bytes, invoke: (F, seq<Bytes>) -> R): (r: Result<Outcome<R>, ExecError>)
    ensures Fields(line) == [] <==> r == Failure(NameNotSet)
    ensures Fields(line) != [] ==>
              var name := ToLower(Fields(line)[0]);
              && (r == Failure(NotFound(name)) <==> name !in c.m)
              && (r == Failure(NotDefined(name)) <==> name in c.m && c.m[name].cmd.Nil?)
              && (name in c.m && c.m[name].cmd.Help? ==> r == Success(Usage(HelpText(c))))
              && (name in c.m && c.m[name].cmd.Custom? ==> r == Success(Ran(invoke(c.m[name].cmd.f, Fields(line)[1..]))))
  {
    var words := Fields(line);
    if words == [] then Failure(NameNotSet)
    else
      var name := ToLower(words[0]);
      match Get(c, name)
      case None => Failure(NotFound(name))
      case Some(d) =>
        match d.cmd
        case Nil => Failure(NotDefined(name))
        case Help => Success(Usage(HelpText(c)))
        case Custom(f) => Success(Ran(invoke(f, words[1..])))
  }

  /**
   A command added under any spelling of its name runs, from a line
   spelling its name in any case, with the line's remaining words.
   */
  lemma AddThenExec<F, R>(c: Command<F>, d: CommandData<F>, w: Bytes, args: seq<Bytes>, invoke: (F, seq<Bytes>) -> R)
    requires d.name != [] && d.cmd.Custom?
    requires IsWord(w) && ToLower(w) == ToLower(d.name)
    requires forall i :: 0 <= i < |args| ==> IsWord(args[i])
    ensures Exec(AddOne(c, d), Join([w] + args, " "), invoke) == Success(Ran(invoke(d.cmd.f, args)))
  {
    var ws := [w] + args;
    assert forall i :: 0 <= i < |ws| ==> IsWord(ws[i]);
    FieldsJoin(ws);
    assert ws[1..] == args;
  }

  /** A line without words is rejected before any lookup. */
  lemma BlankLine<F, R>(c: Command<F>, line: Bytes, invoke: (F, seq<Bytes>) -> R)
    requires forall i :: 0 <= i < |line| ==> IsSpace(line[i])
    ensures Exec(c, line, invoke) == Failure(NameNotSet)
  {
    BlankFields(line);
  }

  lemma {:induction false} BlankFields(line: Bytes)
    requires forall i :: 0 <= i < |line| ==> IsSpace(line[i])
    ensures Fields(line) == []
    decreases |line|
  {
    if line != [] {
      BlankFields(line[1..]);
      assert line == [line[0]] + line[1..];
      FieldsSkipsSpace(line[0], line[1..]);
    }
  }

  /** In a new table, "help" answers with the usage text of the help command alone. */
  lemma HelpOfNew<F, R>(invoke: (F, seq<Bytes>) -> R)
    ensures Exec(New<F>(), "help", invoke) == Success(Usage(HelpText(New<F>())))
    ensures UsageText(New<F>().commands) == "  help - show this help message"
  {
    assert Fields("help") == ["help"] by {
      HelpIsWord();
    }
    HelpLower();
    assert UsageText([HelpData<F>()]) == Block(HelpData<F>());
    HelpBlock<F>();
  }

  lemma HelpIsWord()
    ensures Fields("help") == ["help"]
  {
    var w: Bytes := "help";
    assert IsWord(w) by {
      assert forall i :: 0 <= i < |w| ==> !IsSpace(w[i]);
    }
    FieldsOfWord(w);
  }

  lemma HelpBlock<F>()
    ensures Block(HelpData<F>()) == "  help - show this help message"
  {
    BlockWithoutParams(HelpData<F>());
    HelpConcat();
  }

  lemma BlockWithoutParams<F>(d: CommandData<F>)
    requires d.params == []
    ensures Block(d) == "  " + d.name + " - " + d.usage
  {
  }

  lemma HelpConcat()
    ensures "  " + "help" + " - " + "show this help message" == "  help - show this help message"
  {
  }
}
