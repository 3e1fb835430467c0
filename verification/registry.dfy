/**
 The v2 command registry (`Commands`): a map from command name to its entry,
 with registration, lookup, removal, execution, enumeration and the parser
 that turns an input line into a command, its variables and its payload.
 */
module Registry {
  import opened Wrappers
  import opened Text
  import opened Origin
  import opened Pattern

  /**
   One registered command (`CommandData`). The handler is foreign code and is
   kept opaque; `None` stands for a nil handler.
   */
  datatype CommandData<H> = CommandData(
    cmd: Bytes,
    processIn: ProcessIn,
    params: Bytes,
    returnDescr: Bytes,
    descr: Bytes,
    request: Bytes,
    response: Bytes,
    handler: Option<H>)

  /** The registry: name to entry. Locking is not modelled. */
  datatype Commands<H> = Commands(m: map<Bytes, CommandData<H>>)

  /** The error `Exec` returns for an unknown or handler-less command. */
  datatype Error = NotFound(name: Bytes)

  /** The text of an error. */
  function Message(e: Error): (r: Bytes)
    ensures |r| == |e.name| + 20
    ensures r[..9] == "command '" && r[|r| - 11..] == "' not found"
    ensures r[9..|r| - 11] == e.name
  {
    "command '" + e.name + "' not found"
  }

  /** `New`: an empty registry. */
  function New<H>(): (r: Commands<H>)
    ensures forall name :: Get(r, name) == None
  {
    Commands(map[])
  }

  /** `Add`: the entry built from the arguments replaces whatever was stored under `command`. */
  function Add<H>(c: Commands<H>, command: Bytes, descr: Bytes, processIn: ProcessIn, params: Bytes,
                  returnDescr: Bytes, request: Bytes, response: Bytes, handler: Option<H>): (r: Commands<H>)
    ensures Get(r, command) == Some(CommandData(command, processIn, params, returnDescr, descr, request, response, handler))
    ensures forall name :: name != command ==> Get(r, name) == Get(c, name)
    ensures r.m.Keys == c.m.Keys + {command}
  {
    Commands(c.m[command := CommandData(command, processIn, params, returnDescr, descr, request, response, handler)])
  }

  /** `Get`: the entry stored under exactly this name, if any. */
  function Get<H>(c: Commands<H>, name: Bytes): (r: Option<CommandData<H>>)
    ensures r.Some? <==> name in c.m.Keys
    ensures r.Some? ==> name in c.m && c.m[name] == r.value
  {
    if name in c.m then Some(c.m[name]) else None
  }

  /** `Del`: the name is gone; everything else stays. */
  function Del<H>(c: Commands<H>, name: Bytes): (r: Commands<H>)
    ensures Get(r, name) == None
    ensures forall other :: other != name ==> Get(r, other) == Get(c, other)
    ensures name !in c.m ==> r == c
  {
    Commands(c.m - {name})
  }

  /**
   `Exec`: the handler's result for (entry, processIn, data), unchanged, or
   `NotFound` when the name is absent or its handler is nil. Calling the
   foreign handler is the parameter `invoke`.
   */
  function Exec<H, D, R>(c: Commands<H>, command: Bytes, processIn: ProcessIn, data: D,
                         invoke: (CommandData<H>, H, ProcessIn, D) -> R): (r: Result<R, Error>)
    ensures r.Failure? <==> Get(c, command).None? || Get(c, command).value.handler.None?
    ensures r.Failure? ==> r.error == NotFound(command)
    ensures r.Success? ==>
              command in c.m && c.m[command].handler.Some? &&
              r.value == invoke(c.m[command], c.m[command].handler.value, processIn, data)
  {
    match Get(c, command)
    case Some(cmd) =>
      if cmd.handler.Some? then Success(invoke(cmd, cmd.handler.value, processIn, data))
      else Failure(NotFound(command))
    case None => Failure(NotFound(command))
  }

  // ---------------------------------------------------------------------------
  // Enumeration
  // ---------------------------------------------------------------------------

  /**
   Go's map iteration visits every key exactly once in an unspecified order;
   `order` is that order.
   */
  predicate IsEnumeration(order: seq<Bytes>, keys: set<Bytes>) {
    (forall i, j :: 0 <= i < j < |order| ==> order[i] != order[j]) &&
    (forall i :: 0 <= i < |order| ==> order[i] in keys) &&
    (forall n :: n in keys ==> n in order)
  }

  /** The names of a sequence of (name, value) pairs. */
  function FirstOf<T>(pairs: seq<(Bytes, T)>): set<Bytes> {
    set i | 0 <= i < |pairs| :: pairs[i].0
  }

  /** `Iter`: every (name, entry) pair of the registry, each once, in the enumeration order. */
  function Iter<H>(c: Commands<H>, order: seq<Bytes>): (r: seq<(Bytes, CommandData<H>)>)
    requires IsEnumeration(order, c.m.Keys)
    ensures FirstOf(r) == c.m.Keys
    ensures forall i :: 0 <= i < |r| ==> r[i].0 in c.m && r[i].1 == c.m[r[i].0]
    ensures forall i, j :: 0 <= i < j < |r| ==> r[i].0 != r[j].0
  {
    var r := seq(|order|, i requires 0 <= i < |order| => (order[i], c.m[order[i]]));
    assert forall n :: n in c.m.Keys ==> n in FirstOf(r) by {
      forall n | n in c.m.Keys ensures n in FirstOf(r) {
        var i :| 0 <= i < |order| && order[i] == n;
        assert r[i].0 == n;
      }
    }
    r
  }

  /** `ForEach`: the callback's result for every pair `Iter` yields, in the same order. */
  function ForEach<H, T>(c: Commands<H>, order: seq<Bytes>, f: (Bytes, CommandData<H>) -> T): (r: seq<T>)
    requires IsEnumeration(order, c.m.Keys)
    ensures |r| == |Iter(c, order)|
    ensures forall i :: 0 <= i < |r| ==> r[i] == f(Iter(c, order)[i].0, Iter(c, order)[i].1)
    ensures forall i :: 0 <= i < |r| ==> order[i] in c.m && r[i] == f(order[i], c.m[order[i]])
    ensures forall n :: n in c.m ==> exists i :: 0 <= i < |r| && order[i] == n && r[i] == f(n, c.m[n])
    ensures forall i, j :: 0 <= i < j < |r| ==> order[i] != order[j]
  {
    var pairs := Iter(c, order);
    seq(|pairs|, i requires 0 <= i < |pairs| => f(pairs[i].0, pairs[i].1))
  }

  /** An entry `HabdleCommands` hands to its callback: some origin bit in common, and a handler. */
  predicate Handled<H>(cmd: CommandData<H>, mask: ProcessIn) {
    cmd.processIn & mask != 0 && cmd.handler.Some?
  }

  /** The names `HabdleCommands` reports. */
  function HandledNames<H>(c: Commands<H>, mask: ProcessIn): set<Bytes> {
    set n | n in c.m && Handled(c.m[n], mask)
  }

  /** The handled names among the first k of the enumeration. */
  function HandledAmong<H>(c: Commands<H>, mask: ProcessIn, order: seq<Bytes>, k: nat): set<Bytes>
    requires IsEnumeration(order, c.m.Keys) && k <= |order|
  {
    set j | 0 <= j < k && Handled(c.m[order[j]], mask) :: order[j]
  }

  lemma HandledAmongStep<H>(c: Commands<H>, mask: ProcessIn, order: seq<Bytes>, k: nat)
    requires IsEnumeration(order, c.m.Keys) && k < |order|
    ensures HandledAmong(c, mask, order, k + 1) ==
      HandledAmong(c, mask, order, k) + (if Handled(c.m[order[k]], mask) then {order[k]} else {})
    ensures order[k] !in HandledAmong(c, mask, order, k)
  {
  }

  lemma FirstOfSnoc<T>(pairs: seq<(Bytes, T)>, p: (Bytes, T))
    ensures FirstOf(pairs + [p]) == FirstOf(pairs) + {p.0}
  {
    var r := pairs + [p];
    assert r[|pairs|].0 == p.0;
    forall n | n in FirstOf(pairs) ensures n in FirstOf(r) {
      var i :| 0 <= i < |pairs| && pairs[i].0 == n;
      assert r[i].0 == n;
    }
  }

  /**
   `HabdleCommands`: the callback's calls, in order, as (name, Params) pairs;
   exactly one call per handled entry.
   */
  method HandleCommands<H>(c: Commands<H>, mask: ProcessIn, order: seq<Bytes>) returns (calls: seq<(Bytes, Bytes)>)
    requires IsEnumeration(order, c.m.Keys)
    ensures FirstOf(calls) == HandledNames(c, mask)
    ensures forall i :: 0 <= i < |calls| ==> calls[i].0 in c.m && calls[i].1 == c.m[calls[i].0].params
    ensures forall i, j :: 0 <= i < j < |calls| ==> calls[i].0 != calls[j].0
  {
    calls := [];
    var k := 0;
    while k < |order|
      invariant 0 <= k <= |order|
      invariant FirstOf(calls) == HandledAmong(c, mask, order, k)
      invariant forall i :: 0 <= i < |calls| ==> calls[i].0 in c.m && calls[i].1 == c.m[calls[i].0].params
      invariant forall i, j :: 0 <= i < j < |calls| ==> calls[i].0 != calls[j].0
    {
      var name := order[k];
      var cmd := c.m[name];
      HandledAmongStep(c, mask, order, k);
      if cmd.processIn & mask != 0 && cmd.handler.Some? {
        assert name !in FirstOf(calls);
        FirstOfSnoc(calls, (name, cmd.params));
        calls := calls + [(name, cmd.params)];
      }
      k := k + 1;
    }
    assert forall n :: n in HandledNames(c, mask) ==> n in FirstOf(calls) by {
      forall n | n in HandledNames(c, mask) ensures n in FirstOf(calls) {
        var j :| 0 <= j < |order| && order[j] == n;
      }
    }
  }

  // ---------------------------------------------------------------------------
  // Parsing an input line
  // ---------------------------------------------------------------------------

  /** What `ParseCommand` returns: an unknown name, or the entry, its name, its variables and its payload. */
  datatype Parsed<H> =
    | Unknown(name: Bytes)
    | Parsed(cmd: CommandData<H>, name: Bytes, vars: map<Bytes, Bytes>, data: Option<Bytes>)

  /**
   The first step of `ParseCommand`: the name before the first '/', and the
   tail after it (empty when there is no '/').
   */
  function SplitName(line: Bytes): (r: (Bytes, Bytes))
    ensures r.0 == line[..IndexOf(line, '/')]
    ensures '/' in line ==> line == r.0 + ['/'] + r.1
    ensures '/' !in line ==> r.0 == line && r.1 == []
  {
    var v := SplitN(line, '/', 2);
    SplitNStep(line, '/', 2);
    JoinSplitN(line, '/', 2);
    if |v| > 1 then
      assert v == [v[0], v[1]];
      JoinCons(v[0], [v[1]], ['/']);
      assert [v[0]] + [v[1]] == v;
      (v[0], v[1])
    else
      (v[0], [])
  }

  /** The value bound to the parameter at index i: part i, or "" when there are fewer parts. */
  function Value(parts: seq<Bytes>, i: nat): Bytes {
    if i < |parts| then parts[i] else []
  }

  /** No later parameter carries the same name as the one at index i. */
  predicate LastOccurrence(params: seq<Bytes>, i: nat)
    requires i < |params|
  {
    forall j :: i < j < |params| ==> params[j] != params[i]
  }

  /** The non-empty parameter names. */
  function NamedKeys(params: seq<Bytes>): set<Bytes> {
    set i | 0 <= i < |params| && params[i] != [] :: params[i]
  }

  /**
   The binding loop of `ParseCommand`: each non-empty parameter name is
   bound to its value, a later parameter of the same name overwriting an
   earlier one; empty names are skipped.
   */
  function Bind(params: seq<Bytes>, parts: seq<Bytes>): (m: map<Bytes, Bytes>)
    ensures m.Keys == NamedKeys(params)
    ensures forall i :: 0 <= i < |params| && params[i] != [] && LastOccurrence(params, i) ==>
              params[i] in m && m[params[i]] == Value(parts, i)
    decreases |params|
  {
    if params == [] then map[]
    else
      var n := |params| - 1;
      var m := Bind(params[..n], parts);
      var r := if params[n] == [] then m else m[params[n] := Value(parts, n)];
      BindStep(params, parts, m, r);
      r
  }

  lemma BindStep(params: seq<Bytes>, parts: seq<Bytes>, m: map<Bytes, Bytes>, r: map<Bytes, Bytes>)
    requires params != []
    requires m.Keys == NamedKeys(params[..|params| - 1])
    requires forall i :: 0 <= i < |params| - 1 && params[i] != [] && LastOccurrence(params[..|params| - 1], i) ==>
               params[i] in m && m[params[i]] == Value(parts, i)
    requires r == if params[|params| - 1] == [] then m else m[params[|params| - 1] := Value(parts, |params| - 1)]
    ensures r.Keys == NamedKeys(params)
    ensures forall i :: 0 <= i < |params| && params[i] != [] && LastOccurrence(params, i) ==>
              params[i] in r && r[params[i]] == Value(parts, i)
  {
    var n := |params| - 1;
    var init := params[..n];
    assert forall i :: 0 <= i < n ==> init[i] == params[i];
    assert NamedKeys(params) == NamedKeys(init) + (if params[n] == [] then {} else {params[n]});
    forall i | 0 <= i < n && params[i] != [] && LastOccurrence(params, i)
      ensures params[i] in r && r[params[i]] == Value(parts, i)
    {
      assert LastOccurrence(init, i);
      assert params[i] != params[n];
    }
  }

  /**
   The second step of `ParseCommand` for a non-empty tail: split it into at
   most k+1 parts for k parameter names, bind the names, and keep part k,
   the unsplit remainder, as the payload.
   */
  function BindTail(params: seq<Bytes>, tail: Bytes): (r: (map<Bytes, Bytes>, Option<Bytes>))
    ensures r.0 == Bind(params, SplitN(tail, '/', |params| + 1))
    ensures r.1.Some? <==> |SplitN(tail, '/', |params| + 1)| == |params| + 1
    ensures r.1.None? <==> Count(tail, '/') < |params|
    ensures r.1.Some? ==> AfterSeparators(tail, '/', r.1.value, |params|)
  {
    var parts := SplitN(tail, '/', |params| + 1);
    SplitNLength(tail, '/', |params| + 1);
    if |parts| > |params| then
      SplitNLast(tail, '/', |params| + 1);
      (Bind(params, parts), Some(parts[|parts| - 1]))
    else
      (Bind(params, parts), None)
  }

  /**
   `ParseCommand`: the name is the line up to the first '/'; an unknown name
   is an error; a known name with an empty tail has no variables and no
   payload; otherwise the tail is bound to the entry's parameter names.
   */
  function ParseCommand<H>(c: Commands<H>, line: Bytes): (r: Parsed<H>)
    ensures r.name == line[..IndexOf(line, '/')]
    ensures r.Unknown? <==> r.name !in c.m
    ensures r.Parsed? ==> r.cmd == c.m[r.name]
    ensures r.Parsed? && |line| <= |r.name| + 1 ==> r.vars == map[] && r.data == None
    ensures r.Parsed? ==> r.vars.Keys <= set n | n in ParamsSlice(r.cmd.params)
  {
    var (name, tail) := SplitName(line);
    if name !in c.m then Unknown(name)
    else if tail == [] then Parsed(c.m[name], name, map[], None)
    else
      var params := ParamsSlice(c.m[name].params);
      var (vars, data) := BindTail(params, tail);
      Parsed(c.m[name], name, vars, data)
  }

  /**
   For a known name and a non-empty tail, the tail is split into at most
   k+1 parts that join back into it, and the variables and payload are
   read from those parts.
   */
  lemma ParseCommandParts<H>(c: Commands<H>, line: Bytes, name: Bytes, tail: Bytes)
    requires SplitName(line) == (name, tail) && name in c.m && tail != []
    ensures var params := ParamsSlice(c.m[name].params);
            var parts := SplitN(tail, '/', |params| + 1);
            && 1 <= |parts| <= |params| + 1
            && Join(parts, ['/']) == tail
            && ParseCommand(c, line) == Parsed(c.m[name], name, Bind(params, parts),
                 if |parts| == |params| + 1 then Some(parts[|params|]) else None)
  {
    var params := ParamsSlice(c.m[name].params);
    JoinSplitN(tail, '/', |params| + 1);
    ParseWithParts(c, line, name, tail, params, SplitN(tail, '/', |params| + 1));
  }

  lemma ParseWithParts<H>(c: Commands<H>, line: Bytes, name: Bytes, tail: Bytes, params: seq<Bytes>, parts: seq<Bytes>)
    requires SplitName(line) == (name, tail) && name in c.m && tail != []
    requires params == ParamsSlice(c.m[name].params)
    requires parts == SplitN(tail, '/', |params| + 1)
    ensures ParseCommand(c, line) ==
      Parsed(c.m[name], name, Bind(params, parts), if |parts| == |params| + 1 then Some(parts[|params|]) else None)
  {
  }

  // ---------------------------------------------------------------------------
  // Properties across operations
  // ---------------------------------------------------------------------------

  /** A second `Add` under the same name replaces the first entry wholesale. */
  lemma AddReplaces<H>(c: Commands<H>, command: Bytes,
                       descr1: Bytes, processIn1: ProcessIn, params1: Bytes, returnDescr1: Bytes,
                       request1: Bytes, response1: Bytes, handler1: Option<H>,
                       descr2: Bytes, processIn2: ProcessIn, params2: Bytes, returnDescr2: Bytes,
                       request2: Bytes, response2: Bytes, handler2: Option<H>)
    ensures Add(Add(c, command, descr1, processIn1, params1, returnDescr1, request1, response1, handler1),
                command, descr2, processIn2, params2, returnDescr2, request2, response2, handler2)
         == Add(c, command, descr2, processIn2, params2, returnDescr2, request2, response2, handler2)
  {
    var e := CommandData(command, processIn2, params2, returnDescr2, descr2, request2, response2, handler2);
    var e1 := CommandData(command, processIn1, params1, returnDescr1, descr1, request1, response1, handler1);
    assert c.m[command := e1][command := e] == c.m[command := e];
  }

  /** Removing a command makes it unexecutable. */
  lemma DelThenExec<H, D, R>(c: Commands<H>, command: Bytes, processIn: ProcessIn, data: D,
                             invoke: (CommandData<H>, H, ProcessIn, D) -> R)
    ensures Exec(Del(c, command), command, processIn, data, invoke) == Failure(NotFound(command))
  {
    assert Get(Del(c, command), command) == None;
  }

  /** Names are matched exactly: an entry added as "Get" is not found as "get". */
  lemma NoCaseFolding<H>(handler: H)
    ensures var c := Add(New(), "Get", "", HTTP, "", "", "", "", Some(handler));
            Get(c, "get") == None && Get(c, "Get").Some?
  {
    var c := Add(New<H>(), "Get", "", HTTP, "", "", "", "", Some(handler));
    assert "get" != "Get" by {
      assert "get"[0] != "Get"[0];
    }
  }

  /**
   Parsing a formatted line: a name, then one '/'-free value per parameter
   name, then the payload, all joined by '/', binds every name to its value
   and yields the payload, which may itself contain '/'.
   */
  lemma ParseFormatted<H>(c: Commands<H>, name: Bytes, values: seq<Bytes>, data: Bytes)
    requires name in c.m && '/' !in name
    requires |values| == |ParamsSlice(c.m[name].params)|
    requires forall i :: 0 <= i < |values| ==> '/' !in values[i]
    requires values != [] || data != []
    ensures ParseCommand(c, name + ['/'] + Join(values + [data], ['/'])) ==
              Parsed(c.m[name], name, Bind(ParamsSlice(c.m[name].params), values + [data]), Some(data))
  {
    var params := ParamsSlice(c.m[name].params);
    var parts := values + [data];
    var tail := Join(parts, ['/']);
    var line := name + ['/'] + tail;
    assert tail != [] by {
      FormattedTail(values, data);
    }
    assert SplitName(line) == (name, tail) by {
      FormattedName(name, tail);
    }
    assert SplitN(tail, '/', |params| + 1) == parts by {
      FormattedParts(values, data);
    }
    ParseFormattedCore(c, line, name, tail, params, parts, data);
  }

  /**
   A line formatted as name/v1/.../vk with exactly one value per parameter
   binds the parameters to those values and carries no payload.
   */
  lemma ParseExact<H>(c: Commands<H>, name: Bytes, values: seq<Bytes>)
    requires name in c.m && '/' !in name
    requires |values| == |ParamsSlice(c.m[name].params)|
    requires forall i :: 0 <= i < |values| ==> '/' !in values[i]
    requires Join(values, ['/']) != []
    ensures ParseCommand(c, name + ['/'] + Join(values, ['/'])) ==
              Parsed(c.m[name], name, Bind(ParamsSlice(c.m[name].params), values), None)
  {
    var params := ParamsSlice(c.m[name].params);
    var tail := Join(values, ['/']);
    var line := name + ['/'] + tail;
    assert SplitName(line) == (name, tail) by {
      FormattedName(name, tail);
    }
    assert SplitN(tail, '/', |params| + 1) == values by {
      SplitNJoin(values, '/', |values| + 1);
    }
    ParseWithParts(c, line, name, tail, params, values);
  }

  lemma ParseFormattedCore<H>(c: Commands<H>, line: Bytes, name: Bytes, tail: Bytes,
                              params: seq<Bytes>, parts: seq<Bytes>, data: Bytes)
    requires SplitName(line) == (name, tail) && name in c.m && tail != []
    requires params == ParamsSlice(c.m[name].params)
    requires parts == SplitN(tail, '/', |params| + 1)
    requires |parts| == |params| + 1 && parts[|params|] == data
    ensures ParseCommand(c, line) == Parsed(c.m[name], name, Bind(params, parts), Some(data))
  {
    ParseWithParts(c, line, name, tail, params, parts);
  }

  lemma FormattedTail(values: seq<Bytes>, data: Bytes)
    requires values != [] || data != []
    ensures Join(values + [data], ['/']) != []
  {
    if values != [] {
      JoinCons(values[0], values[1..] + [data], ['/']);
      assert values + [data] == [values[0]] + (values[1..] + [data]);
    }
  }

  lemma FormattedName(name: Bytes, tail: Bytes)
    requires '/' !in name
    ensures SplitName(name + ['/'] + tail) == (name, tail)
  {
    var line := name + ['/'] + tail;
    IndexOfAt(name, '/', tail);
    assert line[..|name|] == name;
  }

  lemma FormattedParts(values: seq<Bytes>, data: Bytes)
    requires forall i :: 0 <= i < |values| ==> '/' !in values[i]
    ensures SplitN(Join(values + [data], ['/']), '/', |values| + 1) == values + [data]
  {
    var parts := values + [data];
    assert forall i :: 0 <= i < |parts| - 1 ==> parts[i] == values[i];
    SplitNJoin(parts, '/', |parts|);
  }

  /** With distinct parameter names, every non-empty name is bound to the value at its own position. */
  lemma BindDistinct(params: seq<Bytes>, parts: seq<Bytes>)
    requires forall i, j :: 0 <= i < j < |params| ==> params[i] != params[j]
    ensures forall i :: 0 <= i < |params| && params[i] != [] ==>
              params[i] in Bind(params, parts) && Bind(params, parts)[params[i]] == Value(parts, i)
  {
    forall i | 0 <= i < |params| && params[i] != []
      ensures params[i] in Bind(params, parts) && Bind(params, parts)[params[i]] == Value(parts, i)
    {
      assert LastOccurrence(params, i);
    }
  }

  /**
   The worked example: with pattern "{a}/{b}", the line
   "cmd/x/y/extra/more" binds a to "x" and b to "y", and the unsplit
   remainder "extra/more" is the payload.
   */
  lemma ParseExample<H>(c: Commands<H>)
    requires "cmd" in c.m && c.m["cmd"].params == "{a}/{b}"
    ensures ParseCommand(c, "cmd/x/y/extra/more") ==
      Parsed(c.m["cmd"], "cmd", map["a" := "x", "b" := "y"], Some("extra/more"))
  {
    ExamplePattern();
    ExampleLine();
    assert "cmd/x/y/extra/more" == "cmd" + ['/'] + "x/y/extra/more";
    assert "b"[0] != "a"[0];
    ParseTwo(c, "cmd", "a", "b", "x", "y", "extra/more");
  }

  /** Two distinct parameters: "name/x/y/data" binds the first to x, the second to y, and yields data. */
  lemma ParseTwo<H>(c: Commands<H>, name: Bytes, a: Bytes, b: Bytes, x: Bytes, y: Bytes, data: Bytes)
    requires name in c.m && '/' !in name
    requires c.m[name].params == PatternOf([a, b])
    requires PlainName(a) && PlainName(b) && a != [] && b != [] && a != b
    requires '/' !in x && '/' !in y
    ensures ParseCommand(c, name + ['/'] + Join([x, y, data], ['/'])) ==
      Parsed(c.m[name], name, map[a := x, b := y], Some(data))
  {
    var values := [x, y];
    var params := ParamsSlice(c.m[name].params);
    assert params == [a, b] by {
      ParamsSliceOfPattern([a, b]);
    }
    var parts := values + [data];
    assert parts == [x, y, data];
    assert forall i :: 0 <= i < |values| ==> '/' !in values[i] by {
      forall i | 0 <= i < |values| ensures '/' !in values[i] {
        if i == 0 { assert values[i] == x; } else { assert values[i] == y; }
      }
    }
    ParseFormatted(c, name, values, data);
    assert Bind(params, [x, y, data]) == map[a := x, b := y] by {
      BindTwo(a, b, x, y, data);
    }
  }

  lemma BindTwo(a: Bytes, b: Bytes, x: Bytes, y: Bytes, data: Bytes)
    requires a != [] && b != [] && a != b
    ensures Bind([a, b], [x, y, data]) == map[a := x, b := y]
  {
    BindDistinct([a, b], [x, y, data]);
    assert NamedKeys([a, b]) == {a, b} by {
      assert [a, b][0] == a && [a, b][1] == b;
    }
  }

  lemma ExampleLine()
    ensures Join(["x", "y", "extra/more"], ['/']) == "x/y/extra/more"
  {
    JoinCons("y", ["extra/more"], ['/']);
    assert ["y", "extra/more"] == ["y"] + ["extra/more"];
    JoinCons("x", ["y", "extra/more"], ['/']);
    assert ["x", "y", "extra/more"] == ["x"] + ["y", "extra/more"];
  }

  lemma ExamplePattern()
    ensures PatternOf(["a", "b"]) == "{a}/{b}"
  {
    var names: seq<Bytes> := ["a", "b"];
    var segs := seq(|names|, i requires 0 <= i < |names| => Braced(names[i]));
    assert Braced("a") == "{a}";
    assert Braced("b") == "{b}";
    assert segs == ["{a}"] + ["{b}"];
    JoinCons("{a}", ["{b}"], ['/']);
  }
}
