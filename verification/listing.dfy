/**
 The built-in listing commands of v2 (`AddCommandsList`) and the selection
 and ordering of entries in the JSON and HTML listings they serve. The
 rendering itself (JSON encoding, the HTML template) is not modelled.
 */
module Listing {
  import opened Wrappers
  import opened Text
  import opened Origin
  import opened Pattern
  import opened Registry

  // ---------------------------------------------------------------------------
  // Registration
  // ---------------------------------------------------------------------------

  /** The optional fieldset flag: the first one given, true when none is. */
  function SetFieldset(flags: seq<bool>): (r: bool)
    ensures flags == [] ==> r
    ensures flags != [] ==> r == flags[0]
  {
    if |flags| > 0 then flags[0] else true
  }

  /** The pattern the filtered HTML listing is registered with. */
  function FilterPattern(): Bytes {
    "{http}/{webrtc}/{tru}/{ws}"
  }

  function JsonEntry<H>(processIn: ProcessIn, h: H): CommandData<H> {
    CommandData("commjson", processIn, "", "json list of commands", "Get json list of commands.", "", "", Some(h))
  }

  function HtmlEntry<H>(processIn: ProcessIn, h: H): CommandData<H> {
    CommandData("commands", processIn, "", "HTML list of commands", "Get html list of commands.", "", "", Some(h))
  }

  function FilterEntry<H>(processIn: ProcessIn, h: H): CommandData<H> {
    CommandData("commfilt", processIn, FilterPattern(), "HTML list of commands",
                "Get html list of commands with filter.", "", "", Some(h))
  }

  /**
   `AddCommandsList`: "commjson" always; "commands" when the mask includes
   HTTP; "commfilt" when it includes HTTP and the fieldset flag holds. The
   two handlers are the listing closures, kept opaque.
   */
  function AddCommandsList<H>(c: Commands<H>, processIn: ProcessIn, setFieldsets: seq<bool>,
                              jsonHandler: H, htmlHandler: H): (r: Commands<H>)
    ensures Get(r, "commjson") == Some(JsonEntry(processIn, jsonHandler))
    ensures Get(r, "commands") ==
              if processIn & HTTP != 0 then Some(HtmlEntry(processIn, htmlHandler)) else Get(c, "commands")
    ensures Get(r, "commfilt") ==
              if processIn & HTTP != 0 && SetFieldset(setFieldsets) then Some(FilterEntry(processIn, htmlHandler))
              else Get(c, "commfilt")
    ensures forall n :: n != "commjson" && n != "commands" && n != "commfilt" ==> Get(r, n) == Get(c, n)
  {
    var c1 := Add(c, "commjson", "Get json list of commands.", processIn, "", "json list of commands", "", "",
                  Some(jsonHandler));
    if processIn & HTTP != 0 then
      var c2 := Add(c1, "commands", "Get html list of commands.", processIn, "", "HTML list of commands", "", "",
                    Some(htmlHandler));
      if SetFieldset(setFieldsets) then
        Add(c2, "commfilt", "Get html list of commands with filter.", processIn, FilterPattern(),
            "HTML list of commands", "", "", Some(htmlHandler))
      else c2
    else c1
  }

  /** The filtered listing's pattern names its four flags, the fourth being "ws". */
  lemma FilterPatternNames()
    ensures ParamsSlice(FilterPattern()) == ["http", "webrtc", "tru", "ws"]
  {
    FilterPatternWritten();
    ParamsSliceOfPattern(["http", "webrtc", "tru", "ws"]);
  }

  lemma FilterPatternWritten()
    ensures PatternOf(["http", "webrtc", "tru", "ws"]) == FilterPattern()
  {
    var names: seq<Bytes> := ["http", "webrtc", "tru", "ws"];
    assert seq(|names|, i requires 0 <= i < |names| => Braced(names[i])) == ["{http}", "{webrtc}", "{tru}", "{ws}"] by {
      assert Braced("http") == "{http}";
      assert Braced("webrtc") == "{webrtc}";
      assert Braced("tru") == "{tru}";
      assert Braced("ws") == "{ws}";
    }
    JoinFour("{http}", "{webrtc}", "{tru}", "{ws}", ['/']);
    FourConcat();
  }

  lemma JoinFour(a: Bytes, b: Bytes, c: Bytes, d: Bytes, sep: Bytes)
    ensures Join([a, b, c, d], sep) == a + sep + b + sep + c + sep + d
  {
    JoinThree(b, c, d, sep);
    assert [a, b, c, d] == [a] + [b, c, d];
    JoinCons(a, [b, c, d], sep);
  }

  lemma FourConcat()
    ensures "{http}" + ['/'] + "{webrtc}" + ['/'] + "{tru}" + ['/'] + "{ws}" == FilterPattern()
  {
  }

  // ---------------------------------------------------------------------------
  // Listing items and their order
  // ---------------------------------------------------------------------------

  /** One row of a listing (`commandsListItem`), with the origin mask rendered as text. */
  datatype ListItem = ListItem(
    command: Bytes,
    params: Bytes,
    returnDescr: Bytes,
    processIn: Bytes,
    descr: Bytes,
    request: Bytes,
    response: Bytes)

  /** The row for a registered command. */
  function ItemOf<H>(name: Bytes, cmd: CommandData<H>): (r: ListItem)
    ensures r.command == name && r.params == cmd.params && r.processIn == Origin.String(cmd.processIn)
  {
    ListItem(name, cmd.params, cmd.returnDescr, Origin.String(cmd.processIn), cmd.descr, cmd.request, cmd.response)
  }

  /** Strictly ascending by command name, so in particular no name twice. */
  predicate Sorted(xs: seq<ListItem>) {
    forall i, j :: 0 <= i < j < |xs| ==> Less(xs[i].command, xs[j].command)
  }

  /** No command name occurs twice. */
  predicate DistinctNames(xs: seq<ListItem>) {
    forall i, j :: 0 <= i < j < |xs| ==> xs[i].command != xs[j].command
  }

  /** Insert a row into a sorted listing whose names differ from its own. */
  function Insert(x: ListItem, xs: seq<ListItem>): (r: seq<ListItem>)
    requires Sorted(xs)
    requires forall i :: 0 <= i < |xs| ==> xs[i].command != x.command
    ensures Sorted(r)
    ensures |r| == |xs| + 1
    ensures forall y :: y in r <==> y == x || y in xs
  {
    if xs == [] then [x]
    else if Less(x.command, xs[0].command) then
      InsertFront(x, xs);
      [x] + xs
    else
      LessTotal(x.command, xs[0].command);
      var rest := Insert(x, xs[1..]);
      forall i | 0 <= i < |rest| ensures Less(xs[0].command, rest[i].command) {
        assert rest[i] in rest;
        if rest[i] != x {
          var k :| 0 <= k < |xs[1..]| && xs[1..][k] == rest[i];
          assert xs[k + 1] == rest[i];
        }
      }
      InsertBehind(xs[0], rest);
      [xs[0]] + rest
  }

  lemma InsertFront(x: ListItem, xs: seq<ListItem>)
    requires Sorted(xs) && xs != [] && Less(x.command, xs[0].command)
    ensures Sorted([x] + xs)
  {
    var r := [x] + xs;
    forall i, j | 0 <= i < j < |r| ensures Less(r[i].command, r[j].command) {
      if i == 0 && j > 1 {
        LessTransitive(x.command, xs[0].command, xs[j - 1].command);
      }
    }
  }

  lemma InsertBehind(h: ListItem, rest: seq<ListItem>)
    requires Sorted(rest)
    requires forall i :: 0 <= i < |rest| ==> Less(h.command, rest[i].command)
    ensures Sorted([h] + rest)
  {
    var r := [h] + rest;
    forall i, j | 0 <= i < j < |r| ensures Less(r[i].command, r[j].command) {
      if i == 0 {
        assert r[j] == rest[j - 1];
      } else {
        assert r[i] == rest[i - 1] && r[j] == rest[j - 1];
      }
    }
  }

  /** Sort rows with distinct names ascending by name (Go's `sort.Slice` on `Command`). */
  function SortItems(xs: seq<ListItem>): (r: seq<ListItem>)
    requires DistinctNames(xs)
    ensures Sorted(r)
    ensures |r| == |xs|
    ensures forall y :: y in r <==> y in xs
  {
    if xs == [] then []
    else
      var rest := SortItems(xs[1..]);
      assert forall i :: 0 <= i < |rest| ==> rest[i].command != xs[0].command by {
        forall i | 0 <= i < |rest| ensures rest[i].command != xs[0].command {
          assert rest[i] in xs[1..];
          var j :| 0 <= j < |xs[1..]| && xs[1..][j] == rest[i];
          assert xs[j + 1] == rest[i];
        }
      }
      Insert(xs[0], rest)
  }

  /** Two sorted listings with the same rows are the same listing. */
  lemma {:induction false} SortedUnique(xs: seq<ListItem>, ys: seq<ListItem>)
    requires Sorted(xs) && Sorted(ys)
    requires forall y :: y in xs <==> y in ys
    ensures xs == ys
    decreases |xs|
  {
    SameRowsBothEmpty(xs, ys);
    if xs != [] {
      assert xs[0] == ys[0] by {
        SortedHeadIsLeast(xs, ys);
      }
      forall y ensures y in xs[1..] <==> y in ys[1..] {
        SortedTailMembership(xs, y);
        SortedTailMembership(ys, y);
      }
      SortedUnique(xs[1..], ys[1..]);
      assert xs == [xs[0]] + xs[1..] && ys == [ys[0]] + ys[1..];
    }
  }

  lemma SameRowsBothEmpty(xs: seq<ListItem>, ys: seq<ListItem>)
    requires forall y :: y in xs <==> y in ys
    ensures xs == [] <==> ys == []
  {
    if xs != [] {
      assert xs[0] in xs;
    }
    if ys != [] {
      assert ys[0] in ys;
    }
  }

  lemma SortedHeadIsLeast(xs: seq<ListItem>, ys: seq<ListItem>)
    requires Sorted(xs) && Sorted(ys) && xs != [] && ys != []
    requires forall y :: y in xs <==> y in ys
    ensures xs[0] == ys[0]
  {
    assert xs[0] in ys;
    assert ys[0] in xs;
    var i :| 0 <= i < |ys| && ys[i] == xs[0];
    var j :| 0 <= j < |xs| && xs[j] == ys[0];
    if i != 0 {
      assert Less(ys[0].command, xs[0].command);
      if j == 0 {
        LessIrreflexive(ys[0].command);
      } else {
        assert Less(xs[0].command, ys[0].command);
        LessTransitive(ys[0].command, xs[0].command, ys[0].command);
        LessIrreflexive(ys[0].command);
      }
    }
  }

  lemma SortedTailMembership(xs: seq<ListItem>, y: ListItem)
    requires Sorted(xs) && xs != []
    ensures y in xs[1..] <==> y in xs && y != xs[0]
  {
    if y in xs[1..] {
      var k :| 0 <= k < |xs[1..]| && xs[1..][k] == y;
      assert xs[k + 1] == y;
      if y == xs[0] {
        LessIrreflexive(y.command);
      }
    }
    if y in xs && y != xs[0] {
      var k :| 0 <= k < |xs| && xs[k] == y;
      assert xs[1..][k - 1] == y;
    }
  }

  // ---------------------------------------------------------------------------
  // Selection: the JSON listing and the HTML listing
  // ---------------------------------------------------------------------------

  /** Names listed once each, all of them registered. */
  predicate Walk<H>(c: Commands<H>, order: seq<Bytes>) {
    (forall i :: 0 <= i < |order| ==> order[i] in c.m) &&
    (forall i, j :: 0 <= i < j < |order| ==> order[i] != order[j])
  }

  /** The rows of the walked entries whose origin mask `keep` accepts, in walk order. */
  function Select<H>(c: Commands<H>, order: seq<Bytes>, keep: ProcessIn -> bool): (r: seq<ListItem>)
    requires Walk(c, order)
    ensures DistinctNames(r)
    ensures forall y :: y in r ==>
              y.command in order && keep(c.m[y.command].processIn) && y == ItemOf(y.command, c.m[y.command])
    ensures forall n :: n in order && keep(c.m[n].processIn) ==> ItemOf(n, c.m[n]) in r
    decreases |order|
  {
    if order == [] then []
    else
      var n := order[0];
      assert Walk(c, order[1..]) by {
        assert forall i :: 0 <= i < |order| - 1 ==> order[1..][i] == order[i + 1];
      }
      var rest := Select(c, order[1..], keep);
      var r := if keep(c.m[n].processIn) then [ItemOf(n, c.m[n])] + rest else rest;
      SelectStep(c, order, keep, rest, r);
      r
  }

  /** One step of `Select`: the first walked entry, if kept, in front of the selection of the rest. */
  lemma SelectStep<H>(c: Commands<H>, order: seq<Bytes>, keep: ProcessIn -> bool, rest: seq<ListItem>, r: seq<ListItem>)
    requires Walk(c, order) && order != []
    requires DistinctNames(rest)
    requires forall y :: y in rest ==>
               y.command in order[1..] && y.command in c.m &&
               keep(c.m[y.command].processIn) && y == ItemOf(y.command, c.m[y.command])
    requires forall n :: n in order[1..] && keep(c.m[n].processIn) ==> ItemOf(n, c.m[n]) in rest
    requires r == if keep(c.m[order[0]].processIn) then [ItemOf(order[0], c.m[order[0]])] + rest else rest
    ensures DistinctNames(r)
    ensures forall y :: y in r ==>
              y.command in order && keep(c.m[y.command].processIn) && y == ItemOf(y.command, c.m[y.command])
    ensures forall n :: n in order && keep(c.m[n].processIn) ==> ItemOf(n, c.m[n]) in r
  {
    assert forall n :: n in order[1..] ==> n in order;
    assert forall n :: n in order ==> n == order[0] || n in order[1..] by {
      forall n | n in order ensures n == order[0] || n in order[1..] {
        var i :| 0 <= i < |order| && order[i] == n;
        if i > 0 {
          assert order[1..][i - 1] == n;
        }
      }
    }
    if keep(c.m[order[0]].processIn) {
      SelectCons(ItemOf(order[0], c.m[order[0]]), rest, order);
    }
  }

  lemma SelectCons(x: ListItem, rest: seq<ListItem>, order: seq<Bytes>)
    requires order != [] && x.command == order[0]
    requires forall i, j :: 0 <= i < j < |order| ==> order[i] != order[j]
    requires DistinctNames(rest)
    requires forall y :: y in rest ==> y.command in order[1..]
    ensures DistinctNames([x] + rest)
  {
    var r := [x] + rest;
    forall i, j | 0 <= i < j < |r| ensures r[i].command != r[j].command {
      if i == 0 {
        assert r[j] in rest;
        var k :| 0 <= k < |order[1..]| && order[1..][k] == r[j].command;
        assert order[k + 1] == r[j].command;
      } else {
        assert r[i] == rest[i - 1] && r[j] == rest[j - 1];
      }
    }
  }

  /** Every registered name appears in a walk that enumerates the registry. */
  lemma EnumerationWalks<H>(c: Commands<H>, order: seq<Bytes>)
    requires IsEnumeration(order, c.m.Keys)
    ensures Walk(c, order)
    ensures forall n :: n in c.m <==> n in order
  {
  }

  /**
   `commandsJsonHandler`: one row per registered command, in ascending
   order of name, whatever order the registry is walked in.
   */
  function JsonList<H>(c: Commands<H>, order: seq<Bytes>): (r: seq<ListItem>)
    requires IsEnumeration(order, c.m.Keys)
    ensures Sorted(r)
    ensures forall y :: y in r <==> y.command in c.m && y == ItemOf(y.command, c.m[y.command])
  {
    EnumerationWalks(c, order);
    SortItems(Select(c, order, (pi: ProcessIn) => true))
  }

  /** The four origin checkboxes of the HTML listing. */
  datatype Filter = Filter(http: bool, webrtc: bool, tru: bool, websocket: bool)

  /** A checkbox is on unless its variable is present and reads "false" (a missing one reads ""). */
  predicate Enabled(vars: map<Bytes, Bytes>, key: Bytes) {
    !(key in vars && vars[key] == "false")
  }

  /** An entry is listed when one of the checked origins is in its mask. */
  predicate Keep(f: Filter, pi: ProcessIn) {
    (f.http && pi & HTTP != 0) || (f.webrtc && pi & WebRTC != 0) ||
    (f.tru && pi & TRU != 0) || (f.websocket && pi & WS != 0)
  }

  /**
   The checkboxes as `commandsHttpHandler` reads them: the fourth from a
   variable named "websocket", which the "commfilt" pattern never binds.
   */
  function FilterAsWritten(vars: map<Bytes, Bytes>): (f: Filter)
    ensures f.http == Enabled(vars, "http") && f.webrtc == Enabled(vars, "webrtc") && f.tru == Enabled(vars, "tru")
    ensures "websocket" !in vars ==> f.websocket
  {
    Filter(Enabled(vars, "http"), Enabled(vars, "webrtc"), Enabled(vars, "tru"), Enabled(vars, "websocket"))
  }

  /** The checkboxes read from the four names the "commfilt" pattern binds. */
  function FilterOf(vars: map<Bytes, Bytes>): (f: Filter)
    ensures vars == map[] ==> f == Filter(true, true, true, true)
    ensures "ws" in vars && vars["ws"] == "false" ==> !f.websocket
  {
    Filter(Enabled(vars, "http"), Enabled(vars, "webrtc"), Enabled(vars, "tru"), Enabled(vars, "ws"))
  }

  /**
   `commandsHttpHandler`'s list: the rows of the entries the filter keeps,
   in ascending order of name.
   */
  function HtmlList<H>(c: Commands<H>, order: seq<Bytes>, f: Filter): (r: seq<ListItem>)
    requires IsEnumeration(order, c.m.Keys)
    ensures Sorted(r)
    ensures forall y :: y in r <==>
              y.command in c.m && Keep(f, c.m[y.command].processIn) && y == ItemOf(y.command, c.m[y.command])
  {
    EnumerationWalks(c, order);
    SortItems(Select(c, order, (pi: ProcessIn) => Keep(f, pi)))
  }

  /**
   What `commandsHttpHandler` lists for the variables of a request, with the
   checkboxes read from the names the "commfilt" pattern binds: the JSON
   rows whose origin mask has a checked origin, still in ascending order.
   */
  function HttpListing<H>(c: Commands<H>, order: seq<Bytes>, vars: map<Bytes, Bytes>): (r: seq<ListItem>)
    requires IsEnumeration(order, c.m.Keys)
    ensures Sorted(r)
    ensures forall y :: y in r <==> y in JsonList(c, order) && Keep(FilterOf(vars), c.m[y.command].processIn)
  {
    HtmlList(c, order, FilterOf(vars))
  }

  /**
   The "commands" listing, whose request binds no variables, shows every
   command some web origin serves.
   */
  lemma UnfilteredListing<H>(c: Commands<H>, order: seq<Bytes>)
    requires IsEnumeration(order, c.m.Keys)
    ensures forall y :: y in HttpListing(c, order, map[]) <==>
              y in JsonList(c, order) && c.m[y.command].processIn & (HTTP | WebRTC | TRU | WS) != 0
  {
    assert FilterOf(map[]) == Filter(true, true, true, true);
    AllBoxesListWebEntries(c, order);
  }

  /** The listings do not depend on the order the registry is walked in. */
  lemma JsonListOrderIndependent<H>(c: Commands<H>, o1: seq<Bytes>, o2: seq<Bytes>)
    requires IsEnumeration(o1, c.m.Keys) && IsEnumeration(o2, c.m.Keys)
    ensures JsonList(c, o1) == JsonList(c, o2)
  {
    SortedUnique(JsonList(c, o1), JsonList(c, o2));
  }

  lemma HtmlListOrderIndependent<H>(c: Commands<H>, o1: seq<Bytes>, o2: seq<Bytes>, f: Filter)
    requires IsEnumeration(o1, c.m.Keys) && IsEnumeration(o2, c.m.Keys)
    ensures HtmlList(c, o1, f) == HtmlList(c, o2, f)
  {
    SortedUnique(HtmlList(c, o1, f), HtmlList(c, o2, f));
  }

  /** Every row of an HTML listing is also a row of the JSON listing. */
  lemma HtmlWithinJson<H>(c: Commands<H>, order: seq<Bytes>, f: Filter)
    requires IsEnumeration(order, c.m.Keys)
    ensures forall y :: y in HtmlList(c, order, f) ==> y in JsonList(c, order)
  {
  }

  /** With every box checked, the HTML listing is the JSON listing less the entries no web origin serves. */
  lemma AllBoxesListWebEntries<H>(c: Commands<H>, order: seq<Bytes>)
    requires IsEnumeration(order, c.m.Keys)
    ensures forall y :: y in HtmlList(c, order, Filter(true, true, true, true)) <==>
              y in JsonList(c, order) && c.m[y.command].processIn & (HTTP | WebRTC | TRU | WS) != 0
  {
    forall pi: ProcessIn ensures Keep(Filter(true, true, true, true), pi) <==> pi & (HTTP | WebRTC | TRU | WS) != 0 {
      KeepAll(pi);
    }
  }

  lemma KeepAll(pi: ProcessIn)
    ensures Keep(Filter(true, true, true, true), pi) <==> pi & (HTTP | WebRTC | TRU | WS) != 0
  {
  }

  /** An entry served only over Teonet (or nowhere) is never in an HTML listing. */
  lemma TeonetOnlyNeverListed<H>(c: Commands<H>, order: seq<Bytes>, f: Filter, name: Bytes)
    requires IsEnumeration(order, c.m.Keys)
    requires name in c.m && c.m[name].processIn & (HTTP | WebRTC | TRU | WS) == 0
    ensures forall y :: y in HtmlList(c, order, f) ==> y.command != name
  {
    NoWebOriginKept(f, c.m[name].processIn);
  }

  lemma NoWebOriginKept(f: Filter, pi: ProcessIn)
    requires pi & (HTTP | WebRTC | TRU | WS) == 0
    ensures !Keep(f, pi)
  {
  }

  /** Checking more boxes never removes a row. */
  lemma HtmlListMonotone<H>(c: Commands<H>, order: seq<Bytes>, f: Filter, g: Filter)
    requires IsEnumeration(order, c.m.Keys)
    requires (f.http ==> g.http) && (f.webrtc ==> g.webrtc) && (f.tru ==> g.tru) && (f.websocket ==> g.websocket)
    ensures forall y :: y in HtmlList(c, order, f) ==> y in HtmlList(c, order, g)
  {
  }

  // ---------------------------------------------------------------------------
  // The websocket checkbox of the filtered listing
  // ---------------------------------------------------------------------------

  /**
   As written, the fourth checkbox is always on for a "commfilt" request:
   the variables parsed from such a line are named after the pattern,
   whose fourth name is "ws", never "websocket".
   */
  lemma WebsocketBoxIgnored<H>(c: Commands<H>, line: Bytes)
    requires "commfilt" in c.m && c.m["commfilt"].params == FilterPattern()
    ensures var r := ParseCommand(c, line);
            r.Parsed? && r.name == "commfilt" ==> FilterAsWritten(r.vars).websocket
  {
    assert "websocket" !in ParamsSlice(c.m["commfilt"].params) by {
      FilterPatternNames();
      NotAFilterName();
    }
    UnboundKey(c, line, "commfilt", "websocket");
  }

  lemma NotAFilterName()
    ensures "websocket" !in ["http", "webrtc", "tru", "ws"]
  {
    var names: seq<Bytes> := ["http", "webrtc", "tru", "ws"];
    assert forall i :: 0 <= i < |names| ==> |names[i]| < 9;
  }

  /** A name the entry's pattern does not declare is never among the variables parsed for it. */
  lemma UnboundKey<H>(c: Commands<H>, line: Bytes, name: Bytes, key: Bytes)
    requires name in c.m && key !in ParamsSlice(c.m[name].params)
    ensures var r := ParseCommand(c, line);
            r.Parsed? && r.name == name ==> key !in r.vars
  {
  }

  /**
   The request the page's script sends when only the websocket box is
   cleared, "commfilt/h/w/t/s": the corrected reading follows all four
   values, the written one ignores the fourth.
   */
  lemma CommfiltFlags<H>(c: Commands<H>, h: Bytes, w: Bytes, t: Bytes, s: Bytes)
    requires "commfilt" in c.m && c.m["commfilt"].params == FilterPattern()
    requires '/' !in h && '/' !in w && '/' !in t && '/' !in s
    ensures var r := ParseCommand(c, "commfilt" + ['/'] + Join([h, w, t, s], ['/']));
            && r.Parsed?
            && FilterOf(r.vars) == Filter(h != "false", w != "false", t != "false", s != "false")
            && FilterAsWritten(r.vars) == Filter(h != "false", w != "false", t != "false", true)
  {
    var line := "commfilt" + ['/'] + Join([h, w, t, s], ['/']);
    CommfiltBinds(c, h, w, t, s);
    WebsocketBoxIgnored(c, line);
    FlagsRead(ParseCommand(c, line).vars, h, w, t, s);
  }

  lemma CommfiltBinds<H>(c: Commands<H>, h: Bytes, w: Bytes, t: Bytes, s: Bytes)
    requires "commfilt" in c.m && c.m["commfilt"].params == FilterPattern()
    requires '/' !in h && '/' !in w && '/' !in t && '/' !in s
    ensures var r := ParseCommand(c, "commfilt" + ['/'] + Join([h, w, t, s], ['/']));
            && r.Parsed? && r.name == "commfilt"
            && "http" in r.vars && r.vars["http"] == h && "webrtc" in r.vars && r.vars["webrtc"] == w
            && "tru" in r.vars && r.vars["tru"] == t && "ws" in r.vars && r.vars["ws"] == s
  {
    assert '/' !in "commfilt";
    assert |"http"| == 4 && |"webrtc"| == 6 && |"tru"| == 3 && |"ws"| == 2;
    CommfiltNames(c);
    ParseFour(c, "commfilt", ("http", "webrtc", "tru", "ws"), h, w, t, s);
  }

  lemma FlagsRead(vars: map<Bytes, Bytes>, h: Bytes, w: Bytes, t: Bytes, s: Bytes)
    requires "http" in vars && vars["http"] == h && "webrtc" in vars && vars["webrtc"] == w
    requires "tru" in vars && vars["tru"] == t && "ws" in vars && vars["ws"] == s
    requires FilterAsWritten(vars).websocket
    ensures FilterOf(vars) == Filter(h != "false", w != "false", t != "false", s != "false")
    ensures FilterAsWritten(vars) == Filter(h != "false", w != "false", t != "false", true)
  {
  }

  lemma CommfiltNames<H>(c: Commands<H>)
    requires "commfilt" in c.m && c.m["commfilt"].params == FilterPattern()
    ensures ParamsSlice(c.m["commfilt"].params) == ["http", "webrtc", "tru", "ws"]
  {
    FilterPatternNames();
  }

  /** Four distinct parameters: "name/v0/v1/v2/v3" binds each to its own value. */
  lemma ParseFour<H>(c: Commands<H>, name: Bytes, p: (Bytes, Bytes, Bytes, Bytes), h: Bytes, w: Bytes, t: Bytes, s: Bytes)
    requires name in c.m && '/' !in name
    requires ParamsSlice(c.m[name].params) == [p.0, p.1, p.2, p.3]
    requires p.0 != [] && p.1 != [] && p.2 != [] && p.3 != []
    requires p.0 != p.1 && p.0 != p.2 && p.0 != p.3 && p.1 != p.2 && p.1 != p.3 && p.2 != p.3
    requires '/' !in h && '/' !in w && '/' !in t && '/' !in s
    ensures var r := ParseCommand(c, name + ['/'] + Join([h, w, t, s], ['/']));
            && r.Parsed? && r.name == name
            && p.0 in r.vars && r.vars[p.0] == h
            && p.1 in r.vars && r.vars[p.1] == w
            && p.2 in r.vars && r.vars[p.2] == t
            && p.3 in r.vars && r.vars[p.3] == s
  {
    var params := [p.0, p.1, p.2, p.3];
    var values := [h, w, t, s];
    DistinctFour(p);
    ParseFourValues(c, name, params, values);
    assert params[0] == p.0 && params[1] == p.1 && params[2] == p.2 && params[3] == p.3;
    assert values[0] == h && values[1] == w && values[2] == t && values[3] == s;
  }

  lemma JoinNonEmptyParts(parts: seq<Bytes>, sep: Bytes)
    requires |parts| >= 2 && sep != []
    ensures Join(parts, sep) != []
  {
  }

  lemma DistinctFour(p: (Bytes, Bytes, Bytes, Bytes))
    requires p.0 != [] && p.1 != [] && p.2 != [] && p.3 != []
    requires p.0 != p.1 && p.0 != p.2 && p.0 != p.3 && p.1 != p.2 && p.1 != p.3 && p.2 != p.3
    ensures var q := [p.0, p.1, p.2, p.3];
            (forall i, j :: 0 <= i < j < |q| ==> q[i] != q[j]) && (forall i :: 0 <= i < |q| ==> q[i] != [])
  {
  }

  lemma ParseFourValues<H>(c: Commands<H>, name: Bytes, params: seq<Bytes>, values: seq<Bytes>)
    requires name in c.m && '/' !in name
    requires ParamsSlice(c.m[name].params) == params && |params| == 4 && |values| == 4
    requires forall i, j :: 0 <= i < j < |params| ==> params[i] != params[j]
    requires forall i :: 0 <= i < |params| ==> params[i] != []
    requires forall i :: 0 <= i < |values| ==> '/' !in values[i]
    ensures var r := ParseCommand(c, name + ['/'] + Join(values, ['/']));
            && r.Parsed? && r.name == name
            && params[0] in r.vars && r.vars[params[0]] == values[0]
            && params[1] in r.vars && r.vars[params[1]] == values[1]
            && params[2] in r.vars && r.vars[params[2]] == values[2]
            && params[3] in r.vars && r.vars[params[3]] == values[3]
  {
    assert Join(values, ['/']) != [] by {
      JoinNonEmptyParts(values, ['/']);
    }
    ParseExact(c, name, values);
    BindDistinct(params, values);
  }

  /**
   With the websocket box cleared, an entry served only over websocket is
   listed as written and hidden by the corrected reading.
   */
  lemma WebsocketOnlyEntry<H>(c: Commands<H>, order: seq<Bytes>, name: Bytes)
    requires IsEnumeration(order, c.m.Keys)
    requires "commfilt" in c.m && c.m["commfilt"].params == FilterPattern()
    requires name in c.m && c.m[name].processIn == WS
    ensures var r := ParseCommand(c, "commfilt/true/true/true/false");
            && r.Parsed?
            && ItemOf(name, c.m[name]) in HtmlList(c, order, FilterAsWritten(r.vars))
            && ItemOf(name, c.m[name]) !in HttpListing(c, order, r.vars)
  {
    var line := "commfilt/true/true/true/false";
    assert line == "commfilt" + ['/'] + Join(["true", "true", "true", "false"], ['/']) by {
      FlagLine();
    }
    CommfiltFlags(c, "true", "true", "true", "false");
    var r := ParseCommand(c, line);
    WebsocketOnlyKept(c, order, name, FilterAsWritten(r.vars), FilterOf(r.vars));
  }

  lemma FlagLine()
    ensures "commfilt/true/true/true/false" == "commfilt" + ['/'] + Join(["true", "true", "true", "false"], ['/'])
  {
    JoinFour("true", "true", "true", "false", ['/']);
  }

  lemma WebsocketOnlyKept<H>(c: Commands<H>, order: seq<Bytes>, name: Bytes, written: Filter, corrected: Filter)
    requires IsEnumeration(order, c.m.Keys)
    requires name in c.m && c.m[name].processIn == WS
    requires written == Filter(true, true, true, true) && corrected == Filter(true, true, true, false)
    ensures ItemOf(name, c.m[name]) in HtmlList(c, order, written)
    ensures ItemOf(name, c.m[name]) !in HtmlList(c, order, corrected)
  {
    assert Keep(written, WS);
    assert !Keep(corrected, WS);
  }
}
