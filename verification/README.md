# command — a Dafny model of the command registry and its parser

This project models the core of the Go package `command` by Kirill Scherba.
The package lets a server register named commands once and serve them over
several transports: HTTP, TRU, WebRTC, Teonet and websocket. The model covers:

- **v2 registry** (`v2/command.go`): a map from command name to
  `CommandData`. It supports add, get, delete, execute and enumerate, and
  `ParseCommand` turns a request line `name/v1/v2/.../payload` into the
  command, a map from parameter name to value, and the payload.
- **Parameter patterns** (`v2/command_data.go`): `ParamsSlice` compiles a
  pattern such as `{id}/{name}` into its ordered list of parameter names.
- **Origin mask** (`v2/processin.go`): `ProcessIn` is one bit per transport.
  It renders as a lower-case, comma-separated list of the transports.
- **Listing commands** (`v2/command_list.go`): `AddCommandsList` registers the
  built-in `commjson`, `commands` and `commfilt` commands. The model also
  covers which entries the JSON and HTML listings select and how they sort
  them.
- **Subscriptions** (`v2/subscription/subscription.go`): connections subscribe
  to commands. Each subscription is indexed twice, by connection and by
  command. Running a command delivers its result to every subscriber.
- **v1 command table** (`command.go`): commands live under lower-cased names
  and keep their registration order for the usage text. `Exec` runs a
  command from a line of words.

Modules, one per source component:

| module | file | models |
|---|---|---|
| `Wrappers` | wrappers.dfy | `Option` and `Result` |
| `Text` | text.dfy | the Go string functions the core relies on: `Split`, `SplitN`, `Join`, `Trim*`, `Fields`, `ToLower`, `<` on strings |
| `Origin` | origin.dfy | `ProcessIn`, its flags and `String` |
| `Pattern` | pattern.dfy | `CommandData.ParamsSlice` |
| `Registry` | registry.dfy | v2 `Commands` and `ParseCommand` |
| `Listing` | listing.dfy | `AddCommandsList` and the selection and order of both listings |
| `Subscription` | subscription.dfy | `subscription.Subscription` |
| `CommandV1` | command_v1.dfy | v1 `Command` |

Modelling choices:

- **Byte data.** Go strings and byte slices are both `Text.Bytes`, a
  sequence of `Text.Char` (a `char`). A conversion between `string` and `[]byte` is the
  identity.
- **Foreign code.** Handlers and connections are type parameters. Running a
  handler is a function parameter (`invoke`, `run`). The result of that call
  is returned unchanged, so the model says exactly what the core does around
  foreign code.
- **Map order.** Go's map iteration order is unspecified. It is an explicit
  parameter `order`, constrained by `Registry.IsEnumeration`: every key
  exactly once. The listings are proved not to depend on it.
- **Shared actions.** In the subscription registry, both indices point at
  one shared action. Here it is one value stored in both indices, and
  `Subscription.Inv` states that the two agree. `Subscription.ReachableFromNew`
  proves that every sequence of calls keeps that invariant.

## Model

| member | source | states |
|---|---|---|
| `Text.JoinSplitN` | v2/command.go:198-203 | splitting at most n ways and joining back with the separator loses nothing |
| `Text.SplitNJoin` | v2/command.go:225-226 | splitting the '/'-join of parts, none but the last holding '/', into at most n ≥ their count gives back exactly those parts |
| `Text.SplitJoin` | v2/command_data.go:49 | splitting the join of separator-free parts gives the parts back |
| `Text.JoinSplit` | v2/command_data.go:49 | the parts of an unbounded split join back to the input |
| `Text.SplitNUnbounded` | v2/command.go:226 | with more room than there are separators, the bounded split cuts at every separator |
| `Text.FieldsJoin` | command.go:129 | words joined by single spaces split back into the same words |
| `Text.LessTotal` | v2/command_list.go:87-89 | the byte-wise order the listings sort by separates any two distinct names |
| `Text.LessTransitive` | v2/command_list.go:87-89 | that order is transitive |
| `Origin.FlagValues` | v2/processin.go:11-18 | the five flags are the bits 1, 2, 4, 8, 16, pairwise disjoint, and `All` is 31 |
| `Origin.String` | v2/processin.go:28-71 | the rendering has no upper-case byte and never ends in ',' or ' ' |
| `Origin.StringListsSetFlags` | v2/processin.go:36-67 | the rendering is the lower-case names of exactly the set flags, in declaration order, joined by ", " |
| `Origin.StringIgnoresUnknownBits` | v2/processin.go:36-58 | bits outside the five flags do not change the rendering |
| `Origin.StringOfNone` | v2/processin.go:60-70 | no flag set renders as the empty string |
| `Origin.StringOfAll` | v2/processin.go:17 | all flags render as "http, tru, webrtc, teonet, websocket" |
| `Pattern.CleanName` | v2/command_data.go:52-54 | a cleaned segment is no longer than the segment and has no white space at either end |
| `Pattern.ParamsSlice` | v2/command_data.go:38-60 | an empty pattern has no names; otherwise one '/'-free, space-trimmed name per '/'-separated segment |
| `Pattern.CleanBraced` | v2/command_data.go:52-54 | cleaning "{name}" gives the name back for a name without outer spaces or braces |
| `Pattern.ParamsSliceOfSegments` | v2/command_data.go:38-60 | for a non-empty pattern made of '/'-free segments, there is one name per segment and name i is segment i with spaces and braces trimmed |
| `Pattern.ParamsSliceOfPattern` | v2/command_data.go:38-60 | compiling the pattern "{n1}/{n2}/..." gives back exactly n1, n2, ... in order |
| `Pattern.ThreeParams` | v2/command_test.go:11 | the pattern "{param1}/{param2}/{param3}" compiles to its three names |
| `Registry.Message` | v2/command.go:108 | the error text is "command '", the name, then "' not found" |
| `Registry.New` | v2/command.go:28-38 | a new registry finds no name |
| `Registry.Add` | v2/command.go:54-64 | the new entry is stored under its name, replacing any earlier one; every other name is unchanged |
| `Registry.Get` | v2/command.go:70-76 | an entry is found exactly when its name is a key, and it is the stored entry |
| `Registry.Del` | v2/command.go:79-83 | the name is gone and every other name is unchanged; deleting an absent name changes nothing |
| `Registry.Exec` | v2/command.go:96-109 | fails with NotFound exactly when the name is absent or its handler is nil; otherwise returns the handler's result |
| `Registry.Iter` | v2/command.go:143-154 | yields every registered (name, entry) pair exactly once |
| `Registry.ForEach` | v2/command.go:128-137 | calls the callback once per pair `Iter` yields, in the same order: result i is the callback on the i-th name of the enumeration and its entry, and every registered name gets exactly one result |
| `Registry.HandleCommands` | v2/command.go:170-178 | reports each entry that has a handler and shares an origin bit with the mask exactly once, with its Params |
| `Registry.SplitName` | v2/command.go:197-203 | the name is the line up to the first '/', and name, '/', tail rebuild the line |
| `Registry.Bind` | v2/command.go:229-243 | binds exactly the non-empty parameter names, each to the value at its last position, or "" when the parts run out |
| `Registry.BindTail` | v2/command.go:223-248 | for k parameter names, there is a payload exactly when the tail holds at least k '/'; the payload is then the rest of the tail after the k-th '/', slashes included |
| `Registry.ParseCommand` | v2/command.go:194-251 | unknown exactly when the name before the first '/' is not registered; an empty tail gives no variables and no payload; every variable is a declared parameter |
| `Registry.ParseCommandParts` | v2/command.go:225-248 | for a known name and a non-empty tail, the parts join back to the tail and the variables and payload come from them |
| `Registry.ParseFormatted` | v2/command.go:186-193 | a line name/v1/.../vk/payload binds every parameter to its value and returns the payload, which may itself hold '/' |
| `Registry.ParseExact` | v2/command.go:245-248 | a line with exactly one value per parameter binds them all and carries no payload |
| `Registry.BindDistinct` | v2/command.go:229-243 | with distinct names, each non-empty name is bound to the value at its own position |
| `Registry.ParseExample` | v2/command.go:186-193 | with pattern "{a}/{b}", "cmd/x/y/extra/more" binds a=x, b=y, and the payload is "extra/more" |
| `Registry.ParseTwo` | v2/command.go:194-251 | two distinct parameters bind to the first two values; the rest is the payload |
| `Registry.AddReplaces` | v2/command.go:59-61 | a second `Add` under the same name replaces the first entry wholesale |
| `Registry.DelThenExec` | v2/command.go:79-109 | a deleted command cannot be executed |
| `Registry.NoCaseFolding` | v2/command.go:74 | names match exactly: an entry added as "Get" is not found as "get" |
| `Listing.SetFieldset` | v2/command_list.go:34-37 | the fieldset flag is the first one given, and true when none is |
| `Listing.AddCommandsList` | v2/command_list.go:31-70 | "commjson" is always (re)registered; "commands" exactly when the mask has HTTP; "commfilt" with pattern "{http}/{webrtc}/{tru}/{ws}" exactly when it also has the fieldset flag; nothing else changes |
| `Listing.FilterPatternNames` | v2/command_list.go:67 | the "commfilt" pattern declares the names http, webrtc, tru, ws |
| `Listing.ItemOf` | v2/command_list.go:80-83 | a listing row carries the command's name, its Params and its rendered origin mask |
| `Listing.Insert` | v2/command_list.go:87-89 | inserting a new name into a sorted listing keeps it sorted and adds exactly that row |
| `Listing.SortItems` | v2/command_list.go:87-89 | the sorted listing is ascending by name and holds exactly the input rows |
| `Listing.SortedUnique` | v2/command_list.go:87-89 | two ascending listings with the same rows are identical, so the sort's result is determined |
| `Listing.Select` | v2/command_list.go:219-231 | the selection holds each walked entry the origin test accepts, once, as its row, and nothing else |
| `Listing.JsonList` | v2/command_list.go:73-96 | the JSON listing is ascending by name and holds one row for each registered command |
| `Listing.FilterAsWritten` | v2/command_list.go:213-216 | the checkboxes as the handler reads them: the fourth comes from a variable named "websocket" and is on when it is absent |
| `Listing.FilterOf` | v2/command_list.go:213-216 | the corrected reading: no variables checks every box, and "ws" = "false" clears the websocket box |
| `Listing.HtmlList` | v2/command_list.go:219-236 | the HTML listing is ascending by name and holds exactly the rows of the entries with a checked origin in their mask |
| `Listing.HttpListing` | v2/command_list.go:99-236 | the HTML handler's rows for a request's variables are the JSON rows whose mask has an origin the corrected reading leaves checked, ascending by name |
| `Listing.UnfilteredListing` | v2/command_list.go:63-64 | the "commands" listing, whose request binds no variables, shows exactly the JSON rows some web origin serves |
| `Listing.JsonListOrderIndependent` | v2/command_list.go:79-89 | the JSON listing does not depend on the map's iteration order |
| `Listing.HtmlListOrderIndependent` | v2/command_list.go:219-236 | the HTML listing does not depend on the map's iteration order |
| `Listing.HtmlWithinJson` | v2/command_list.go:219-231 | every HTML row is also a JSON row |
| `Listing.AllBoxesListWebEntries` | v2/command_list.go:221-224 | with every box checked, the HTML listing is the JSON listing less the entries no web origin serves |
| `Listing.TeonetOnlyNeverListed` | v2/command_list.go:221-224 | an entry whose mask has none of HTTP, WebRTC, TRU, WS is never in an HTML listing |
| `Listing.HtmlListMonotone` | v2/command_list.go:221-224 | checking more boxes never removes a row |
| `Listing.UnboundKey` | v2/command.go:229-243 | a name the entry's pattern does not declare is never among its parsed variables |
| `Listing.WebsocketBoxIgnored` | v2/command_list.go:216 | as written, the websocket box is always on for a parsed "commfilt" request |
| `Listing.CommfiltFlags` | v2/command_list.go:178 | for "commfilt/h/w/t/s" the corrected reading follows all four values, and the written one ignores s |
| `Listing.WebsocketOnlyEntry` | v2/command_list.go:216-224 | for "commfilt/true/true/true/false", a websocket-only entry is listed as written but hidden by the corrected reading |
| `Subscription.New` | v2/subscription/subscription.go:72-80 | a new registry holds no subscription and satisfies the invariant |
| `Subscription.SubscribeCmd` | v2/subscription/subscription.go:83-108 | the new action is filed under (con, command) in both indices, replacing an earlier one; all else is kept; the invariant is preserved |
| `Subscription.DelCon` | v2/subscription/subscription.go:111-129 | the connection has no subscription left in either index; other connections are untouched; the invariant is preserved |
| `Subscription.DelConCmd` | v2/subscription/subscription.go:132-151 | (con, command) is gone from both indices; every other pair is untouched; the invariant is preserved |
| `Subscription.ExistsConCmd` | v2/subscription/subscription.go:229-236 | true exactly when the connection index holds (con, command) |
| `Subscription.DataConCmd` | v2/subscription/subscription.go:252-261 | the pair's request data when subscribed, nothing otherwise |
| `Subscription.UpdateConCmd` | v2/subscription/subscription.go:239-249 | an absent pair changes nothing; a present one gets the new data, seen through both indices; nothing else changes |
| `Subscription.Deliver` | v2/subscription/subscription.go:173-187 | the message carries the command name, the handler's reply, and the handler's error text, or "" when it reports none |
| `Subscription.ExecCmd` | v2/subscription/subscription.go:155-194 | one message to each connection the command index lists for the command, holding that action's result, and nothing else |
| `Subscription.ExecConCmd` | v2/subscription/subscription.go:198-226 | a message exactly when the pair is subscribed, holding its action's result |
| `Subscription.Iter` | v2/subscription/subscription.go:264-275 | under the invariant, yields exactly the commands that have a subscriber |
| `Subscription.SameViewsSame` | v2/subscription/subscription.go:111-151 | two states without empty inner maps that answer every lookup alike are equal |
| `Subscription.SubscribeThenDelConCmd` | v2/subscription/subscription.go:83-151 | subscribing and then unsubscribing a pair leaves what unsubscribing alone leaves |
| `Subscription.Resubscribe` | v2/subscription/subscription.go:98-107 | a later subscription of the same pair replaces the earlier one outright |
| `Subscription.DelConIdempotent` | v2/subscription/subscription.go:111-129 | dropping a connection twice is dropping it once |
| `Subscription.ExecIndicesAgree` | v2/subscription/subscription.go:155-226 | under the invariant `ExecCmd` sends to exactly the connections `ExistsConCmd` reports, and sends each what `ExecConCmd` would |
| `Subscription.DelConSilences` | v2/subscription/subscription.go:111-129 | after `DelCon` nothing is delivered to that connection |
| `Subscription.SubscribeUpdateExec` | v2/subscription/subscription.go:239-249 | a subscription runs with its data, and after an update with the new data |
| `Subscription.Apply` | v2/subscription/subscription.go:83-151 | every mutating call preserves the invariant |
| `Subscription.ReachableFromNew` | v2/subscription/subscription.go:72-151 | every state reached from `New` by any sequence of calls satisfies the invariant |
| `CommandV1.IndexOfName` | command.go:108-112 | the position of the first command of that name, and the list's length exactly when none has it |
| `CommandV1.FindAndReplace` | command.go:107-115 | an existing name is replaced in place and the list keeps its length; a new name is appended; other positions are untouched |
| `CommandV1.Stored` | command.go:97 | the stored command is the given one with its name lower-cased |
| `CommandV1.AddOne` | command.go:97-99 | the lower-cased name maps to the stored command; the list is updated in place or appended; nothing else changes; the invariant is preserved |
| `CommandV1.FirstInvalid` | command.go:88-96 | the first nil or unnamed command, or the list's length |
| `CommandV1.Add` | command.go:84-103 | succeeds exactly when every command is valid; otherwise returns the first invalid one's error; the names registered afterwards are exactly the old ones plus the lower-cased names of the commands before the first invalid one; the invariant is preserved |
| `CommandV1.AddStopsAtFirstInvalid` | command.go:88-96 | the commands from the first invalid one on are ignored: the result is what the valid prefix alone builds, and that prefix adds without error |
| `CommandV1.AddLastWins` | command.go:88-100 | with no error, the final command of the list is stored under its lower-cased name |
| `CommandV1.AddStoresLastOfName` | command.go:88-100 | with no error, every command is stored, name lower-cased, under its lower-cased name unless a later command has the same lower-cased name |
| `CommandV1.AddKeepsOthers` | command.go:97-99 | a name that no accepted command lower-cases to keeps the command it had before |
| `CommandV1.Get` | command.go:118-124 | found exactly when the exact name is a key, returning the stored command |
| `CommandV1.GetIsCaseSensitive` | command.go:118-124 | a name holding an upper-case byte is never found, because stored names are lower-case |
| `CommandV1.New` | command.go:33-51 | a new table holds only the help command, in both index and list, and satisfies the invariant |
| `CommandV1.UsageIsJoin` | command.go:54-81 | the usage text is the commands' blocks, in registration order, joined by newlines |
| `CommandV1.String` | command.go:54-81 | the loops build exactly the usage text |
| `CommandV1.AppendBlock` | command.go:68-77 | one outer pass appends exactly the command's block |
| `CommandV1.AppendHeading` | command.go:69-71 | the first inner loop appends " name" for each parameter |
| `CommandV1.AppendDetails` | command.go:73-77 | the second inner loop appends "\n    name - usage" for each parameter |
| `CommandV1.Exec` | command.go:127-155 | no word gives NameNotSet; an absent lower-cased first word gives NotFound; a nil function gives NotDefined; help gives the usage text; a custom function runs on the remaining words |
| `CommandV1.AddThenExec` | command.go:97-153 | a command added under any spelling runs from a line spelling its name in any case, with the line's other words as arguments |
| `CommandV1.BlankLine` | command.go:129-135 | a line of only white space is rejected with NameNotSet |
| `CommandV1.HelpOfNew` | command.go:42-51 | in a new table, "help" answers with the usage text "  help - show this help message" |

## Left out

- Locking: the `sync.RWMutex` of each registry is not modelled. Every operation is one atomic step.
- Concurrency: `ExecCmd` runs handlers in goroutines and waits for them. This model runs them as independent applications of `run`.
- Rendering: the JSON encoding of the listings and subscription messages, and the HTML template, are not modelled.
- Logging, `Commands.Print`, and `ProcessIn` printing through `fmt` are left out: they are output only.
- Request helpers: `request_default.go` and `request_interface.go` (`Commands.Vars` and the request types) are not part of this model. The listing handlers take the parsed variables as input.
- The example server under `examples/` is not part of this model.
- Unicode: `strings.ToLower`, `strings.TrimSpace` and `strings.Fields` are modelled over ASCII only. Multi-byte characters and Unicode white space are out of scope, and `char` values are not restricted to bytes.
- Registry.Iter: Go's iterator can be stopped early by the consumer. The model yields the whole sequence, and an early stop is a prefix of it.
- Subscription.Iter: returns the set of subscribed commands, not a sequence in Go's map order, because that order is unspecified. The early stop is likewise not modelled.
- Subscription.ExecCmd: returns the set of (connection, message) pairs that would be sent. The order in which goroutines send them is not modelled.
- Subscription.UpdateConCmd: the Go code writes the shared action while holding only the read lock. That data race is not modelled.
- A nil subscription handler, which would make Go panic when the command runs, is not modelled: handlers are opaque values.
- CommandV1.Add: Go lower-cases the name inside the caller's `CommandData` as well. The model stores a lower-cased copy and leaves the caller's value alone.
- CommandV1.Exec: the built-in help closure captures the table. It is modelled as a `Help` function that reads the table it runs in.
- Pattern.ParamsSlice: Go returns nil for an empty pattern and a non-nil slice otherwise. The model does not tell nil from empty; both are `[]`.
- Registry.ParseCommand: Go returns a nil payload when there is none. The model returns `None` for it.
- Error values: errors are datatypes. Their text is modelled only for `Registry.Message`, `CommandV1.AddMessage` and `CommandV1.ExecMessage`.
- The HTML template has an extra `{{end}}` at v2/command_list.go:161. `template.Must` would reject it, but the template is not modelled.

## Findings

| source | as written | input that shows it | evidently intended | confidence | as-written member | corrected member |
|---|---|---|---|---|---|---|
| v2/command_list.go:216 | the websocket checkbox reads `vars["websocket"]`, but "commfilt" is registered with pattern `{http}/{webrtc}/{tru}/{ws}` (line 67), so the parsed variables never hold "websocket" and the box is always on | `commfilt/true/true/true/false`, which the page's script sends at line 178 when only the websocket box is cleared: a websocket-only command is still listed | read the fourth box from `vars["ws"]`, so that clearing it hides websocket-only commands | high; not executed | `Listing.WebsocketBoxIgnored` (with `Listing.FilterAsWritten`) | `Listing.WebsocketOnlyEntry` (with `Listing.FilterOf`, `Listing.HttpListing`, `Listing.CommfiltFlags`) |
