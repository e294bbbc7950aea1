# A verified model of the OEF core

This project models, in Dafny, the parts of the OEF core node whose correctness depends on
interleavings, recursion or in-place updates, and proves what they guarantee. `dafny verify
dfyconfig.toml` checks all of it.

| file | component |
|---|---|
| `SearchClient.dfy`, `MessageIds.dfy` | correlating requests to the search service with its responses |
| `Transport.dfy` | the framing of messages on that connection |
| `Admission.dfy` | admitting agents and routing messages between them |
| `Schema.dfy`, `Query.dfy` | data models, instances and the query language |
| `StreamBuffer.dfy` | `asio::basic_streambuf` |
| `ColumnWrap.dfy`, `ColumnLayout.dfy` | Clara's word wrapping, in one column and in several |
| `CommandLine.dfy` | Clara's token stream and parser |
| `GlobFilter.dfy` | hayai's test filter |
| `ParameterList.dfy` | hayai's splitter of parameter lists |
| `Common.dfy` | options, results and facts about sequences |

Objects that change are classes whose methods are proved against a specification on values.
`SearchClient` and `Admission` have a `Step` function that says what each handler does to the
whole state, and `StreamBuffer` has `Apply` on a queue; the theorems quantify over every list
of steps. A step that is not possible in a state changes nothing, so a list of steps is any
interleaving. The other classes state their new contents outright.

Some properties that the code looks meant to have do not hold, or hold on a condition only.
Each is stated exactly:

- A request to the search service is lost for good, its continuation never invoked, when its
  key is taken at the time it is parked, or when its response is looked up before it is
  parked and erased after (`LostExactly`, `LostToTakenKey`, `LostToEarlyResponse`).
- Two messages of one agent get the same key if and only if their ids agree in the low 31
  bits (`OneAgentCollides`).
- A query is checked against any instance whose model has the same name, so `valid` says
  nothing about an instance of another model of that name (`SameNameOtherModel`); it does
  exactly when no attribute has another type there (`SoundIffTypesAgree`).
- An integer literal of a relation is cut down to 32 bits, also by a query that is valid
  (`WideLiteral`). `LiteralMeaning` says for each operator which literals still decide every
  comparison as written: those that fit, and for the orders also some beyond the ends.
- Equality of instances looks at the left side's values only (`SameIsOneSided`). A match of
  x carries over to y with `x == y` for all queries if and only if y has as many values as x
  (`EqualityDecidesQueries`); for queries without negation it always does.
- `prepare` documents that it throws when there is no room; it has already moved bytes by
  then, and keeps the input if and only if that is periodic (`Prepare`,
  `FailedPrepareLoses`).
- A column with one usable character may make no progress, or show nothing
  (`ProgressUnlessStuck`, `NarrowColumnNeverEnds`, `NarrowColumnLoses`). Iterating ends if
  and only if the first line is empty, or two characters fit behind the indent, or behind the
  first line the text can be broken after every visible character (`EndsExactly`).
  `ContentPreserved` says when nothing visible is lost.
- A parameter list that is one empty item is read back as no items (`RoundTrip`).

## Model

| member | source | states |
|---|---|---|
| SearchClient.OefSearchClient.MsgHandleSave | lib/include/oef_search_client.hpp:105-113 | a key that is taken is refused and its handle stays; otherwise only that key changes |
| SearchClient.OefSearchClient.MsgHandleErase | lib/include/oef_search_client.hpp:114-117 | exactly the one key goes, and the answer says whether it was there |
| SearchClient.OefSearchClient.MsgHandleGet | lib/include/oef_search_client.hpp:118-125 | the saved handle, or one whose continuation belongs to no request |
| SearchClient.OefSearchClient.Send | lib/src/oef_search_client.cpp:60-76 | a request is made as one step, and the id it goes out with is answered under its own table key |
| SearchClient.OefSearchClient.Sent | lib/src/oef_search_client.cpp:77-87 | a completed send parks the handle, a failed one invokes the continuation with the error; nothing else changes |
| SearchClient.OefSearchClient.ProcessMessage | lib/src/oef_search_client.cpp:264-358 | undisturbed, it is get, erase and invoke, one after the other, on the whole state |
| SearchClient.MakeOutcome | lib/src/oef_search_client.cpp:277-358 | every path ends in one outcome, decoded by the operation of the handle |
| SearchClient.CollectLocal | lib/src/oef_search_client.cpp:308-324 | the nested loops collect the keys of all agents of all items, in order |
| SearchClient.AllKeysAppend | lib/src/oef_search_client.cpp:315-321 | the keys of the items come one item after the other |
| SearchClient.CollectWide | lib/src/oef_search_client.cpp:326-349 | the copy made field by field equals the items received |
| SearchClient.PlacesStep | lib/src/oef_search_client.cpp:212-218 | conservation: in one step a request moves between being sent, parked, held and answered, and leaves them all only in the two ways named |
| SearchClient.InvRun | lib/src/oef_search_client.cpp:264-358 | every run keeps the table, the loop and the log consistent, and each request in at most one place |
| SearchClient.AtMostOnce | lib/src/oef_search_client.cpp:264-358 | over every interleaving each continuation is invoked at most once, with a response to its own id decoded by its own operation, or for a failed send |
| SearchClient.NoWayBack | lib/include/oef_search_client.hpp:105-125 | a request that is lost stays lost and one that is answered stays answered; it is newly lost only by a losing step |
| SearchClient.SendsComplete | lib/src/oef_search_client.cpp:77-87 | a completed send with a free key parks its request; a failed one answers it with an error at once and parks nothing |
| SearchClient.RoundTheLoop | lib/include/oef_search_client.hpp:94-103 | from every reachable state in which the loop waits, one response takes it round to waiting again; it answers the request parked under its key exactly once with that response, every other parked request stays, and without one the log is unchanged |
| SearchClient.ServingStep | lib/src/oef_search_client.cpp:264-358 | whatever event comes, work on a response goes on, and the step that is due takes it forward |
| SearchClient.DeliveredIsAnswered | lib/src/oef_search_client.cpp:264-358 | in every run, a response that comes while its request is parked is answered exactly once when the loop takes its three steps, whatever comes between them |
| SearchClient.OnlyFailureStops | lib/include/oef_search_client.hpp:96-99 | the loop stops if and only if a read fails while it waits |
| SearchClient.StoppedByFailure | lib/include/oef_search_client.hpp:96-99 | a run whose loop has stopped holds a failed read |
| SearchClient.LostExactly | lib/src/oef_search_client.cpp:264-272 | in every run a request is gone if and only if one of the run's steps found its key taken or erased it after looking too early |
| SearchClient.LostToTakenKey | lib/include/oef_search_client.hpp:105-113 | a second request with the same message id, both sends completing, is never answered |
| SearchClient.LostToEarlyResponse | lib/src/oef_search_client.cpp:271-272 | get, park, erase: the only request ends up nowhere |
| SearchClient.CalmKeeps | lib/src/oef_search_client.cpp:264-358 | when new keys differ from outstanding ones and no response is ahead of its handle, no step loses a request |
| SearchClient.TableIsUnanswered | lib/src/oef_search_client.cpp:212-218 | in every such run the table holds exactly the requests sent and not taken up, under their own keys |
| SearchClient.RepliesAreCounted | lib/src/agent_session.cpp:102-178 | a search continuation sends one message each time it is invoked, the others at most one, all under the request's id |
| SearchClient.ContinuationIsExpected | lib/src/agent_session.cpp:27-178 | the tag saved with a handle and the continuation fit together: what is sent depends on the request and the response alone, an error, what was found, or nothing |
| SearchClient.OneReplyEach | lib/src/agent_session.cpp:102-178 | over every run an agent gets at most one reply to a request, with the request's own message id, and for a search exactly when the continuation ran; the reply is the one expected for a response to the request's own id, or for its failed send |
| MessageIds.KeyRoundTrip | lib/src/oef_search_client.cpp:268-268 | adding one in 32 bits and subtracting it in 64 gives the key back, also where they wrap |
| MessageIds.HeaderIdIsNarrow | lib/src/oef_search_client.cpp:395-401 | the id on the wire has nothing above its low 32 bits |
| MessageIds.OneAgentCollides | lib/src/oef_search_client.cpp:388-393 | two messages of one agent share a key if and only if their ids agree in the low 31 bits |
| MessageIds.SmallIdsDiffer | lib/src/oef_search_client.cpp:388-393 | distinct message ids of one agent below 2^31 never collide |
| MessageIds.TwoAgentsCollide | lib/src/oef_search_client.cpp:388-393 | messages of two agents share a key if and only if twice the xor of the ids is the xor of the hashes |
| SearchClient.KeysCollide | lib/src/oef_search_client.cpp:388-393 | two requests share a table key if and only if their message ids make up for their agents' hashes |
| Transport.SizeRoundTrip | lib/src/serialization.cpp:66-70 | a size written in network order (Appendix B of RFC 791) is read back, up to its low 32 bits |
| Transport.NetworkOrder | lib/src/serialization.cpp:66-70 | the four bytes are the digits of the size, the most significant first |
| Transport.Send | lib/src/oef_search_client.cpp:188-210 | the four buffers go out as two sizes, header and payload |
| Transport.FrameLayout | lib/src/oef_search_client.cpp:188-210 | the header's size, the payload's size, the header and the payload, in this order and nothing else |
| Transport.HandleMessages | lib/src/oef_search_client.cpp:220-262 | the response loop delivers what repeated reading of the stream yields, and stops at an error |
| Transport.FrameRoundTrip | lib/src/oef_search_client.cpp:188-262 | a message is read back with its boundaries, whatever follows, if and only if its parts together are below 2^32 bytes and its header parses |
| Transport.StreamRoundTrip | lib/src/oef_search_client.cpp:188-262 | messages written back to back are read as the same sequence, empty payloads coming back as absent |
| Transport.EarlyEnd | lib/src/oef_search_client.cpp:220-262 | a stream cut anywhere delivers exactly the messages that arrived whole |
| Admission.AgentDirectory.Add | lib/include/agent_directory.hpp:43-49 | a key that is in is refused; otherwise exactly that key is added |
| Admission.AgentDirectory.Remove | lib/include/agent_directory.hpp:53-56 | exactly that key goes, and the answer says whether it was there |
| Admission.AgentDirectory.Session | lib/include/agent_directory.hpp:57-64 | the session stored under the key, or none |
| Admission.CoreServer.NewSession | lib/src/core_server.cpp:58-85 | the handler of the first message is one step: closed, refused or challenged |
| Admission.CoreServer.AnswerReceived | lib/src/core_server.cpp:94-124 | the handler of the answer is one step; the session is added if and only if the directory takes it at that moment |
| Admission.CoreServer.Start | lib/src/core_server.cpp:103-108 | only an added session starts to read, and it is told that it is connected |
| Admission.CoreServer.Read | lib/src/agent_session.cpp:263-274 | the read handler is one step: a failed read takes the key out and ends the loop, any other is processed |
| Admission.CoreServer.Process | lib/src/agent_session.cpp:229-261 | a message is logged as read and exactly one is sent for it, ids unchanged by the way through unsigned numbers |
| Admission.CoreServer.ProcessMessage | lib/src/agent_session.cpp:199-227 | content to the session found, or a dialogue error to the sender |
| Admission.InvRun | lib/src/core_server.cpp:58-124 | every run keeps directory, phases and log consistent |
| Admission.DirectoryIsLive | lib/include/agent_directory.hpp:43-56 | in every reachable state the directory's entries are one to one the sessions added and not failed, each under its own key, as the log says |
| Admission.ReadErrorRemovesOwn | lib/src/agent_session.cpp:266-268 | a read error always finds its own session under its key, removes that and leaves every other entry |
| Admission.RefusedIsSilent | lib/src/core_server.cpp:109-114 | a refused connection is never admitted, told it is connected, reads or removes anything, in any continuation of any run |
| Admission.OneAdmissionAtATime | lib/src/core_server.cpp:92-113 | between two admissions of one key the first session is removed, and they are different connections |
| Admission.IdDecides | lib/src/core_server.cpp:58-85 | in every reachable state an arriving id is challenged, for that id, if and only if nobody is registered under it, and refused otherwise |
| Admission.AnswerDecides | lib/src/core_server.cpp:94-124 | in every reachable state a readable answer admits the connection under its key if and only if nobody is registered under it then; it goes live and is told so, or is refused and told that |
| Admission.NewAgentGetsIn | lib/src/core_server.cpp:58-124 | from every reachable state, accept, id, answer and start with nothing between them make a new agent live under a free key |
| Admission.AdmittedUnderOwnId | lib/src/core_server.cpp:66-70 | over every run a connection is admitted only under a key it sent as its id |
| Admission.KeyStays | lib/src/core_server.cpp:87-104 | the key of a connection does not change until it is closed or refused |
| Admission.Routed | lib/src/agent_session.cpp:199-227 | over every run each message read gets exactly one outgoing message, content from the sender's registered key to the session registered at that moment or a dialogue error back, and nothing else is sent |
| Admission.EnvelopeIsRead | lib/src/agent_session.cpp:229-272 | in every reachable state a message from a live session is read and one is sent for it, and the session goes on reading |
| Admission.UnsignedRoundTrip | lib/src/agent_session.cpp:205-232 | the ids survive the way from signed to unsigned and back |
| Schema.NewDataModel | lib/include/schema.hpp:470-484 | a data model is refused if and only if a name occurs twice |
| Schema.FindUnique | lib/include/schema.hpp:495-503 | with unique names the lookup finds each attribute |
| Schema.GuardsPass | lib/include/schema.hpp:521-531 | the two size guards never reject a conforming map |
| Schema.CountRequired | lib/include/schema.hpp:524-528 | the first loop counts the distinct required names |
| Schema.Visit | lib/include/schema.hpp:535-547 | the countdown is never at zero when a required attribute comes by, in whatever order |
| Schema.NewInstance | lib/include/schema.hpp:520-587 | the constructor accepts exactly the maps whose keys are in the model, whose types match and which cover every required attribute; its message lists each pair once |
| Schema.InstanceFromMessage | lib/include/schema.hpp:588-613 | the loop computes `Rebuild` of the message |
| Schema.LastSetCounts | lib/include/schema.hpp:591-612 | on any message, with repeated keys too, a key has the value of the last pair that sets it |
| Schema.SetKeys | lib/include/schema.hpp:591-612 | a key has a value if and only if some pair sets it |
| Schema.WireRoundTrip | lib/include/schema.hpp:588-613 | the message of an accepted instance rebuilds the same values, whatever the order of the pairs |
| Schema.Instantiate | lib/include/schema.hpp:505-512 | it throws if and only if some attribute is missing though required or has a value of another type; otherwise one pair per attribute in model order |
| Schema.InstantiableMeansConforming | lib/include/schema.hpp:115-128 | an accepted instance always instantiates, and conversely |
| Schema.SameIsOneSided | lib/include/schema.hpp:615-630 | `==` goes both ways if and only if the two have equally many values |
| Query.TestSoundness | lib/include/schema.hpp:177-460 | a typed reading of a constraint is defined exactly on the type `valid` asks for, and then the code's verdict is that reading |
| Query.TypedIsChecked | lib/src/schema.cpp:92-109 | wherever the typed evaluator is defined, the code's recursion gives its verdict |
| Query.DefinedIfWellTyped | lib/src/schema.cpp:92-109 | the typed evaluator is defined if and only if each constraint suits the value it meets |
| Query.ValidIsSound | lib/src/schema.cpp:57-73 | type soundness: every valid expression on an instance of the same model reads only fields of the value's own type, and its verdict is the typed one |
| Query.SoundIffTypesAgree | lib/include/schema.hpp:710-752 | every valid expression is sound on given values if and only if no attribute of theirs has another type in the model |
| Query.NewQueryModel | lib/include/schema.hpp:893-911 | accepted if and only if there is a constraint and all are valid for the model, if one is given |
| Query.ValidMeaning | lib/src/schema.cpp:57-73 | valid if and only if nothing inside is empty, every junction has at least two parts and every constraint is valid |
| Query.JunctionMeaning | lib/include/schema.hpp:796-861 | a disjunction holds when some part does, a conjunction when all do, for both evaluators |
| Query.SetMeaning | lib/include/schema.hpp:303-351 | a set holds the listed values of the value's type, and NOTIN is the opposite |
| Query.MistypedMeaning | lib/include/schema.hpp:177-460 | on a value of another type a set is empty and every other constant is zero |
| Query.StringLessMeaning | lib/include/schema.hpp:207-210 | strings are ordered by their first difference, the shorter first |
| Query.OtherOrders | lib/include/schema.hpp:47-64 | booleans are ordered false first and locations by latitude; the operators are each other's mirrors |
| Query.BetweenMeaning | lib/include/schema.hpp:395-403 | the bounds of a range of locations may come in either order |
| Query.QueryIsSound | lib/include/schema.hpp:938-951 | a query for the instance's own model gives the typed verdict of the conjunction of its constraints, and the one written if its literals are read right |
| Query.OtherNameNeverMatches | lib/include/schema.hpp:938-943 | a query with a model matches no instance whose model has another name |
| Query.VerdictIsTyped | lib/include/schema.hpp:938-951 | with no model or one of the same name, the verdict is the typed conjunction whenever the constraints suit the values they meet |
| Query.OnlyNameCounts | lib/include/schema.hpp:938-951 | exchanging the instance's model for one of the same name never changes the verdict |
| Query.SameNameOtherModel | lib/include/schema.hpp:939-944 | a valid query of a model of the same name reads a field of another type and matches |
| Query.WideLiteral | lib/include/schema.hpp:177-182 | a valid query for 2^32 matches 0, which is not what is written |
| Query.LiteralMeaning | lib/include/schema.hpp:177-214 | for each of the six operators, the comparison in the code is the one written, for all values, if and only if the literal fits 32 bits or lies beyond the end it is read as on the side where that makes no difference |
| Query.MeansAsWritten | lib/src/schema.cpp:92-109 | an expression with such literals means what is written, over unbounded integers |
| Query.EvaluatorsAgree | lib/src/schema.cpp:75-109 | on an expression about one attribute the evaluator over values and the one over instances agree |
| Query.MoreValuesKeepVerdict | lib/src/schema.cpp:92-109 | without negation, more attributes never turn a match into a mismatch |
| Query.EqualInstancesMatch | lib/include/schema.hpp:615-630 | a negation-free query that matches x matches every y with `x == y` |
| Query.NegationDistinguishes | lib/include/schema.hpp:864-884 | with a negation that fails |
| Query.EqualityDecidesQueries | lib/include/schema.hpp:615-630 | under `x == y`, every valid query that matches x matches y if and only if both have equally many values |
| Query.VerdictSurvivesWire | lib/include/schema.hpp:588-613 | an instance and the one rebuilt from its message get the same verdict from every query |
| StreamBuffer.BasicStreambuf.constructor | 3rd/asio/asio/basic_streambuf.hpp:131-141 | an empty queue with as much room as 128 bytes and the limit allow |
| StreamBuffer.BasicStreambuf.Reserve | 3rd/asio/asio/basic_streambuf.hpp:308-346 | it fails if and only if size + n passes the limit; otherwise the input is unchanged through shift and growth |
| StreamBuffer.BasicStreambuf.Prepare | 3rd/asio/asio/basic_streambuf.hpp:214-219 | the same for the caller; a failing call keeps the input if and only if that repeats with the period of its offset |
| StreamBuffer.BasicStreambuf.Commit | 3rd/asio/asio/basic_streambuf.hpp:233-238 | the first n bytes of the room, or all of it, are appended to the input |
| StreamBuffer.BasicStreambuf.Consume | 3rd/asio/asio/basic_streambuf.hpp:247-254 | the first n bytes of the input, or all of it, are dropped from its front |
| StreamBuffer.BasicStreambuf.Underflow | 3rd/asio/asio/basic_streambuf.hpp:263-274 | the first input byte, which stays, or end of file exactly when there is none |
| StreamBuffer.BasicStreambuf.GetChar | 3rd/asio/asio/basic_streambuf.hpp:263-274 | takes exactly the first input byte |
| StreamBuffer.BasicStreambuf.Overflow | 3rd/asio/asio/basic_streambuf.hpp:283-306 | appends one byte; it fails if and only if the input is at the limit, and then leaves it as it was |
| StreamBuffer.BasicStreambuf.PutChar | 3rd/asio/asio/basic_streambuf.hpp:283-306 | the same through the put area |
| StreamBuffer.BasicStreambuf.ReadSizeHelper | 3rd/asio/asio/basic_streambuf.hpp:353-359 | the advised size always fits the limit, and is no smaller than 512 bytes or the spare capacity unless the limit or the caller's bound is |
| StreamBuffer.BasicStreambuf.ReadSome | 3rd/asio/asio/basic_streambuf.hpp:353-359 | preparing the advised size never fails, and reading into it appends what was read |
| StreamBuffer.Fifo | 3rd/asio/asio/basic_streambuf.hpp:214-306 | over every list of puts and takes, what was taken followed by what is left is what was put in and fitted, and the limit holds |
| StreamBuffer.TakenArePrefix | 3rd/asio/asio/basic_streambuf.hpp:233-254 | starting empty, bytes come out in the order they were put in |
| StreamBuffer.TakesAdd | 3rd/asio/asio/basic_streambuf.hpp:247-254 | taking twice is taking both at once |
| StreamBuffer.TakesFirst | 3rd/asio/asio/basic_streambuf.hpp:247-254 | taking one byte takes the first |
| StreamBuffer.BasicStreambuf.Perform | 3rd/asio/asio/basic_streambuf.hpp:214-306 | a put or take on the array is the put or take of the queue |
| StreamBuffer.PerformAll | 3rd/asio/asio/basic_streambuf.hpp:214-306 | over every list of operations on one buffer the array stays the queue |
| StreamBuffer.UseAll | 3rd/asio/asio/basic_streambuf.hpp:131-306 | a new buffer, used in any way, is first in, first out and within its limit |
| StreamBuffer.ShiftKeeps | 3rd/asio/asio/basic_streambuf.hpp:321-340 | after the shift the old positions show the input if and only if it repeats with the period of its offset |
| StreamBuffer.FailedPrepareLoses | 3rd/asio/asio/basic_streambuf.hpp:321-340 | a buffer with a limit of three, after three puts and one byte consumed: `prepare(2)` fails and the second of the two bytes left has overwritten the first |
| ColumnWrap.MeasureMeaning | 3rd/Clara/include/clara.hpp:107-133 | a line is the rest of the paragraph when that leaves a character free, else it ends at the last usable break that fits, hyphenated if and only if there is none |
| ColumnWrap.BoundaryMeaning | 3rd/Clara/include/clara.hpp:57-105 | where a text may be broken, by the characters on both sides |
| ColumnWrap.ProgressUnlessStuck | 3rd/Clara/include/clara.hpp:165-180 | `++` moves forward unless one character is usable and there is no break behind the next one |
| ColumnWrap.EndsExactly | 3rd/Clara/include/clara.hpp:151-180 | iterating ends if and only if the first line is empty, or two characters fit behind the indent, or behind the first line the text can be broken after every visible character |
| ColumnWrap.NoStepOver | 3rd/Clara/include/clara.hpp:165-180 | `++` never jumps over a stuck position |
| ColumnWrap.TwoAreEnough | 3rd/Clara/include/clara.hpp:151-157 | with two usable characters every `++` makes progress and the end of the text is reached |
| ColumnWrap.NarrowColumnNeverEnds | 3rd/Clara/include/clara.hpp:165-180 | a text and a column on which `++` never reaches the end |
| ColumnWrap.StuckPositionNotReached | 3rd/Clara/include/clara.hpp:165-180 | a text that is shown whole although a position in it would be stuck |
| ColumnWrap.LinesFit | 3rd/Clara/include/clara.hpp:140-163 | every line, with indent and hyphen, is at most `width` long and holds no newline |
| ColumnWrap.LinesInPlace | 3rd/Clara/include/clara.hpp:165-180 | each line is the one measured where it starts, and to the next exactly one newline is skipped, or else all blanks |
| ColumnWrap.LineShows | 3rd/Clara/include/clara.hpp:135-163 | a line is its indent in blanks, the initial one on the first line, its piece of the text and its hyphen |
| ColumnWrap.ParagraphsAreLines | 3rd/Clara/include/clara.hpp:107-180 | when every paragraph fits, the lines are the paragraphs, empty ones and leading blanks included |
| ColumnWrap.ParagraphsMeaning | 3rd/Clara/include/clara.hpp:113-118 | the paragraphs with newlines behind them are the text |
| ColumnWrap.ParagraphsHoldNone | 3rd/Clara/include/clara.hpp:113-118 | and hold no newline |
| ColumnWrap.ContentPreserved | 3rd/Clara/include/clara.hpp:107-180 | the lines without indents and hyphens hold exactly the visible characters of the text in order, if and only if the first line is not empty or there is nothing to show |
| ColumnWrap.NarrowColumnLoses | 3rd/Clara/include/clara.hpp:151-157 | "ab" in a column of one character is shown as nothing |
| ColumnLayout.ColumnIterator.CalcLength | 3rd/Clara/include/clara.hpp:107-133 | the loops compute the line that `Measure` describes |
| ColumnLayout.ColumnIterator.Current | 3rd/Clara/include/clara.hpp:159-163 | the first of the remaining lines, within the width |
| ColumnLayout.ColumnIterator.Next | 3rd/Clara/include/clara.hpp:165-180 | drops exactly that line |
| ColumnLayout.AllLines | 3rd/Clara/include/clara.hpp:219-229 | on every column that meets the condition of `EndsExactly` the loop ends and yields exactly the lines of the text |
| ColumnLayout.RowAligned | 3rd/Clara/include/clara.hpp:294-312 | in every row each cell starts exactly at the sum of the widths before it, and the row is within the total width |
| ColumnLayout.RowBlanks | 3rd/Clara/include/clara.hpp:294-312 | outside the cells a row is blank |
| ColumnLayout.RowEnds | 3rd/Clara/include/clara.hpp:294-312 | nothing is padded behind the last cell |
| ColumnLayout.ColumnsIterator.Row | 3rd/Clara/include/clara.hpp:294-312 | the padding loop builds the aligned row |
| ColumnLayout.ColumnsIterator.Next | 3rd/Clara/include/clara.hpp:313-319 | each column that has a line left moves on by one |
| ColumnLayout.RowsAdvance | 3rd/Clara/include/clara.hpp:313-319 | row r shows line r of every column that has one |
| ColumnLayout.AllRows | 3rd/Clara/include/clara.hpp:341-352 | when every column meets that condition the loop ends after as many rows as the longest column has lines, and yields each aligned row in order |
| CommandLine.TokenStream.LoadBuffer | 3rd/Clara/include/clara.hpp:450-479 | empty arguments are skipped and the next one is cut up; the tokens to come are unchanged |
| CommandLine.TokenStream.Tokenised | 3rd/Clara/include/clara.hpp:457-478 | the branches compute `TokensOf` the argument |
| CommandLine.TokensSpell | 3rd/Clara/include/clara.hpp:457-478 | the tokens put together with the delimiter give the argument back; the option in front of it holds no delimiter, and only what starts with a dash is an option |
| CommandLine.ShortOptionsAreSplit | 3rd/Clara/include/clara.hpp:465-471 | without a delimiter every letter behind a single dash is an option of its own |
| CommandLine.TokensInOrder | 3rd/Clara/include/clara.hpp:450-479 | the tokens come argument by argument |
| CommandLine.TokenStream.MoreMeansTokens | 3rd/Clara/include/clara.hpp:488-502 | the stream is non-empty if and only if there are tokens, and then the buffer holds the next one |
| CommandLine.TokenStream.Next | 3rd/Clara/include/clara.hpp:504-513 | `++` drops exactly the head of the flattened token list |
| CommandLine.TryItem | 3rd/Clara/include/clara.hpp:1004-1038 | what is left is a suffix of the tokens, all of them for no match, fewer for a match |
| CommandLine.ParseArg | 3rd/Clara/include/clara.hpp:927-945 | on the stream as on the list of tokens, and the stream given stays as it was |
| CommandLine.ParseOpt | 3rd/Clara/include/clara.hpp:1004-1038 | the same for options, with and without a value |
| CommandLine.RoundOf | 3rd/Clara/include/clara.hpp:1202-1223 | a round that goes on takes tokens from the front, at least one, for an item that may still match |
| CommandLine.TokensAreConsumed | 3rd/Clara/include/clara.hpp:1202-1225 | the matches use the tokens in order from the front; success without a short circuit leaves none |
| CommandLine.SingleItemsMatchOnce | 3rd/Clara/include/clara.hpp:1205-1217 | no item of cardinality 1 matches twice |
| CommandLine.MatchesAreRight | 3rd/Clara/include/clara.hpp:927-1038 | over every run each match is by the first item that may still match and wants the front token: an option by one of its own names, alone or with its value, or an argument; a short circuit leaves its last token |
| CommandLine.FailureIsExplained | 3rd/Clara/include/clara.hpp:1202-1223 | over every run an error means that no item that may still match wants the token, or that the first one to be asked has wrong names, lacks its value or rejects it |
| CommandLine.WrongNamesFail | 3rd/Clara/include/clara.hpp:1040-1055 | an option without names, or with one that is empty or has no dash, is an error |
| CommandLine.Parser.Parse | 3rd/Clara/include/clara.hpp:1182-1226 | it ends on every list of arguments, with the result and the matches of `RunParser` |
| CommandLine.OneRound | 3rd/Clara/include/clara.hpp:1202-1223 | the inner loop tries exactly the items that may still match, and counts the match |
| GlobFilter.MatcherMeaning | 3rd/hayai/hayai_benchmarker.hpp:416-434 | the backtracking matcher accepts if and only if the text can be cut into pieces that fit the pattern's characters |
| GlobFilter.PlainDenotesItself | 3rd/hayai/hayai_benchmarker.hpp:430-432 | a pattern without special characters denotes itself |
| GlobFilter.QuestionDenotesOne | 3rd/hayai/hayai_benchmarker.hpp:423-425 | a question mark denotes any one character |
| GlobFilter.StarDenotesAll | 3rd/hayai/hayai_benchmarker.hpp:426-429 | a star denotes everything |
| GlobFilter.AlternativesJoin | 3rd/hayai/hayai_benchmarker.hpp:390-410 | the alternatives joined by colons are the filter, and none holds a colon |
| GlobFilter.FilterMatchesString | 3rd/hayai/hayai_benchmarker.hpp:390-410 | true if and only if some alternative denotes the text |
| GlobFilter.Benchmarker.ApplyPatternFilter | 3rd/hayai/hayai_benchmarker.hpp:94-134 | erasing in place leaves exactly the selected tests |
| GlobFilter.KeptExactly | 3rd/hayai/hayai_benchmarker.hpp:114-133 | a test stays, as often as it was there, if and only if a positive and no negative pattern matches; the order is kept |
| GlobFilter.SelectedWithoutDash | 3rd/hayai/hayai_benchmarker.hpp:98-112 | without a dash the filter alone decides, except that an empty name never stays |
| GlobFilter.SelectedWithDash | 3rd/hayai/hayai_benchmarker.hpp:98-112 | with a dash the patterns in front of it decide, or everything is wanted, without what those behind it name |
| GlobFilter.RepeatedFilters | 3rd/hayai/hayai_benchmarker.hpp:94-134 | a second filter intersects, in either order, and repeating one changes nothing |
| ParameterList.TrimMeaning | 3rd/hayai/hayai_test_descriptor.hpp:62-90 | only blanks go, from the two ends, and all of them |
| ParameterList.TrimmedString | 3rd/hayai/hayai_test_descriptor.hpp:62-90 | the two loops trim so |
| ParameterList.ScanItem | 3rd/hayai/hayai_test_descriptor.hpp:107-151 | the scan ends at the first comma or parenthesis outside quotes and brackets |
| ParameterList.ParseCommaSeparated | 3rd/hayai/hayai_test_descriptor.hpp:97-155 | the loop returns the items so ended, each trimmed, and drops one that runs into the end |
| ParameterList.ItemsAreClean | 3rd/hayai/hayai_test_descriptor.hpp:97-155 | every item returned is trimmed and scans back to rest without a stop |
| ParameterList.RoundTrip | 3rd/hayai/hayai_test_descriptor.hpp:97-155 | printing and splitting gives a list back if and only if all its items are clean and it is not the one empty item |
| ParameterList.StructuredIsClean | 3rd/hayai/hayai_test_descriptor.hpp:112-151 | a trimmed text of quotes with escapes, brackets of four kinds and other characters is one item, commas and parentheses inside quotes and brackets included |
| ParameterList.PrintIsCString | 3rd/hayai/hayai_test_descriptor.hpp:97-98 | printed C strings are a C string, so the round trip is one of the code's own inputs |
| ParameterList.ItemsAreCStrings | 3rd/hayai/hayai_test_descriptor.hpp:97-155 | what is returned for a C string are C strings |
| ParameterList.Normalises | 3rd/hayai/hayai_test_descriptor.hpp:97-155 | splitting what was printed from a split changes nothing more, except for the one empty item |

## Left out

- Sockets, threads and the run loop: which handler runs next is the choice of the list of steps.
- Protobuf: messages are datatypes, headers and payloads are bytes; which headers parse is a parameter. The payloads of registrations and searches and `updated_address_`, which adds the node's address to the first update, are not modelled.
- Write failures and exceptions in handlers: routing assumes that writes succeed and that the search requests built in a handler do not throw.
- Admission.CoreServer.Start: starting the read loop and sending the status are one step; the code starts the loop first, so messages may reach an agent before its status does.
- Admission.CoreServer.AnswerReceived: the branch for an answer that does not parse is modelled; the same `catch` would also cover exceptions of the calls behind the parsing, which are not.
- Admission.AgentDirectory.Session: a session goes by the number of its connection; lifetimes of sessions and the `clear` in the destructor of the server are not modelled.
- Admission.CoreServer.Process: requests to the search service leave no trace there; they are `Submit` in `SearchClient`.
- SearchClient.OneReplyEach: the agent's `description_`, set before a description is registered and cleared after, is not modelled; a failed search is reported with the operation the code uses for it, `REGISTER_SERVICE`.
- SearchClient.CalmKeeps: that a response does not come ahead of its handle is a condition on the run; nothing in the code enforces it.
- SearchClient.OefSearchClient.MsgHandleGet: the agent and message id a handle carries for debugging are left out.
- Floating point: `double` values are reals, without rounding and NaN; `Location::distance` is a parameter.
- Instance::hash, the schema directory and the convenience constructors of `Set`, `Range`, `Relation`, `Constraint`, `Or`, `And` and `Not`: constraints are taken as the messages they build, which may also come over the wire. Distance constraints are taken as messages for that reason.
- StreamBuffer.BasicStreambuf.Commit: the cast of n to `int` is not modelled, nor in `consume`; sizes are unbounded apart from the limit.
- ColumnLayout.AllLines: it requires `Terminates`, a condition on the text and the widths; on all other columns the code's loop does not end (`EndsExactly`), and what it prints then is not modelled. The same goes for `AllRows`.
- StreamBuffer.BasicStreambuf.Perform: several bytes that do not fit are not tried, as by a caller that looks at the size first; what a failing call does is in `Prepare`.
- ColumnWrap.Column: the vector of strings holds one string, as the only constructor makes it; the builder methods of `Column` and `Columns` are fields here.
- CommandLine.TryItem: the reasons why an option's names are refused share one error. Bound variables and lambdas are functions from text to an answer, so state that a lambda keeps between calls is not modelled.
- CommandLine.Parser.Parse: the program's name and the help text are left out; the limit of 512 parsers is the source's own assertion. The option prefix is that of systems other than Windows.
- GlobFilter.Benchmarker.ApplyPatternFilter: tests are values, so their deletion is not modelled; statistics, calibration and clocks of the benchmark runner are left out.
- ParameterList.ParseCommaSeparated: the constructor that pairs declarations with values is left out.
