# A verified model of udho's algorithmic core

udho is a C++ HTTP library. Around its sockets it carries four pieces of real algorithm, and this
project models them in Dafny and proves what they promise.

1. **The activity task graph** (`includes/udho/activities.h`). Activities form a finite acyclic
   graph. Each one reports success or failure; its `result` decides between *done* and *cancel*,
   records itself in a shared dataset and signals every successor's `combinator`, which counts its
   dependencies down and then starts or cancels the next activity. `Activities.dfy` gives the
   protocol as steps over an arbitrary graph (start a root, report, deliver one signal),
   `ActivityTheorems.dfy` what holds of every run, `ActivityOutcomes.dfy` what every activity sends in
   terms of outcomes, flags and callbacks alone, `ActivityObjects.dfy` the objects with their
   fields updated in place and the synchronous cascade of signals, and `CombinatorRace.dfy` one
   combinator with `propagate` taken apart into separately interleaved steps.
2. **The template compiler and renderer** (`includes/udho/parser.h`, `includes/udho/scope.h`).
   `Tokenizer.dfy` and `Expressions.dfy` are the tokenizer, the shunting-yard translation and the
   stack evaluator; `ExpressionTheorems.dfy` proves them a meaning-preserving compiler for a grammar
   of four levels of operators, and `ExpressionLaws.dfy` works out short texts as integer arithmetic.
   `Scope.dfy` proves the flat, depth-tagged alias table a stack of lexical frames, and
   `Renderer.dfy` proves the renderer that mutates that table equal to one that passes a lexical
   environment around. `Placement.dfy` says where each piece of a template ends up in the output.
3. **The expiring watch queue** (`includes/udho/watcher.h`). `WatchQueue.dfy` has the list, the
   multimap and the timer, `Watcher.dfy` the object, `WatcherRuns.dfy` every run of it on one io
   thread with release callbacks that call back into the watcher.
4. **Forms and addresses** (`includes/udho/forms.h`, `includes/udho/url.h`, `includes/udho/util.h`).
   `Search.dfy` and `Multipart.dfy` are the index-based multipart scanner, `MultipartTheorems.dfy`
   its round trip; `UrlEncoded.dfy`, `Url.dfy`, `UrlTheorems.dfy` and `PercentEncoding.dfy` cover
   query strings, addresses and escapes; `Validation.dfy` covers required and optional fields,
   chained constraints and the accumulator.

`Options.dfy`, `Maps.dfy`, `Sets.dfy` and `Numerals.dfy` hold what several of them share.
`dafny verify dfyconfig.toml` checks the whole project.

## How the source is rendered

* **Objects.** A class of the source whose methods update its fields is a class here; its methods
  are proved against functions on values, and the properties are proved about those functions and
  about runs of them. Loops of the source are loops here, with their invariants.
* **Graphs.** `Graph.rank` witnesses that a task graph has no cycle, which the source enforces by
  building subtasks in order. An activity has one slot in the dataset (distinct result types), each
  declared dependency is attached exactly once, as `udho::after(...)` does, and what an activity
  does may depend on the records of its ancestors only, which is what its accessor is for.
  Preparators are part of what the activity does.
* **Undefined behaviour and exceptions are results.** An expression ends in a value, a pop of an empty
  stack, a division by zero, a result left unset, `std::out_of_range` or another exception, each told
  apart, and a bare name is looked up only where its value is used; running past the end of a
  request body is `Undefined`, a part without `Content-Disposition` is `NoDisposition`, an
  unreadable port is `None`, and a range that begins behind its end, as the value of a query segment
  without `=`, is `Backwards`.
* **Words.** `std::size_t` wraps where it can: a combinator counter below zero, a scope level below
  zero, a negative port text.
* **Time.** The clock reads within one member function of the watcher are one instant, and the clock
  of a run never goes back. A wait is armed, queued or aborted, as in a deadline timer whose handler
  may already be queued when it is re-armed.
* **Data.** The prepared data object is a set of functions from keys, of which the look-up of a value
  may throw; what a failed conversion of a number such as `1.5` to `int` leaves behind is a parameter,
  as it is Boost's affair. A form, to a field, is what the field asks it for.

## Where the code and its documentation disagree

* The documentation of `required` says that after a failure the final callback is called
  immediately. The code calls it when every direct dependency has signalled.
  `FinishNotImmediate` exhibits a run in which a required activity has failed and the callback has
  not been called; `FinishAtMostOnce` and `FinishIff` say exactly when it is.
* With `propagate` interrupted between its decrement and its second read of the counter, the next
  activity may be started more than once (`FiresTwice`); `WhoFires` says exactly how often.
* `notify_all` returns the size of the index after emptying it, which is always 0
  (`TakeEverything`).
* The name of a form part is searched for as the bare text `name=`, so a file name that stands first
  is taken for the name and an unquoted name is read with its key (`OtherLayouts`); `ReadName` says
  what is read in every case, `NamesRecovered` exactly when all names are recovered.
* A `://` in a parameter ends the protocol of an address built on a base without one
  (`LinkAsParameter`); `QueryBuild` gives the exact condition.
* The comment above the skip directive names `udho:template`; the code's prefix is `udho:view`.

## Model

| member | source | states |
|---|---|---|
| ActivityTheorems.InitInv | includes/udho/activities.h:773-775 | a fresh graph satisfies the protocol invariant: counters, flags, history and records agree with the meaning of the graph |
| ActivityTheorems.StepInv | includes/udho/activities.h:717-807 | every start, report and delivery keeps the protocol invariant |
| ActivityTheorems.RunInv | includes/udho/activities.h:717-807 | the invariant holds in every state of every run |
| ActivityTheorems.DataVisibility | includes/udho/activities.h:727-747 | when an activity is invoked, every transitive ancestor was invoked, completed without cancelling and is recorded |
| ActivityTheorems.SeenIsMeaning | includes/udho/activities.h:131-160 | what an invoked activity reads does not depend on the schedule |
| ActivityTheorems.FinishSees | includes/udho/activities.h:1106-1117 | what the final callback reads of its ancestors does not depend on the schedule |
| ActivityTheorems.TerminalSettles | includes/udho/activities.h:717-807 | in a maximal run each subtask has exactly the history its meaning prescribes |
| ActivityTheorems.ScheduleIndependence | includes/udho/activities.h:717-807 | every maximal run, in any order of reports and deliveries, ends in one state that is a function of graph, outcomes, flags and callbacks |
| ActivityTheorems.StepDecreases | includes/udho/activities.h:717-807 | every step lowers the measure of undelivered edges, uninvoked and uncompleted activities |
| ActivityTheorems.Termination | includes/udho/activities.h:717-807 | every run is finite, with a bound read off the graph, and extends to the one final state |
| ActivityTheorems.FinishAtMostOnce | includes/udho/activities.h:792-807 | in every state the final callback was called at most once, and exactly when all direct dependencies have signalled |
| ActivityTheorems.FinishIff | includes/udho/activities.h:1106-1120 | a maximal run has called the final callback iff no direct dependency stays silent |
| ActivityTheorems.FinishExactlyOnce | includes/udho/activities.h:1106-1120 | if every activity reports and no abort callback answers false, the final callback is called exactly once |
| ActivityTheorems.FinishNotImmediate | includes/udho/activities.h:883-889 | a run in which a required activity has failed and signalled and the final callback still waits |
| ActivityTheorems.InvokedIff | includes/udho/activities.h:792-807 | an activity is finally invoked iff every transitive ancestor sends done |
| ActivityTheorems.RequiredFailureCuts | includes/udho/activities.h:727-747 | a required activity that fails keeps every activity behind it from being invoked, in every state of every run |
| ActivityTheorems.RecordsFinal | includes/udho/activities.h:739-740 | a record never changes, and a skipped activity never has one |
| ActivityOutcomes.DoneIff | includes/udho/activities.h:704-747 | in every state of every run a recorded activity has recorded what it reported, and has sent done iff it succeeded and `cancel_if` does not answer true, or it failed and is optional; the others are marked as cancelled |
| ActivityOutcomes.CancelIff | includes/udho/activities.h:717-747 | which abort callback is asked with which data, and that a cancellation is passed on unless it answers false, for reported and for skipped activities |
| ActivityOutcomes.InvokedOnOutcomes | includes/udho/activities.h:727-807 | an activity is finally invoked iff every ancestor, on its own ancestors' records, succeeds without `cancel_if` answering true or fails while optional |
| ActivityOutcomes.AncestorsAreDependencies | includes/udho/activities.h:847-864 | ancestors are exactly what an activity depends on, directly or through others |
| ActivityObjects.Result.Success | includes/udho/activities.h:704-747 | the fields and the signal after a successful report: done iff no `cancel_if` answers true |
| ActivityObjects.Result.Failure | includes/udho/activities.h:712-747 | the fields and the signal after a failed report: done iff the activity is optional |
| ActivityObjects.Result.Completed | includes/udho/activities.h:727-747 | done iff a success without `cancel_if` answering true or an optional failure; the record is taken before the abort callbacks are asked |
| ActivityObjects.Result.CancelResult | includes/udho/activities.h:717-726 | the abort callbacks decide whether a cancellation is passed on |
| ActivityObjects.CombinatorCell.Signalled | includes/udho/activities.h:781-807 | one arrival counts down and answers wait, invoke or skip |
| ActivityObjects.FlightUpdate | includes/udho/activities.h:667-676 | a change of one subtask moves only the signals into it and out of it |
| ActivityObjects.TaskGraph.constructor | includes/udho/activities.h:1300-1315 | freshly built and attached objects are in the initial state of the protocol |
| ActivityObjects.TaskGraph.Start | includes/udho/activities.h:989-995 | starting a root is the protocol's start step, followed by the report and its cascade if the activity reports at once |
| ActivityObjects.TaskGraph.Perform | includes/udho/activities.h:794-804 | an activity that reports before its operator() returns runs its whole cascade inside the call, and that too is a run of the protocol |
| ActivityObjects.TaskGraph.Combine | includes/udho/activities.h:792-807 | one call of a combinator does to the objects what one delivery does to the subtask |
| ActivityObjects.TaskGraph.Arrival | includes/udho/activities.h:781-807 | one call of a combinator is the protocol's deliver step |
| ActivityObjects.TaskGraph.Deliver | includes/udho/activities.h:666-676 | one slot and everything it sets off is a run of the protocol that serves exactly that signal |
| ActivityObjects.TaskGraph.Emit | includes/udho/activities.h:725-746 | calling all slots is a run of the protocol that serves exactly the signals of that subtask |
| ActivityObjects.TaskGraph.Outcome | includes/udho/activities.h:727-740 | a report up to its signal is the protocol's complete step |
| ActivityObjects.TaskGraph.Report | includes/udho/activities.h:704-747 | a report with its whole synchronous cascade is a run of the protocol that leaves no new signal undelivered |
| ActivityObjects.QuiescentIsFinal | includes/udho/activities.h:704-807 | when nothing is left to start or report, the objects are in the one final state |
| CombinatorRace.CancelVisibility | includes/udho/activities.h:781-807 | at fine grain, whatever fires has waited for every arrival and sees every cancellation |
| CombinatorRace.FiresAtLeastOnce | includes/udho/activities.h:792-807 | at fine grain, at least one arrival fires |
| CombinatorRace.WhoFires | includes/udho/activities.h:792-795 | every maximal run has a last decrement, and exactly its arrival and those then between decrement and second read fire; one fires iff there are none of those |
| CombinatorRace.FiresTwice | includes/udho/activities.h:793-795 | two dependencies can start the next activity twice |
| CombinatorRace.UninterruptedArrival | includes/udho/activities.h:781-807 | an arrival that is not interrupted does what the one-step combinator does |
| Expressions.RpnLoop | includes/udho/parser.h:225-278 | the loops over explicit stacks compute the translation |
| Expressions.EvaluateLoop | includes/udho/parser.h:296-359 | the loop over a value stack computes the evaluation |
| ExpressionTheorems.RpnIsPostfix | includes/udho/parser.h:225-278 | the translation of every expression of the grammar is its postfix form |
| ExpressionTheorems.EvalPostfix | includes/udho/parser.h:296-359 | in any context, evaluating a postfix form pushes exactly the meaning of the tree, or fails as the tree does |
| ExpressionTheorems.CompilerCorrect | includes/udho/parser.h:225-359 | evaluating the tokens of an expression gives its meaning, failures included; no expression pops an empty stack or leaves a result unset |
| ExpressionTheorems.QuotientTruncates | includes/udho/parser.h:111-124 | division rounds toward zero |
| ExpressionTheorems.RpnConserves | includes/udho/parser.h:234-277 | for every token list, balanced or not, operands keep their order and every operator appears as often as in the input |
| ExpressionTheorems.ApplyIsCombined | includes/udho/parser.h:109-144 | the operators are integer arithmetic and comparison, division rounds toward zero, and a junction uses its right operand only where it matters |
| ExpressionLaws.SumsAndProducts | includes/udho/parser.h:161-168 | texts like `a+b*c`, `a-b-c` and `a-b/c` evaluate to that arithmetic of the three numbers, grouped as usual |
| ExpressionLaws.Relations | includes/udho/parser.h:161-168 | relations bind looser than sums |
| ExpressionLaws.Junctions | includes/udho/parser.h:161-168 | junctions bind looser than relations and all of them group to the left |
| Numerals.IntRoundTrip | includes/udho/parser.h:334-352 | an intermediate result pushed as text is fetched as the same integer |
| Numerals.DecimalText | includes/udho/parser.h:334-352 | the decimal text of an integer, digit by digit |
| Numerals.DecimalForms | includes/udho/parser.h:66-72 | a text is a number in decimal notation iff it is a sign, digits with at most one point and an exponent, the optional parts left out or not |
| Tokenizer.TokenizeLoop | includes/udho/parser.h:184-213 | the loop with one word of lookahead recombines the two-character operators |
| Tokenizer.WordsOfPrint | includes/udho/parser.h:183-184 | printed tokens are cut into the same words whatever blanks stand between them |
| Tokenizer.TokenizerRoundTrip | includes/udho/parser.h:181-214 | a printed token list is read back as itself iff no two neighbours merge |
| Tokenizer.EvaluateText | includes/udho/parser.h:181-359 | from characters to value: every expression that can be typed evaluates to its meaning |
| Scope.LookupTable.Add | includes/udho/scope.h:114-127 | a new alias is resolved and stored at the current depth; bound or invalid keys change nothing |
| Scope.LookupTable.Clear | includes/udho/scope.h:128-131 | exactly the aliases of one depth go, and their number is returned |
| Scope.LookupTable.Down | includes/udho/scope.h:152-154 | the level rises, nothing else changes |
| Scope.LookupTable.Up | includes/udho/scope.h:155-158 | the aliases of the level go and the level falls, wrapping at 0 |
| Scope.LookupLaw | includes/udho/scope.h:95-113 | a name followed by nothing or by `:` or `.` and more resolves to its alias with the rest unchanged, or to itself |
| Scope.AddLaw | includes/udho/scope.h:114-127 | a key with `:` or `.` or a bound one changes nothing; any other is bound at the current level to what its reference resolves to |
| Scope.BindLaw | includes/udho/scope.h:114-127 | the same of an environment without depths |
| Scope.FrameLaw | includes/udho/scope.h:95-113 | in a stack of frames the innermost frame that binds the name decides |
| Scope.FrameLawUnbound | includes/udho/scope.h:95-113 | a name bound in no frame stays as it is |
| Scope.FrameAddLaw | includes/udho/scope.h:114-127 | a name bound in no frame is bound in the innermost one, and no other binding changes |
| Scope.TableRefinesFrames | includes/udho/scope.h:90-161 | every operation on the flat table is the operation on a stack of frames without shadowing |
| Scope.RunRefinesFrames | includes/udho/scope.h:90-161 | over every run that leaves no scope at level 0, the table is the frame stack and no depth exceeds the level |
| Scope.ScopeRestores | includes/udho/scope.h:128-158 | any balanced sequence between down and up leaves the table exactly as before |
| Renderer.XmlParser.Parse | includes/udho/parser.h:385-414 | rendering a node with the shared table gives the output and aliases of the environment-passing renderer; block and for leave the table as it was |
| Renderer.XmlParser.InScope | includes/udho/parser.h:471-475 | a block renders its children and restores the table |
| Renderer.XmlParser.Loop | includes/udho/parser.h:525-544 | a loop renders one pass per key, each in its own scope, and restores the table |
| Renderer.XmlParser.Travarse | includes/udho/parser.h:423-431 | children are rendered in order, each seeing the aliases of those before it |
| Renderer.ForIsBlocks | includes/udho/parser.h:525-544 | a loop is its passes written out as blocks that begin with the loop variable |
| Renderer.LeaveScope | includes/udho/scope.h:152-158 | whatever was added in a scope is gone when it is left |
| Placement.PlacementLaw | includes/udho/parser.h:385-610 | rendering succeeds iff every expression reached has a value; then the output is, in document order, what is shown along exactly the ways through the template on which every `if` has a test that is not 0, once per key of every loop: texts, the data's value under the resolved key for `text`, the decimal value for `eval`, the fragment for `html`, and plain elements with name and attributes |
| Placement.DirectiveLaw | includes/udho/parser.h:385-394 | which directive an element's name stands for |
| Placement.AttributeLaw | includes/udho/parser.h:497-502 | the first of several attributes of one name counts, a missing one is empty |
| Placement.CalculateLaw | includes/udho/parser.h:571 | the text of a test or of an evaluation has the meaning of the expression it prints, names standing for the data under their resolved keys |
| WatchQueue.InsertCoherent | includes/udho/watcher.h:97-116 | insertion keeps list and index coherent |
| WatchQueue.DropCoherent | includes/udho/watcher.h:132-142 | removing the front watch keeps list and index coherent |
| WatchQueue.TakeKeyCoherent | includes/udho/watcher.h:158-170 | a notification keeps list and index coherent and splits the list into taken and left |
| Watcher.Watcher.Insert | includes/udho/watcher.h:97-116 | the new queue, with the timer armed when the list was empty, or a refusal that changes nothing |
| Watcher.Watcher.EqualRange | includes/udho/watcher.h:134 | the equal range of a key in the index |
| Watcher.Watcher.ExpiredHead | includes/udho/watcher.h:117-143 | the front watch leaves list and index if it is due, otherwise the timer is armed for it |
| Watcher.Watcher.ExpiredTail | includes/udho/watcher.h:147-155 | after the callback the timer is armed for the next watch |
| Watcher.Watcher.TakeByKey | includes/udho/watcher.h:158-175 | exactly the watches of the key are taken, and their number is returned |
| Watcher.Watcher.TakeEverything | includes/udho/watcher.h:176-192 | all watches are taken in index order, and 0 is returned |
| WatcherRuns.StepInv | includes/udho/watcher.h:97-192 | every tick, insertion, timer event, notification and return of a callback keeps the queue invariant |
| WatcherRuns.RunInv | includes/udho/watcher.h:97-192 | the invariant holds in every state of every run, with re-entrant callbacks |
| WatcherRuns.QueueIsAwaited | includes/udho/watcher.h:107-155 | in every reachable state a non-empty queue has an un-aborted wait that is due no later than its front watch, unless the callback of `expired` is running |
| WatcherRuns.UnawaitedInCallback | includes/udho/watcher.h:143-155 | the exception is real: a run into the callback with a queued watch and no wait |
| WatcherRuns.IndexIsList | includes/udho/watcher.h:112-114 | index entries and list nodes are in bijection with equal keys, and the list is sorted by expiry |
| WatcherRuns.ReleasesConserve | includes/udho/watcher.h:97-175 | accepted watches are exactly those queued and those released, each released at most once and never while queued |
| WatcherRuns.TimerReleasesInOrder | includes/udho/watcher.h:123-146 | timer releases happen at or after expiry and in the order of expiry |
| WatcherRuns.NothingStranded | includes/udho/watcher.h:117-156 | between handlers, if no timer event is due, every queued watch still has time |
| WatcherRuns.DueIsReleased | includes/udho/watcher.h:117-146 | once the front watch is due, the timer can release it within two steps |
| WatcherRuns.NotifyTakesKey | includes/udho/watcher.h:158-175 | in every reachable state a notification takes exactly the watches of its key, oldest first |
| WatcherRuns.SubmitStep | includes/udho/watcher.h:97-116 | in every reachable state a watch is accepted iff it was neither released nor given an expiry; then it is the last of queue and history, due one duration from now, indexed under its key and awaited if it is the first; otherwise nothing changes |
| WatcherRuns.HandleStep | includes/udho/watcher.h:117-143 | in every reachable state the handler does nothing if its wait was aborted or nothing is queued, arms one wait if the front watch is not due, and otherwise releases it and no other |
| WatcherRuns.FinishStep | includes/udho/watcher.h:147-155 | after the callback one wait is armed for the watch now in front, if any |
| WatcherRuns.NotifyReleases | includes/udho/watcher.h:158-175 | `notify` run to its end releases exactly the queued watches of the key, oldest first, and leaves the others queued |
| WatcherRuns.NotifyAllTakes | includes/udho/watcher.h:176-187 | `notify_all` takes all watches by ascending key, those of one key oldest first |
| Search.SearchLoop | includes/udho/util.h:181-197 | the two nested loops find the first occurrence, or the end |
| Search.FindIs | includes/udho/util.h:181-197 | a position is the one found iff the pattern stands there and nowhere before |
| Multipart.HeaderLoop | includes/udho/forms.h:382-403 | the loop over header lines reads all headers, the first of equal keys winning, up to the blank line |
| Multipart.PartLoop | includes/udho/forms.h:381-408 | one part is read as its headers and its body, or runs out of the body |
| Multipart.ParseLoop | includes/udho/forms.h:365-409 | the loop over delimiters reads and inserts all parts, with every way of failing |
| MultipartTheorems.ReadName | includes/udho/forms.h:291-304 | what is read as the name in a disposition with a quoted name, in every case: the name up to its first `"` or `;`, or something that does not depend on the name |
| MultipartTheorems.NamesRecovered | includes/udho/forms.h:291-304 | all names are recovered behind a text iff no earlier `name=` in it is ended by a quote or a semicolon |
| MultipartTheorems.FilenameFirst | includes/udho/forms.h:291-304 | a file name that stands first is taken for the name |
| MultipartTheorems.UnquotedName | includes/udho/forms.h:291-304 | a name without quotes is read with its key |
| MultipartTheorems.OtherLayouts | includes/udho/forms.h:291-304 | two inputs whose names are not recovered, with what is read instead |
| MultipartTheorems.FirstHeaderWins | includes/udho/forms.h:396 | of headers with equal keys the first wins |
| MultipartTheorems.ReadPadded | includes/udho/forms.h:390-397 | white space of any length behind the colon is not part of a header's value |
| MultipartTheorems.ReadFields | includes/udho/forms.h:388-403 | printed header lines are read back as the same headers, in order |
| MultipartTheorems.ReadPart | includes/udho/forms.h:381-408 | a printed part is read back as its headers and its body, which may contain line breaks |
| MultipartTheorems.MultipartRoundTrip | includes/udho/forms.h:365-409 | for every form whose delimiter occurs only at delimiter lines, whatever its headers, parsing its text scans exactly its parts: every header and every body |
| MultipartTheorems.NamedRoundTrip | includes/udho/forms.h:365-409 | where the names are quoted and recoverable, parsing recovers every name too, the first part winning among equal names |
| MultipartTheorems.LineWithoutColon | includes/udho/forms.h:390-397 | a line without a colon is no header |
| MultipartTheorems.NoDelimiter | includes/udho/forms.h:365-377 | a body without a delimiter is undefined behaviour |
| MultipartTheorems.ParsedIff | includes/udho/forms.h:365-409 | a printed form is parsed iff every part has a Content-Disposition, and is refused for the missing header otherwise |
| PercentEncoding.EncodeLoop | includes/udho/util.h:269-308 | the loop computes the encoding |
| PercentEncoding.DecodeLoop | includes/udho/util.h:309-344 | the loop with its look-ahead computes the decoding |
| PercentEncoding.HexRoundTrip | includes/udho/util.h:245-268 | every byte, also above 127, is read back from its two digits |
| PercentEncoding.EncodeByte | includes/udho/util.h:269-308 | what each byte is written as: `+`, itself, or `%` and two capital digits |
| PercentEncoding.DecodeEscape | includes/udho/util.h:309-344 | what an escape of any two digits, capital or small, is read as |
| PercentEncoding.EncodingRoundTrip | includes/udho/util.h:269-344 | decoding takes back the encoding of every byte string |
| PercentEncoding.EncodeAfterDecode | includes/udho/util.h:269-344 | encoding takes back the decoding of a text iff the text is one the encoder can write |
| PercentEncoding.DecodeUnchanged | includes/udho/util.h:321-338 | a text, malformed escapes included, passes through unchanged iff it has neither `+` nor a well-formed escape |
| PercentEncoding.EncodedSafe | includes/udho/util.h:278-303 | encoded text contains none of the separators of addresses and queries |
| UrlEncoded.ParseLoop | includes/udho/forms.h:188-207 | the loop over segments collects all fields |
| UrlEncoded.QueryRoundTrip | includes/udho/forms.h:188-207 | joined parameters are parsed back as the parameters |
| UrlEncoded.EveryQuery | includes/udho/forms.h:188-207 | every text is a list of segments joined by `&`, and parsing inserts exactly their keys and values in order; without `=` the value begins behind its end |
| UrlEncoded.FirstWins | includes/udho/forms.h:201 | the fields have exactly the keys of the parameters, each with the value of its first occurrence |
| Url.Location.Load | includes/udho/url.h:139-174 | the fields of an address after parsing a text, also when the port cannot be read |
| UrlTheorems.PortRoundTrip | includes/udho/url.h:165 | a printed port is read back |
| UrlTheorems.PortText | includes/udho/url.h:165 | what any port text is read as: white space, sign, digits and a rest that is ignored; a minus wraps around, and no digits or too large a number is no port |
| UrlTheorems.DefaultPort | includes/udho/url.h:139-168 | an address without a port has 443 with the protocol `https` and 80 otherwise, and its other parts as printed |
| UrlTheorems.GivenPort | includes/udho/url.h:139-168 | an address with a port text is read iff the text is a port, with its parts as printed |
| UrlTheorems.BareHost | includes/udho/url.h:139-168 | an address that ends with its host has path and target `/` and the default port |
| UrlTheorems.UrlStability | includes/udho/url.h:139-177 | whatever the text, if it can be parsed, printing the address and parsing it again changes none of its six components |
| UrlTheorems.QueryBuild | includes/udho/url.h:114-124 | the query of a built address parses to the base's pairs followed by the parameters, and protocol, host, port and path are those of the base iff the base has a protocol or no parameter contains `://` |
| UrlTheorems.AddressBuild | includes/udho/url.h:114-124 | the same for the parsed address, whenever the base can be read |
| UrlTheorems.LinkAsParameter | includes/udho/url.h:139-172 | an input for which the condition fails: the protocol swallows path and query |
| UrlTheorems.EncodedQuery | includes/udho/forms.h:188-207 | keys and values of any bytes, percent-encoded and joined, parse to exactly their encodings, each key with its first value, and decode to themselves |
| UrlTheorems.EncodedBuild | includes/udho/url.h:114-124 | built with percent-encoded parameters, every address keeps what its base has |
| Validation.Field.Fetch | includes/udho/forms.h:889-906 | fetching once: absent, malformed, default and value |
| Validation.Field.Validate | includes/udho/forms.h:859-870 | one constraint on a fetched field, and its message when it rejects |
| Validation.Field.ValidateChain | includes/udho/forms.h:749-753 | the chain of constraints, stopping at the first failure |
| Validation.ChainDecides | includes/udho/forms.h:749-753 | validation succeeds iff the value is present, can be parsed and passes all constraints; validity, message of the first failure and value in every case, for required and optional fields |
| Validation.RevalidationChangesNothing | includes/udho/forms.h:890-911 | validating again, even against another form, changes nothing and answers the same |
| Validation.Accumulated.Add | includes/udho/forms.h:1052-1065 | one field added to the accumulator |
| Validation.Accumulated.AddError | includes/udho/forms.h:1069-1071 | an error of its own does not make the accumulator invalid |
| Validation.AccumulatorSums | includes/udho/forms.h:1046-1086 | an accumulator is valid iff every added field is, its errors are theirs in order, and of equal names it keeps the first |

## Left out

- Sockets, listener, connection, HTTP and HTTPS clients, server, attachments, logging and error pages: input and output over Boost.
- Router dispatch, sessions and cache, `folding.h`, `configuration.h`, `visitor.h` and the dotted-path lookup of `access.h`: regular expressions from outside, plain map facts or template metaprogramming.
- ActivityTheorems.ScheduleIndependence: activities that read records of activities that are not their ancestors are not covered, because their outcome does depend on the schedule; neither are activities that report twice or subtasks attached more than once.
- ActivityTheorems.FinishAtMostOnce: `propagate` is one step here; CombinatorRace says what happens when it is not.
- CombinatorRace models one combinator; the whole graph is not run at that grain.
- ExpressionTheorems.CompilerCorrect: the overflow of C++ `int` is not modelled, and a number of any size reads as a number, where the source refuses those beyond `double`.
- Commas, functions of several arguments and `max`, `min`, `avg` are translated but have no meaning here, as the source never evaluates them; `!=` cannot be typed at character level, because `!` is no separator and is never recombined.
- Renderer.XmlParser.Parse: attribute directives, comments and CDATA are not rendered; parsing of an inserted HTML fragment is a parameter; an exception ends the rendering and says nothing of the table.
- Explicit-depth `add`: the directives never use it, and frames with it are no stack.
- Several io threads in the watcher: the gap between unlocking and locking in `expired` is not interleaved with other threads.
- The order of different timer handlers queued at the same instant is arbitrary, not that of the io service.
- MultipartTheorems.MultipartRoundTrip: transport padding behind a delimiter is not printed, as the scanner does not skip it; the boundary is given, not extracted from `Content-Type`.
- UrlTheorems.QueryBuild: a base has a path before any `?`, and its segments have an `=`.
- The query of an address without `?` is taken as empty, where the source advances past the end.
- Deserialisation of field values, date formats, files in forms and the dictionaries built for templates.
