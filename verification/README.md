# Verification of the X10 widget's service, rules and helpers

This project models the parts of x10-widget that keep state and decide, and proves what
they promise. `dafny verify dfyconfig.toml` checks all of it.

| file | models |
|---|---|
| `Text.dfy`, `Command.dfy` | decimal numbers, `QString::split`, case, keys; commands and addresses (`common/command.h`) |
| `Planner.dfy` | how a value changes under a command, and how a SET is planned (`GetNextCommand`) |
| `Queue.dfy` | the queue manager's state and its atomic steps as functions; draining |
| `SmartQueue.dfy` | what the smart queue erases and cancels, unit by unit, and when that shows |
| `Runs.dfy`, `Notifications.dfy`, `Frames.dfy` | every interleaving of clients, worker, remote control and queries |
| `PlannedFrames.dfy` | the frames a SET and a whole queue stand for |
| `KnownUnits.dfy` | the keys the manager knows, over every run |
| `Broadcast.dfy`, `BroadcastEffect.dfy` | commands for a pattern of units: what they expand to, when that ends, what they do |
| `Service.dfy` | pattern commands and rules as runs, and what every run promises of them |
| `Pattern.dfy` | which units a pattern selects, from the keys themselves |
| `QueueManager.dfy` | `Container` and `QueueManager` as classes whose methods are tied to the functions above |
| `Rule.dfy`, `NextExecution.dfy` | `Rule::GetExecutionTime`, and exactly which rules it answers correctly |
| `LateTimer.dfy` | the timer ending late, by any delay at any wake-up |
| `StableAnswer.dfy` | exactly which rules keep an answer until its deadline |
| `RuleManager.dfy`, `Timeline.dfy` | the cached next execution and the single-shot timer; the manager left to its timer until it goes silent |
| `RuleText.dfy`, `RuleMeaning.dfy`, `RuleEffects.dfy` | rules as text, what each field, type and character means, and what a rule does to the units |
| `NodesModel.dfy` | the search for a free address in the widget's list of units |
| `Mirror.dfy`, `LiveMirror.dfy` | the data engine's copy of the service's values, beside any service and beside the queue manager itself |
| `ReadBuffer.dfy` | the receive buffer of the CM19A driver |
| `Controller.dfy` | the ON that addresses a unit before it is dimmed |

Conventions. The brightest value is the symbolic `max >= 1` (7 in the program), -1 is off. The
queue has its newest command at index 0 and its oldest at the back, as the list does. Each
client call, worker turn and reception is one atomic step. A queued command is a value with the
identity `id` of its heap object; `log` records the signals and the frames given to the
controller. Clocks are parameters: `zone` is the time of some local Sunday midnight and every
day has 86400 seconds. A timer is its armed delay in milliseconds.

What the proofs bring out about the code:

- The worker reads the remote control only while its queue is empty, so a reception never falls
  into the middle of a SET; runs are linearizable with receptions in their order of arrival.
- An incoming DIM or BRIGHT is cancelled by *any* queued command of another kind for the unit,
  not only by the opposite step as the comment in the code says. `CancelsUnseen` is the exact
  condition under which nobody can see it, for every queue.
- A command for a pattern recurses without end exactly when the pattern matches a pattern among
  the addresses read from the node list. `GetValue("*")` or `GetValue("E*")` puts one there, but
  so does `GetValue("E 5")`: the list is split at blanks, a part that is not read leaves the
  address read before it, and the walk starts at channel A, unit 0.
- A wait that is one second over whole half hours fires its rules twice; and after firing in
  the very second of a first execution no timer is armed any more.
- An answer of `GetExecutionTime` can be revised at a midnight before its deadline; `Steady` is
  exactly the condition under which none is, and allows more than correct answers do.
- `Scheduled` is exactly the condition under which every answer of `GetExecutionTime` is the next
  execution: the repeats of a day end by its midnight, or they fall past it on one of four grids
  (every day at a fraction of a day; midnights; weekly; the last second of a day). Every other rule
  skips an execution at a moment the proof names.
- A source named in lower case is accepted by the data engine but never updated.

## Model

| member | source | states |
|---|---|---|
| `Text.ToIntReadsNumber` | common/rule.cpp:279-284 | a printed integer reads back as itself exactly when it fits 32 bits |
| `Text.ToUIntReadsNumber` | common/rule.cpp:283-306 | a printed repeat count reads back as itself exactly when it fits 32 unsigned bits |
| `Text.ToIntReadsSpaced` | common/rule.cpp:300-306 | blanks around a printed number, and a plus sign, make no difference |
| `Text.SpacesAre` | common/rule.cpp:300-306 | the characters skipped around a number: blank, tabs, line feeds, carriage return |
| `Text.LastDigit` | common/rule.cpp:300-306 | a further digit makes ten times the number and itself |
| `Text.ToIntRefuses` | common/rule.cpp:300-306 | a text with a character that belongs to no number reads as none |
| `Text.UpperIsTheAlphabet` | common/rule.cpp:299-299 | small letters become the capital letters in their places, nothing else changes |
| `Text.BeforeIsLexicographic` | controller/service/queue-manager.cpp:445-455 | a key comes before another exactly if it is a beginning of it or has the smaller character where they first differ |
| `Commands.ToTextIsInjective` | common/command.h:94-99 | two different units never share a container key |
| `Commands.SourceToAddressReadsText` | common/command.h:137-159 | reading the key of a unit A..P, 1..16 gives the unit back |
| `Commands.ToTextIsPlain` | common/command.h:94-99 | the key of a unit is its letter and its number without leading zeros |
| `Commands.SourcesAreRead` | common/command.h:137-159 | "*", and a letter A to P of either case with "*" or a number, are addresses exactly for 0 to 16, and which |
| `Commands.SourcesAreRefused` | common/command.h:137-159 | any other length, letter or number is refused |
| `Commands.KindOfInvertsCodeOf` | common/command.h:34-46 | a character is read as a kind exactly when it is that kind's code |
| `Commands.CodesAreThoseOfTheProgram` | common/command.h:34-46 | which of the ten characters stands for which command |
| `Planner.PlanProgress` | controller/service/queue-manager.cpp:348-409 | the sub-command carries the value it leads to; the announced steps strictly fall, by two only for the first DIM of an off unit; a plan of at most one step ends at the target |
| `Planner.PlanReachesTarget` | controller/service/queue-manager.cpp:250-272 | re-planning after each sub-command reaches the target; the announced count is the number sent, one more exactly when the path dims an off unit |
| `Planner.SentIs` | controller/service/queue-manager.cpp:348-409 | every command a SET sends, kind by kind, from every value to every target: one OFF for off whatever is shown, nothing for a value shown, ON to the maximum, DIMs from off and downwards, the way over OFF where it is shorter, else BRIGHTs |
| `Planner.DistanceIsLowerBound` | controller/service/queue-manager.cpp:295-317 | no sequence of ON, OFF, DIM and BRIGHT is shorter than the distance |
| `Planner.DistanceIsAttained` | controller/service/queue-manager.cpp:295-317 | some sequence has the length of the distance |
| `Planner.PlanIsNearOptimal` | controller/service/queue-manager.cpp:376-407 | except for the repeated OFF, a SET sends the fewest commands possible, and one more exactly at the tie of the OFF shortcut below the maximum |
| `Queue.FindOther` | controller/service/queue-manager.cpp:580-609 | the first queued command, from the newest, of the same unit and another kind |
| `Queue.WithoutKeepsOrder` | controller/service/queue-manager.cpp:587-600 | wherever a command stands in the queue, erasing drops it alone if it is for the unit and keeps it in its place if not |
| `Queue.RemoteAgreesWithWorker` | controller/service/container.cpp:38-60 | a received command gives a unit the value the worker's switch would give |
| `Queue.RemoteSignals` | controller/service/container.cpp:38-60 | a received command is signalled exactly if it changes the value or is an OFF |
| `Queue.TurnKeepsResult` | controller/service/queue-manager.cpp:244-335 | a worker turn changes neither the values the queue stands for nor their range |
| `Queue.SetTurn` | controller/service/queue-manager.cpp:250-272 | a turn on a SET leaves the rest of the work worth one plain assignment of its target |
| `Queue.TurnProgresses` | controller/service/queue-manager.cpp:244-278 | each turn shortens the queue, or the plan of its oldest command |
| `Queue.DrainRefinesAtomic` | controller/service/queue-manager.cpp:244-335 | worker turns empty every queue, and the values are those of the commands carried out at once, oldest first, SET as an assignment; all values stay in -1..max |
| `SmartQueue.CoalescingKeepsResult` | controller/service/queue-manager.cpp:578-617 | erasing every older command of the unit of an incoming SET or OFF changes no final value at any unit, whatever the queue holds |
| `SmartQueue.CoalescingKeepsDrainedValues` | controller/service/queue-manager.cpp:578-617 | the same through actual worker turns, compared with the plain queue |
| `SmartQueue.EnqueueKeepsNormal` | controller/service/queue-manager.cpp:578-617 | queueing keeps each unit's pending commands in normal form |
| `SmartQueue.TurnKeepsNormal` | controller/service/queue-manager.cpp:244-278 | a worker turn keeps the normal form |
| `SmartQueue.NormalMeaning` | controller/service/queue-manager.cpp:580-616 | in normal form there is at most one SET or OFF, then no steps, and never DIM together with BRIGHT |
| `SmartQueue.EnqueueOnUnit` | controller/service/queue-manager.cpp:578-617 | queueing changes the commands of its own unit only: a SET or OFF replaces them, a step drops the newest of another kind, anything else is put in front |
| `SmartQueue.ResultAtUnit` | controller/service/queue-manager.cpp:295-317 | the value a unit ends with is decided by its own commands, oldest first |
| `SmartQueue.CancelsNewest` | controller/service/queue-manager.cpp:601-609 | in normal form a cancelled command is the newest of its unit |
| `SmartQueue.CancellationExact` | controller/service/queue-manager.cpp:601-609 | for every queue, dropping an incoming step with the command it meets gives the final values of the plain queue exactly when the two undo each other at the value before the dropped command, or end at the same bound behind the newer steps that stay |
| `Runs.EnqueueIsAtomic` | controller/service/queue-manager.cpp:573-618 | queueing is worth carrying the command out at once exactly when nothing is seen of a cancellation |
| `Runs.RunIsAtomic` | controller/service/queue-manager.cpp:166-335 | over every interleaving the values shown, with what the queue stands for, are those of all commands and receptions taking effect at once in order of arrival, if no cancellation is seen |
| `Runs.FreshRunIsAtomic` | controller/service/queue-manager.cpp:166-335 | the same from the start of the service: with the plain queue always, with the smart queue if every cancelled step is undone by the one it met |
| `Runs.PlainRunIsHarmless` | controller/service/queue-manager.cpp:573-618 | with the plain queue nothing is cancelled, in any run |
| `Runs.SmartRunIsHarmless` | controller/service/queue-manager.cpp:573-618 | on a smart queue in normal form it is enough that the cancelled pairs undo each other |
| `Runs.SmartRunShape` | controller/service/queue-manager.cpp:578-617 | from an empty queue every reachable smart queue is in normal form, with what that means, and cancels newest commands only |
| `Runs.ModeStays` | controller/service/queue-manager.cpp:620-628 | the queue is smart exactly as the last change of the property said |
| `Runs.CancellationLosesOff` | controller/service/queue-manager.cpp:601-609 | a concrete loss: a pending OFF meets a DIM, and the unit stays lit |
| `Notifications.RunNotifiesOnce` | controller/service/queue-manager.cpp:249-325 | in every run each command is reported at most once, each frame follows exactly one report of its command, and no SET is sent |
| `Notifications.SetIsReportedOnce` | controller/service/queue-manager.cpp:260-268 | a SET whose plan is not empty at its turn is reported exactly once, then and over every run that follows |
| `Notifications.RunStaysInStep` | controller/service/container.cpp:32-36 | in every run the last value signalled for a unit is its value |
| `Notifications.FreshRunNotifiesOnce` | controller/service/queue-manager.cpp:249-335 | from the start of the service: each command reported at most once, each frame after the one report of its command, no SET sent, the last signal of a unit is its value |
| `Frames.RunIsTraced` | controller/service/queue-manager.cpp:249-325 | in every run each report carries a command that was queued; each frame is for the unit of one, and is that command unless it is a SET |
| `Frames.TakeObeyed` | controller/service/queue-manager.cpp:186-325 | an action keeps the units driven by the frames and the values shown together exactly when it is no worker turn that changes a value without a controller |
| `Frames.RunIsObeyed` | controller/service/queue-manager.cpp:186-325 | replaying the frames sent and received over a run, receptions and a controller that comes and goes included, gives every value shown, as long as the worker changes no value without a controller |
| `Frames.LoadedIsFollowed` | controller/service/queue-manager.cpp:319-329 | so it is in every run while a controller stays loaded |
| `Frames.RunUnloaded` | controller/service/queue-manager.cpp:319-329 | while no controller is loaded no frame is sent, in any run |
| `Frames.FreshRunIsTraced` | controller/service/queue-manager.cpp:249-325 | the tracing from the start of the service, all commands included |
| `Frames.FreshRunIsObeyed` | controller/service/queue-manager.cpp:186-325 | the replay from the start of the service, all units off |
| `Frames.FreshLoadedRunIsObeyed` | controller/service/queue-manager.cpp:186-325 | the same with nothing to check, once a controller is loaded and stays |
| `PlannedFrames.SetSendsItsPlan` | controller/service/queue-manager.cpp:249-278 | a SET at the back of the queue sends, under its own identity and for its own unit, exactly the commands of its plan, until it leaves the queue |
| `PlannedFrames.SetOffIsSent` | controller/service/queue-manager.cpp:250-325 | a SET to off is carried out in one turn whatever its unit shows: reported, shown off, and one OFF sent |
| `PlannedFrames.PlainTurnLogs` | controller/service/queue-manager.cpp:285-325 | all a turn on another command makes visible: the value, changed or not, then with a controller the report and the frame |
| `PlannedFrames.TurnConserves` | controller/service/queue-manager.cpp:244-335 | the frames sent and those the queue is planned to send stay the same together at every worker turn |
| `PlannedFrames.DrainSendsQueue` | controller/service/queue-manager.cpp:244-335 | draining sends the frames of every queued command, oldest first, each planned from the value the older ones leave |
| `KnownUnits.InsertKeyKeepsOrder` | controller/service/queue-manager.cpp:342-346 | a new key takes its place in the ascending order of the map |
| `KnownUnits.RunKeepsListed` | controller/service/queue-manager.cpp:342-346 | in every run the enumeration lists exactly the known keys, ascending; all are accepted addresses, and only keys as the worker writes them are ever lit |
| `KnownUnits.FreshRunIsListed` | controller/service/queue-manager.cpp:342-346 | the same from the start of the service |
| `Broadcast.NodesTextSplits` | controller/service/queue-manager.cpp:445-455 | the text of the node list, split again, is the list exactly when no key holds a blank |
| `Broadcast.WalkIsProper` | controller/service/queue-manager.cpp:553-557 | every address read on the walk over the parts is a pattern or a unit A..P, 1..16, keys with blanks included |
| `Broadcast.BroadcastEndsExactly` | controller/service/queue-manager.cpp:549-571 | a pattern command ends exactly when it matches no pattern on the walk over the node list, and then queues one command per matching address, in order |
| `Broadcast.AskedPatternDiverges` | controller/service/queue-manager.cpp:547-562 | after `GetValue("E*")`, in every reachable state, a command for all units or for E recurses deeper than any bound |
| `Broadcast.BlankInKeyDiverges` | controller/service/queue-manager.cpp:546-562 | the key "E 5", an accepted name of unit E5, is walked as channel A, unit 0 twice, and a command for all units recurses deeper than any bound |
| `Broadcast.AskedBlankDiverges` | controller/service/queue-manager.cpp:647-655 | so it does after `GetValue("E 5")` on a new manager |
| `BroadcastEffects.EnqueueAllEffect` | controller/service/queue-manager.cpp:542-618 | several commands queued and drained leave each unit as its own queued and new commands leave it, in either queue mode; where no step can be cancelled, as the new ones applied in order |
| `BroadcastEffects.TargetsEffect` | controller/service/queue-manager.cpp:555-565 | a pattern command leaves each unit as the command alone would, given as often as the walk meets the unit, in either queue mode; keys of no unit keep their value |
| `BroadcastEffects.UnitsAreMetOnce` | controller/service/queue-manager.cpp:555-565 | where each key is that of a unit, the walk meets each known unit the pattern matches once, and no other |
| `BroadcastEffects.BroadcastReachesSelected` | controller/service/queue-manager.cpp:549-571 | a unit the walk meets once is left as the command alone would leave it, steps on a smart queue included; a unit it does not meet is left as it was |
| `BroadcastEffects.SameActionEverywhere` | controller/service/queue-manager.cpp:542-618 | one action other than a step for any list of units and patterns: each unit one of them reaches is changed once, no other is |
| `Patterns.ChannelSelects` | controller/service/queue-manager.cpp:555-562 | where every key is a unit, a command for a channel is queued for exactly its known units, in map order |
| `Patterns.NumberSelects` | controller/service/queue-manager.cpp:555-562 | a command for one number on all channels is queued for exactly the known units of that number |
| `Patterns.AllSelects` | controller/service/queue-manager.cpp:555-562 | a command for everything is queued for all known units |
| `Patterns.ChannelActs` | controller/service/queue-manager.cpp:549-571 | a command for a channel, drained, acts on exactly its known units; every other unit is as without it |
| `Patterns.ChannelOff` | controller/service/queue-manager.cpp:549-571 | switching a channel off leaves exactly its known units off |
| `Patterns.OtherChannelEnds` | controller/service/queue-manager.cpp:549-571 | after `GetValue("E*")` a command for another channel still ends |
| `Patterns.BlankKeyRepeats` | controller/service/queue-manager.cpp:553-557 | the key "E 5" repeats the unit walked before it once for each half |
| `BroadcastEffects.AllOffReachesAll` | controller/service/queue-manager.cpp:466-477 | everything off, drained, leaves every known key off, however it is spelled, with the plain and the smart queue |
| `BroadcastEffects.PatternOffReachesAll` | controller/service/queue-manager.cpp:549-571 | so does the pattern command OFF for all units |
| `BroadcastEffects.FreshAllOff` | controller/service/queue-manager.cpp:466-477 | the same after any run from the start of the service |
| `BroadcastEffects.AllOnReachesAll` | controller/service/queue-manager.cpp:466-477 | everything on, drained, lights every known unit that was off and changes no other |
| `QueueManagers.Container.SetValue` | controller/service/container.cpp:32-36 | the value is set and signalled |
| `QueueManagers.Container.SetOn` | controller/service/container.cpp:38-44 | the new value and the signal are those of a received ON or OFF |
| `QueueManagers.Container.PushDirection` | controller/service/container.cpp:46-60 | the new value and the signal are those of a received BRIGHT or DIM |
| `QueueManagers.QueueManager.CheckContainerExist` | controller/service/queue-manager.cpp:342-346 | an unknown key gets a container that is off, and its place in the enumeration |
| `QueueManagers.QueueManager.GetNextCommand` | controller/service/queue-manager.cpp:348-409 | the step count and sub-command of the plan, from the container's current value |
| `QueueManagers.QueueManager.WorkerTurn` | controller/service/queue-manager.cpp:244-335 | the whole new state; what the queue stands for is kept and the work gets shorter |
| `QueueManagers.QueueManager.RunUntilIdle` | controller/service/queue-manager.cpp:166-335 | the worker loop ends with an empty queue and the values of the atomic fold |
| `QueueManagers.QueueManager.ReceiveCommand` | controller/service/queue-manager.cpp:186-215 | the whole new state after a reception |
| `QueueManagers.SmartScan` | controller/service/queue-manager.cpp:578-613 | the scan erases exactly the unit's commands, or removes the first clash and drops the command, or changes nothing |
| `QueueManagers.QueueManager.QueueOne` | controller/service/queue-manager.cpp:573-618 | the whole new state after queueing for one unit |
| `QueueManagers.QueueManager.NodesList` | controller/service/queue-manager.cpp:445-455 | each key followed by a blank, in map order |
| `QueueManagers.QueueManager.QueueCommand` | controller/service/queue-manager.cpp:542-618 | for one unit, or for a pattern under the exact condition that it ends, the whole new state |
| `QueueManagers.QueueManager.SetAllTo` | controller/service/queue-manager.cpp:466-477 | one command for each known key, in map order |
| `QueueManagers.QueueManager.GetValue` | controller/service/queue-manager.cpp:647-655 | the value of a valid source, which becomes known; -1 for others |
| `QueueManagers.QueueManager.OnRuleExecute` | controller/service/queue-manager.cpp:662-674 | the commands of the rule are queued in order |
| `Services.SubmittedAllIsRun` | controller/service/queue-manager.cpp:542-618 | pattern commands and rules come to a possible run of submissions for single units |
| `Services.ServeAllIsRun` | controller/service/queue-manager.cpp:542-674 | so does every sequence of commands, patterns, rules and everything on or off, between worker turns, receptions and queries |
| `Services.ServiceNotifiesOnce` | controller/service/queue-manager.cpp:249-335 | with all of these, from the start of the service: each queued command reported at most once and before its frames, no SET sent, the last signal of a unit is its value |
| `Services.ServiceIsTraced` | controller/service/queue-manager.cpp:249-325 | with all of these each report and frame belongs to a command queued for a reached unit |
| `Services.ServiceIsListed` | controller/service/queue-manager.cpp:342-346 | with all of these the enumeration lists exactly the known keys |
| `Services.PlainServiceIsAtomic` | controller/service/queue-manager.cpp:166-335 | with all of these and the plain queue the values are those of every reached unit's command at once, in order of arrival |
| `Services.AllToReachesAll` | controller/service/queue-manager.cpp:466-477 | the two requests for everything, on and off, and what each leaves |
| `RuleEffects.RuleReaches` | controller/service/queue-manager.cpp:662-674 | a rule ON, OFF or SET over any units and patterns, executed and drained, leaves each unit it names as it says, and every other unit as it was |
| `RuleEffects.AnyRule` | controller/service/queue-manager.cpp:662-674 | any rule, steps included, leaves each unit as its queued commands and those of the rule that reach it leave it, in order |
| `RuleEffects.CharactersOfRules` | controller/service/queue-manager.cpp:662-674 | what a rule sending "+", "-", "s" or "b" makes of every value of a unit with nothing queued |
| `RuleEffects.NamesWhatIsWritten` | common/rule.cpp:159-183 | a rule whose addresses are written as units names exactly these |
| `RuleEffects.AllUnitsRule` | controller/service/queue-manager.cpp:662-674 | a rule with "*" among its addresses leaves every known unit as the rule says, and every other known key off |
| `Rules.DaysAhead` | common/rule.cpp:143-150 | the first due day of the next six, or the seventh |
| `Rules.ExecutionTimeIsNext` | common/rule.cpp:112-153 | for a scheduled rule the answer is the least execution over all days and repeats that is later than now, or a first execution now |
| `Rules.GetExecutionTime` | common/rule.cpp:112-153 | the loop computes that answer, which is an execution on a weekday set in the period, and for a scheduled rule the first to come; disabled or without a day it is the maximum |
| `Rules.DueOnIsBinaryDigit` | common/rule.cpp:127-127 | a rule is due on the days whose place in the week, from Sunday, is a binary digit of its period |
| `Rules.AnswerIsExecution` | common/rule.cpp:112-153 | in plain numbers: for every enabled rule with a time of day and a day the answer is now or later and is a whole number of days after a Sunday midnight, on a weekday set in the period, plus the time of day, plus a number of repeats the rule has |
| `Rules.AnswerIsFirst` | common/rule.cpp:112-153 | for a scheduled rule no such time that is to come is before the answer |
| `Rules.OneWeekdayAnswer` | common/rule.cpp:126-152 | a rule for one weekday, asked on the Sunday midnight, is answered that many days later |
| `Rules.DaysUntilDue` | common/rule.cpp:143-150 | the search over the week finds the first due day |
| `NextExecutions.FailsExactly` | common/rule.cpp:112-153 | a wrong answer is always one that skips an execution |
| `NextExecutions.UnscheduledFails` | common/rule.cpp:124-152 | every enabled rule that is not scheduled skips an execution at some moment |
| `NextExecutions.ScheduledIsExact` | common/rule.cpp:112-153 | for every enabled rule with a time of day and a day, all answers are right exactly when it is scheduled |
| `NextExecutions.DailyIsExact` | common/rule.cpp:129-137 | for a daily rule repeated within the day: the repeats end by midnight, or their distance divides the day and is not less than the time of day |
| `NextExecutions.ByMidnightIsExact` | common/rule.cpp:129-137 | for a rule not due every day and repeated within the day: the repeats end by midnight |
| `NextExecutions.SlowRepeatHidesNextDay` | common/rule.cpp:132-136 | a concrete miss: a repeat two days away hides tomorrow's first execution |
| `Rules.NextIsSoon` | common/rule.cpp:112-153 | an answer lies less than seven days ahead, and is now exactly for a first execution due now |
| `StableAnswers.NextIsStable` | common/rule.cpp:112-153 | for a steady rule the answer does not change before its deadline; at the deadline it stays exactly for a first execution |
| `StableAnswers.SteadyIsExact` | common/rule.cpp:112-153 | all answers of an enabled rule stay until their deadlines exactly when it is steady: the repeats of a day end by midnight, one falls on midnight, the first one past it is the next first execution (daily grid or weekly), or the rule is due in the last second of the day |
| `StableAnswers.SteadyIsMore` | common/rule.cpp:112-153 | a rule that skips executions and is steady all the same |
| `Rules.ListingAscends` | common/rule.cpp:124-152 | asking again one second after each answer gives strictly later executions |
| `Rules.ListingIsComplete` | common/rule.cpp:124-152 | every execution to come is an answer in the end |
| `Rules.ListingSkipsNothing` | common/rule.cpp:124-152 | an execution to come is among the first n answers or later than all of them |
| `NextExecutions.ListingIsCompleteExactly` | common/rule.cpp:124-152 | from every moment every execution to come is an answer in the end, exactly when the rule is scheduled |
| `RuleManagers.LowestIsLowest` | controller/service/rules-manager.cpp:199-221 | the cached time is the least answer of the enabled rules |
| `RuleManagers.NextSetIsExact` | controller/service/rules-manager.cpp:199-221 | the cached set holds exactly the enabled rules with that answer, in list order |
| `RuleManagers.CacheAgrees` | controller/service/rules-manager.cpp:199-221 | for steady rules, recomputing at any moment up to the cached deadline gives the same time and set, at the deadline exactly if every cached rule has a first execution then |
| `RuleManagers.CacheStaysExactly` | controller/service/rules-manager.cpp:199-221 | the cache for one rule survives every recomputation before its deadline exactly when the rule is steady |
| `RuleManagers.DelayFits` | controller/service/rules-manager.cpp:225-238 | the delay in milliseconds always fits an int |
| `RuleManagers.RefreshArmsExactly` | controller/service/rules-manager.cpp:223-242 | the timer runs after an update exactly when a rule can still occur and none has its first execution this second |
| `RuleManagers.FiredIsCached` | controller/service/rules-manager.cpp:190-194 | every cached rule is enabled and fires, in list order |
| `RuleManagers.FiresAt` | controller/service/rules-manager.cpp:176-197 | with an exact timer the cached rules fire at the deadline, or a second early after a wait one second over whole half hours |
| `RuleManagers.RefreshFires` | controller/service/rules-manager.cpp:176-243 | after any update that arms the timer all cached rules fire then, in list order |
| `RuleManagers.FiresTwice` | controller/service/rules-manager.cpp:176-197 | after such a wait the same rules fire again at the deadline |
| `RuleManagers.SilentAfterFirstExecution` | controller/service/rules-manager.cpp:223-242 | after firing at the deadline no timer runs exactly if some rule has its first execution then |
| `Timelines.RunFollowsCalendar` | controller/service/rules-manager.cpp:176-243 | from an update until silence the firings are those of the rules' calendar, second by second: all rules of a second together, once, or twice one second over whole half hours after the previous firing; nothing fires after the first second in which some rule has its first execution |
| `Timelines.EveryExecutionFires` | controller/service/rules-manager.cpp:176-243 | up to that second every execution of every enabled rule fires on time |
| `Timelines.EndIsNear` | controller/service/rules-manager.cpp:223-242 | that second comes within a week, if any rule can occur at all |
| `Timelines.OneOClockFiresTwice` | controller/service/rules-manager.cpp:176-197 | a daily rule at 01:00:00 loaded at 00:29:59 fires at 00:59:59 and 01:00:00 and never again |
| `RuleManagers.RuleManager.Clear` | controller/service/rules-manager.cpp:83-87 | rules and set are emptied, deadline and timer stay |
| `RuleManagers.RuleManager.Deserialize` | controller/service/rules-manager.cpp:124-129 | the rules read from the text replace the old ones and the cache is computed anew |
| `RuleManagers.RuleManager.UpdateNextExecution` | controller/service/rules-manager.cpp:199-243 | the scan yields the least time, its rules in order, and the armed delay |
| `RuleManagers.RuleManager.OnEndTimerRuleNeedExec` | controller/service/rules-manager.cpp:176-197 | however late: before the last second in front of the deadline only the delay changes; from then on every cached rule fires, in order, and time and set are computed anew |
| `LateTimers.FiresAtFirstWake` | controller/service/rules-manager.cpp:176-197 | with any lateness at each wake-up the cached rules fire once, all of them, at the first wake-up not more than a second before the deadline |
| `LateTimers.FirstWakeIsNear` | controller/service/rules-manager.cpp:176-197 | which comes after the deadline by no more than its own lateness |
| `LateTimers.RefreshFiresLate` | controller/service/rules-manager.cpp:176-243 | the same from any update that arms the timer, rule by rule |
| `LateTimers.NeverLateIsExact` | controller/service/rules-manager.cpp:176-197 | a timer that is never late fires as the exact one |
| `RuleTexts.ValidateAddress` | common/rule.cpp:252-270 | true exactly for a nonempty list of valid addresses |
| `RuleTexts.RuleRoundTrip` | common/rule.cpp:275-315 | an encodable rule comes back as it was, disabled if its address is invalid |
| `RuleTexts.DeserializedIsTransportable` | common/rule.cpp:289-315 | every rule read from text can be written and read again |
| `RuleTexts.ListRoundTrip` | common/rule.cpp:317-353 | a list of encodable rules comes back rule by rule, those with an invalid address disabled |
| `RuleTexts.ListRoundTripExactly` | common/rule.cpp:317-353 | a list comes back identical exactly when each rule has separator-free texts, an upper-case address, 32-bit numbers, and is not enabled with an invalid address |
| `RuleMeanings.SerializedText` | common/rule.cpp:275-287 | the eight fields, in their order, with commas between them |
| `RuleMeanings.EightFieldsAreARule` | common/rule.cpp:289-315 | a text is a rule exactly with eight fields, and what each field is read as |
| `RuleMeanings.NoNumberIsZero` | common/rule.cpp:300-306 | a field that is no number is read as 0 |
| `RuleMeanings.AddressListIsValid` | common/rule.cpp:252-270 | words with blanks between them are a valid list exactly if there is one and all are addresses |
| `RuleTexts.SerializedRules` | common/rule.cpp:317-325 | the loop writes each rule followed by a bar |
| `RuleTexts.DeserializeRules` | common/rule.cpp:327-353 | the loop keeps, in order, the parts that read as rules |
| `RuleTexts.BuildAddresses` | common/rule.cpp:159-183 | the valid addresses in order, or "*" alone when it occurs |
| `RuleMeanings.AddressesOfRule` | common/rule.cpp:159-183 | "*" stands for the whole list; otherwise each address stays in its place and what is none is dropped |
| `RuleTexts.GetCommands` | common/rule.cpp:155-222 | the loops give the product of addresses and actions |
| `RuleMeanings.ActionOfType` | common/rule.cpp:193-219 | type 0 is ON, 1 OFF, 2 a SET exactly for a number from -1 to the maximum; a type other than 3 gives nothing else |
| `RuleMeanings.SendsItsCharacters` | common/rule.cpp:199-211 | a SEND rule gives the kinds other than SET whose character is a part of its action, in order, and nothing for other parts |
| `RuleMeanings.SendsWhatIsWritten` | common/rule.cpp:199-211 | an action written with the characters of kinds gives exactly these kinds |
| `RuleTexts.ProductAt` | common/rule.cpp:185-219 | command number i*n+j is action j at address i |
| `RuleTexts.RuleCommandsAreAccepted` | common/rule.cpp:193-217 | every command of a rule is one the queue accepts, and only a SET rule yields a SET, within range |
| `NodesModels.FreeExactly` | widget/plasmoid/nodes-model.cpp:294-340 | an address is free exactly when fewer than 256 different ones are used |
| `NodesModels.FewNodesLeaveFree` | widget/plasmoid/nodes-model.cpp:324-340 | with fewer than 256 nodes an address is free |
| `NodesModels.NodesModel.FindUnitOnChannel` | widget/plasmoid/nodes-model.cpp:294-322 | the least free unit of the channel, or none when it is full |
| `NodesModels.NodesModel.FindUnitAvailable` | widget/plasmoid/nodes-model.cpp:324-340 | the least free unit of the first channel that is not full, cyclically from the first node's; the start stays when nothing is free |
| `NodesModels.NodesModel.InsertRow` | widget/plasmoid/nodes-model.cpp:349-358 | one new node at the position, with the first free address, or unit 1 of the first node's channel when none is free |
| `NodesModels.NodesModel.InsertRows` | widget/plasmoid/nodes-model.cpp:343-365 | the nodes around the new rows stay; each new row has the first address free when it was inserted; addresses stay distinct exactly while 256 suffice |
| `NodesModels.CycleIsTheAlphabet` | widget/plasmoid/nodes-model.cpp:332-339 | the channels are tried from A to P and on to A again |
| `NodesModels.NodesModel.RemoveRows` | widget/plasmoid/nodes-model.cpp:368-383 | exactly the rows go, the others keep order and distinctness |
| `Mirror.X10Engine.AddX10Source` | widget/data_engine/engine.cpp:134-158 | a new source holds the fetched value, or off |
| `Mirror.X10Engine.OnSourceUpdated` | widget/data_engine/engine.cpp:202-209 | a known source takes the signalled value |
| `Mirror.X10Engine.SourceWasRemoved` | widget/data_engine/engine.cpp:230-242 | a valid source is forgotten, every other is kept as it is |
| `Mirror.LeftIsForgotten` | widget/data_engine/engine.cpp:134-242 | and is fetched anew when it is added again |
| `Mirror.RunKeepsFollowing` | widget/data_engine/engine.cpp:134-209 | over every run with successful fetches an upper-case source has its last value under way, or holds it |
| `Mirror.OtherCaseIsFrozen` | widget/data_engine/engine.cpp:117-148 | a source in another case keeps its first value over every run |
| `Mirror.AgreesExactlyForUpperCase` | widget/data_engine/engine.cpp:134-209 | a quiescent engine agrees with the service in every run exactly for sources in upper case |
| `LiveMirrors.EngineShowsManager` | widget/data_engine/engine.cpp:134-209 | beside the queue manager itself, over every interleaving of its actions with arriving signals and sources that come and go: once no signal is under way the engine shows the manager's value of each upper-case source |
| `ReadBuffers.BufferIsFifo` | controller/linux/drivers/usb/comm/x10-cm19a.c:613-761 | over every interleaving the bytes accepted are the bytes removed followed by the bytes held |
| `ReadBuffers.NothingIsLost` | controller/linux/drivers/usb/comm/x10-cm19a.c:650-666 | while all that is held and still arrives leaves a byte free nothing is dropped |
| `ReadBuffers.TooMuchIsDropped` | controller/linux/drivers/usb/comm/x10-cm19a.c:650-666 | what does not leave a byte free is dropped whole |
| `ReadBuffers.TwoReadsAreOne` | controller/linux/drivers/usb/comm/x10-cm19a.c:719-761 | two reads take what one read of both lengths would, and leave the same |
| `ReadBuffers.FullTestNeverHolds` | controller/linux/drivers/usb/comm/x10-cm19a.c:613-624 | the buffer-full test never publishes; until the line is idle a read takes only what was published before, then all it has room for |
| `ReadBuffers.ReadBuffer.ReadIntrCb` | controller/linux/drivers/usb/comm/x10-cm19a.c:650-666 | arriving bytes are kept whole or dropped whole, in place |
| `ReadBuffers.ReadBuffer.CheckReadBuffer` | controller/linux/drivers/usb/comm/x10-cm19a.c:613-624 | publication of what is held |
| `ReadBuffers.ReadBuffer.MoveDown` | controller/linux/drivers/usb/comm/x10-cm19a.c:755-758 | the overlapping move keeps every byte behind the removed ones |
| `ReadBuffers.ReadBuffer.ReadIntrData` | controller/linux/drivers/usb/comm/x10-cm19a.c:719-761 | the number of bytes taken and the buffer left, in place |
| `Controllers.StepsAreAddressed` | controller/x10core/x10controller.cpp:88-120 | over every run of calls each DIM or BRIGHT directly follows a frame for the same unit |
| `Controllers.CommandsAreKept` | controller/x10core/x10controller.cpp:88-120 | besides the commands given, in order, only ONs for the unit of the step behind them are sent |
| `Controllers.AddedOnsAreNeeded` | controller/x10core/x10controller.cpp:95-100 | no ON is added in front of a step for the unit addressed last |
| `Controllers.X10Controller.X10Send` | controller/x10core/x10controller.cpp:88-120 | the frames of one call; one ON at most is added; nothing without a device |

## Left out

- D-Bus adaptors, `IDBus`, daemon start, signals, the command line, settings files, logging and status texts: plumbing without state worth proving.
- Plasma applet, dialogs, control widgets and `data`/`headerData`/`setData` of the nodes model: user interface; `setData` only gives the range A..P, 0..16 assumed of nodes.
- Controller loading and error counting in `QueueManager::run`: whether a controller is loaded is an action of a run; `Stop`, unlocked access and data races are not modelled.
- X10 code tables, single-frame encoding and the unit adjustment of DIM and BRIGHT: frames are logical commands, before `controller/x10core/x10controller.cpp:104`.
- libusb, URBs, plug events and the waiting loop of a blocking read: `ReadIntrData` is one attempt; copying to user space does not happen in the driver either.
- Aliasing of `COMMAND` and `Rule` objects: they are values here, a queued command with an identity; containers are objects.
- Creation times of commands, and heap leaks of erased commands: nothing depends on them.
- `QString` beyond ASCII, and `QVariant` conversion of a SET value outside 32 bits: numbers are read as `toInt` does, with surrounding blanks and one sign.
- Daylight saving time, leap seconds and the wrap of `repeatTimes + 1`: days have 86400 seconds and numbers are unbounded.
- Rules without a time of day (an execution time outside 0..86399) or with a negative repeat distance: `GetExecutionTime` is modelled for them, its correctness is not.
- RuleManager `Load` and `Save`: file access; the parsing of each line is `Deserialize`.
- Failed fetches of the data engine: modelled as a step (the source shows off), excluded from the agreement theorem.
