# A model of the servo framework

This project models the servo framework that runs CiA 402 drives on an EtherCAT master, and proves what it
keeps over all inputs and all runs. One module stands for one part of the program:

- `Planner`, `Sampling`, `CspEngine`: the trajectory engine of the server in cyclic position mode. The planner
  solves a quadratic for a trapezoidal profile, the sampler takes its points one by one and walks the segment
  table. Numbers that are `double` in the program are reals here; the square root is any function that is
  exact on non-negative reals (`IsSqrt`).
- `TpText`, `TpLoader`, `TpClauses`, `TpRoundTrip`: the trajectory loader, from the text of a program to the chained
  and planned table, or to the refusal of what is malformed in it.
- `CspAxis`, `CspRuns`: the axis as an object whose fields these functions update in place, and its runs under
  cycles, start, stop and load requests in any order.
- `Ds402`, `Drive`, `AxisControl`, `Recovery`, `StartUp`, `ProfilePosition`: the statusword decoder and controlword
  builders, the drive automaton (CiA DSP 402 V2.0, section 10, Device control), the server's start sequence, alone
  and composed with a drive, the auto-starter of the cyclic task composed with its drives, and the set-point
  handshake of profile position mode (section 12).
- `SdoConfig`, `SlaveMeaning`, `SlaveSetup`: the configuration of a slave as a compiler from a tree to a list of object
  dictionary writes (PDO mapping: CiA 301 V4.2, section 7.5.2.36), what the whole list means, and the calls that
  send it.
- `XmlTree`, `XmlSlots`: searching elements by name, and filling the slave and axle tables.
- `Cubic`, `PointToPoint`: the cubic move and the stop sequence of the position mode example.
- `Schedule`, `DoubleBuffer`, `Tokenizer`: the wake-up times of the cyclic task, the buffers between the console
  and the cyclic task, and the console's command splitter.
- `Arithmetic`, `Sequences`, `CspTypes`: laws of products, pigeonhole arguments, shared types.

A function gives the meaning of each step on values; where the program updates fields, arrays or buffers, a
class or method does the same and is tied to the function by its contract.

What the proofs brought to light. Each point names the lemma with the exact condition and, where it is not plain
that the failing side occurs, the one with an input on it:

- The third phase of a profile adds its square instead of taking it from the end: it speeds up
  (`Sampling.ThirdPhaseSpeedsUp`) and slows down only where it is too short to tell (`Sampling.SlowsDownIff`,
  `Sampling.SpeedUpHappens`), and rounding can make it begin with a step back (`Sampling.StepsBackIff`,
  `Sampling.StepBackHappens`). All the same, no sample overshoots the target by more than one uniform step and the
  steps stay bounded.
- The planner's answer is ignored by the loader: a segment it refused accelerates to its end, on the side of its
  target, and stays within its distance only if the last sample does (`Sampling.UnplannedRunsAway`, `Sampling.RunAwayHappens`).
- The loader is refused while running but not while stopping: `CspRuns.LoadKeepsInvIff` says for which texts that
  is safe, `CspRuns.LoadWhileStopping` when starting afterwards leaves the table, `CspRuns.ShorterTableIsLeft` and
  `CspRuns.StoppingLateIsReached` show that it does.
- The start of a loaded program is the measured position in units of the scale in force before the load, and is
  commanded in the scale the text sets: the axis is first sent to where it stands exactly if it stands at 0 or the
  text keeps the scale (`TpLoader.StartsWhereItStandsIff`, `CspRuns.NewScaleMovesStart`). All shipped trajectory files
  set the scale.
- A forgotten comma in an array is accepted: the table is filled exactly if the array has one opening parenthesis more
  than commas (`TpLoader.TableFilledIff`), and ends in a cleared segment, a sample at position 0, otherwise
  (`CspRuns.ForgottenCommaIsAccepted`).
- `time * 1000000` is computed in 32 bits: the number of points is right exactly up to 4294 ms
  (`TpLoader.PointsExactIff`, `TpLoader.PointsWrap`).
- A blank behind a comma of an array ends the fill pass with an error (`TpText.AcceptedIffNoBlanks`); the shipped file
  `example/x3e_60_axis_nxp_logo` has such blanks.
- The count of a sync manager is opened again for each of its PDOs: its list is written while shut exactly if no PDO
  but the first has entries (`SdoConfig.AssignmentsClosedIff`), unlike the PDOs' own lists
  (`SdoConfig.MappingsAreClosed`).
- One carry per addition keeps the wake-up time normalised exactly for periods of at most a second
  (`Schedule.NormalisedForEverIff`).
- A request in profile position mode is lost exactly if the next cycle is one that works and finds the axis in its
  first state (`ProfilePosition.EarlyRequestIsLost`).
- A console write staged before the outputs are captured survives the capture exactly if a cycle that got the lock
  came between the two (`DoubleBuffer.EarlyWriteSurvivesIff`, `DoubleBuffer.EarlyBytesSurviveIff`). That cycle sends
  all of tx, of which the bytes no write has set were never initialised (`DoubleBuffer.CaptureStartsOver`).
- A slave with vendor number 0 does not occupy its slot: of the elements for one position all but the last may have
  it (`XmlSlots.SlavesAcceptedIff`), and each such repetition leaves a slot unfilled (`XmlSlots.FilledIffDistinct`,
  `XmlSlots.ZeroVendorOverwrites`).
- An axle configured for the mode `cst` gets no mode: the letters of cyclic synchronous torque are tested as `ct`
  (`XmlSlots.AbbreviationsTell`).
- The server's start sequence sets the fault reset bit already in the fault reaction and never clears it while the
  fault lasts, so a drive that resets on the edge of that bit comes back exactly if the sequence never saw its fault
  reaction and the bit was clear (`Recovery.OperationIffNotStuck`).
- The example's start sequence answers -1 in a fault or a quick stop, which its caller takes for yes: the move goes on
  in exactly these states besides operation (`PointToPoint.LetThroughIff`, `PointToPoint.FaultIsCommanded`).
- In the example, samples go on uncommanded while the drive does not report its target reached. The next command
  keeps to the limit for one tick if every working call commands (`PointToPoint.NextCommand`), and whatever the pauses
  exactly if the whole rest of the way is within it (`Cubic.LimitSurvivesIff`); the program's own move can jump
  (`PointToPoint.CommandsMayJump`).

## Model

| member | source | states |
|---|---|---|
| Planner.FitsIffSmallerRoot | tool/nservo_run.c:168-182 | a pair of times in the right proportion is a trapezoid of the requested area if and only if it comes from the smaller root of the quadratic |
| Planner.PlanIsExact | tool/nservo_run.c:161-192 | soundness, completeness, uniqueness: 0 if and only if some trapezoid of the requested area keeps to the maximal speed, -1 if and only if none fits at any speed, -2 if and only if the only one is too fast; the computed corners are the only ones |
| Planner.WhatPlanStores | tool/nservo_run.c:171-191 | for every answer, the direction is -1 if and only if the target lies below the origin, and 1 otherwise; a refusal changes nothing else |
| Sampling.PlanDelivers | tool/nservo_run.c:186-190 | a plan that answers 0 stores the fields of a fitting trapezoid |
| Sampling.BoundariesOrdered | tool/nservo_run.c:188-189 | after a successful plan the rounded boundaries satisfy accel end <= decel start <= points |
| Sampling.SampleWithin | tool/nservo_run.c:131-138 | every sample lies between the origin and one uniform step beyond the target |
| Sampling.StepWithin | tool/nservo_run.c:131-136 | successive samples never step back and move at most 1.5 uniform steps, except into the third phase, where the step is half the deceleration give or take one uniform step |
| Sampling.JoinWithin | tool/nservo_run.c:131-147 | the last sample of a segment is between a quarter of a uniform step past and one and a half before its target |
| Sampling.FirstWithin | tool/nservo_run.c:131-138 | the first sample is at most a quarter of a uniform step from the origin |
| Sampling.FirstPhaseSpeedsUp | tool/nservo_run.c:131-132 | the first phase starts at the origin with a step of half the acceleration, each step is one acceleration longer than the one before, and none longer than the acceleration times the time passed |
| Sampling.CoveredIsArea | tool/nservo_run.c:186-190 | the way a trapezoid covers up to a time, the reference for the samples, ends with its whole area |
| Sampling.FollowsTrapezoid | tool/nservo_run.c:131-136 | up to the third phase the samples are the way the planned trapezoid covers: exactly on the ramp, and within three quarters of a uniform step behind it |
| Sampling.PhasesGoOn | tool/nservo_run.c:131-136 | the uniform phase starts with the way the ramp covers and goes on by the uniform speed; the third phase starts half a deceleration behind the way covered when it is due |
| Sampling.StepsBackIff | tool/nservo_run.c:133-136 | the step into the third phase goes backwards if and only if the rounding lengthens the uniform phase by more than half the deceleration is worth |
| Sampling.ThirdPhaseSpeedsUp | tool/nservo_run.c:133-134 | each step of the third phase is one deceleration longer than the one before |
| Sampling.SlowsDownIff | tool/nservo_run.c:133-134 | a planned segment slows down at its end if and only if its third phase is too short to show two steps |
| Sampling.UnplannedRunsAway | tool/nservo_run.c:316-316 | with positive rates, a segment whose planning was refused is sampled as an endless acceleration from its origin towards the side of its target, and stays within its distance if and only if the last sample does |
| Sampling.PlannedAs | tool/nservo_run.c:161-192 | an input for which a trapezoid is at hand is planned as just that trapezoid, or refused as too fast |
| Sampling.StepBackHappens | tool/nservo_run.c:133-136 | a planned segment whose 8th sample goes back from 318.92 to 287.84 |
| Sampling.SpeedUpHappens | tool/nservo_run.c:133-134 | a planned segment that does not slow down |
| Sampling.RunAwayHappens | tool/nservo_run.c:316-316 | a refused segment from 100 to 68 whose last sample is at 39.5 |
| CspEngine.NextPosKeepsWalking | tool/nservo_run.c:141-158 | one sample keeps the cursors inside the table, or stops at its start |
| CspEngine.NextPosProgress | tool/nservo_run.c:141-158 | one sample moves the progress through the table by one; the last one takes a running cyclic walk back to segment 1 and stops every other at the start |
| CspEngine.ProgressIsUnique | tool/nservo_run.c:141-158 | the progress determines both cursors |
| CspEngine.CyclicStream | tool/nservo_run.c:124-159 | after k samples a freshly started cyclic table is where the closed form says: segment 0 once, then segments 1 to the end for ever |
| CspEngine.ExactStop | tool/nservo_run.c:141-158 | a walk that will not wrap is active for exactly the samples left from its cursor, counts them down one by one, and then stands stopped at the start |
| CspEngine.StreamIsSmooth | tool/nservo_run.c:124-159 | across next point, next segment and wrap the commanded position moves by at most the step limit, and the last sample is near the end of the table |
| TpText.LoadParameter | tool/nservo_run.c:92-122 | one clause leaves a 32-bit value and a shorter rest of the text, and does not match where another name stands |
| TpText.ParameterIs | tool/nservo_run.c:92-122 | a clause is taken if and only if the name is followed by an equals sign and a number and a semicolon follows anywhere; its value is the low 32 bits of the number, and the scan goes on behind the first semicolon |
| TpText.NumberIs | tool/nservo_run.c:100-114 | the number of a clause is the longest run of digits behind white space and at most one sign, read in decimal |
| TpText.NoNumber | tool/nservo_run.c:100-114 | without a digit there is no number |
| TpText.EntryIs | tool/nservo_run.c:309-311 | an entry of any two numbers, whatever comes behind them, gives their lowest 32 bits; the closing parenthesis is not needed |
| TpText.NoEntry | tool/nservo_run.c:309-311 | there is no entry without the opening parenthesis, the first number, the colon right behind it, or the second number |
| TpText.FillWithinCount | tool/nservo_run.c:283-332 | for every text the fill pass delivers no more entries than the count pass found opening parentheses |
| TpText.FillByCommas | tool/nservo_run.c:308-322 | a complete fill pass delivers one entry more than there are commas |
| TpText.CommaForgotten | tool/nservo_run.c:283-322 | of two lists with the comma between them forgotten the fill pass reads all but the first entry of the second, without an error |
| TpText.PairsRoundTrip | tool/nservo_run.c:283-322 | printing any nonempty list of pairs without blanks and reading it back gives the list, and as many parentheses |
| TpText.AcceptedIffNoBlanks | tool/nservo_run.c:308-322 | a printed list is read up to the first blank behind a comma, and accepted if and only if there is none |
| TpLoader.ScanStep | tool/nservo_run.c:212-282 | one round of the clause scan makes progress and decides the rest of the scan |
| TpLoader.TableFilledIff | tool/nservo_run.c:297-333 | a successful load leaves a table at rest, filled if and only if the array has one opening parenthesis more than commas; otherwise it ends in a cleared segment, sampled at position 0 |
| TpLoader.WellFormedIff | tool/nservo_run.c:283-322 | for an array that is read to its end, every opening parenthesis starts an entry if and only if there is one more of them than commas |
| TpLoader.LoadedIsChained | tool/nservo_run.c:307-332 | after a well-formed load every segment starts at its predecessor's target, the first at the measured position in units of the old scale, and a cyclic table ends where segment 1 begins |
| TpLoader.StartsWhereItStandsIff | tool/nservo_run.c:203-227 | the start, in the scale the text leaves, is the measured position if and only if that is 0 or the scale is kept |
| TpLoader.LoadedIsPlanned | tool/nservo_run.c:307-332 | if the planner accepted every entry, the loaded table is planned throughout |
| TpLoader.PointsExactIff | tool/nservo_run.c:312-312 | the 32-bit number of points is exact if and only if the time is at most 4294 |
| TpLoader.PointsWrap | tool/nservo_run.c:312-312 | beyond that only the remainder of the nanoseconds by 2^32 counts; 5 seconds at a period of a millisecond are 705 points |
| TpRoundTrip.ProgramRoundTrip | tool/nservo_run.c:212-322 | printing a whole program in the layout of the example files and scanning it gives back every setting and every entry |
| TpRoundTrip.ScanTaken | tool/nservo_run.c:212-258 | behind a clause that is taken the scan goes on with its setting and whatever array was found before |
| TpRoundTrip.ListRoundTrip | tool/nservo_run.c:260-282 | a printed array sets the list of the scan, whatever was found before |
| TpClauses.ClauseIs | tool/nservo_run.c:214-258 | where one of the six names stands, the clause is refused, with -5 for Cyclic and Scale and -1 for the others, if an equals sign, a number or a semicolon is missing, and otherwise sets just what it names and ends at the first semicolon |
| TpClauses.ArrayIs | tool/nservo_run.c:260-280 | an array clause without one of its brackets or the semicolon behind the first closing one is malformed, and every other is found |
| TpClauses.ListIs | tool/nservo_run.c:260-280 | the list is what stands between the first brackets |
| TpClauses.ListIsLate | tool/nservo_run.c:260-280 | with the closing bracket first, the list is all that stands behind the opening one |
| TpClauses.OtherIsPassed | tool/nservo_run.c:281-281 | a character at which no name stands is passed by and sets nothing |
| TpClauses.ScanFromThere | tool/nservo_run.c:212-282 | the scan of a text is the scan of any place it comes to, with what was taken on the way, and a scan that comes to the end answers 0 |
| TpClauses.MalformedIsRefused | tool/nservo_run.c:212-282 | a load whose scan comes to a malformed clause or array answers with its code; status, cursors and table stay, and only the settings before it are taken |
| TpClauses.BadScaleIsRefused | tool/nservo_run.c:222-224 | an instance: whatever follows `Scale=x`, the answer is -5 and the axis stays |
| TpClauses.AnswerIs | tool/nservo_run.c:212-334 | the answer to every text an axis takes, -3, -4, -5 and 0 included, and the settings it leaves |
| TpClauses.FailureLeaves | tool/nservo_run.c:204-334 | every answer but 0 leaves status, cursor and measurement; -1 for another mode and -2 while running leave everything, -3 leaves the table, and -4 clears it |
| TpClauses.LoadedTells | tool/nservo_run.c:307-332 | after a load each entry goes to its target in its points from where the one before it ends, and a closing segment repeats the target and the points of the first |
| TpClauses.IncompleteStays | tool/nservo_run.c:300-322 | a list that is not read to its end leaves the entries that were read and cleared ones behind them, and the axis not ready |
| CspRuns.LoadKeepsInvIff | tool/nservo_run.c:194-335 | a load of any text in any state keeps the run invariant if and only if the stated condition on text and state holds |
| CspRuns.LoadWhileStopping | tool/nservo_run.c:208-210 | after a load in the stopping state, starting the axis keeps it inside its table if and only if the old cursor is below the number of opening parentheses of the array, plus one if the text leaves the axis cyclic |
| CspRuns.LoadList | tool/nservo_run.c:194-335 | what an array clause with any list that is read to its end loads |
| CspRuns.ForgottenCommaIsAccepted | tool/nservo_run.c:283-333 | two printed lists without a comma between them load with answer 0, lose an entry and end in a segment at position 0 |
| CspRuns.NewScaleMovesStart | tool/nservo_run.c:203-227 | a printed program of scale 364 starts an axis that stands at 1000 with scale 100 at 3640 |
| CspRuns.ShorterTableIsLeft | tool/nservo_run.c:208-210 | loading a printed array that is no longer than the cursor, while stopping, succeeds, and starting then leaves the table |
| CspRuns.StoppingLateIsReached | tool/nservo_run.c:208-210 | such a stopping axis is reached from the allocated state in five admissible events |
| CspRuns.RunInvariant | tool/nservo_run.c:141-158 | in every run of cycles, starts, stops, scalings and admissible loads: a moving axis has both cursors inside its table, a loaded cyclic table has two segments or more, and a stopped or ready axis has its segment cursor and every point cursor at 0 |
| CspRuns.RunKeepsInv | tool/nservo_run.c:141-158 | the invariant behind it, kept by every run from every state that has it |
| CspRuns.EnabledIff | tool/nservo_run.c:419-429 | a cycle is let through if and only if the drive shows operation enabled and the bus is operational |
| CspRuns.MeasuredLast | tool/nservo_run.c:430-431 | after any cycles the axis holds the position and the velocity the drive reported in the last one that was let through, or what it held before if none was |
| CspRuns.RequestsByStatus | tool/nservo_run.c:672-689 | a start is taken only when ready and a stop only when running; in every other state they change nothing |
| CspRuns.ScaleIsSet | tool/nservo_run.c:639-647 | a scale that is set is the lowest 32 bits of the number given, and nothing else changes |
| CspRuns.PausesAreHarmless | tool/nservo_run.c:419-438 | cycles in which drive or bus is not ready pause the walk and change nothing else |
| CspRuns.NothingSkipped | tool/nservo_run.c:419-438 | over any cycles the commanded positions are the samples of the stream in order, one for each cycle let through until the walk is over, none skipped or repeated |
| CspRuns.StopsExactly | tool/nservo_run.c:141-158 | over any cycles, a walk that will not wrap is over if and only if at least as many were let through as there were samples left, and the smaller of the two numbers of positions is commanded |
| CspRuns.TicksKeepPlan | tool/nservo_run.c:141-158 | a planned and chained table stays so however long it is walked |
| CspRuns.LoadedStreamIsSmooth | tool/nservo_run.c:124-335 | from text to motion: the stream of a well-formed program with accepted plans has no step above the limit, in user units, at any time |
| CspRuns.LoadedStarts | tool/nservo_run.c:194-335 | such a program, started, is at its first sample with a planned and chained table |
| CspRuns.FirstCommandIsClose | tool/nservo_run.c:203-333 | the first commanded position is within a quarter of a full-speed step of the measured one in units of the old scale |
| CspAxis.WordsAreSmooth | tool/nservo_run.c:124-438 | the words written over any cycles of a planned and chained table, pauses included, differ by less than scale times the step limit plus one, where the cast is defined |
| CspAxis.LoadedWordsAreSmooth | tool/nservo_run.c:124-438 | from text to words: the same for a well-formed program with accepted plans, loaded and started |
| CspAxis.FirstWordIsClose | tool/nservo_run.c:124-438 | the first word is the measured position in units of the old scale, scaled by the new one, give or take a quarter of a scaled full-speed step and one; with the scale kept, the measured position itself |
| CspAxis.FirstWordIsNearDrive | tool/nservo_run.c:203-438 | from the drive and back: after any cycles, the first word of a program that keeps the scale is near the position the drive reported in the last cycle let through |
| CspAxis.Axis.TrajectoryPlanner | tool/nservo_run.c:161-192 | the planner on a table entry in place, as `Plan`; `WhatPlanStores` and `PlanIsExact` say what that is |
| CspAxis.Axis.ScaleToWord | tool/nservo_run.c:139-140 | scaling and the cast to an unsigned word |
| CspAxis.Axis.GetNextPos | tool/nservo_run.c:124-159 | the sampler in place: `NextPos` and the scaled and cast word of the sample, which `FirstPhaseSpeedsUp`, `FollowsTrapezoid` and `PhasesGoOn` tie to the planned profile |
| CspAxis.Axis.CspUpdateTargetPosition | tool/nservo_run.c:419-439 | one cycle of the task, as `Tick`: what it measures and in which cycles, and what it writes to the process data, the mode in the cycle that sees the drive switched on |
| CspAxis.Axis.SetStart | tool/nservo_run.c:672-677 | only a ready axis starts |
| CspAxis.Axis.SetStop | tool/nservo_run.c:684-689 | only a running axis begins to stop |
| CspAxis.Axis.SetScale | tool/nservo_run.c:639-647 | the scale takes the 32 bits of the given number |
| CspAxis.Axis.ScanText | tool/nservo_run.c:212-282 | the clause scan, settings taking effect one by one, up to the first malformed clause |
| CspAxis.Axis.CountEntries | tool/nservo_run.c:283-292 | the count pass counts the opening parentheses |
| CspAxis.Axis.StoreEntry | tool/nservo_run.c:312-316 | one entry stored and planned in place |
| CspAxis.Axis.FillTable | tool/nservo_run.c:307-332 | the fill pass plans entry after entry into the cleared table, as `TableOf` |
| CspAxis.Axis.TpArraysPaster | tool/nservo_run.c:194-335 | loading in place, with every error answer, as `Load` |
| Ds402.DecodeIsTable | ds402.c:29-46 | the decoder answers each state exactly on the words the profile gives it |
| Ds402.DecodeDefault | ds402.c:29-46 | "not ready" takes exactly the words no other state shows, also such as no state shows |
| Ds402.TargetReachedIff | include/ds402.h:305-305 | the target is reported reached in bit 10 |
| Drive.BuildersCommand | include/ds402.h:316-323 | whatever the controlword was, each builder makes it the command it is named after and changes only the bits of that command |
| AxisControl.AxisStart | tool/nservo_run.c:340-370 | the start sequence: answer, controlword and mode |
| AxisControl.LetsThroughIff | tool/nservo_run.c:340-370 | a task is let through exactly on the words of an enabled drive, and refused exactly on those of one that stops quickly, with the controlword left alone in both |
| AxisControl.SetsModeIff | tool/nservo_run.c:356-359 | the mode is set exactly in a cycle that sees the drive switched on |
| Recovery.CycleIsCloser | tool/nservo_run.c:340-370 | one cycle of the start sequence and a prompt drive brings the drive closer to operation, or finds and leaves it stuck |
| Recovery.OperationIffNotStuck | tool/nservo_run.c:340-370 | from any state and controlword, after at most five cycles a prompt drive is in operation and stays there if and only if it was neither in the fault reaction nor in the fault with the reset bit set |
| StartUp.SumTestIsExact | nservo.c:783-796 | the summed test holds if and only if every master is operational and every axle enabled |
| StartUp.CycleKeepsInv | nservo.c:757-809 | one cycle with legal drives keeps the invariant and moves no drive back |
| StartUp.ReadsWhenDue | nservo.c:615-626 | what is known of an axle changes only in every so many cycles, and then to what its drive shows |
| StartUp.StaleStatusTracks | nservo.c:615-626 | in every state of every fault-free run the remembered status is never ahead of the drive and at most one transition behind what its command reaches, and no drive falls back |
| StartUp.ModeIsSet | nservo.c:681-683 | in every fault-free run the mode of operation is left alone until the axle is known to be switched on, and from then on it is the configured one |
| StartUp.AnswerByRank | nservo.c:670-699 | the answer for an axle is 0 on the way up, 1 in operation and -1 beyond |
| StartUp.StartUpCompletes | nservo.c:670-699 | if drives take enabled transitions within the cycle, every axle is known to be enabled, in its configured mode, after cycle 4 times the update frequency |
| StartUp.StartUpEnds | nservo.c:783-796 | in such a cycle, once all masters report operation, the auto-starter is off, with every axle in its configured mode |
| StartUp.LatchGoesOffIff | nservo.c:783-796 | a cycle switches the auto-starter off if and only if all masters report operation and every axle is known to be operational |
| StartUp.LatchIsFinal | nservo.c:784-796 | once off, the auto-starter changes no controlword or mode in any later cycle of any run, whatever the drives, words and masters do |
| StartUp.Task.UpdateAxlesStates | nservo.c:615-626 | statuses are read in every so many cycles, and then all |
| StartUp.Task.AxleAutoStart | nservo.c:670-699 | the command and the answer for one axle |
| StartUp.Task.CountRunningMasters | nservo.c:785-789 | the loop over the masters |
| StartUp.Task.StartAxles | nservo.c:790-792 | the loop over the axles, with the sum of their answers |
| StartUp.Task.AutoStart | nservo.c:783-796 | the loops over masters and axles and the latch |
| StartUp.Task.Control | nservo.c:777-807 | the control part of one cycle, as `Cycle` |
| ProfilePosition.Handshake | tool/nservo_run.c:372-417 | over every mix of cycles and requests: the counter stays in 0..30, bit 4 is set only in 21..30, past 20 the target in the process data is the request in force when the counter left 19; strobes, reached targets and interventions balance |
| ProfilePosition.StepKeepsInv | tool/nservo_run.c:393-414 | no cycle entered with 20..30 changes the target position in the process data |
| ProfilePosition.OneStrobePerSetPoint | tool/nservo_run.c:404-414 | without interventions every set-point costs exactly one strobe, and a new one is raised only after the last was reached |
| ProfilePosition.Counting | tool/nservo_run.c:397-408 | working cycles only count, and strobe from 20 on |
| ProfilePosition.WorksIff | tool/nservo_run.c:380-384 | a cycle works if and only if the drive shows operation enabled and the bus is operational |
| ProfilePosition.Standing | tool/nservo_run.c:387-396 | while no velocity is asked for, the target that goes out is the position reported in the last cycle that worked, whatever targets are asked for |
| ProfilePosition.VelocityStarts | tool/nservo_run.c:387-396 | once a velocity is asked for, the first cycle that works starts the count, with its position as the target, the velocity and operation enabled |
| ProfilePosition.Idle | tool/nservo_run.c:380-384 | cycles that do not work leave the counter and what goes out, apart from the controlword of the start sequence |
| ProfilePosition.KeepsEnabled | tool/nservo_run.c:372-417 | a cycle that is let through keeps operation enabled, strobe or not |
| ProfilePosition.Waiting | tool/nservo_run.c:409-414 | the counter waits in 30 without strobe and without a change of outputs |
| ProfilePosition.OneSetPoint | tool/nservo_run.c:393-414 | 19 cycles of holding, 10 of strobing, then waiting without strobe until the target is reported |
| ProfilePosition.EarlyRequestIsLost | tool/nservo_run.c:389-397 | a request that asks for something new is lost in the next cycle if and only if that cycle works and finds the axis in its first state; otherwise it stays in force |
| ProfilePosition.PpAxis.PpUpdateTargetPosition | tool/nservo_run.c:372-417 | one cycle of the task in place, with the measurement and the mode |
| SdoConfig.PackRoundTrip | nservo.c:296-298 | a mapping word gives back index, subindex and length |
| SdoConfig.MappingWordIs | nservo.c:296-298 | a mapping word has the index in its upper half, then the subindex, then the length: object 6040h with 16 bits is 60400010h |
| SdoConfig.UnpackRoundTrip | nservo.c:296-298 | every 32-bit word is the packing of what it unpacks to |
| SdoConfig.ReplayMeansTree | nservo.c:261-341 | replaying the writes leaves every sync manager and PDO as configured and everything else untouched |
| SdoConfig.MappingsAreClosed | nservo.c:281-319 | every mapping entry is written while its PDO's count is 0 |
| SdoConfig.AssignmentsClosedIff | nservo.c:267-339 | a sync manager's list is written while its count is 0 if and only if no PDO but the first has entries |
| SdoConfig.MappingRoundTrip | nservo.c:281-319 | a slave that reads its dictionary back finds exactly the configured entries |
| SlaveMeaning.ParametersMeant | nservo.c:241-250 | every object a parameter names ends with the low 8, 16 or 32 bits of the last value given for it, and the others stay |
| SlaveMeaning.SlaveMeansConfig | nservo.c:238-341 | the calls of a slave set its parameters and then, if and only if the assignment is forced, its tree on top of them |
| SlaveMeaning.UnknownLengthEnds | nservo.c:241-258 | a parameter of unknown length ends the configuration: those before it are set, and neither those behind it nor the tree |
| SlaveMeaning.WidthsCarry | nservo.c:241-341 | no call is narrower than its value, so what a slave stores is what was written |
| SlaveMeaning.WidthByObject | nservo.c:261-341 | counts are written with 8 bits, the PDOs of a sync manager with 16, the entries of a PDO with 32 |
| SlaveMeaning.MappedBeforeAssigned | nservo.c:281-330 | a PDO is assigned to its sync manager only after its mapping is complete |
| SlaveSetup.SentIff | nservo.c:238-341 | how a configuration ends is decided by the number of calls the master accepts |
| SlaveSetup.Requests.ConfigSdo | nservo.c:241-250 | one call, accepted or refused |
| SlaveSetup.Requests.ConfigPdo | nservo.c:278-338 | the calls of one round of the loop over the PDOs |
| SlaveSetup.Requests.ConfigMapping | nservo.c:281-319 | the calls for one PDO, up to the first refused |
| SlaveSetup.Requests.ConfigSync | nservo.c:266-339 | the calls for one sync manager, up to the first refused |
| SlaveSetup.Requests.ConfigSlave | nservo.c:238-341 | the calls for a slave are its list of writes, up to the first refused or the first parameter of unknown length, and the answer tells which |
| XmlTree.FindNodeNumber | nser_xml_parse.c:39-49 | counts the elements of a name |
| XmlTree.FindSubnodeIndex | nser_xml_parse.c:63-77 | finds the index-th element of a name, with index of them before it, if and only if there are more than index |
| XmlTree.SpellingsAgree | nser_xml_parse.c:406-422 | counting and finding agree also when the name is spelled in different cases |
| XmlTree.SameNameIff | nser_xml_parse.c:39-49 | two names are the same if and only if they differ at most in the case of letters |
| XmlTree.SlavesAreFound | nser_xml_parse.c:406-422 | what is counted as `Slave` is what is looked up as `slave` |
| XmlSlots.XmlCreateNewSlaves | nser_xml_parse.c:395-615 | elements are taken in order, each into the slot of its position if that shows vendor number 0 |
| XmlSlots.SlavesAcceptedIff | nser_xml_parse.c:419-447 | loading succeeds if and only if all elements are complete and of those for one position all but the last have the vendor number 0 |
| XmlSlots.SlavesDistinctIff | nser_xml_parse.c:419-447 | with vendor numbers other than 0: if and only if they are complete and their positions distinct |
| XmlSlots.FilledIffDistinct | nser_xml_parse.c:419-447 | every slot is filled if and only if the positions are distinct; a slot no element names stays as it came |
| XmlSlots.SlavesArePermutation | nser_xml_parse.c:419-447 | with distinct positions slot i belongs to the one element of position i, and has its vendor, product and alias |
| XmlSlots.ZeroVendorOverwrites | nser_xml_parse.c:442-447 | an instance: two elements of one position are accepted with vendor number 0, and the other slot stays as it came |
| XmlSlots.GetNsSlave | nser_xml_parse.c:710-717 | the first slave at a position, if any |
| XmlSlots.SlaveIsAtItsPosition | nser_xml_parse.c:710-717 | after loading, position p is found in slot p |
| XmlSlots.XmlConfigRegs | nser_xml_parse.c:871-880 | the registrations of an axle, all or none |
| XmlSlots.XmlConfigAxle | nser_xml_parse.c:772-882 | one element is taken if and only if it is complete and its slot is free, and changes just that slot |
| XmlSlots.AxleCompleteIff | nser_xml_parse.c:772-880 | an element is complete if and only if its numbers are there, its index is not above the number of axles, its master exists and has a slave at its position, and it has registrations with both their numbers |
| XmlSlots.AbbreviationsTell | nser_xml_parse.c:836-859 | every abbreviation of a mode gives that mode, except that `cst` gives none: cyclic synchronous torque is what begins with `ct` and has neither `p` nor `v` behind |
| XmlSlots.XmlConfigAxles | nser_xml_parse.c:771-883 | loading succeeds if and only if all elements are complete and their indices distinct, and fills each named slot |
| XmlSlots.AxlesArePermutation | nser_xml_parse.c:771-883 | then every axle slot is filled exactly once, by the element of its index, with that element's master, the first slave at its position, its offset, its mode and its registrations |
| Cubic.PathIsSafe | example/Cyclic_Position_Mode_Test_2HSS458-EC.c:119-140 | the cubic stays between start and target, is monotone, meets the target at the set time, and is never steeper than 1.5 times its average |
| Cubic.OnlyPath | example/Cyclic_Position_Mode_Test_2HSS458-EC.c:120-123 | the coefficients are the only ones of a path that starts in the one position and ends in the other, at rest in both |
| Cubic.TruncIs | example/Cyclic_Position_Mode_Test_2HSS458-EC.c:124-141 | the conversion to an integer drops the part behind the point, on either side of 0 |
| Cubic.SamplesAreSafe | example/Cyclic_Position_Mode_Test_2HSS458-EC.c:121-142 | the same for the truncated samples every 5 ms, with less than one added for the dropped fraction |
| Cubic.SamplesApart | example/Cyclic_Position_Mode_Test_2HSS458-EC.c:134-141 | samples m ticks apart are in order and less than m times the limit for one tick apart |
| Cubic.LimitSurvivesIff | example/Cyclic_Position_Mode_Test_2HSS458-EC.c:134-145 | the limit for one tick holds from a sample to every later one if and only if the whole rest of the way is within it |
| PointToPoint.RunIsSampled | example/Cyclic_Position_Mode_Test_2HSS458-EC.c:117-145 | whatever pauses there are, the next position is the sample that belongs to the number of working calls |
| PointToPoint.FreshRunIsSampled | example/Cyclic_Position_Mode_Test_2HSS458-EC.c:117-129 | the move starts where the axis stands in the first working call |
| PointToPoint.CommandsGoOneWay | example/Cyclic_Position_Mode_Test_2HSS458-EC.c:117-145 | commanded positions only go towards the target and never beyond it |
| PointToPoint.LetThroughIff | example/Cyclic_Position_Mode_Test_2HSS458-EC.c:55-83 | the task is let through exactly on the words of an enabled, a quickly stopping and a faulty drive |
| PointToPoint.StartCommands | example/Cyclic_Position_Mode_Test_2HSS458-EC.c:55-83 | the start sequence gives the command that takes the drive one state up, and the initial target in the cycle that enables operation |
| PointToPoint.SameStartUnlessFault | example/Cyclic_Position_Mode_Test_2HSS458-EC.c:55-83 | it is the start sequence of the server but for the fault, which it never resets |
| PointToPoint.TargetIsLastCommand | example/Cyclic_Position_Mode_Test_2HSS458-EC.c:117-145 | in runs that do not see the drive switched on again, the target in the process data is the last position commanded |
| PointToPoint.FaultIsCommanded | example/Cyclic_Position_Mode_Test_2HSS458-EC.c:117-145 | in a fault that reports the target reached the next sample is commanded and the controlword left alone |
| PointToPoint.NextCommand | example/Cyclic_Position_Mode_Test_2HSS458-EC.c:127-144 | the next command is as many samples further as there are working calls up to it, less than that many times the limit for one tick away, and within the limit if each of them commands |
| PointToPoint.CommandsMayJump | example/Cyclic_Position_Mode_Test_2HSS458-EC.c:134-144 | the program's own move of 40000 can be followed by a command over a thousand times the limit away |
| PointToPoint.StopsWhen | example/Cyclic_Position_Mode_Test_2HSS458-EC.c:99-116 | a stop call ends the task if and only if the axis is disabled or two seconds' worth of calls have gone by |
| PointToPoint.StopIsBounded | example/Cyclic_Position_Mode_Test_2HSS458-EC.c:99-116 | the task ends by call floor(2 000 000 000 / period) + 3 |
| PointToPoint.StopCommands | example/Cyclic_Position_Mode_Test_2HSS458-EC.c:99-116 | the first stop call sends a quick stop, which stands while the task waits, and the voltage is disabled if and only if it gives up |
| PointToPoint.EndsOnlyStopping | example/Cyclic_Position_Mode_Test_2HSS458-EC.c:99-153 | the task ends only once it was told to stop, and the stop leaves the move alone |
| PointToPoint.Task.AxleStart | example/Cyclic_Position_Mode_Test_2HSS458-EC.c:55-83 | the example's start sequence |
| PointToPoint.Task.Stop | example/Cyclic_Position_Mode_Test_2HSS458-EC.c:99-116 | one call after the task was told to stop |
| PointToPoint.Task.Move | example/Cyclic_Position_Mode_Test_2HSS458-EC.c:118-149 | one working call |
| PointToPoint.Task.UpdateTargetPosition | example/Cyclic_Position_Mode_Test_2HSS458-EC.c:86-153 | one call of the task in place |
| Schedule.NoDrift | nservo.c:766-770 | the k-th wake-up is exactly k periods after the start |
| Schedule.NormalisedForEverIff | nservo.c:708-717 | every wake-up time is normalised if and only if the period is at most a second |
| Schedule.Sleeps | nservo.c:766-776 | the loop sleeps until these times in turn and ends at the first the clock refuses |
| DoubleBuffer.NothingIsLost | nservo_config.c:80-101 | over every interleaving, tx is the captured image with all staged writes and the outputs the same with the delivered ones |
| DoubleBuffer.StepKeepsInv | nservo_config.c:80-101 | one event keeps the invariant, and what is staged and delivered only grows |
| DoubleBuffer.OutputsFollowSets | nservo_config.c:80-101 | whenever no update is pending, and after any cycle that gets the lock, the outputs are the captured image with every write since, in order |
| DoubleBuffer.CaptureStartsOver | nservo_config.c:80-96 | over every run before it, the capture takes the outputs of the domain as the last exchange with something to deliver left them: all of tx with the writes an exchange has seen, or the domain's own outputs if there was none |
| DoubleBuffer.CaptureKeepsPending | nservo_config.c:87-96 | an update stays pending behind the capture if and only if a write was staged that no exchange has seen |
| DoubleBuffer.EarlyWriteSurvivesIff | nservo_config.c:80-96 | a write staged before the capture is in its place among the captured writes if an exchange comes between the two, and without one the capture is as if it had never been staged |
| DoubleBuffer.EarlyBytesSurviveIff | nservo_config.c:80-96 | the bytes of a last write that says something new are captured if and only if an exchange comes in between |
| DoubleBuffer.ReadsOneSnapshot | nservo_config.c:85-86 | rx is one whole picture of the domain, that of the last exchange |
| DoubleBuffer.InputsAreTheBus | nservo_config.c:80-101 | the inputs in the domain are those the bus delivered last, untouched by cycles and writes |
| DoubleBuffer.PatchedAt | include/tool.h:62-70 | a write sets its own bytes and no others |
| DoubleBuffer.DomainData.UpdatePdos | nservo_config.c:80-101 | the exchange of one cycle in place |
| DoubleBuffer.DomainData.PdoSet | include/tool.h:62-70 | a console write in place |
| DoubleBuffer.DomainData.PdoGet | include/tool.h:53-60 | a console read |
| Tokenizer.ParseCmd | tool/console_tool.c:198-219 | the words are the maximal runs of non-blanks in order, and only the first separator behind each is changed |
| Tokenizer.SkipBlanks | tool/console_tool.c:205-209 | the first character that is no blank |
| Tokenizer.SkipWord | tool/console_tool.c:211-215 | the end of a run of non-blanks |
| Tokenizer.StartsAreStarts | tool/console_tool.c:204-217 | the addresses are exactly the beginnings of maximal runs of non-blanks, in increasing order |
| Tokenizer.WordsStand | tool/console_tool.c:204-217 | each address holds its word as a terminated string |
| Tokenizer.CutsAreEnds | tool/console_tool.c:204-217 | the line is cut exactly where a word ends, and every other character stays |
| Tokenizer.JoinRoundTrip | tool/console_tool.c:198-219 | splitting words joined with blanks gives the words back |
| Tokenizer.CommandRoundTrip | tool/console_tool.c:198-219 | a line of joined words leaves exactly these words behind argv |

## Left out

- Planner.Plan: a zero (or, with reals, negative) acceleration or deceleration is answered with -1; the program divides by zero there and goes on with infinities or values that are no numbers.
- CspAxis.Axis.GetNextPos: where the scaled position is outside the range of the cast to an unsigned word, C does not define the result; any word is allowed here.
- TpText.LoadParameter: numbers beyond the range of the C conversion are taken modulo 2^32; positions are unsigned words, so a negative one becomes a large one, as in the program.
- TpLoader.Load: the terminator the program writes over the closing bracket is modelled by ending the array text there; a text that ends in a blank (the scan would run past its terminator) and a scale of 0 in force before the load are excluded.
- StartUp.StaleStatusTracks: and the other results about the auto-starter's drives except `LatchIsFinal` are for fault-free drives, none of which starts enabled, for the controlword it would start with is unknown; the auto-starter has no answer to a fault. They are for cycles whose user task leaves the controlwords and the modes alone; that of the console tool copies its own outputs, both included, into the domain.
- StartUp.Task.Control: the cycle counter is unbounded.
- CspRuns.RunInvariant: requests and loads fall between cycles. In the program they are made by another thread without a lock; a load in the stopping state replaces the table while a cycle may be walking it.
- ProfilePosition.Handshake: a request falls between cycles, not inside one; the conversion of the signed velocity to the unsigned object is not modelled.
- SlaveSetup.Requests.ConfigSlave: the calls for watchdog, distributed clock, emergency size and PDO layout that follow, and the loop over slaves.
- XmlSlots.XmlCreateNewSlaves: the position of a slave is not checked against the number of slaves, so it is assumed to be below it; the content of a slave element beyond its numbers is one flag.
- XmlSlots.XmlConfigAxles: an axle index equal to the number of axles passes the program's check and is assumed not to occur; names are left out. A mode of the single letter `c`, behind whose terminator the program would read, is taken to be none.
- PointToPoint.Task.UpdateTargetPosition: coefficients are reals, not single-precision numbers; the set time and the period are not 0, for which the program divides by zero.
- DoubleBuffer.DomainData.UpdatePdos: one master; rx is taken to be large enough for the copy (it is allocated for the inputs only), and the auto-starter is off.
- Tokenizer.ParseCmd: argv is taken to have room for all words; its caller's has eight entries.
- Rounding of floating-point arithmetic, apart from the roundings the program asks for.
- The EtherCAT master, threads, clocks, sockets, signals and memory locking: their answers are inputs of the model.
- The XML library and reading files: an element is a record of what is asked of it.
- Profile velocity mode, the getters and setters generated for each object, the table of object names and offsets: they would add easy members.
- The line editor of the console, the client, the activation of masters and its rollback, the length sums of the console's buffers.
