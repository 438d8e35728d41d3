# A verified model of RealTimeBattle's deciding parts

RealTimeBattle is a robot-battle server with a bundled GNU gettext runtime.  This project models the parts of it
whose correctness takes an argument, as Dafny programs, and proves what they promise.

- **Plural expressions** (`Plural*`): the lexer, the generated parser tables and the shift/reduce driver of gettext's
  plural-expression compiler, and its evaluator.  The grammar is C's (section 6.5 of ISO/IEC 9899:1999) for the
  operators allowed.  The driver with these very tables decides this grammar and returns the right tree, and compiling
  undoes printing.  The evaluator agrees with postfix code on a stack machine, and usual rules, from their text to the
  form they choose, have the closed forms expected.
- **Message catalogues** (`Probing`, `MessageIndex`, `Sysdep*`, `Catalogue`): the double-hashed index of a
  catalogue, its extension by system-dependent strings, the lookup by table and by binary search, the two passes that
  size and then fill the memory of the system-dependent strings, and all of it together.
- **Tournaments** (`Combinations`, `Remainder`, `Schedule`, `Tournament`, `Scoring`): the schedule of sequences, the
  run loop of games and sequences, and the points for batches of simultaneous deaths.
- **Replay** (`Replay*`): playing a log forward and backward, jumping by the interval index, and which shots, cookies
  and mines then exist.
- **Collisions and motion** (`Motion`, `Contact`, `WallContact`, `WallWithEnds`, `Flight`, `Merging`, `Movers`): first
  contact of a moving disc with circles, inner circles, wall lines and whole walls, over real numbers with a given exact
  square root, the nearest collision in the arena, the flight and merging of shots and the bouncing of a robot.
- **Locale entries** (`Masks`, `Locale*`): the file names of a locale, put together from its parts and split again, and
  the sorted pool of locale entries with the less specific ones they inherit from.
- **printf formats** (`CheckedSizes`, `Interleaving`, `Format*`): the parser of formats (section 7.19.6.1 of
  ISO/IEC 9899:1999 with POSIX argument positions), its argument table, and the construction of the output.

Code that changes things step by step is modelled by methods with loops, on arrays and object fields; each is proved
against a specification, and lemmas say what the specification means.  `Basics` and `Numerals` hold what several parts
share.

## Results that differ from what one may expect

- The exchange after each complete round always permutes the rows of the first round, whatever the round
  (`Schedule.PlayRound`); the later rounds stay in lexicographic order.
- A step onward in a replay from the first frame, when that is at time zero and has been read together with the second,
  reads the second one again (`ReplayReading.StepAfterStart` with its exact condition).  One comes there by stepping
  back while paused (`ReplayReading.StepRepeatsMine` is a log on which it shows).
- Jumping agrees with playing exactly before the timeout, or if every older object dies (`ReplayIndex.JumpAgrees`).  A
  game ends at the first update past its timeout, so on its own log every jump is right
  (`ReplayReading.JumpWithinTimeout`).  A wrong jump needs a log that runs on past the timeout known to the replay, as
  when the option was raised during the tournament (`ReplayReading.JumpMissesMine`).
- Right after a jump, objects that die in the frame are missing already, which shows when the replay is rewinding
  (`ReplayIndex.JumpIsBefore`; `ReplayReading.JumpMissesShot` is a log and a jump with such a shot).
- `find_streampos_for_time` is described as finding the largest time smaller than the given one; it finds the last frame
  not after it, the first frame for earlier times, and nothing from the last frame's time on
  (`Replayer.Replay.FindStreampos`).
- The name made for a mask is split again into the parts asked for, except that a codeset without a territory is taken
  for a part of the language, a special application without an audience for the audience, and a revision without a
  sponsor brings an empty sponsor along (`LocaleReadBack.ReadBack`).  Two masks can share a name
  (`LocaleReadBack.NamesDifferIff`).
- A probe sequence visits the whole table exactly if its step is coprime to the table size
  (`Probing.ReachesAllIffCoprime`), so for a size that is neither prime nor coprime to the steps the loops may not
  end; `MessageIndex.LookupNeverEnds` is such a table.

## Model

| member | source | states |
|---|---|---|
| `PluralTables.TablesEncodeAutomaton` | intl/plural.c:163-294 | the generated tables, looked up as the skeleton does, are the automaton of seven precedence levels, and no state shifts the error token |
| `PluralTables.TablesEncodeGoto` | intl/plural.c:1109-1119 | after every reduction the goto table leads to the state for a complete operand, or to the start state for rule 1 |
| `PluralGrammar.PrettyDerives` | intl/plural.y:130-205 | printing with parentheses only where precedence asks gives a derivation at the asked level, of the same tree |
| `PluralGrammar.PrettyIsShortest` | intl/plural.y:130-205 | no derivation of the same tree at the same level has fewer tokens |
| `PluralGrammar.YieldOk` | intl/plural.c:1344-1483 | every token of a derivation is one that the lexer can produce |
| `PluralDriver.HandleOnTop` | intl/plural.c:858-1119 | whenever the automaton reduces, a right-hand side of the rule with the values its action reads lies on the stack |
| `PluralDriver.ValidShift` | intl/plural.c:930-949 | a shift keeps the stack invariant, and never shifts past the end but for the final end marker |
| `PluralDriver.StepProgress` | intl/plural.c:858-1119 | each step keeps the stack invariant and brings the run nearer to its end, so the driver ends on every input |
| `PluralDriver.RunUnfolds` | intl/plural.c:858-1119 | what the rest of the run is after each of the four actions |
| `PluralCorrect.ReadOperand` | intl/plural.c:858-1119 | from any stack that expects an operand the driver reads any derivation that fits the context, up to any lookahead that closes it, and leaves exactly its tree on the stack |
| `PluralCorrect.DriverIsComplete` | intl/plural.c:858-1119 | every token list that the C grammar derives is accepted, with the tree of the derivation |
| `PluralSound.SoundReduce` | intl/plural.c:858-1119 | a reduction turns a stack explained by derivations into one explained by derivations of the same consumed tokens |
| `PluralSound.SoundRun` | intl/plural.c:858-1119 | from any explained configuration, an accepting run returns the tree of a derivation of everything consumed and still to come |
| `PluralSound.DriverIsSound` | intl/plural.c:858-1119 | what the driver accepts is derived by the C grammar, with the tree returned |
| `PluralSound.DriverIsExact` | intl/plural.c:858-1119 | the driver returns a tree exactly for the token lists that some derivation of that tree spells |
| `PluralSound.GrammarIsUnambiguous` | intl/plural.y:130-205 | two derivations of the same tokens have the same tree |
| `PluralLexer.NextTokenAdvances` | intl/plural.c:1344-1483 | every token but the end marker consumes text and is one the parser is made for |
| `PluralLexer.Refused` | intl/plural.c:1381-1475 | the characters refused are exactly those of no operator, and an equals sign, ampersand or bar that stands alone |
| `PluralParser.NoStateHandlesError` | intl/plural.c:1245-1263 | no parser state has an action for the error token |
| `PluralParser.Recover` | intl/plural.c:1219-1263 | error recovery pops all states and fails |
| `PluralParser.HandleByPosition` | intl/plural.c:965-1085 | reading the values of an action by position on the value stack gives the values of the handle |
| `PluralParser.Reduced` | intl/plural.c:965-1119 | popping a handle and pushing by the goto table is the specified reduction |
| `PluralParser.ParseArgs.ReadNumber` | intl/plural.c:1366-1379 | a digit string is read as its value modulo the width of unsigned long |
| `PluralParser.ParseArgs.YyLex` | intl/plural.c:1344-1483 | the lexer returns the token at the cursor and moves the cursor to the text after it |
| `PluralParser.ParseArgs.Decide` | intl/plural.c:858-959 | the default action is taken without a lookahead where the tables say so; otherwise one token is read, and the action is the automaton's |
| `PluralParser.ParseArgs.YyParse` | intl/plural.c:858-1281 | the parse of the text succeeds exactly if the specified parse of its tokens does, with its tree; failures return 1 |
| `PluralText.LexRender` | intl/plural.c:1344-1483 | the tokens of a derivation, written with any blanks between them, are read back |
| `PluralText.CompileInvertsPrint` | intl/plural.c:858-1483 | compiling the printed form of any expression gives back the expression |
| `PluralForms.PluralLookup` | intl/dcigettext.c:1030-1062 | the variant chosen is the one the plural expression selects, the first if its index is out of range |
| `PluralMachine.ApplyResults` | intl/eval-plural.h:61-95 | each operator yields the one value that the rules of arithmetic for unsigned operands allow, and none exactly for a division by zero |
| `PluralMachine.EvalIsMachine` | intl/eval-plural.h:25-108 | for every expression and count the evaluator gives what postfix code with jumps leaves on a stack of words, and divides by zero exactly if that code does |
| `PluralMachine.SkippedOperands` | intl/eval-plural.h:44-104 | an operand that `&&`, `||` or `?:` does not need may divide by zero |
| `PluralRules.GermanicRule` | intl/plural.c:858-1483 | the text `n != 1;` compiles to an expression whose value is 0 for one thing and 1 otherwise |
| `PluralRules.RomanceRule` | intl/plural.c:858-1483 | the text `n > 1;`: 0 for none and one, 1 otherwise |
| `PluralRules.SlavicRule` | intl/plural.c:858-1483 | the text of the Slavic rule: 0 for 1, 21, 31 and so on, 1 for 2 to 4, 22 to 24 and so on, 2 otherwise, with the teens among these |
| `PluralRules.FormsChosen` | intl/dcigettext.c:1030-1062 | the forms that these texts choose from a translation that has all of them |
| `PluralRules.ArithmeticRule` | intl/plural.c:1381-1483 | what the signs of arithmetic mean, from their text |
| `PluralRules.ComparisonRule` | intl/plural.c:1381-1483 | what the comparisons mean, from their text |
| `PluralRules.NotRule` | intl/plural.c:1381-1483 | what negation means, and that it binds tightest |
| `PluralRules.TimesBeforePlus` | intl/plural.y:130-205 | multiplication comes before addition, on whatever side |
| `PluralRules.OrderRule` | intl/plural.y:130-205 | subtraction associates to the left; arithmetic comes before comparison, and comparison before equality |
| `Combinations.SubsetsCount` | src/ArenaRealTime.cc:1161-1164 | the number of subsets listed is the binomial coefficient |
| `Combinations.SubsetsIncreasing` | src/ArenaRealTime.cc:1178-1199 | every row listed is strictly increasing within 1..n |
| `Combinations.SubsetsComplete` | src/ArenaRealTime.cc:1178-1199 | every strictly increasing row is listed |
| `Combinations.SubsetsOrdered` | src/ArenaRealTime.cc:1178-1199 | the rows are listed in lexicographic order, so none twice |
| `Combinations.SubsetsStep` | src/ArenaRealTime.cc:1185-1193 | raising the rightmost element that can be raised leads from each listed row to the next, and such an element exists until the last row |
| `Combinations.FirstSubset` | src/ArenaRealTime.cc:1178-1179 | the first row listed is 1..k |
| `Combinations.LastSubset` | src/ArenaRealTime.cc:1178-1199 | the last row listed is the run of the k highest numbers |
| `Combinations.OnlyLastStops` | src/ArenaRealTime.cc:1181-1186 | the search for an element to raise fails in the last row, and only there |
| `Combinations.RoundIsFair` | src/ArenaRealTime.cc:1174-1199 | in a complete round all robots appear equally often |
| `Schedule.NextSubset` | src/ArenaRealTime.cc:1185-1193 | the search for the element to raise stays at 0 or above, and the step is the specified one |
| `Schedule.FillRound` | src/ArenaRealTime.cc:1178-1199 | a round writes all subsets, each once, in lexicographic order |
| `Schedule.Reorder` | src/Various.cc:160-175 | the exchanges permute the first rows and leave the others alone |
| `Schedule.PlayRound` | src/ArenaRealTime.cc:1174-1201 | a round is appended, and the exchanges after it permute the rows of the first round only |
| `Schedule.CompleteRounds` | src/ArenaRealTime.cc:1174-1201 | after all rounds the first one is a permutation of the subsets and the others are in listed order |
| `Schedule.AppearancesUnordered` | src/ArenaRealTime.cc:1200-1200 | reordering rows leaves the number of appearances of a robot alone |
| `Schedule.RoundsCount` | src/ArenaRealTime.cc:1174-1201 | over complete rounds a robot appears rounds times as often as in one |
| `Schedule.WholeIsEven` | src/ArenaRealTime.cc:1161-1235 | rounds and remainder together are as even as the remainder |
| `Schedule.MakeSchedule` | src/ArenaRealTime.cc:1161-1235 | the whole schedule: complete rounds, then rows without repeats, such that any two robots appear in numbers of sequences that differ by at most one |
| `Remainder.SomeoneIsEligible` | src/ArenaRealTime.cc:1219-1221 | at every pick an eligible robot exists, so the drawing loop can end |
| `Remainder.PickKeepsCounters` | src/ArenaRealTime.cc:1223-1230 | a pick keeps every count at the minimum or one above and the on-minimum counter exact, also when it wraps in the middle of a row |
| `Remainder.Counters.Place` | src/ArenaRealTime.cc:1219-1232 | one pick: the row grows by a robot not yet in it |
| `Remainder.Counters.DrawSequence` | src/ArenaRealTime.cc:1215-1233 | one row: distinct robots, each counted once more |
| `Remainder.FillRemainder` | src/ArenaRealTime.cc:1203-1235 | the remaining rows have no repeats, and their appearances differ by at most one |
| `Tournament.PlanIsExact` | src/ArenaRealTime.cc:807-1092 | a complete log on plan holds every game of every sequence exactly once and nothing else |
| `Tournament.Arena.LogWithinPlan` | src/ArenaRealTime.cc:807-1092 | the log never exceeds the plan, and is the whole plan at the end |
| `Tournament.Arena.StartGame` | src/ArenaRealTime.cc:807-933 | starts the next game of the sequence, or pauses if asked to |
| `Tournament.Arena.EndGame` | src/ArenaRealTime.cc:936-964 | the sequence ends with its last game, otherwise the next game starts |
| `Tournament.Arena.EndSequenceFollowUp` | src/ArenaRealTime.cc:1073-1092 | the next sequence starts, or after the last one the tournament is finished |
| `Tournament.Arena.TimeoutFunction` | src/ArenaRealTime.cc:438-541 | the state after a tick: in a game the dead are counted out, it ends if at most one robot is left or the time is up, and is otherwise paused exactly if a halt was asked for; in every other state it goes on when due |
| `Tournament.Arena.PauseGameToggle` | src/ArenaBase.cc:779-795 | a game is paused and goes on, or in a competition the next pause between games is asked for; log and progress stay |
| `Tournament.Arena.StepPausedGame` | src/ArenaBase.cc:797-805 | a paused game goes on and a halt is asked for; log and progress stay |
| `Tournament.Arena.EndGameButton` | src/ArenaRealTime.cc:936-964 | the game ends, and the sequence with its last game |
| `Tournament.Arena.InterruptTournament` | src/ArenaBase.cc:163-183 | a tournament in a game or between two is given up and finished, with the log as it is |
| `Tournament.ReactsFaithful` | src/ArenaRealTime.cc:438-541 | an event that reacts as the tick and the buttons do continues a run in which every count of robots and every end of a game is right |
| `Tournament.EndsInFirst` | src/ArenaRealTime.cc:438-541 | over any ticks from the start of a game, it goes on exactly as long as after each of them the robots of the game less all those killed since are more than one and the time is not up |
| `Tournament.RunTournament` | src/ArenaRealTime.cc:438-541 | any run stays on plan; one that comes to its end has played exactly the planned games in order, no run has more due ticks than the tournament has phases; and at every moment of a game the robots counted are those of the game less all killed since it began, it ends in a tick exactly if that leaves at most one or the time is up, and is otherwise paused exactly if a halt was asked for |
| `Scoring.SettleKeepsBalance` | src/ArenaRealTime.cc:665-702 | after any batch of deaths the robots left are those counted, points given so far are what the places below are worth, and each place is one more than the number of robots that outlive the holder |
| `Scoring.FinishBalance` | src/ArenaRealTime.cc:936-951 | the same when the game is ended with robots still counted |
| `Scoring.BatchWorth` | src/Robot.cc:536-553 | the points of a batch are those that its members would get one after the other |
| `Scoring.TimeoutWorth` | src/Robot.cc:536-553 | the points of the last batch, with the doubled adjustment, complete the total (N-d+1)(N+d)/2 |
| `Scoring.LastOneStanding` | src/ArenaRealTime.cc:936-951 | with at most one robot counted at the end the total is N(N+1)/2 |
| `Scoring.Robot.SetStats` | src/Robot.cc:536-566 | points and place of a robot by the robots left and those killed with it |
| `Scoring.Game.Kill` | src/Robot.cc:516-533 | a death keeps the books balanced |
| `Scoring.Game.UpdateRobots` | src/ArenaRealTime.cc:665-702 | an update takes the dead off the list, counts them out and settles exactly them |
| `Scoring.Game.EndGame` | src/ArenaRealTime.cc:936-951 | everybody still counted dies and is settled, all places are right and the total is as stated |
| `Scoring.PlayGame` | src/ArenaRealTime.cc:646-702 | any pattern of deaths and updates: in the end everybody has one award, with the right place, and the total is as stated |
| `Probing.StepIsAddition` | intl/dcigettext.c:777-781 | the wrapping step is addition modulo the table size, without overflow |
| `Probing.PrimeSizeIsCoprime` | intl/dcigettext.c:755-757 | for a prime size above 2 every step is coprime to the size |
| `Probing.CoprimeFullPeriod` | intl/dcigettext.c:755-781 | a coprime step returns to its slot after the whole table only |
| `Probing.SlotsDistinct` | intl/dcigettext.c:755-781 | within a period no slot is visited twice |
| `Probing.EverySlotReached` | intl/dcigettext.c:755-781 | a coprime step visits every slot |
| `Probing.CommonDivisorMisses` | intl/dcigettext.c:755-781 | a step with a common divisor misses a slot |
| `Probing.ReachesAllIffCoprime` | intl/dcigettext.c:755-781 | a probe sequence visits every slot exactly if its step is coprime to the size |
| `MessageIndex.ComputeHash` | intl/hash-string.h:29-48 | the hash loop computes the specified fold, which for these widths is hashpjw |
| `MessageIndex.HashGrows` | intl/hash-string.h:37-46 | one byte more makes the 32-bit hash sixteen times itself plus the byte, with the top four bits of this taken off and added without carry to the second digit |
| `MessageIndex.ScanMeaning` | intl/dcigettext.c:738-811 | the linear scan finds the first equal key, or nothing exactly if there is none |
| `MessageIndex.LengthTestIsSafe` | intl/dcigettext.c:764-775 | comparing lengths before strings decides equality of the strings, the sysdep part included |
| `MessageIndex.StopDecides` | intl/dcigettext.c:752-784 | in a well-formed table, stopping at an empty slot or at an equal key gives the answer of the linear scan |
| `MessageIndex.FindInTable` | intl/dcigettext.c:745-784 | hash lookup ends and gives the answer of the linear scan |
| `MessageIndex.InsertKeepsIndex` | intl/loadmsgcat.c:1329-1342 | filling the first free slot of a new key's probe sequence keeps the table well formed |
| `MessageIndex.FindFree` | intl/loadmsgcat.c:1323-1342 | the search for a free slot ends at the first one of the probe sequence |
| `MessageIndex.Insert` | intl/loadmsgcat.c:1321-1343 | an insertion keeps the index and takes one free slot |
| `MessageIndex.Augment` | intl/loadmsgcat.c:1317-1343 | the augmented table indexes the static and the added keys |
| `MessageIndex.LoadAndFind` | intl/loadmsgcat.c:1317-1343 | loading any system-dependent keys into a well-formed table with a free slot left and a size coprime to the steps, lookup of any msgid gives the answer of the linear scan |
| `MessageIndex.HashIsPortable` | intl/hash-string.h:29-48 | the 28-bit value that indexes the table is the same whether unsigned long has 32 or 64 bits |
| `MessageIndex.LookupNeverEnds` | intl/dcigettext.c:752-784 | a well-formed table of four slots, two of them free, on which the probes of a key find neither a free slot nor the key, ever |
| `MessageIndex.StrcmpIsOrder` | intl/dcigettext.c:786-811 | strcmp is a strict total order |
| `MessageIndex.FindBySearch` | intl/dcigettext.c:786-811 | on sorted keys the binary search gives the answer of the linear scan |
| `Catalogue.Translate` | intl/loadmsgcat.c:1118-1345 | sizing, filling, extending the table and looking up together: a file is refused exactly if in some pair the first offending segment that counts is a reference out of range, and otherwise a message gets the translation that stands, in its meaning on this system, at the number of the first original equal to it |
| `Catalogue.AnswerOfOwn` | intl/loadmsgcat.c:1183-1315 | a system-dependent original that occurs once is translated by the translation of its own pair |
| `SysdepSegments.JudgeByFirst` | intl/loadmsgcat.c:1136-1166 | a string is corrupt, dropped or good exactly if the first segment that is not a reference to a piece of this system is a reference out of range, one to an undefined piece, or the end mark |
| `SysdepSegments.JudgePairByFirst` | intl/loadmsgcat.c:1120-1170 | of a pair the translation counts only if the original is good |
| `SysdepSegments.GoodPairsByFirst` | intl/loadmsgcat.c:1118-1178 | the pairs kept are those whose strings both reach their end mark, in the order of the file |
| `SysdepSegments.MeaningBySegments` | intl/loadmsgcat.c:1272-1308 | where each static piece and each piece of the system stands in the text of a good string, without a gap, and nothing behind the end mark |
| `SysdepStrings.SizeString` | intl/loadmsgcat.c:1124-1176 | the sizing pass gives the verdict on a string by its first offending segment, and adds up the size of a good one exactly |
| `SysdepStrings.SizingPass` | intl/loadmsgcat.c:1118-1181 | the number of good pairs and the memory for tables and strings, or a refusal exactly if a reference dangles in an original or in the translation of a good one |
| `SysdepStrings.CheckString` | intl/loadmsgcat.c:1209-1255 | the filling pass judges strings as the sizing pass does |
| `SysdepStrings.FillSegments` | intl/loadmsgcat.c:1272-1308 | a string of several segments is stored as the concatenation of its static and expanded segments |
| `SysdepStrings.FillString` | intl/loadmsgcat.c:1258-1309 | a stored string is its meaning, and takes exactly the size computed for it |
| `SysdepStrings.NeedsGrow` | intl/loadmsgcat.c:1118-1181 | the sizes of the pairs so far never exceed the total |
| `SysdepStrings.FillingPass` | intl/loadmsgcat.c:1183-1315 | as many pairs are stored as were counted, so the abort is unreachable; every descriptor points at the meaning of its string, and the allocation is used up exactly |
| `ReplayLog.ForwardMember` | src/ArenaReplay.cc:457-610 | after a frame an object exists if it was born and did not die in it, or existed before and did not die |
| `ReplayLog.BackwardMember` | src/ArenaReplay.cc:613-745 | what reading the same lines backward does to an object |
| `ReplayLog.PlayedMeaning` | src/ArenaReplay.cc:193-216 | after playing some frames exactly the objects born and not dead exist |
| `ReplayLog.BackwardUndoesForward` | src/ArenaReplay.cc:613-745 | reading a frame backward restores what existed before it, also for objects born and killed in it |
| `ReplayIndex.LivesMeaning` | src/ArenaReplay.cc:1282-1448 | the index holds exactly the objects born, with the time of birth, and of death or else the timeout |
| `ReplayIndex.AliveAtMeaning` | src/ArenaReplay.cc:1011-1041 | which objects the index counts as existing at the time of a frame |
| `ReplayIndex.JumpAgrees` | src/ArenaReplay.cc:925-945 | rebuilding at a frame and playing it gives what playing from the start gives, exactly if the frame is before the timeout or every older object dies |
| `ReplayIndex.JumpIsBefore` | src/ArenaReplay.cc:950-1043 | the rebuilt lists are those from before the frame, exactly if none of the older objects dies in it or outlives the log past the timeout |
| `ReplayLists.PlayHolds` | src/ArenaReplay.cc:457-610 | the lists hold each live object once, through all lines of a frame |
| `ReplayLists.UnplayHolds` | src/ArenaReplay.cc:613-745 | the same reading backward |
| `ReplayReading.PlayFromHolds` | src/ArenaReplay.cc:193-216 | reading a time index forward leads from the objects before it to those after it, also when the frame at time zero is read together with the next |
| `ReplayReading.JumpHolds` | src/ArenaReplay.cc:925-945 | the lists after a jump and the next time index are right, exactly under the condition of JumpAgrees |
| `ReplayReading.IndexTellsOlder` | src/ArenaReplay.cc:717-740 | the test of end time against start time tells the objects born before the frame from those born in it |
| `ReplayReading.UnplayFromHolds` | src/ArenaReplay.cc:613-745 | reading a time index backward leads back to the objects before it |
| `ReplayReading.StepAfterStart` | src/ArenaReplay.cc:862-890 | a step onward from the merged start reads a frame twice, which keeps the lists right exactly if everything created in that frame dies in it |
| `ReplayReading.StepRepeatsMine` | src/ArenaReplay.cc:862-890 | a log on which a step onward, after stepping back to the first frame, puts a mine into the list twice |
| `ReplayReading.JumpWithinTimeout` | src/ArenaReplay.cc:925-945 | on a log that does not run on past the timeout, playing on from any jump gives what playing from the start gives |
| `ReplayReading.JumpMissesMine` | src/ArenaReplay.cc:925-945 | a log that runs past its timeout, and a jump on it from whose landing frame playing on leaves out a mine |
| `ReplayReading.JumpMissesShot` | src/ArenaReplay.cc:950-1043 | a log and a jump on it whose lists lack a shot that still exists before the landing frame |
| `Replayer.Replay.BuildIndex` | src/ArenaReplay.cc:1282-1448 | building the index gives one entry per object with the right times |
| `Replayer.Replay.ParseLineForward` | src/ArenaReplay.cc:457-610 | a line read forward |
| `Replayer.Replay.ParseLineRewind` | src/ArenaReplay.cc:613-745 | a line read backward, by the index |
| `Replayer.Replay.ParseThisTimeIndex` | src/ArenaReplay.cc:193-216 | reading a time index in either direction, with the position and time it leaves |
| `Replayer.Replay.FindStreampos` | src/ArenaReplay.cc:1453-1463 | the last frame not after the time, or the first; none from the last frame's time on |
| `Replayer.Replay.StepForward` | src/ArenaReplay.cc:863-905 | moves by frames from the one found for the current time, if there is one |
| `Replayer.Replay.ChangeSpeed` | src/ArenaReplay.cc:791-812 | changing speed or direction keeps frame and lists in step |
| `Replayer.Replay.PlayUntil` | src/ArenaReplay.cc:157-165 | playing up to a time keeps the lists those of the frames played, and goes no further than needed |
| `Replayer.Replay.RewindUntil` | src/ArenaReplay.cc:166-173 | rewinding down to a time, over any number of frames, likewise |
| `Replayer.Replay.StepOnward` | src/ArenaReplay.cc:862-912 | one frame onward, with the exact result at a merged start; at the end of the log nothing is read |
| `Replayer.Replay.StepBackward` | src/ArenaReplay.cc:908-923 | one frame back: the lists are those of the frame before |
| `Replayer.Replay.RecreateLists` | src/ArenaReplay.cc:950-1043 | the lists are refilled with exactly the objects that the index counts as existing |
| `Replayer.Replay.ChangeReplayTime` | src/ArenaReplay.cc:926-945 | a jump lands one frame before the one found; playing on is right exactly under the condition of JumpAgrees |
| `Contact.CircleContactIsFirst` | src/GeometricalObjects.cc:164-174 | from outside a circle the time returned is the first touch, and "infinity" means that the disc stays outside for ever |
| `Contact.CircleContactOverlapping` | src/GeometricalObjects.cc:164-174 | an overlapping disc hits at once if it approaches, otherwise never |
| `Contact.InnerContactIsFirst` | src/GeometricalObjects.cc:227-236 | from inside an inner circle the time returned is the first touch, and "infinity" means that the disc does not move |
| `WallContact.LineContactIsStrip` | src/GeometricalObjects.cc:67-94 | the terms of the source are the time of entry into the wall's strip and the projection at that time |
| `WallContact.LineContactIsEntry` | src/GeometricalObjects.cc:67-94 | from outside the strip a contact is returned exactly for the moment at which the centre comes to distance size + thickness over the wall |
| `WallContact.LineContactOverlapping` | src/GeometricalObjects.cc:67-94 | within the strip the contact is immediate, exactly if the disc heads for the middle line and projects on the wall now and where it came in |
| `WallWithEnds.FreeByParts` | src/GeometricalObjects.cc:67-94 | being further than the reach from every point of the line is being clear of both end circles and not over the line within reach |
| `WallWithEnds.ComesOver` | src/GeometricalObjects.cc:67-94 | a straight flight gets over the line through its side or over an end |
| `WallWithEnds.WallContactIsFirst` | src/GeometricalObjects.cc:67-94 | for a disc free of a wall and of the circles at its two ends, the soonest of the three contact times is the first moment at which the disc touches the wall, and before it, or for ever if there is none, the disc stays free |
| `Flight.GetShortestDistance` | src/ArenaBase.cc:634-660 | the minimum over all bodies but the robot itself, and the first body that attains it |
| `Flight.FlightIsFree` | src/Shot.cc:47-57 | before the time found, a flight enters no circle, leaves no inner circle and does not come into the strip over a wall line from outside |
| `Flight.ShotMissesItself` | src/Shot.cc:47-57 | a shot does not collide with itself, although it is in the list searched |
| `Merging.MergesIff` | src/Shot.cc:136-157 | two shots merge exactly if the square of their velocities weighted by energy reaches that of half the speed of a shot with both energies, and the energies directed along that sum reach the least energy of a shot |
| `Merging.MergeKeeps` | src/Shot.cc:136-157 | the merged shot has the mean velocity of the two, weighted by their energies; its energy is at least the required one and at most the sum, which it reaches only if both flew in the same direction; the merged shot is fast enough and can merge again |
| `Movers.Shot.Move` | src/Shot.cc:47-101 | a shot with nothing nearer flies for the whole time step, enters no circle, leaves no inner circle and stays free of every wall with end circles; otherwise the nearest body is hit, which ends the shot unless it is a shot with which it merges |
| `Movers.Shot.Collide` | src/Shot.cc:128-157 | the shot takes on velocity, energy and number of the merged one, or dies |
| `Movers.WallsAreFree` | src/ArenaBase.cc:634-660 | the nearest of all contacts bounds the flight free of every wall with end circles |
| `Movers.Robot.Move` | src/Robot.cc:970-979 | a move consists of legs to the nearest body, at most 60 of them, never reaches the bounce limit, and lasts at most a fiftieth longer than the time step |
| `Movers.Robot.MoveFor` | src/Robot.cc:982-1060 | the same from any iteration on |
| `Movers.Robot.Collide` | src/Robot.cc:994-1016 | the time of a leg, and what is left |
| `Masks.ChosenExactly` | intl/l10nflist.c:333-336 | the masks gone through are exactly the admissible submasks |
| `Masks.ChosenFalls` | intl/l10nflist.c:333-333 | in strictly falling order |
| `Masks.SubmasksArePower` | intl/l10nflist.c:301-301 | a mask has two to the number of its bits submasks |
| `Masks.ChosenFit` | intl/l10nflist.c:298-302 | the fallback masks never outnumber the submasks, nor the proper ones when the mask itself is left out |
| `Masks.PopWordCounts` | intl/l10nflist.c:155-165 | the shifts and sums of pop count the bits of any 16-bit mask, the count that bounds the pool |
| `Masks.SubmaskIsUnder` | intl/l10nflist.c:334-334 | a submask is exactly what the word test against the complement lets through |
| `Masks.AdmissibleByWord` | intl/l10nflist.c:335-336 | an admissible mask is exactly what the tests of its word against the bits of the two syntaxes and of the two codesets let through |
| `LocaleNames.ArgzCount` | intl/l10nflist.c:87-99 | the number of strings in the vector |
| `LocaleNames.ArgzStringify` | intl/l10nflist.c:111-122 | all terminators but the last become separators, in place |
| `LocaleFile.RoomIsExact` | intl/l10nflist.c:190-210 | the bytes allocated are exactly those of the name and its terminator |
| `LocaleFile.StpCpy` | intl/l10nflist.c:415-420 | copies a string and its terminator |
| `LocaleFile.PutPlace` | intl/l10nflist.c:217-223 | the directories with separators and a final slash |
| `LocaleFile.MakeName` | intl/l10nflist.c:190-267 | every write stays within the buffer, which holds exactly the name and its terminator |
| `LocaleReader.ReadXpg` | intl/explodename.c:91-131 | territory, codeset and a modifier after an at sign, cut off in place |
| `LocaleReader.ReadCen` | intl/explodename.c:122-166 | audience, special application, sponsor and revision, cut off in place; nothing is left over |
| `LocaleReader.ReadMask` | intl/explodename.c:88-185 | the bits of the parts found; in the XPG syntax only of those that are not empty |
| `LocaleReader.ExplodeName` | intl/explodename.c:52-185 | a name is split in its buffer into C strings, one for each part |
| `LocaleReadBack.FoundIsRead` | intl/l10nflist.c:225-261 | what splitting finds in the name made for any admissible mask |
| `LocaleReadBack.ReadBack` | intl/l10nflist.c:225-261 | the name is split into the language and exactly the parts that the mask asks for, if and only if a codeset has a territory before it, a special application an audience, and a revision a sponsor |
| `LocaleReadBack.NamesDifferIff` | intl/l10nflist.c:225-261 | different masks give different file names exactly if the normalised codeset differs from the codeset, the special application from the audience, and the sponsor is not empty |
| `LocaleReadBack.GermanXpg` | intl/l10nflist.c:225-245 | two names of the XPG syntax, byte by byte |
| `LocaleReadBack.GermanCen` | intl/l10nflist.c:225-261 | a name of the CEN syntax, byte by byte |
| `LocalePool.DownExactly` | intl/l10nflist.c:333-357 | the entries to inherit from are exactly the admissible submasks, with each directory if there are several |
| `LocalePool.DownFalls` | intl/l10nflist.c:333-357 | in falling order of their masks |
| `LocalePool.FallbacksExactly` | intl/l10nflist.c:333-357 | with several directories every admissible submask in each of them, otherwise every proper one |
| `LocalePool.PoolNameBegins` | intl/l10nflist.c:184-225 | an absolute language stands at the front of the name, any other behind the directories |
| `LocalePool.FallbacksFit` | intl/l10nflist.c:298-302 | the fallbacks are at most directories times two to the bits of the mask, and the pointers allocated hold them and the null pointer |
| `LocalePool.FallsOnlyOne` | intl/l10nflist.c:271-287 | the pool has at most one entry of a name |
| `LocalePool.Pool.Find` | intl/l10nflist.c:271-287 | the search of the falling list finds the name, or the place where it belongs |
| `LocalePool.Pool.Insert` | intl/l10nflist.c:289-318 | a new entry is spliced into its place and keeps the list strictly falling |
| `LocalePool.Pool.Splice` | intl/l10nflist.c:317-318 | the link that led to the place leads to the new entry, and its link to what came there |
| `LocalePool.Pool.MakeList` | intl/l10nflist.c:168-361 | the list stays strictly falling through the recursion, an existing entry is returned as it is, the only one of its name, and a new one has exactly its fallbacks as successors |
| `LocalePool.Pool.FillMask` | intl/l10nflist.c:333-357 | one mask of the loop: a successor for each directory |
| `CheckedSizes.Xsum` | intl/xsize.h:57-61 | the sum, or SIZE_MAX if it is too large |
| `CheckedSizes.Xsum4` | intl/xsize.h:78-82 | the sum of four, likewise |
| `CheckedSizes.Xtimes` | intl/xsize.h:99-100 | the product, or SIZE_MAX if it is too large |
| `CheckedSizes.ReadNumber` | intl/printf-parse.c:145-146 | the saturating fold gives the decimal value, or SIZE_MAX |
| `CheckedSizes.CheckPosition` | intl/printf-parse.c:143-153 | positions are accepted exactly if their value lies in 1..SIZE_MAX-1 |
| `FormatSyntax.ReadIsSound` | intl/printf-parse.c:134-482 | what is read from the front of a text is a directive that stands there |
| `FormatSyntax.ReadIsComplete` | intl/printf-parse.c:134-482 | every well-formed directive is read back as written, whatever follows |
| `FormatSyntax.TwoDirectives` | intl/printf-parse.c:134-482 | how two given texts are read, field by field |
| `Interleaving.SplitIsUnique` | intl/printf-parse.c:115-524 | a text can be split into literal stretches and items in one way only |
| `Interleaving.SplitMustGoOn` | intl/printf-parse.c:115-524 | a text that has begun with some pieces can only go on with the item read next |
| `FormatMeaning.FormatIsUnambiguous` | intl/printf-parse.c:115-524 | a format can be understood in one way only |
| `FormatMeaning.TableIsDetermined` | intl/printf-parse.c:83-113 | the uses determine the argument table |
| `FormatMeaning.TableIsConsistent` | intl/printf-parse.c:108-112 | no table fits uses of one argument under two types |
| `FormatArguments.NewLength` | intl/printf-parse.c:91-97 | the grown table has room for the index and its size does not overflow |
| `FormatArguments.Arguments.Register` | intl/printf-parse.c:83-113 | registering a use extends the table by it, and fails only for another type or an overlong table |
| `FormatArguments.FetchArgs` | intl/printf-args.c:30-119 | fetching succeeds exactly if every position up to the highest is used |
| `FormatScan.ScanPosition` | intl/printf-parse.c:134-156 | the position before a dollar sign, or none |
| `FormatScan.ScanWidth` | intl/printf-parse.c:195-247 | the width, its text and its argument number |
| `FormatScan.ScanPrecision` | intl/printf-parse.c:249-306 | the precision likewise |
| `FormatScan.ScanSize` | intl/printf-parse.c:308-381 | the size letters, folded into flags |
| `FormatScan.ScanDirective` | intl/printf-parse.c:134-482 | a directive is read exactly if a valid one stands at the cursor |
| `FormatRecords.MustGoOn` | intl/printf-parse.c:115-524 | every way of splitting a format goes on with the directive read at its percent sign |
| `FormatRecords.LongestMore` | intl/printf-parse.c:201-202 | the maxima kept are the greatest lengths of a width and of a precision |
| `FormatParser.Claim` | intl/printf-parse.c:226-234 | takes the numbered argument or the next one |
| `FormatParser.ClaimAll` | intl/printf-parse.c:195-499 | the arguments of width, precision and conversion in this order, and the record of the directive |
| `FormatParser.Directives.Append` | intl/printf-parse.c:501-517 | there is always room for the next directive |
| `FormatParser.ParseOne` | intl/printf-parse.c:118-518 | one directive: it is recorded, or the format is not acceptable |
| `FormatParser.Parse` | intl/printf-parse.c:115-531 | on success literal text and directives make up the format, no argument is taken in two classes or widths, the table has each under its type, and every argument number recorded is in the table under the type its directive asks for; on failure no way of understanding the format is acceptable |
| `FormatTypes.TypeIsWritten` | intl/printf-parse.c:308-482 | every directive takes its argument as of the class of its conversion letter, and of the width that its size letters write, in whatever order |
| `FormatTypes.StandardSizes` | intl/printf-parse.c:308-381 | the bytes of an integer under each size of the standard |
| `FormatTypes.MayShare` | intl/printf-parse.c:386-482 | two directives may take one argument exactly if their conversions are of one class and their letters write one width |
| `FormatTypes.ConsistentByLetters` | intl/printf-parse.c:83-113 | the uses of a format agree exactly if no argument is taken in two classes or widths, those of width and precision included |
| `FormatTypes.HopelessByLetters` | intl/printf-parse.c:83-113 | a format refused takes an argument in two ways, or is too large |
| `FormatTypes.FirstArgument` | intl/printf-parse.c:143-153 | numbered arguments count from one |
| `FormatTypes.RecordInOrder` | intl/printf-parse.c:195-499 | without positions a directive takes the argument of its width, then of its precision, then its own |
| `FormatTypes.UsesInOrder` | intl/printf-parse.c:195-499 | in a format without positions the arguments are taken one after another |
| `FormatResolved.UsesOfPiece` | intl/printf-parse.c:195-499 | whatever a directive takes is among the uses that make up the argument table |
| `FormatResolved.EntriesResolve` | intl/printf-parse.c:83-113 | every argument number recorded is in the table, under the one type its directive asks for; a directive has a number for each argument it takes, and none exactly if it is a percent sign |
| `FormatResolved.ParsedFits` | intl/printf-parse.c:252-306 | the longest width and precision bound every directive of the format |
| `FormatRebuilt.DirectivesFit` | intl/vasnprintf.c:147-148 | of every parsed format each directive, rebuilt with the type of its argument, takes at most 7 + width + precision + 6 characters |
| `FormatRebuilt.RebuiltFits` | intl/vasnprintf.c:147-148 | the bound is met exactly if the longest fields, all flags and two size letters come together |
| `FormatRebuilt.PutDirective` | intl/vasnprintf.c:503-560 | what is written into the scratch buffer, within its bounds |
| `FormatRebuilt.Rebuild` | intl/vasnprintf.c:503-580 | every directive of a parsed format is rebuilt within the scratch buffer, with the type from the table; none of the checks of argument numbers and types can fail |
| `FormatRebuilt.RebuiltMeans` | intl/vasnprintf.c:503-560 | the rebuilt directive is read as the original one without argument positions, flags in order, and takes its argument as of the type in the table, small integers widened |
| `FormatRebuilt.FlagsKept` | intl/vasnprintf.c:507-518 | the flags put out are those written, each once |
| `FormatRebuilt.RebuiltType` | intl/vasnprintf.c:530-556 | the size letters written back stand for the type registered, small integers widened |
| `FormatPrinting.AllUsedByTable` | intl/printf-args.c:60-119 | the table has a type at every position exactly if no argument is left out below the highest one |
| `FormatPrinting.SameOutput` | intl/vasnprintf.c:503-560 | what the library is given depends on the directives of the format only |
| `FormatPrinting.Print` | intl/vasnprintf.c:112-871 | success means a well-formed format that takes no argument in two classes or widths and leaves none out, and the result is its literal text with what the library prints for its directives in their places; failure means a format that cannot be accepted, an argument left out, or too long a text |
| `FormatLiteral.WovenLast` | intl/vasnprintf.c:222-257 | what a further directive adds: a percent sign for a doubled one, nothing for a count, and otherwise what the library prints |
| `FormatLiteral.EscapedPrints` | intl/vasnprintf.c:207-257 | any text is printed by the format that doubles its percent signs, which takes no arguments |
| `FormatOutput.Output.EnsureAllocation` | intl/vasnprintf.c:184-205 | the result keeps its text, and has room for what is needed |
| `FormatOutput.Output.Append` | intl/vasnprintf.c:207-217 | text is appended |
| `FormatOutput.Execute` | intl/vasnprintf.c:222-257 | the output of one directive |
| `FormatOutput.Produce` | intl/vasnprintf.c:207-851 | the result is the literal text of the format with what the library prints for the rebuilt directives in their places, and a terminator; it fails only if this text is too long to be held, or the scratch buffer |

## Left out

- Windows, drawing, sockets, pipes, processes, files and clocks: what they decide is a parameter (which robots die in a
  tick, whether a time is over, which random index is drawn).
- A failing start of a game, and robots that do not start: the tournament model begins each game with all robots.
- The tournament's random draws: any index in range; `nr` as computed at line 1220 of `src/ArenaRealTime.cc` can also give the upper end.
- `binomial` in `double` with its cut at `INT_MAX`: the schedule uses the exact coefficient.
- The parser stack limit of 10000 entries: the stack is unbounded.
- Division by zero in `plural_eval`: an outcome of its own, without the signal.
- Byte order of catalogue files: the words of the tables are taken as already swapped.
- Memory exhaustion: allocations succeed unless their size overflows.
- Replayed positions and robots: only the identities of shots, cookies and mines are claimed.
- The log of several games: the frames of the last game; in any other the last time index also reads on into the next game.
- Rounding, also of replay times stored as `float`: real numbers.
- `Arc` shapes, and angles: transcendental functions.
- `InnerContactIsFirst`: a disc that starts outside an inner circle, where the source takes the root of a negative number, is not covered.
- `Movers.Robot.MoveFor`: what a collision does (the new velocity, the displacement, whether the robot survives) is given by the scene of the iteration; the bounce formulas are not modelled.
- `Movers.Shot.Move`: the effects on the other body are not modelled (a robot's loss of energy, the end of the other shot, cookie or mine); the shots have some energy and speed, as the source divides by both.
- `move_shots`: the removal of dead shots from the list while it is walked.
- `LocalePool.Pool.MakeList`: the number of directories is that of the list, with `LocaleNames.ArgzCount` proved on its own.
- `FormatParser.Parse`: failure is traced to an ill-formed format, a clash of types or sizes of at least half the address range, not to the exact doubling at which an allocation overflows; a directive is scanned to its end before its arguments are registered.
- `FormatOutput.Output.EnsureAllocation`: the same for the result.
- The calls of `snprintf` and the repeated attempts around them: what the library prints is a function of the directive's number and the rebuilt directive; the count stored by `%n` is not modelled.
- `LocaleReader.ExplodeName`: the normalised codeset and its bit are not computed, as the normalisation is not modelled.
- Wide-character variants and other `#ifdef` alternatives: `long` has 64 bits, `int` 32, and `long long`, `long double`, `wint_t` and `intmax_t` exist.
