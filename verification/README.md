# Verified model of the crabcc command line's own algorithms

crabcc is a command-line front end to a symbol index. Most of it moves data between libraries; this
project models the parts that are algorithms or protocols of its own, and proves what they keep over
every input, every run or every interleaving.

- **Onboarding** (`Onboarding.dfy`, `LeadershipSplit.dfy`, `SecondLead.dfy`, `OnboardingCode.dfy`, `InjectSlots.dfy`).
  Agents elect a leader through one lock file, publish a done marker and take stale locks over; hooks claim a bounded
  number of injection slots. Both are step relations over any number of processes, with crashes and failing file operations as
  explicit steps. The code of one process is a class whose ghost history is a run of the relation.
- **Shell rewriter** (`ShellText.dfy`, `Rewriter.dfy`, `Planner.dfy`, `RewriteLaws.dfy`, `PlanRules.dfy`,
  `PlanCommand.dfy`). A tokenizer, a quoting printer, a flag parser and the rules from grep, find, cat and follows to
  cheaper commands, against a reader for the quoting rules of the POSIX.1-2017 Shell Command Language.
- **Dates and delays** (`Calendar.dfy`, `Timestamp.dfy`, `RemindDelay.dfy`). RFC 3339 text to epoch
  seconds by closed-form arithmetic, against counting single days; durations such as `1h30m`.
- **FSST** (`Fsst.dfy`, `FsstFile.dfy`, `Rebuild.dfy`, `CompressRuns.dfy`). The stream guard in its scalar and its
  32-lane form, the decode loop it protects, the table file, the batched re-encoding of the symbol rows, and what
  readers see after several runs, each of which trains a table of its own.
- **Edits and filters** (`Edit.dfy`, `Squeeze.dfy`, `Elements.dfy`). Line splices with CRLF handling,
  run-length squeezing with an error-keeping window, nested-tag extraction.
- **Stores and policies** (`RewriteLog.dfy`, `Netlog.dfy`, `Retention.dfy`, `Backup.dfy`, `MorphCache.dfy`). The
  measure-and-suppress tables, the egress allowlist, snapshots with retention and restore, cache eviction.
- **Context assembly** (`Utf8.dfy`, `Enrich.dfy`). Cuts on character boundaries and the byte budget.

`Results.dfy`, `Sets.dfy`, `Text.dfy` and `Decimal.dfy` hold what several of these share. Loops of the source are
methods with loop invariants, proved equal to specification functions or to independent properties;
objects and tables that change in place are classes. `dafny verify dfyconfig.toml` checks everything.

What happens outside a process enters as parameters: whether a file operation succeeds, which row order
the database scans, which removals the system allows, what a redirecting server answers, which matches the
FSST trainer and encoder choose, which names are indexed symbols, what the clock shows.

## Where the code and its comments differ

The model follows the code.

- `init_cmd.rs:86-92` says a fresh leader's lock is never unlinked and that a lost race still leaves one
  leader. `RaceSplitsLeadership` is a run with two live leaders in which every staleness verdict was right, and
  `SlowLeaderSplitsLeadership` one in which every unlink hit the lock it was aimed at. `LeadershipSplitsIff` says
  exactly which runs have two live leaders.
- `init_cmd.rs:49-53` says exactly one agent does the research. The marker is not looked at between winning the lock
  and leading, so another agent that looked too early leads as well once the leftover lock has been taken away, even
  when no two agents ever lead at once (`ResearchIsDoneTwice`, `SecondLeadIff`).
- `shell_rewrite.rs:27-28` says to rewrite only when certain. Patterns, comments, tildes and white space other than
  blanks outside quotes are not metacharacters to the tokenizer, so such commands are rewritten although a shell reads
  other words in them (`ShellReadsSameIff`, `PatternIsNotExpanded`). Of `-h` and `-H` grep obeys the last one, while
  the rewrite puts `--no-filename` last (`shell_rewrite.rs:490-495`, `GrepRequestSurvives`, `FlippedNamesAreLost`).
- `compress.rs:228` makes the AVX2 guard refuse every non-empty stream when the table has no symbols; the scalar
  guard accepts escape pairs. With an empty table a processor with AVX2 then loses what it compressed
  (`GuardsAgreeIff`, `DecompressOfCompressIff`, `ConvertKeepsViewIff`).
- `memory.rs:228` promises None for anything malformed. Accepted all the same are texts with anything at bytes 13 and
  16, with anything after the zone, with signs in the fields, and with fields outside their ranges, and no others
  (`MalformedAcceptedIff`).
- `compress_cmd.rs:66-76` trains a new table and overwrites the one on disk in every run, with or without `--rebuild`,
  while rows encoded earlier keep their streams; readers then decode those with the wrong table
  (`RetrainingGarblesARow`, `RunKeepsViewsIff`). The totals that `--stats` calls exact are those of the last finished
  run only (`MetaAfterResumeIff`).
- `edit.rs:202-210` promises the rest of the file byte for byte, which holds (`OutsideIsUnchanged`); that two
  edits can be made in either order does not hold for files with mixed line endings (`SplicesCommuteIff`).
- `squeeze.rs:68` treats the `\r` of a CRLF line as a redraw, so such a line leaves an empty frame, and an error line
  survives exactly when it holds no `\r` (`CrlfLineIsLost`, `SignalLineSurvivesIff`). A frame that imitates a repeat
  marker can break idempotence (`SqueezeIsIdempotentIff`), and a fired window can print more than it was given.
- `backup.rs:338` says links are skipped. `is_dir` and `is_file` follow links, so a link is copied as what it
  points to, exactly when it ends at a file or directory (`LinkIsCopiedAsItsTarget`).
- `enrich_cmd.rs:100` gives the top hit the larger share. The doubling wraps for budgets from 2^61 tokens on, and
  then it gets the smaller one (`PrimaryShareIsLargerIff`).
- `netlog.rs:249` speaks of more than ten redirects; the cap counts earlier requests, so a chain makes at most ten
  requests, nine of them redirects (`Request`).

## Model

| member | source | states |
|---|---|---|
| Onboarding.LockFileIsCounted | crates/crabcc-cli/src/init_cmd.rs:62-114 | In every interleaving, with crashes and takeovers, successful creates minus successful unlinks is 1 if the lock file exists and 0 otherwise; `.done` exists only after some lead returned Ok |
| Onboarding.StepKeepsLedger | crates/crabcc-cli/src/init_cmd.rs:62-114 | Every step keeps: counts match the file, every leader holds a lock number really handed out, and no two leaders hold the same one |
| Onboarding.OneLeaderWithoutTakeover | crates/crabcc-cli/src/init_cmd.rs:62-85 | As long as no action took a lock file away as stale, at most one agent is inside the lead and at most one lead ever succeeds |
| LeadershipSplit.LeadershipSplitsIff | crates/crabcc-cli/src/init_cmd.rs:62-114 | Over whole runs: some state has two live leaders if and only if some leader is robbed of its lock file by another agent's unlink and still leads, under the same lock, when a later create of another agent succeeds |
| LeadershipSplit.OwnsOrWasRobbed | crates/crabcc-cli/src/init_cmd.rs:86-101 | In every run a live leader either owns the lock file or was robbed of it by another agent while leading under it ever since |
| Onboarding.OwnershipMeansOneLeader | crates/crabcc-cli/src/init_cmd.rs:90-92 | While every live leader owns the lock file there is at most one live leader |
| Onboarding.RobbedLeaderCanBeDoubled | crates/crabcc-cli/src/init_cmd.rs:86-101 | From any state where a live leader has lost its lock and nothing is published, three steps of any new agent give two live leaders |
| Onboarding.OneLeaderUnderDiscipline | crates/crabcc-cli/src/init_cmd.rs:93-101 | With takeovers and crashes there is still at most one live leader if every unlink hits the lock it inspected and no lock is judged stale while its maker still leads |
| SecondLead.SecondLeadIff | crates/crabcc-cli/src/init_cmd.rs:49-114 | Along such a disciplined run the research succeeds twice if and only if a takeover removes the lock that a finished leader left behind, and another agent, which had found no marker at the top of its loop and has not looked since, creates the lock after that and leads |
| SecondLead.BetweenSuccesses | crates/crabcc-cli/src/init_cmd.rs:62-114 | Between any two successes of a disciplined run lie, in order, that takeover and that create, with the check before the create |
| SecondLead.ResearchIsDoneTwice | crates/crabcc-cli/src/init_cmd.rs:49-53 | A concrete run: every unlink hits its target, every staleness verdict is right, and two leads succeed |
| SecondLead.LockIsTakenAway | crates/crabcc-cli/src/init_cmd.rs:70-101 | Under that discipline, once a lead has succeeded only a takeover can remove its lock, and only when that leader leads no more |
| Onboarding.RaceSplitsLeadership | crates/crabcc-cli/src/init_cmd.rs:93-101 | A concrete run: every staleness verdict is right, the inspect-then-unlink gap is hit, and two agents lead |
| Onboarding.SlowLeaderSplitsLeadership | crates/crabcc-cli/src/init_cmd.rs:34-34 | A concrete run: every unlink hits its target, the first leader is merely slower than the stale limit, and two agents lead |
| Onboarding.EveryStepIsProgress | crates/crabcc-cli/src/init_cmd.rs:62-114 | Whatever others do, each step of an agent uses up a bound of 19, so no agent spins |
| OnboardingCode.OnboardDir.TryAcquire | crates/crabcc-cli/src/init_cmd.rs:238-252 | True exactly when no lock file was there, which then exists with the current time; an error is neither win nor loss; the history stays a run |
| OnboardingCode.OnboardDir.StaleLockMtime | crates/crabcc-cli/src/init_cmd.rs:257-264 | The lock's time exactly when the lock can be read and is older than the limit |
| OnboardingCode.OnboardDir.LeadAndPublish | crates/crabcc-cli/src/init_cmd.rs:70-84 | This agent writes the marker only after success and removes the lock only after failure |
| OnboardingCode.OnboardDir.TakeOverOrWait | crates/crabcc-cli/src/init_cmd.rs:86-111 | Goes round again exactly when a lock is there and stale, which it then removed if the second look and the removal work; a lock that vanished is waited for |
| OnboardingCode.OnboardDir.Run | crates/crabcc-cli/src/init_cmd.rs:55-114 | An undisturbed agent ends, and leaves the directory, as its three turns say, with each file operation of each turn free to fail; the history stays a run |
| OnboardingCode.AloneLeadsIff | crates/crabcc-cli/src/init_cmd.rs:55-114 | Such an agent leads exactly when no lock was there and the first create works, or a turn removed a stale lock and the create of the next works; only a successful lead can add the marker; a lock that is not stale is never touched |
| InjectSlots.SlotsAreCapped | crates/crabcc-cli/src/init_cmd.rs:180-196 | In every interleaving the slot files are 0, 1, ... without a gap, one per successful hook, never shared, at most `limit` |
| InjectSlots.SlotsAreUsedUp | crates/crabcc-cli/src/init_cmd.rs:183-196 | Once all hooks have ended without error, the successes are exactly the smaller of `limit` and the number of hooks; with errors, either `limit` is reached or every other hook succeeded |
| InjectSlots.StepKeepsInv | crates/crabcc-cli/src/init_cmd.rs:184-193 | The invariant behind both, kept by every step |
| InjectSlots.SlotDir.ClaimInjectSlot | crates/crabcc-cli/src/init_cmd.rs:183-196 | Claims exactly the first free slot if no slot before it fails, otherwise changes nothing; the history stays a run, and gives up exactly when all slots are taken and can be tried |
| ShellText.TokenizeLoop | crates/crabcc-cli/src/shell_rewrite.rs:66-112 | The character loop equals the tokenizer function the laws are about |
| ShellText.AcceptedIff | crates/crabcc-cli/src/shell_rewrite.rs:59-112 | A command is accepted exactly when it has none of the thirteen metacharacters, every quote is closed and it is not blank |
| ShellText.QuotedIsOneField | crates/crabcc-cli/src/shell_rewrite.rs:134-145 | For every string, the quoted form read by a POSIX shell is exactly that one field |
| ShellText.BareIff | crates/crabcc-cli/src/shell_rewrite.rs:134-145 | A word is printed as it is exactly when it is not empty and of letters, digits and `._-/=:,@` |
| ShellText.CommandTextIsItsFields | crates/crabcc-cli/src/shell_rewrite.rs:134-145 | A shell given any printed non-empty word list splits it into exactly those words |
| ShellText.TokenizeOfCommandText | crates/crabcc-cli/src/shell_rewrite.rs:59-145 | Tokenizing a printed word list gives it back exactly when no word holds a metacharacter or a single quote; otherwise the command passes through |
| ShellText.ShellReadsSameIff | crates/crabcc-cli/src/shell_rewrite.rs:59-112 | An accepted command has the same words for a shell as for the tokenizer exactly when its words are separated by blanks, nothing outside quotes is `*`, `?` or `[`, and no word starts with an unquoted `#` or `~` |
| ShellText.ReadsPlainlyIff | crates/crabcc-cli/src/shell_rewrite.rs:59-112 | That is: exactly when a shell needs nothing but unquoting to read it and its words are separated by blanks |
| Rewriter.ParseShortFlags | crates/crabcc-cli/src/shell_rewrite.rs:320-347 | The nested flag loops equal the parser function |
| Rewriter.ShortFlagsMeaning | crates/crabcc-cli/src/shell_rewrite.rs:320-347 | Accepted exactly when every flag character is known; then each option is set exactly when its character occurs in any grouping, and positionals keep their order |
| Planner.RgSwap | crates/crabcc-cli/src/shell_rewrite.rs:470-511 | The string built by appending is the quoted argument vector |
| Planner.ScanFind | crates/crabcc-cli/src/shell_rewrite.rs:397-432 | The index loop finds the paths in order, the only name test and whether `-type f` occurs, and gives up exactly on malformed arguments or a second name test |
| Planner.PlanFindLoop | crates/crabcc-cli/src/shell_rewrite.rs:397-449 | The imperative find rule equals its function |
| PlanRules.PlanFiresIff | crates/crabcc-cli/src/shell_rewrite.rs:150-216 | A command is rewritten exactly when the tokenizer reads words in it for which the rule of their program fires, each rule's condition being on the arguments |
| PlanRules.GrepFiresIff | crates/crabcc-cli/src/shell_rewrite.rs:349-383 | grep is rewritten exactly when its flags are known, there is a pattern, it does not read standard input, and it either searches for one indexed identifier in the whole repository without `-i` and `-c`, which becomes a lookup, or names no directory without recursion and no `+` or `?` without `-F`, which becomes rg; with rule, key and track op |
| PlanRules.RgFiresIff | crates/crabcc-cli/src/shell_rewrite.rs:385-395 | rg is rewritten exactly when it is such a symbol search, into a lookup |
| PlanRules.CatFiresIff | crates/crabcc-cli/src/shell_rewrite.rs:249-318 | cat, less and more are rewritten exactly for one argument that is no flag and ends in `.json`, or whose last name is a stem, a dot and one of the source extensions in any case |
| PlanRules.FollowFiresIff | crates/crabcc-cli/src/shell_rewrite.rs:172-216 | A follow is wrapped exactly when some argument is `--follow` or one dash with letters among which are f or F |
| PlanRules.LabelsAre | crates/crabcc-cli/src/shell_rewrite.rs:150-216 | The rule, key and track op of find, tail, journalctl and watch |
| PlanCommand.PlanLoop | crates/crabcc-cli/src/shell_rewrite.rs:150-167 | The planner's loops return a rewrite exactly when a rule fires; it is never rewritten again on any disk with the same symbols; a shell given it asks for what the tokenizer's words ask for (the search, or a lookup where the search was for one symbol with its case, as lines and in the whole repository; the file listing, the one file or the wrapped command itself) exactly unless file names are flipped; and those are the words a shell reads in the command exactly when it reads plainly |
| PlanCommand.ShellRequestSurvives | crates/crabcc-cli/src/shell_rewrite.rs:150-167 | From shell to shell: for a command that a shell reads by unquoting alone, with words separated by blanks, the rewrite asks for what the shell would have read in the command, exactly unless file names are flipped |
| PlanCommand.PatternIsNotExpanded | crates/crabcc-cli/src/shell_rewrite.rs:57-112 | `tail -f *` is rewritten, and the shell is then given the word `*` where it would have expanded a pattern |
| PlanCommand.FlippedNamesAreLost | crates/crabcc-cli/src/shell_rewrite.rs:490-495 | `grep -r -h -H x .` prints file names, and its rewrite does not |
| RewriteLaws.RewritingIsFinal | crates/crabcc-cli/src/shell_rewrite.rs:150-511 | For every command, symbol predicate and disk, before and after: the text of a rewrite is never rewritten again |
| RewriteLaws.ReparseOfRgWords | crates/crabcc-cli/src/shell_rewrite.rs:320-347 | The flag parser stops on the long options of an emitted rg command and otherwise finds the same options and positionals |
| RewriteLaws.RgSwapIsFinal | crates/crabcc-cli/src/shell_rewrite.rs:385-395 | A symbol upgrade that failed for grep fails again for the emitted rg command |
| RewriteLaws.GrepRequestSurvives | crates/crabcc-cli/src/shell_rewrite.rs:349-383 | A shell given the emitted text runs rg with the same pattern, the same paths in order and the same case, word, fixed, line, file and count options as grep was given, and with the same file-name option exactly unless `-h` occurs and `-H` is the last of the two |
| RewriteLaws.FindRequestSurvives | crates/crabcc-cli/src/shell_rewrite.rs:397-449 | find is swapped exactly when it has one name test, some `-type f` and paths; the result asks for the same glob, case rule and paths |
| RewriteLaws.WrapKeepsCommand | crates/crabcc-cli/src/shell_rewrite.rs:200-216 | A wrapped follow runs the very argument vector it was given |
| Calendar.NextDayAddsOne | crates/crabcc-cli/src/memory.rs:258-266 | One calendar step adds one to the closed form, negative years and century rules included |
| Calendar.DayNumberCountsDays | crates/crabcc-cli/src/memory.rs:258-266 | The closed form is the number of single-day steps between 1970-01-01 and the date, in either direction |
| Calendar.DayNumberIncreases | crates/crabcc-cli/src/memory.rs:258-266 | It is strictly increasing in calendar order |
| Calendar.DayNumberPeriod | crates/crabcc-cli/src/memory.rs:258-266 | Four hundred years later is always 146097 days later |
| Calendar.ValidIff | crates/crabcc-cli/src/memory.rs:258-266 | Which dates there are, by month lengths and the leap rule |
| Timestamp.ParseOfPrint | crates/crabcc-cli/src/memory.rs:229-267 | Every fraction-free date-time of section 5.6 of RFC 3339, printed and parsed, gives counted days, time of day and offset as its exact epoch second |
| Timestamp.DaysApartIsDayNumber | crates/crabcc-cli/src/memory.rs:258-266 | The day count used there has the closed form as its only value |
| Timestamp.EqualInstantsParseEqual | crates/crabcc-cli/src/memory.rs:229-267 | Two zones showing the same instant, clocks related by counting seconds, parse to the same second |
| Timestamp.SeparatorsAreIgnored | crates/crabcc-cli/src/memory.rs:226-257 | Whatever stands at bytes 13 and 16, the text parses the same: malformed text is accepted |
| Timestamp.WellFormedIffStrict | crates/crabcc-cli/src/memory.rs:229-257 | A text is some valid date-time's print exactly when it has the strict shape, and then it is accepted |
| Timestamp.AcceptedIffLoose | crates/crabcc-cli/src/memory.rs:229-257 | A text is accepted exactly when the bytes that are tested are right and each field is an optional sign and digits |
| Timestamp.MalformedAcceptedIff | crates/crabcc-cli/src/memory.rs:226-257 | A malformed text is accepted exactly when it has that loose shape and byte 13 or 16 is no colon, or something follows the zone, or a field carries a sign, or a field is outside its range |
| Timestamp.TailIsIgnored | crates/crabcc-cli/src/memory.rs:226-257 | Every well-formed text followed by anything is malformed, accepted, and means the same second |
| RemindDelay.ParseRemindDelay | crates/crabcc-cli/src/memory.rs:645-681 | The character loop equals the scan function, with its error order |
| RemindDelay.DelayIffDuration | crates/crabcc-cli/src/memory.rs:645-681 | A text with a T is refused as a timestamp; any other is accepted exactly when it is a signed number, added as seconds, or a list of number-unit pairs with a total that is not zero, which is added |
| Decimal.ParsesIffNumeral | crates/crabcc-cli/src/memory.rs:656-659 | What parses as a 64-bit integer is exactly an optional sign and digits within range |
| Fsst.CodesInRangeScalar | crates/crabcc-core/src/compress.rs:194-210 | The index loop equals the scan |
| Fsst.CodesInRangeAvx2 | crates/crabcc-core/src/compress.rs:225-262 | The 32-lane loop with its bail-out and tail equals the lane-wise answer |
| Fsst.AcceptsIffStream | crates/crabcc-core/src/compress.rs:194-210 | The scan accepts a stream exactly when it is a sequence of in-range codes and complete escape pairs |
| Fsst.GuardsAgreeIff | crates/crabcc-core/src/compress.rs:185-262 | The two guards give the same answer exactly when it is not a non-empty stream of escape pairs under an empty table |
| Fsst.GuardsDifferOnOneLiteral | crates/crabcc-core/src/compress.rs:228-230 | The smallest stream on which they differ |
| Fsst.DecodeUnchecked | crates/crabcc-core/src/compress.rs:150-175 | Under the guard every table index and every literal position is in bounds, and the loop computes the stream's meaning |
| Fsst.Decompress | crates/crabcc-core/src/compress.rs:166-175 | Guarded decoding: the meaning of an accepted stream, nothing for any other |
| Fsst.DecompressOfCodesIff | crates/crabcc-core/src/compress.rs:143-175 | Whatever matches are chosen, the stream decodes to the plaintext exactly unless the table is empty, the plaintext is not and AVX2 is used |
| Fsst.DecompressOfCompressIff | crates/crabcc-core/src/compress.rs:143-175 | Compress then decompress is the identity exactly when the table has a symbol, the row is empty or AVX2 is absent |
| FsstFile.Save | crates/crabcc-core/src/compress.rs:108-141 | The errors exactly for unequal counts and for tables over 32 bits; otherwise the bytes `CCFS`, 1, three zeros, the count, the symbols and the lengths, and no others |
| FsstFile.LeBytesAt | crates/crabcc-core/src/compress.rs:130-134 | Words are written low byte first |
| FsstFile.Load | crates/crabcc-core/src/compress.rs:69-103 | The sequence of reads and checks equals the load function, with its error for each |
| FsstFile.LoadOfSave | crates/crabcc-core/src/compress.rs:69-141 | Loading a saved table gives the same symbols and lengths |
| FsstFile.LoadOfSaved | crates/crabcc-core/src/compress.rs:69-103 | So it does whatever the padding holds and whatever follows the table |
| FsstFile.TruncatedFileIsRejected | crates/crabcc-core/src/compress.rs:69-103 | Every strict prefix of a saved file is an error |
| FsstFile.LoadedIffSaved | crates/crabcc-core/src/compress.rs:69-103 | What loads is exactly a saved table with some padding and some tail |
| FsstFile.ReloadedCodecDecodesAlike | crates/crabcc-core/src/compress.rs:69-175 | What was compressed before saving decompresses to the same row after loading |
| Rebuild.Database.RebuildRows | crates/crabcc-cli/src/compress_cmd.rs:195-290 | After any number of committed batches the rows are the start with exactly those ids converted; only a run that lives past its last batch stores totals, which are the sums over all candidates |
| Rebuild.Database.Run | crates/crabcc-cli/src/compress_cmd.rs:49-80 | A run without samples or whose table cannot be saved changes nothing; any other overwrites the table on disk and converts a prefix of the scan |
| Rebuild.ConvertBatch | crates/crabcc-cli/src/compress_cmd.rs:220-248 | One transaction converts its slice of the ids and keeps both running totals exact |
| Rebuild.ConvertKeepsViewIff | crates/crabcc-cli/src/compress_cmd.rs:195-267 | Converting a row keeps what a reader sees exactly unless it is non-empty plaintext, the table is empty and the reader uses AVX2 |
| Rebuild.RebuildKeepsViews | crates/crabcc-cli/src/compress_cmd.rs:195-267 | To a reader with the run's own table each row reads alike before and after every committed batch; NULL and encoded rows are untouched |
| CompressRuns.RetrainingGarblesARow | crates/crabcc-cli/src/compress_cmd.rs:66-76 | Two finished runs after which a row that read [1] reads [2] for every reader and no candidate is left to repair it |
| CompressRuns.RunKeepsViewsIff | crates/crabcc-cli/src/compress_cmd.rs:49-80 | Whatever table a run trains, it keeps every reader's view exactly when each row before it is NULL, or plaintext that is not converted, empty or read without AVX2, or an immune stream that had a table |
| CompressRuns.RunWithSymbolsKeepsViewsIff | crates/crabcc-cli/src/compress_cmd.rs:49-80 | Whatever table with at least one symbol a run trains, it keeps every reader's view exactly when each row encoded before had a table and is a steady stream; plaintext is always safe |
| CompressRuns.SteadyIff | crates/crabcc-core/src/compress.rs:166-175 | A stream decodes under every table with a symbol as it did under the old one exactly when it is empty, decodable under none, or all literals with an old table that had a symbol or no AVX2 |
| CompressRuns.ImmuneIff | crates/crabcc-core/src/compress.rs:166-175 | A stream decodes alike under all tables exactly when it is empty, decodable under none, or all literals and read without AVX2 |
| CompressRuns.EncodedRowIsImmuneIff | crates/crabcc-cli/src/compress_cmd.rs:235-247 | A row that a run encoded is safe from every later table exactly when it is empty or, without AVX2, used no symbol |
| CompressRuns.RereadIff | crates/crabcc-cli/src/compress_cmd.rs:66-76 | A row encoded by one run reads as its plaintext under another run's table exactly when that table has every code of it, the codes spell the plaintext in it, and it is not empty under AVX2 |
| CompressRuns.FirstRebuildKeepsViews | crates/crabcc-cli/src/compress_cmd.rs:195-267 | While nothing is encoded yet, every committed batch of a run keeps every view |
| CompressRuns.ViewsAfterResumeIff | crates/crabcc-cli/src/compress_cmd.rs:195-267 | A run cut off after any batch and a second, finished run keep every view exactly when each row of the first rereads under the table of the second |
| CompressRuns.RowsAfterResumeIff | crates/crabcc-cli/src/compress_cmd.rs:195-267 | Cut and resumed, the rows are those of one uninterrupted run exactly when both codecs encode each row of the cut run alike |
| CompressRuns.MetaAfterResumeIff | crates/crabcc-cli/src/compress_cmd.rs:269-290 | Cut and resumed, the stored totals are those of one uninterrupted run exactly when nothing was committed before the cut, or there were no candidates, or everything was and the old totals happen to be the same |
| CompressRuns.TotalsAreOrderFree | crates/crabcc-cli/src/compress_cmd.rs:216-246 | The totals do not depend on the order of the scan |
| Edit.SpanBounds | crates/crabcc-cli/src/edit.rs:231-243 | An accepted range is non-empty and inside the file |
| Edit.SpliceSpan | crates/crabcc-cli/src/edit.rs:205-227 | Accepted exactly for a range inside the file; then the result is, line by line, the lines before, each update line without its carriage return and with one in a CRLF file, and the lines after |
| Edit.SplicedLines | crates/crabcc-cli/src/edit.rs:205-227 | The same as a law of the splice function |
| Edit.UpdateLinesAreTheUpdate | crates/crabcc-cli/src/edit.rs:214-216 | The update's lines are its text cut at newlines, one newline at its end dropped |
| Edit.LinesOfSplice | crates/crabcc-cli/src/edit.rs:205-227 | Line by line, the result is the old lines around the adapted update |
| Edit.OutsideIsUnchanged | crates/crabcc-cli/src/edit.rs:202-227 | Every byte before and after the span stays |
| Edit.ExtractOfSplice | crates/crabcc-cli/src/edit.rs:196-227 | Extracting the new range gives as many lines as the update has, each the update's line in the file's ending |
| Edit.ExtractOfSpliceCrlf | crates/crabcc-cli/src/edit.rs:196-227 | Over CRLF text every line of it ends in a carriage return, and without those it is the update with one trailing newline dropped |
| Edit.ExtractOfSpliceLf | crates/crabcc-cli/src/edit.rs:196-227 | Over LF text it gives the update with one trailing newline dropped |
| Edit.SpliceKeepsFileIff | crates/crabcc-cli/src/edit.rs:205-227 | A splice leaves the file as it is exactly when the adapted update has the span's lines |
| Edit.SpliceOfExtractIff | crates/crabcc-cli/src/edit.rs:196-227 | Splicing an extracted span back is the identity exactly when the span does not end in an empty line after another and each of its lines ends in `\r` if and only if the file has CRLF |
| Edit.KeepsEndingIff | crates/crabcc-cli/src/edit.rs:212-226 | A splice leaves the file CRLF, or LF, exactly when its range, its update and the lines before say so: a CRLF line is left, or no inner update line ends in two carriage returns |
| Edit.SplicesCommuteIff | crates/crabcc-cli/src/edit.rs:205-227 | Splices on disjoint spans, shifted by the line-count change, commute exactly when each of them keeps the file's line-ending kind, which file, ranges and updates decide |
| Edit.LastCrlfBreaksCommuting | crates/crabcc-cli/src/edit.rs:212-224 | A three-line file on which two splices do not commute |
| Edit.LfSplicesCommute | crates/crabcc-cli/src/edit.rs:205-227 | In files and updates without carriage returns, splices on disjoint spans commute |
| RewriteLog.SuppressedIffRecentOffence | crates/crabcc-cli/src/rewrite_log.rs:53-130 | Under a clock that does not go back, `rule:key` is suppressed exactly when some event logged a rewrite with it, the rule ends in `crabcc-refs`, and an event of the last 604800 seconds measured that row at more than 4000 tokens |
| RewriteLog.RowsAreLogged | crates/crabcc-cli/src/rewrite_log.rs:67-84 | Every row was logged by exactly the event that its id counts, with its time, rule, signature and text |
| RewriteLog.SuppressedByLatestOffence | crates/crabcc-cli/src/rewrite_log.rs:92-130 | Under any clock the suppression table holds exactly each signature's latest offence |
| RewriteLog.MeasurementIsFinal | crates/crabcc-cli/src/rewrite_log.rs:92-130 | A measured row keeps its token count and its verdict, which is the error exactly for a symbol upgrade over 4000 tokens, for as long as it is kept |
| RewriteLog.EachRowMeasuredOnce | crates/crabcc-cli/src/rewrite_log.rs:92-130 | No two measurements of a run give a verdict to the same row |
| RewriteLog.OtherRulesAreNeverSuppressed | crates/crabcc-cli/src/rewrite_log.rs:45-63 | Whatever is measured, a rewrite by a rule that is no symbol upgrade is never suppressed |
| RewriteLog.SignatureIsInjective | crates/crabcc-cli/src/rewrite_log.rs:45-47 | Different rule and key pairs never share a signature |
| RewriteLog.LogIsBounded | crates/crabcc-cli/src/rewrite_log.rs:134-143 | After every statement the table holds exactly the ids over the last multiple of 64 less 12000, at most 12063 |
| RewriteLog.Ledger.LogEvent | crates/crabcc-cli/src/rewrite_log.rs:67-84 | Insert and pruning are one step of the history |
| RewriteLog.Ledger.MeasureByCommand | crates/crabcc-cli/src/rewrite_log.rs:92-130 | Measures the newest unmeasured row with that text, if any, as one step of the history; the answer is the error exactly when its rule ends in `crabcc-refs` and the tokens are over 4000 |
| RewriteLog.Ledger.CheckSuppressed | crates/crabcc-cli/src/rewrite_log.rs:53-63 | Under a clock that has not gone back, it answers yes exactly when the ledger's history logged a symbol upgrade with that signature and measured it at over 4000 tokens in the last 604800 seconds |
| Squeeze.SqueezeLoop | crates/crabcc-cli/src/squeeze.rs:77-122 | The filter's loops print a window of the deduped lines, with the input's last newline, and every counter has its meaning |
| Squeeze.Window | crates/crabcc-cli/src/squeeze.rs:126-149 | Without a limit or within it every line; otherwise the first and the last half of the limit of lines, at least one each, around one line with both counts and the errors and warnings of the rest in order |
| Squeeze.SignalIff | crates/crabcc-cli/src/squeeze.rs:26-41 | A line is an error or warning exactly when one of the eight words stands in it in any mix of capitals |
| Squeeze.FinalFrame | crates/crabcc-cli/src/squeeze.rs:68-73 | What is left of a line is what follows its last carriage return, or the line |
| Squeeze.LinesSpellTheInput | crates/crabcc-cli/src/squeeze.rs:80-88 | The physical lines with their newlines spell the input |
| Squeeze.Dedupe | crates/crabcc-cli/src/squeeze.rs:88-111 | The run loop prints the maximal runs of final frames and counts redraws, groups and removed lines |
| Squeeze.RunsAreLossless | crates/crabcc-cli/src/squeeze.rs:77-111 | Expanding the runs gives back exactly the final frames; input lines are runs plus removed repeats; runs are maximal |
| Squeeze.DedupeIsDecodable | crates/crabcc-cli/src/squeeze.rs:77-111 | When no frame looks like a repeat marker the printed lines alone determine every frame |
| Squeeze.SqueezeIsIdempotentIff | crates/crabcc-cli/src/squeeze.rs:77-122 | The unwindowed filter is idempotent on an input exactly when no run of three or more has its own marker as its line or right after it, and no run of two has the marker of two, twice, after it |
| Squeeze.ImitatedMarkerBreaksIdempotence | crates/crabcc-cli/src/squeeze.rs:88-111 | A family of inputs on which the second pass differs |
| Squeeze.SqueezeIsIdempotent | crates/crabcc-cli/src/squeeze.rs:77-122 | In particular on every input none of whose frames looks like a repeat marker |
| Squeeze.WindowKeepsSignals | crates/crabcc-cli/src/squeeze.rs:126-149 | With n the larger of one and half the limit, a window over more lines prints 2n + 1 + surfaced lines, and the error and warning lines survive in order and number |
| Squeeze.SignalFramesSurvive | crates/crabcc-cli/src/squeeze.rs:77-149 | For every limit each error or warning frame is a line of the output text |
| Squeeze.SignalLineSurvivesIff | crates/crabcc-cli/src/squeeze.rs:68-149 | For every limit an error or warning line of the input is a line of the output text exactly when it holds no carriage return |
| Squeeze.CrlfLineIsLost | crates/crabcc-cli/src/squeeze.rs:68-73 | A line that ends in a carriage return leaves an empty frame |
| Squeeze.WindowGrowsIff | crates/crabcc-cli/src/squeeze.rs:126-149 | A fired window prints more lines than it was given exactly when all it elides are signals |
| Elements.MatchingClose | crates/crabcc-cli/src/fetch_cmd.rs:344-366 | The cursor scan ends, and finds the matching close exactly when there is one |
| Elements.MatchingCloseIffDepthZero | crates/crabcc-cli/src/fetch_cmd.rs:337-367 | That close is where a counter looking at every single position first comes back to zero |
| Elements.ContentIsBalanced | crates/crabcc-cli/src/fetch_cmd.rs:337-367 | Inside it opens equal closes, no prefix has more closes than opens, and there is only one such end |
| Elements.FirstElement | crates/crabcc-cli/src/fetch_cmd.rs:337-367 | The trimmed content of the first element, or None exactly when no depth count returns to zero, on every page whose lower-casing moves nothing |
| Elements.ExtractMainContent | crates/crabcc-cli/src/fetch_cmd.rs:328-335 | An article wins over a main element; None exactly when neither has content |
| Text.TrimTakesBlanks | crates/crabcc-cli/src/fetch_cmd.rs:359-359 | Trimming takes white space off both ends and nothing else |
| Text.WhitespaceIff | crates/crabcc-cli/src/fetch_cmd.rs:359-359 | Which characters are white space |
| Netlog.ParseAllowlist | crates/crabcc-cli/src/netlog.rs:69-91 | The line loop equals the parse function |
| Netlog.AllowsIffEntryMatches | crates/crabcc-cli/src/netlog.rs:69-115 | A host is allowed exactly when its normal form is not empty and equals an exact entry or its dot-separated labels end with a wildcard entry's labels |
| Netlog.EntryOfLine | crates/crabcc-cli/src/netlog.rs:72-78 | An entry is what stands before the first `#` of a line, without the white space around it, in small letters |
| Netlog.EntriesAre | crates/crabcc-cli/src/netlog.rs:69-91 | Blank and comment lines give no entry, every other line gives one |
| Netlog.LinesSpellTheText | crates/crabcc-cli/src/netlog.rs:72-72 | The lines with their newlines spell the file |
| Netlog.NormalOfHost | crates/crabcc-cli/src/netlog.rs:101-104 | A host is compared in small letters and without the dots at its end |
| Netlog.Request | crates/crabcc-cli/src/netlog.rs:130-263 | Whatever servers answer: nothing is contacted exactly when the mode is Deny and the first host is not allowed; in Deny mode every host contacted on the chain is allowed, each hop is the one the server named, there are at most ten requests, and the error says why the chain stopped |
| Netlog.EgressLog.RecordTo | crates/crabcc-cli/src/netlog.rs:187-219 | The log and its one backup always hold the most recent whole records in order, and neither outgrows the cap by more than one record |
| Backup.CopyDirRecursive | crates/crabcc-cli/src/backup.rs:320-340 | In any listing order the destination becomes the merge of the two trees, or the copy fails exactly when the kinds clash: a file over a directory or special file, a directory over anything but a directory |
| Backup.CopyIsMerge | crates/crabcc-cli/src/backup.rs:320-340 | Path by path, links followed: where the source has a file the copy has it, where it has a directory the copy has one, and everywhere else the copy is what was there |
| Backup.CopyFailsIff | crates/crabcc-cli/src/backup.rs:320-340 | A copy fails exactly when at some path a file meets a directory or special file, or a directory meets anything else |
| Backup.LinkIsCopiedAsItsTarget | crates/crabcc-cli/src/backup.rs:327-340 | A link is copied like what it points to, and is in the copy exactly when it ends at a file or directory, as one of its own |
| Backup.CopyToFreshPath | crates/crabcc-cli/src/backup.rs:320-340 | Copying to a path where nothing is never fails and gives the tree with links replaced and special files left out |
| Backup.Machine.Snapshot | crates/crabcc-cli/src/backup.rs:104-150 | At a fresh timestamp that pruning keeps, the snapshot holds each of the eight files and the tantivy directory that is there, or that a link ends at, and nothing else; a reused timestamp is merged into, and a clash there leaves every other snapshot and skips the pruning |
| Backup.Machine.PruneToN | crates/crabcc-cli/src/backup.rs:185-194 | Exactly the newest and those that cannot be removed stay, unchanged, and the count is what went |
| Backup.Machine.Restore | crates/crabcc-cli/src/backup.rs:200-225 | A missing timestamp changes nothing; otherwise every name is restored or, when one is in the way, each name is restored or untouched; other names are untouched |
| Backup.RestoreGivesWhatWasCaptured | crates/crabcc-cli/src/backup.rs:104-225 | A round trip: whatever happened since, restoring such a snapshot gives the eight files and tantivy back as they were and leaves other names alone; it fails exactly when a directory or special file, also behind a link, is where a file was, or a file or special file itself where the directory was |
| Backup.RestoreAtOnce | crates/crabcc-cli/src/backup.rs:104-225 | Restoring at once never fails and is the identity exactly when tantivy is no link to a directory and holds neither links nor special files |
| Backup.SurvivorsAreTheNewest | crates/crabcc-cli/src/backup.rs:104-194 | Over any run of snapshots at different timestamps, in whatever order, the survivors are exactly the `keep` newest of all ever taken, each with what was captured then |
| Retention.NewestAbsorbs | crates/crabcc-cli/src/backup.rs:185-194 | Pruning before adding never changes which are newest |
| Retention.NewestSize | crates/crabcc-cli/src/backup.rs:185-194 | Exactly `keep` are kept, or all when there are fewer |
| Retention.RankInListing | crates/crabcc-cli/src/backup.rs:160-180 | Position i of the listing has exactly i later timestamps, so skipping `keep` positions skips the newest |
| Retention.ListingDescends | crates/crabcc-cli/src/backup.rs:160-180 | The listing is strictly newest first |
| MorphCache.SortLaws | crates/crabcc-cli/src/morph.rs:81-81 | The sort loses nothing, is oldest first and keeps the listing order among equal times |
| MorphCache.EvictsShortestOldestRun | crates/crabcc-cli/src/morph.rs:67-92 | With any set of failing removals, the evicted files are the shortest oldest-first run of removable files that brings the total under the cap, or all of them |
| MorphCache.EvictionEndsUnderCap | crates/crabcc-cli/src/morph.rs:67-92 | When removals succeed it is the shortest oldest-first prefix and the total ends at or under the cap |
| MorphCache.NewestEntryStays | crates/crabcc-cli/src/morph.rs:57-92 | When removals succeed the newest entry stays exactly when it alone fits the cap |
| MorphCache.CacheDir.PruneCache | crates/crabcc-cli/src/morph.rs:67-92 | The loop leaves exactly the files that are not evicted, for any listing order |
| Utf8.TruncateOnCharBoundary | crates/crabcc-cli/src/enrich_cmd.rs:128-137 | The backing-up loop equals the truncation function |
| Utf8.OneCharacter | crates/crabcc-cli/src/enrich_cmd.rs:128-137 | The bytes of a character as section 3 of RFC 3629 lays them out: length by range, lead byte, six bits in each further byte |
| Utf8.BoundaryIffWholeCharacters | crates/crabcc-cli/src/enrich_cmd.rs:133-135 | In text encoded by section 3 of RFC 3629 a position is a boundary exactly when whole characters end there |
| Utf8.TruncationIsLongestPrefix | crates/crabcc-cli/src/enrich_cmd.rs:126-137 | The cut is the longest run of whole characters within the limit, and gives up at most three bytes of it |
| Enrich.SelectionIsTopPlusBreadth | crates/crabcc-cli/src/enrich_cmd.rs:79-97 | The top hit, then the first hit of another room, or the second hit exactly when all share one room |
| Enrich.Assemble | crates/crabcc-cli/src/enrich_cmd.rs:102-124 | The appending loop equals the concatenated blocks |
| Enrich.ContextWithinBudget | crates/crabcc-cli/src/enrich_cmd.rs:102-124 | When headers fit their shares the context is within the budget plus 17 bytes per hit |
| Enrich.BlockFitsShare | crates/crabcc-cli/src/enrich_cmd.rs:113-121 | A block overruns the larger of its share and its header by at most 17 bytes, and is whole when it fits |
| Enrich.BlockIsCut | crates/crabcc-cli/src/enrich_cmd.rs:113-121 | Of a hit that does not fit, the block holds the header, the longest run of whole characters of the body that fits, the mark and an empty line |
| Enrich.ContextIsText | crates/crabcc-cli/src/enrich_cmd.rs:102-124 | From well-formed hits the assembled bytes are well-formed UTF-8 |
| Enrich.SharesWithinBudget | crates/crabcc-cli/src/enrich_cmd.rs:103-111 | The two shares together never exceed the budget, even where the doubling wraps |
| Enrich.PrimaryShareIsLargerIff | crates/crabcc-cli/src/enrich_cmd.rs:99-111 | The top hit's share is the larger one exactly for budgets under 2^61 tokens |

## Left out

- OnboardingCode.OnboardDir.Run: describes one agent while no other steps; interleavings are the step relation's.
- The leader's work: what it writes (topics, research plan, overview) is one outcome.
- Waiting for another agent is one step that may come at any time; the 45-second timeout is not modelled.
- ShellText.CommandTextIsItsFields: a bare first word that is a reserved word or an assignment would not be run as a
  command; the rules print rg, crabcc, jq and cat there.
- ShellText.ShellReadsSameIff: what a shell makes of a pattern, a comment or a tilde is not modelled; its reader
  rejects commands that have one.
- The rewriter's explanatory note, its header line and the hook envelope; what rg, grep, find and jq do with their arguments.
- Timestamp.ParseOfPrint: fractional seconds and overflow of 64-bit sums; the parser itself checks no field ranges.
- RemindDelay.DelayIffDuration: totals are unbounded integers, so 64-bit overflow of huge delays is not modelled.
- Reading `--before` as plain epoch seconds or a timestamp: one choice between two parsers.
- FSST training and the choice of matches belong to a library; tables and matches are arbitrary.
- FsstFile.Save: the write to a temporary file and its rename are one step.
- Rebuild.Database.RebuildRows: other writers during a rebuild, failing SQL statements, which end the run like a crash,
  and a death between the three statements that store the totals.
- Rebuild.Database.Run: the statistics and the probe; a decoded row that is not valid UTF-8 is an error to readers.
- RewriteLog.Ledger.LogEvent: each SQL statement group is one atomic step; connection failures are steps that do not happen.
- Elements.FirstElement: lower-casing that moves characters, which a few letters outside ASCII do, is not modelled.
- Elements.ExtractMainContent: the same.
- Netlog.Request: URL parsing is a parameter, which gives the host of each URL; no bytes are sent.
- Netlog.EgressLog.RecordTo: failing file operations; the record's JSON form is any line.
- Backup.Machine.Snapshot: byte and file counters of the report; the fixed list order of the files is one of the orders covered.
- Backup.CopyDirRecursive: failing reads and writes; cycles of links, which end at the system's limit; and two links to
  one file, of which writing through one changes the other.
- Backup.Machine.Restore: a link to nothing is written through as if the directory it points into were there.
- Backup.SurvivorsAreTheNewest: timestamps of a run are different; two snapshots in one second are merged, as Backup.Machine.Snapshot states.
- Directories under the backup root whose names are other spellings of the same number.
- MorphCache.CacheDir.PruneCache: sums are unbounded integers; reading and writing entries and their age limit are not modelled.
- Enrich.Assemble: the formatting of a header (with its floating-point score) is a parameter.
- Graph walking, the compacting rewrite rules, rendering, configuration, process control and the servers.
