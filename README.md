# BARF, the Breakpoint-Assisted Rough Fuzzer, in Dafny

BARF recovers a secret input, such as a CTF flag, from a program it runs under gdb. It
treats the program as a black box except for a few breakpoints. Hits on a *positive*
breakpoint raise a score and hits on a *negative* breakpoint lower it. A *win* breakpoint
says the whole secret has been found. Starting from a known prefix and suffix, each round:

1. calibrates with the "impossible" filler chunk `^…^`;
2. tries every chunk of the charset in order;
3. keeps the first chunk that scores better than the calibration (or, in the packaged
   version, hits the win breakpoint).

The search stops when a round finds nothing or the win breakpoint fires. In the optional
persistent mode the program is not restarted for every input. Instead a gdb checkpoint is
taken at a start address, and every time the program reaches an end address it is reset to
a fresh copy of that checkpoint.

The project models:

- the counting breakpoints and their manager: `Counter`, `Scoring`;
- the chunk generator: `Chunks`;
- the search of the packaged version: `Bruteforce`;
- the single-file script `barf.py`: `Legacy`;
- the persistent-mode machinery: `Persistence`;
- the gdb address and hexadecimal conventions it relies on: `Address`, `Hex`.

The three example programs of the repository are modelled byte for byte: `SingleChar`,
`DoubleTrouble`, and `XorORama` with its constants in `XorFlag`. They share the module
`Stdin`, which models fgets on a 32-byte stack buffer. For each example it is proved that
the search, run with the breakpoints the example's header names, returns the flag,
whatever the bytes on the stack behind the line read, provided they are the same in every
run, after at most one round per chunk.
The general lemmas behind this (`RecoversAny`) hold for every flag of the same shape, not
only for the hard-coded one.

The traced program is abstracted as a `Target`: the sequence of breakpoint sites it hits
while processing one input. A run delivers those hits, in order, to the counters that are
set. The debugger of the persistent mode is a `Debugger` object that records every command
it receives. The checkpoint table gdb keeps is modelled separately, as `Checkpoints`.

## Model

| member | source | states |
|---|---|---|
| Address.Normalize | src/CounterBreakpoint.py:16-17 | an empty address has no literal (indexing it raises); otherwise the literal starts with `*`, is the address itself if it already did, else `*` followed by the address |
| Address.NormalizeIdempotent | src/CheckpointBreakpoint.py:12-14 | prefixing a star to an address that already has its star changes nothing |
| Hex.DigitValue | src/TargetManager.py:34-35 | a hexadecimal digit of either case has a value below 16 |
| Hex.HexChar | src/TargetManager.py:34-35 | every value below 16 has a digit that reads back as that value |
| Hex.ToHex | src/TargetManager.py:34-35 | the numeral of a number is nonempty and made of hexadecimal digits only |
| Hex.ValueOfToHex | src/TargetManager.py:34-35 | reading back the numeral of `n` gives `n` |
| Hex.ParseToHex | src/TargetManager.py:34-35 | `int(s, 16)` recovers `n` from its numeral, with or without the `0x` prefix |
| Hex.LeadingDigit | src/TargetManager.py:34-35 | a numeral of two or more digits has no leading zero, so numerals are unique |
| Counter.CounterBreakpoint.constructor | src/CounterBreakpoint.py:11-19 | the breakpoint sits at the starred address, keeps its good/bad flag, and starts with no hits and score 0 |
| Counter.CounterBreakpoint.GetScore | src/CounterBreakpoint.py:22-23 | the score is +1 per hit on a good breakpoint and -1 per hit on a bad one |
| Counter.CounterBreakpoint.ResetScore | src/CounterBreakpoint.py:26-27 | afterwards there are no hits and the score is 0 |
| Counter.CounterBreakpoint.PopScore | src/CounterBreakpoint.py:30-33 | returns the score of the hits before the call and leaves the breakpoint reset |
| Counter.CounterBreakpoint.Stop | src/CounterBreakpoint.py:36-43 | one more hit, the score moves by one in the breakpoint's direction, and the program does not halt |
| Scoring.OccurrencesCons | src/BreakpointManager.py:23-29 | counting hits of a site in a trace splits over its first hit |
| Scoring.ReplayCounts | src/BreakpointManager.py:23-29 | delivering a trace to fresh counters counts, per breakpoint that is set, exactly the hits of its site in the trace, and nothing for a breakpoint that is not set |
| Scoring.BreakpointManager.constructor | src/BreakpointManager.py:15-21 | a breakpoint exists exactly for each nonempty address, at its starred address, and all counters start at zero |
| Scoring.BreakpointManager.GetScore | src/BreakpointManager.py:23-29 | positive hits minus negative hits; a missing breakpoint contributes nothing |
| Scoring.BreakpointManager.ResetBreakpoints | src/BreakpointManager.py:31-37 | every counter, the win counter included, is back at zero |
| Scoring.BreakpointManager.PopScore | src/BreakpointManager.py:39-45 | returns positive minus negative hits, zeroes those two counters and leaves the win counter as it was |
| Scoring.BreakpointManager.HitWin | src/BreakpointManager.py:47-49 | true exactly when a win breakpoint is set and it was hit since the last reset |
| Scoring.BreakpointManager.Hit | src/CounterBreakpoint.py:36-43 | a stop at a site raises the counter of that site by one if its breakpoint is set, and changes nothing else |
| Scoring.ResetLeavesNothing | src/BreakpointManager.py:31-49 | after a reset the score is 0 and there is no win |
| Chunks.PowPositive | src/Bruteforce.py:83-87 | a nonempty charset yields at least one chunk of every width |
| Chunks.ExtendAt | src/Bruteforce.py:86 | with `b` the charset size, candidate `i·b+j` of one comprehension step is old candidate `i` followed by character `j` |
| Chunks.ExtendLength | src/Bruteforce.py:86 | one comprehension step multiplies the number of candidates by the charset size |
| Chunks.ExtendElement | src/Bruteforce.py:86 | with `b` the charset size, candidate `k` of a comprehension step is old candidate `k / b` followed by character `k % b` |
| Chunks.CandidatesCount | src/Bruteforce.py:83-87 | generateCharset yields `b^width` candidates for a charset of `b` characters |
| Chunks.CandidatesStep | src/Bruteforce.py:85-86 | with `b` the charset size, candidate `k` for chunk size `n` is candidate `k / b` for size `n-1` followed by character `k % b` |
| Chunks.DigitsStep | src/Bruteforce.py:85-86 | in base `b`, the charset size, the numeral of `k` is the numeral of `k / b` followed by its last digit |
| Chunks.CandidatesAt | src/Bruteforce.py:83-87 | candidate `k` is the `width`-digit numeral of `k` in base charset size, spelt in the charset: the candidates come in counting order |
| Chunks.CandidatesShape | src/Bruteforce.py:83-87 | every candidate has the chunk width and is spelt in the charset |
| Chunks.CandidatesComplete | src/Bruteforce.py:83-87 | every string of the chunk width over the charset is a candidate |
| Chunks.PairsOfAb | src/Bruteforce.py:86 | for the charset "ab" and chunk size 2 the candidates are aa, ab, ba, bb, in that order |
| Bruteforce.Repeat | src/Bruteforce.py:22 | `"^" * n` has `max(n, 0)` characters, all of them `^` |
| Bruteforce.RunnerRunsTarget | src/Bruteforce.py:31-33 | a round that resets the counters, runs the target and reads the counters sees exactly the hits of the target's trace |
| Bruteforce.TriedCount | src/Bruteforce.py:26-39 | a round tries at most as many candidates as there are |
| Bruteforce.Attempts | src/Bruteforce.py:28 | the inputs tried are the known prefix, candidate `j` and the known suffix, in candidate order |
| Bruteforce.FirstAcceptedFirst | src/Bruteforce.py:36-39 | the loop's break lands on an accepted candidate, and every candidate before it was rejected |
| Bruteforce.FirstAcceptedIs | src/Bruteforce.py:36-39 | an accepted candidate preceded only by rejected ones is where the loop breaks |
| Bruteforce.ScanAtFirstAccepted | src/Bruteforce.py:26-42 | the round's result is the first accepted candidate, or nothing |
| Bruteforce.ScanFirst | src/Bruteforce.py:26-42 | a round finds nothing exactly when every candidate is rejected; what it finds is an accepted candidate of the charset |
| Bruteforce.ScanStopsAt | src/Bruteforce.py:36-39 | if candidate `i` is the first accepted, the round returns it after `i+1` tries |
| Bruteforce.ScanExhausted | src/Bruteforce.py:41-42 | if all candidates are rejected, the round returns False after trying all of them |
| Bruteforce.TryInput | src/Bruteforce.py:32 | running an input delivers the target's hits on it, in order, to the counters |
| Bruteforce.RunOnce | src/Bruteforce.py:21-23 | reset, run and pop: the score of the input's hits on fresh counters, with the win counter left holding its win hits |
| Bruteforce.NoWinWithoutBreakpoint | src/BreakpointManager.py:17-21 | without a win breakpoint no run changes the win count |
| Bruteforce.Sweep | src/Bruteforce.py:26-39 | the loop returns the first accepted candidate (or none), tried exactly the inputs up to it, and leaves the win counter of the last run |
| Bruteforce.BruteforceChar | src/Bruteforce.py:10-42 | calibrates with the filler, then returns the round's result and the inputs it tried; the win counter is that of the accepted input, or 0 |
| Bruteforce.LastTried | src/Bruteforce.py:21-39 | the calibration input plus one per candidate tried; the last input is the accepted one, or the last candidate when none is |
| Bruteforce.TryCandidate | src/Bruteforce.py:28-36 | one candidate run decides exactly the round's acceptance of it |
| Bruteforce.Verdict | src/Bruteforce.py:36 | `score > refScore or bm.HitWin()` is the acceptance of the candidate, given that wins need a win breakpoint |
| Bruteforce.RejectedNext | src/Bruteforce.py:36-39 | rejecting candidate `i` extends the run of rejected candidates |
| Bruteforce.CandidatesNonEmpty | src/Bruteforce.py:83-87 | every round has at least one candidate |
| Bruteforce.WonNeedsBreakpoint | src/BreakpointManager.py:47-49 | a run can only be won if a win breakpoint is set |
| Bruteforce.RunnerNeedsBreakpoint | src/BreakpointManager.py:47-49 | a round that runs a target wins only with a win breakpoint set |
| Bruteforce.Bruteforce | src/Bruteforce.py:48-78 | the loop returns what the round-by-round search returns: the known parts with the found chunks, at a failed round or at a win |
| Bruteforce.SearchKeepsParts | src/Bruteforce.py:64-78 | a returned key starts with the known prefix and ends with the known suffix |
| Bruteforce.ChunkShape | src/Bruteforce.py:26-42 | a chunk the round keeps has the chunk width and is spelt in the charset |
| Bruteforce.FillerIsCandidate | src/Bruteforce.py:6 | the filler `^` is in the charset, so the calibration chunk is itself a candidate, accepted only on a win |
| Bruteforce.FillerInCharset | src/Bruteforce.py:6 | `^` is a character of the packaged charset |
| Bruteforce.CharsetPrintable | src/Bruteforce.py:6 | every character of the charset is printable ASCII |
| Bruteforce.ClassInCharset | src/Bruteforce.py:6 | every letter, every digit and every listed punctuation character is in the charset |
| Bruteforce.ScanOnly | src/Bruteforce.py:26-42 | a round in which only one candidate is accepted returns that one |
| Bruteforce.ConcatSingles | src/Bruteforce.py:67 | joining the first `m` one-character chunks of a key gives its first `m` characters |
| Bruteforce.SearchFollows | src/Bruteforce.py:48-78 | a target that accepts exactly the next chunk of a key each round, and wins exactly at the last, makes the search return the key |
| Bruteforce.NoWinEndsOnFailedRound | src/Bruteforce.py:51-78 | without a win breakpoint the search only ends at a round that finds nothing, returning the known parts around what was found |
| Legacy.HitWin | barf.py:110-111 | without a win breakpoint the test fails (the attribute lookup raises); with one, it says whether it was hit |
| Legacy.BruteforceChar | barf.py:142-174 | calibrates with one `^`, returns the first character of the charset scoring better than that, and the inputs it tried |
| Legacy.Bruteforce | barf.py:180-209 | the loop ends like the script: the known parts at a failed round, the key at a win, or a crash on the win check |
| Legacy.OneCharacter | barf.py:158-174 | a round returns one character of the script's charset, or nothing |
| Legacy.FillerNotACandidate | barf.py:25 | the calibration input is never a candidate of the script |
| Legacy.FillerNotInLegacyCharset | barf.py:25 | `^` is not in the script's charset |
| Legacy.SameAsSearchWithWin | barf.py:180-209 | with a win breakpoint the script returns what the packaged search with the same round returns |
| Legacy.CrashesWithoutWin | barf.py:204 | without a win breakpoint the script crashes after its first successful round, where the packaged search goes on |
| Persistence.Debugger.constructor | src/TargetManager.py:3 | a fresh debugger has received no command |
| Persistence.Debugger.Execute | src/TargetManager.py:98-108 | each command is appended to what the debugger has received |
| Persistence.CheckpointBreakpoint.constructor | src/CheckpointBreakpoint.py:11-16 | the breakpoint sits at the starred start address, with no checkpoint taken |
| Persistence.CheckpointBreakpoint.Stop | src/CheckpointBreakpoint.py:18-22 | the first stop takes a checkpoint and later stops take none; it never halts |
| Persistence.PersistenceBreakpoint.constructor | src/PersistenceBreakpoint.py:12-23 | the breakpoint sits at the starred end address, talks to its manager and is silent |
| Persistence.PersistenceBreakpoint.Stop | src/PersistenceBreakpoint.py:25-29 | a stop resets the target as Reset does, and halts |
| Persistence.TargetManager.constructor | src/TargetManager.py:29-41 | in persistent mode the buffer address is parsed as hexadecimal and both breakpoints are created; the state starts at checkpoint 1, not running, no checkpoint taken |
| Persistence.TargetManager.Reset | src/TargetManager.py:81-108 | nothing without a start checkpoint; past 40000 checkpoints, start over; otherwise back to checkpoint 1, drop the old copy, copy again and switch to the copy |
| Persistence.TargetManager.Deliver | src/TargetManager.py:76 | stopping at a sequence of persistent-mode breakpoints has their combined effect, in order |
| Persistence.TargetManager.DeliverOne | src/PersistenceBreakpoint.py:25-29 | one stop at the start or at the end breakpoint has that breakpoint's effect |
| Persistence.TargetManager.KickStart | src/TargetManager.py:56-65 | the first run turns off confirmation, runs once on an empty stdin and marks the program running; later calls do nothing |
| Persistence.TargetManager.Run | src/TargetManager.py:46-76 | without persistent mode, one run with the input on stdin; in persistent mode, kick-start if needed, write input, newline and NUL into the buffer, continue |
| Persistence.ApplyCons | src/TargetManager.py:98-108 | commands act on gdb's checkpoints one after another |
| Persistence.ApplyConcat | src/TargetManager.py:98-108 | two command sequences act on the checkpoints one after the other |
| Persistence.HitKeepsSynced | src/TargetManager.py:97-108 | one stop issues only commands gdb accepts and keeps its checkpoints in step with the manager; a reset switches to a copy with the next id |
| Persistence.DeliverKeepsSynced | src/TargetManager.py:81-108 | short of the rollover, any sequence of stops keeps gdb's checkpoints in step with the manager |
| Persistence.NeverDeletesFirst | src/TargetManager.py:100-102 | checkpoint 1 is never deleted, and the checkpoint in use stays at least 1 |
| Persistence.ResetCycle | src/TargetManager.py:91-107 | every reset moves to the next copy, and the reset after the 40000th starts over at checkpoint 1 |
| Persistence.FirstRun | src/TargetManager.py:56-65 | the kick-start run takes checkpoint 1, resets once and leaves the program running at copy 2 |
| Stdin.Bytes | barf.py:127-128 | an input string as bytes, one per character |
| Stdin.Zeros | examples/double-trouble.c:33 | a run of NUL bytes of the given length |
| Stdin.ByteInjective | barf.py:127-128 | different characters below 256 give different bytes |
| Stdin.ByteValue | barf.py:127-128 | a character below 256 is sent as its own code |
| Stdin.LineLength | examples/single-char.c:50 | fgets stores at most 31 bytes, and no more than the input holds |
| Stdin.LineLengthOfLine | examples/single-char.c:50 | a line shorter than the buffer is stored with its newline |
| Stdin.FgetsLine | examples/single-char.c:50 | fgets stores the line with its newline and a NUL, and leaves the rest of the stack as it was |
| Stdin.PrintableByte | barf.py:127-128 | a printable character is neither NUL nor a newline |
| Stdin.FgetsPrintable | examples/single-char.c:50 | a printable input is stored byte for byte, followed by the newline the shell adds and a NUL |
| Stdin.FgetsTerminates | examples/single-char.c:50 | whatever fgets reads, the buffer holds a NUL |
| SingleChar.Execute | examples/single-char.c:53-59 | the loop hits the negative breakpoint once per byte before the NUL that differs from the flag |
| SingleChar.WalkStep | examples/single-char.c:54-58 | one loop step adds a negative hit exactly when the byte differs from the flag |
| SingleChar.WalkMatched | examples/single-char.c:54-58 | bytes that agree with the flag add no hit |
| SingleChar.KeyText | examples/single-char.c:46 | the flag array holds the key and a newline, and the key is printable and has no `^` |
| SingleChar.KeyInCharset | examples/single-char.c:46 | every key character is in the packaged charset |
| SingleChar.FlagBytes | examples/single-char.c:46 | the flag array holds the key's bytes and then the newline |
| SingleChar.WalkEnd | examples/single-char.c:54-59 | the last two bytes of a line each add a hit when they differ from the flag |
| SingleChar.TallyEnd | examples/single-char.c:54-58 | the end of a walk counts one negative hit per differing byte, and the win exactly when none differs |
| SingleChar.LineWalk | examples/single-char.c:50-59 | trying `x` after `m` correct characters: one miss unless `x` is next, one more unless the key is then complete |
| SingleChar.RoundHits | examples/single-char.c:50-59 | a round's run counts one negative hit for a wrong character and one for an unfinished key, and the win exactly when there is neither |
| SingleChar.CandidateVerdict | examples/single-char.c:53-59 | after `m` correct characters a round accepts a printable character exactly when it is the next one |
| SingleChar.RoundGuided | examples/single-char.c:53-66 | each round accepts only the next character; round `m` wins only when the key is complete |
| SingleChar.ConcatKey | examples/single-char.c:46 | the key is the join of its characters |
| SingleChar.KeyGuidesAt | examples/single-char.c:53-66 | round `m` of the search is led to the next character |
| SingleChar.KeyAccepted | examples/single-char.c:53-59 | after the first `m` characters only character `m` is accepted |
| SingleChar.KeyWins | examples/single-char.c:62-66 | the win breakpoint fires exactly once the whole key is typed |
| SingleChar.SinglesWin | examples/single-char.c:53-59 | running the first `m+1` one-character chunks is running the first `m+1` characters |
| SingleChar.KeyGuides | examples/single-char.c:53-66 | the program leads the search through the key one character at a time |
| SingleChar.Recovers | examples/single-char.c:44-67 | the search with chunks of one character returns the flag after at most one round per character, whatever the stack held |
| DoubleTrouble.StrLen | examples/double-trouble.c:49 | the length up to the first NUL: all bytes before it are nonzero |
| DoubleTrouble.Execute | examples/double-trouble.c:39-51 | the loop hits the positive breakpoint once per pair that agrees with the flag, then the win breakpoint if the count equals strlen(flag) |
| DoubleTrouble.WalkStep | examples/double-trouble.c:41-45 | one loop step adds a positive hit exactly when both bytes agree with the flag |
| DoubleTrouble.WalkPositives | examples/double-trouble.c:39-46 | every hit of the walk is a positive hit |
| DoubleTrouble.WalkMatched | examples/double-trouble.c:41-45 | `n` agreeing pairs add `n` positive hits |
| DoubleTrouble.WalkAgrees | examples/double-trouble.c:41-45 | the walk from `i` depends only on the bytes from `i` on |
| DoubleTrouble.WalkBound | examples/double-trouble.c:41 | the walk stops at the flag's NUL |
| DoubleTrouble.FlagNonZero | examples/double-trouble.c:33 | within the key, the flag holds its bytes, none a NUL or a newline |
| DoubleTrouble.FlagLength | examples/double-trouble.c:33 | strlen of the flag is the key's length |
| DoubleTrouble.JunkBound | examples/double-trouble.c:39-46 | the pairs that happen to agree behind the line stay within the key |
| DoubleTrouble.LineHead | examples/double-trouble.c:39-46 | `m` correct pairs and a tried pair give `m` hits, one more if the pair is right, plus what follows |
| DoubleTrouble.LinePrefix | examples/double-trouble.c:39-46 | the known pairs are all positive hits |
| DoubleTrouble.LinePair | examples/double-trouble.c:42-44 | the tried pair is a hit exactly when it is the key's next pair |
| DoubleTrouble.LineTail | examples/double-trouble.c:39-46 | behind the tried pair, the hits depend on the stack only |
| DoubleTrouble.LineWalk | examples/double-trouble.c:36-46 | the hits of a run trying `c` after `m` correct pairs: `m`, plus one if `c` is right, plus the stack's share |
| DoubleTrouble.RoundPlays | examples/double-trouble.c:36-51 | the round with pairs of the packaged charset fits every searchable key |
| DoubleTrouble.CandidateShape | src/Bruteforce.py:83-87 | every pair candidate is two printable characters |
| DoubleTrouble.PairIsCandidate | src/Bruteforce.py:83-87 | every pair of the key is a candidate and differs from the filler `^^` |
| DoubleTrouble.TrialOf | examples/double-trouble.c:36-51 | a round's run of an input counts the hits of the program on the line fgets reads |
| DoubleTrouble.TraceHits | examples/double-trouble.c:39-51 | the score is the number of agreeing pairs, and there is a win exactly when that count times two is the key's length |
| DoubleTrouble.TrialHits | examples/double-trouble.c:36-51 | the counters of one trial: `m` positive hits, one more for the right pair, plus the stack's share, and the win exactly when twice that count is the key's length |
| DoubleTrouble.FillerScore | examples/double-trouble.c:39-46 | calibration scores the known pairs plus the stack's share |
| DoubleTrouble.CandidateVerdict | examples/double-trouble.c:39-51 | after `m` correct pairs a round accepts a printable pair exactly when it is the next pair |
| DoubleTrouble.RoundAccepts | examples/double-trouble.c:39-51 | after `m` pairs a round accepts the next pair and nothing else |
| DoubleTrouble.RoundWins | examples/double-trouble.c:49-51 | the win fires on `m+1` pairs exactly when they are the whole key |
| DoubleTrouble.Pairs | examples/double-trouble.c:41-45 | a key of even length has half as many pairs |
| DoubleTrouble.ConcatPairs | examples/double-trouble.c:41-45 | the first `m` pairs join to the first `2m` characters |
| DoubleTrouble.PairsGuideAt | examples/double-trouble.c:39-51 | round `m` is led to the key's next pair |
| DoubleTrouble.PairsAccepted | examples/double-trouble.c:39-51 | after the first `m` pairs only pair `m` is accepted |
| DoubleTrouble.PairsWin | examples/double-trouble.c:49-51 | the win fires exactly once every pair is found |
| DoubleTrouble.PairsTrial | examples/double-trouble.c:41-45 | running the first `m+1` pairs is running the first `2m+2` characters |
| DoubleTrouble.PairsGuide | examples/double-trouble.c:39-51 | the program leads the search through the key a pair at a time |
| DoubleTrouble.PairsSearch | src/Bruteforce.py:48-78 | from no pair known, the search returns all pairs joined |
| DoubleTrouble.PlaysRecovers | src/Bruteforce.py:48-78 | a fitting round returns the key after at most one round per pair |
| DoubleTrouble.PairsWhole | examples/double-trouble.c:33 | no pairs join to nothing and all pairs to the key |
| DoubleTrouble.RecoversAny | examples/double-trouble.c:31-52 | for every even-length printable key in a flag of this shape, the search with chunks of two returns the key, whatever the stack held |
| DoubleTrouble.KeyFlag | examples/double-trouble.c:33 | the example's flag has the shape the search needs |
| DoubleTrouble.KeyInCharset | examples/double-trouble.c:33 | every key character is in the packaged charset and is not `^` |
| DoubleTrouble.Recovers | examples/double-trouble.c:31-52 | the example's flag is recovered after at most twelve rounds |
| XorFlag.KeyText | examples/xor-o-rama.c:48 | the decrypted flag text is the one the comment gives |
| XorFlag.RowEncrypted | examples/xor-o-rama.c:39-47 | an entry checked against the constants is the key character, encrypted |
| XorFlag.FlagByte | examples/xor-o-rama.c:39-47 | each of the key's 27 characters, XORed with its key byte, is its entry of the flag array, and none is 0 |
| XorFlag.EncryptedNewline | examples/xor-o-rama.c:47 | entry 27 is the encrypted newline, not 0, and entry 28 is the terminating 0 |
| XorORama.Crypted | examples/xor-o-rama.c:38-43 | every one of the 32 bytes is XORed with the key byte of its position modulo 8 |
| XorORama.CryptedTwice | examples/xor-o-rama.c:38-43 | crypt is its own inverse |
| XorORama.XorTwice | examples/xor-o-rama.c:41 | XORing twice with the same byte gives the byte back |
| XorORama.XorCancel | examples/xor-o-rama.c:41 | two bytes XORed with the same key byte agree exactly when they agreed before |
| XorORama.SignedInjective | examples/xor-o-rama.c:59 | two chars compare equal as signed ints exactly when they are the same byte |
| XorORama.Crypt | examples/xor-o-rama.c:38-43 | crypt encrypts the buffer in place |
| XorORama.Execute | examples/xor-o-rama.c:54-61 | encrypt, then compare: the buffer ends encrypted and the hits are those of the comparison of the encrypted buffer |
| XorORama.Compare | examples/xor-o-rama.c:57-61 | a positive hit per agreeing byte, a return of 1 at the first that differs, the win at the flag's end |
| XorORama.WalkMatched | examples/xor-o-rama.c:58-60 | `n` agreeing nonzero entries add `n` positive hits and no win |
| XorORama.LineBytes | examples/xor-o-rama.c:51-54 | the encrypted line: known characters, the tried one and the newline, each XORed with its key byte |
| XorORama.LinePrefix | examples/xor-o-rama.c:57-61 | the known characters are all positive hits |
| XorORama.LineEnd | examples/xor-o-rama.c:57-61 | behind the known characters: the end of the walk after the tried character and the newline |
| XorORama.TriedByte | examples/xor-o-rama.c:59 | the tried character agrees with the flag exactly when it is the key's next one |
| XorORama.NewlineByte | examples/xor-o-rama.c:59 | the encrypted newline agrees with the flag exactly at the end of the key |
| XorORama.EndCounts | examples/xor-o-rama.c:57-61 | counts of the three ways a walk can end |
| XorORama.TrialHits | examples/xor-o-rama.c:51-61 | the counters of one trial: `m` hits, one more for the right character, and at the last one the newline and the win |
| XorORama.RoundPlays | examples/xor-o-rama.c:51-61 | the round with single characters of the packaged charset fits every searchable key |
| XorORama.SinglesPlay | src/Bruteforce.py:26-39 | any printable charset holding the key's characters, with a filler outside the key, fits the key |
| XorORama.SinglesPrintable | src/Bruteforce.py:83-87 | single-character candidates of a printable charset are printable |
| XorORama.SingleIn | src/Bruteforce.py:83-87 | every character of the charset is a candidate |
| XorORama.FillerScore | examples/xor-o-rama.c:57-61 | calibration after `m` characters scores `m` |
| XorORama.CandidateVerdict | examples/xor-o-rama.c:57-61 | after `m` characters a round accepts a printable character exactly when it is the next |
| XorORama.RoundAccepts | examples/xor-o-rama.c:57-61 | after `m` characters a round accepts only the next one |
| XorORama.RoundWins | examples/xor-o-rama.c:57-62 | the win fires on `m+1` characters exactly when they are the whole key |
| XorORama.CharsGuideAt | examples/xor-o-rama.c:57-62 | round `m` is led to the next character |
| XorORama.CharsAccepted | examples/xor-o-rama.c:57-61 | after the first `m` characters only character `m` is accepted |
| XorORama.CharsWin | examples/xor-o-rama.c:57-62 | the win fires exactly once each character is found |
| XorORama.CharsGuide | examples/xor-o-rama.c:57-62 | the program leads the search through the key one character at a time |
| XorORama.CharsSearch | src/Bruteforce.py:48-78 | from nothing known, the search returns all characters joined |
| XorORama.PlaysRecovers | src/Bruteforce.py:48-78 | a fitting round returns the key after at most one round per character |
| XorORama.CharsWhole | examples/xor-o-rama.c:47-48 | no characters join to nothing and all of them to the key |
| XorORama.RecoversAny | examples/xor-o-rama.c:45-62 | for every key of charset characters encrypted into a flag array of this shape, the search returns the key, whatever the stack held |
| XorORama.FlagOfEncrypted | examples/xor-o-rama.c:47 | an encrypted key, newline and terminator make a flag array of the shape the search needs |
| XorORama.KeyFlag | examples/xor-o-rama.c:47-48 | the example's flag array has that shape |
| XorORama.KeyInCharset | examples/xor-o-rama.c:48 | every key character is in the packaged charset and is not `^` |
| XorORama.Recovers | examples/xor-o-rama.c:45-62 | the example's key is recovered after at most 27 rounds |

## Left out

- Logging, printing and the MOTD (EnableLogging, DisableLogging, the messages of
  Bruteforce) have no effect on the search and are not modelled.
- The argument handling of the launcher script and the logging helpers of src/Helper.py are
  outside this model.
- gdb itself is abstracted. A run is the trace of breakpoint sites a `Target` produces for the
  input. Breakpoint registration in gdb is the address literal and the counter state. The
  debugger of the persistent mode is a command log, and its checkpoint table is a separate
  pure model (`Checkpoints`).
- The shell command that delivers an input. The search runs each input through TryInput of
  src/Helper.py:18-19 (the same as barf.py:127-128), `run … <<< $(echo '{inp}')`. The model
  (Bruteforce.Runner and the `Program` of every example) assumes the input reaches stdin
  unchanged, followed by the newline `echo` adds. The quoting breaks that assumption: a
  candidate containing `'`, which is in the packaged charset (src/Bruteforce.py:6), ends the
  shell quote, and an input starting with `-n` or `-e` is read by `echo` as an option. As a
  remark, not proved here: no example's outcome depends on this. In double-trouble and
  xor-o-rama such a candidate scores 0 against a calibration score of at least 0, and
  single-char's key characters all come before `'` in the charset. Characters are sent as
  their code modulo 256; UTF-8 encoding of wider characters and the base64 form of the
  non-persistent src/TargetManager.py:49-53 are not modelled.
- Bruteforce.Bruteforce: the source loops with `while True`; the model carries a `rounds`
  bound and returns None when it is used up. Every proved recovery states a round count
  that suffices.
- Legacy.Bruteforce: bounded by `rounds` the same way, ending in `RoundsOut`.
- Hex.ParseToHex: Python's `int(s, 16)` also accepts surrounding whitespace, a sign and
  underscores between digits. The model accepts only an optional `0x`/`0X` and digits, and
  the TargetManager constructor requires such an address in persistent mode instead of
  modelling the ValueError.
- Persistence.TargetManager.constructor: requires a nonempty start and end address in
  persistent mode and a buffer address `int(s, 16)` accepts. The source passes the launcher's
  addresses on unchecked: an empty start or end address raises IndexError at
  src/CheckpointBreakpoint.py:13 or src/PersistenceBreakpoint.py:16, and an unparsable
  buffer address raises ValueError at src/TargetManager.py:35. A constructor cannot fail, so
  these raising cases are left out; Address.Normalize returns None for the empty address.
- Persistence.CheckpointBreakpoint.constructor: requires a nonempty start address; the
  IndexError of `startAddr[0]` on an empty one (src/CheckpointBreakpoint.py:13) is left out.
- Persistence.PersistenceBreakpoint.constructor: requires a nonempty end address; the
  IndexError of `endAddr[0]` on an empty one (src/PersistenceBreakpoint.py:16) is left out.
- Persistence.TargetManager.Run: a persistent run with no buffer address fails inside gdb's
  `write_memory`; the model requires an address there.
- Persistence.DeliverKeepsSynced: proved only for sequences of stops that do not reach the
  rollover past 40000 checkpoints. At the rollover the source issues no command for the old
  checkpoints (src/TargetManager.py:91-95) before the next Run starts the program again
  (src/TargetManager.py:64), and the model does not follow what gdb's `run` does to them.
- Persistent-mode runs are modelled as debugger commands. They are not connected to the
  search rounds, which see a run only through the `Target` trace. Memory writes are not
  modelled as changing the program's input buffer.
- Concurrency and timing of the inferior process are not modelled.
- The loop conditions of single-char.c and xor-o-rama.c read `buf[i]` or `flag[i]` before
  testing `i < BUFSIZE`. The model tests the bound first. The two agree on every input the
  examples see: fgets always stores a NUL, and the flag array ends in zeros.
- The `% 256` in crypt of xor-o-rama.c is modelled as XOR of the two bytes. On a signed char
  and a key byte below 0x80 the XOR stays in -128..127, and `%` keeps it there.
- The charsets are followed in the code's order. generateCharset is a product in lexicographic
  order, and the model states exactly that order.

## Findings

| source | as written | input that shows it | evidently intended | confidence | as-written member | corrected member |
|---|---|---|---|---|---|---|
| barf.py:110-111 (called at barf.py:204) | HitWin reads `self.winB.GetScore()` with no test that a win breakpoint exists, although `winB` stays None when no win address is given | a run without a win address whose first round finds a better-scoring character: the win check after that round raises | report no win when no win breakpoint is set, as src/BreakpointManager.py:47-49 does, and go on searching | not executed | Legacy.CrashesWithoutWin | Scoring.BreakpointManager.HitWin |
