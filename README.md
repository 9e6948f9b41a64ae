# Secret Santa bot: the claim-and-allocate registry in Dafny

This project is a model of the state machine inside the Telegram bot
`secret_santa_bot.py`. The bot keeps one registry:

- a roster of participants, each with a `name`, an `approved` flag, the
  `user_id` of the Telegram user who claimed it, and `assigned_to` and
  `color` fields written by an allocation;
- a pool of colour tokens still to hand out.

A user claims a name in three steps. `/start` shows the names they may
claim. Typing a name gets a proposal with "confirm" and "cancel" buttons.
Pressing "confirm" checks the claim and commits it. If a partner and a
colour are still available, it then draws a gift partner and a colour at
random, writes the pairing on both participants and takes the colour out
of the pool. `/my_task` shows the pairing.

The model has the following files:

- `text.dfy` (module `Text`): the two Python string operations the
  handlers use. `str.strip()` works over exactly the characters for which
  Python's `str.isspace()` is true. `str.split('|')` comes with its
  inverse `Join` and the round trip between them.
- `roster.dfy` (module `Roster`) holds:
  - the participant and registry datatypes, and Python truthiness of an
    optional string;
  - the two ways the handlers search the roster: `next(...)` over a
    generator and a list comprehension;
  - the consistency predicates;
  - the seed registry, with a proof that it is consistent.
- `queries.dfy` (module `Queries`): `start`, `handle_name` and `my_task`.
  These only read the registry, so each is a function of the roster.
- `confirmation.dfy` (module `Confirmation`) holds:
  - `Confirm`, the callback handler as a function from the registry
    before a button press to the reply and the registry after it;
  - the rejection, claim and allocation lemmas;
  - the lemmas linking a proposal to its buttons;
  - preservation of consistency over a single step and over any run of
    presses;
  - a worked example.
- `bot.dfy` (module `Bot`): the class `Registry`, whose fields are the
  module-level `data` of the bot plus the last saved copy.
  `HandleConfirmation` updates the roster and the pool in place, in the
  handler's order of writes. It is proved to end in exactly the state
  `Confirm` describes, to save only after an allocation, and to keep a
  consistent registry consistent.

`random.choice` is modelled as two pick indices, `tPick` into the
candidate list and `cPick` into the colour pool. `PicksInRange` requires
them to be valid only when the handler reaches the draw. Every property
holds for every valid pick.

Each handler is one atomic step. Between the lookup at line 163 and the
save at line 221 there is no `await`, so under asyncio nothing else runs
in between.

### Where the code differs from its design

The model follows the code in each of these cases:

- **Write-once fails for the confirmer.** Line 218 writes the confirmer's
  `assigned_to` and `color` even when an earlier allocation has already
  set them, because the confirmer was drawn as somebody's partner
  (line 212). So `assigned_to` means "who gives to me" on a participant
  drawn as a target, and "whom I give to" after that participant confirms.
  - `ConfirmerReassignedExample` shows the overwrite on a roster of three.
  - `OnlyConfirmerReassigned` proves that nobody else is ever rewritten.
- **Exhaustion keeps the claim.** With no candidate or no colour
  (lines 201-204), the claim committed at lines 190-191 stays in memory
  and `save_data()` is not called. `ExhaustionKeepsClaim` covers the
  registry and `Bot.Registry.HandleConfirmation` covers the file.
- **"Or owned by the actor" in `start` is dead.** The name filter at
  lines 102-105 runs only when the actor holds nothing, so its second half
  never selects anything (`OwnNameNeverOffered`).
- **The "taken by another user" check is just "approved".** The check at
  line 181 runs only after the actor was found to hold nothing, so
  `user_id != actor` is always true there (`TakenByOtherRejected`).
- **The first participant with a name wins.** The callback handler looks
  up the first participant with the name, approved or not (line 163).
  `handle_name` looks for an unapproved one (line 122). With duplicate
  names a proposal can therefore be refused at confirmation.
  `ProposalConfirmable` assumes unique names, which the seed data has.
- **A confirmer who was never drawn is never drawn later.** The design
  says the candidates are those participants who are not yet the target
  of another assignment. The filter at line 197 instead skips every
  participant whose `assigned_to` is set. Line 218 sets that field on the
  confirmer to the name of its recipient. So once a participant has
  confirmed and been allocated, it leaves the candidates for good, even
  though nobody gives to it yet. A roster can then run out of candidates
  while some participants still have no giver.
  - `AllocatedLeaveCandidates` proves that every changed `assigned_to` is
    truthy.
  - `AssignedIsNoCandidate` proves that a participant with a truthy
    `assigned_to` is never a candidate.
  - `SecondCandidates` shows the effect on a roster of three: after the
    first allocation the first confirmer is no longer a candidate.

## Model

| member | source | states |
|---|---|---|
| Text.Strip | secret_santa_bot.py:121 | The result is an infix of the input with only whitespace before and after it. It neither starts nor ends with whitespace. Input without whitespace is returned unchanged. |
| Text.LeadingSpaces | secret_santa_bot.py:121 | Counts exactly the leading run of whitespace that `strip` removes. |
| Text.TrailingSpaces | secret_santa_bot.py:121 | Counts exactly the trailing run of whitespace that `strip` removes. |
| Text.Split | secret_santa_bot.py:154 | Gives one more piece than there are separators. No piece contains '\|'. Joining the pieces with '\|' gives back the input. |
| Text.SplitJoin | secret_santa_bot.py:154 | Splitting the join of '\|'-free pieces returns the pieces. |
| Text.SplitAfterPiece | secret_santa_bot.py:154 | A '\|'-free prefix before a separator comes out as the first piece. |
| Text.SplitWithoutBars | secret_santa_bot.py:154 | A '\|'-free string splits into itself alone. |
| Text.BarsAppend | secret_santa_bot.py:139-140 | The separator count of a concatenation is the sum of the counts, so `confirm\|name` has one separator more than `name`. |
| Text.NoBarsIff | secret_santa_bot.py:139-140 | A string has no separators exactly when '\|' does not occur in it. |
| Roster.FindFirst | secret_santa_bot.py:163 | `next(...)` returns the first index satisfying the condition. It returns None exactly when no index does. |
| Roster.IndicesWhere | secret_santa_bot.py:195-198 | A list comprehension keeps exactly the entries that satisfy its condition, in roster order. |
| Roster.IndicesWhereAgree | secret_santa_bot.py:195-198 | Comprehensions whose conditions agree entry by entry keep the same indices. |
| Roster.FindByUser | secret_santa_bot.py:172 | The lookup by `user_id` finds a participant exactly when the actor holds one. It returns the first participant the actor holds. |
| Roster.FindByName | secret_santa_bot.py:163 | The lookup by name finds a participant exactly when some participant has the name, approved or not. It returns the first participant with that name. |
| Roster.InitialData | secret_santa_bot.py:40-62 | The seed registry has ten unclaimed, unassigned participants and ten colour tokens. |
| Roster.InitialNamesUnique | secret_santa_bot.py:41-53 | The ten seed names are pairwise different. |
| Roster.InitialColorsDistinct | secret_santa_bot.py:55-61 | The ten seed tokens are pairwise different. |
| Roster.InitialDataConsistent | secret_santa_bot.py:40-62 | The seed registry satisfies every consistency invariant and has unique names. |
| Queries.Start | secret_santa_bot.py:80-116 | An actor holding a participant is shown its name and the same task `/my_task` reports. Otherwise the reply is the non-empty list of offered names, or "all taken" exactly when nothing is offered. |
| Queries.AvailableNamesMembership | secret_santa_bot.py:102-105 | A name is offered exactly when some participant with that name is unapproved or held by the actor. |
| Queries.AvailableNamesInRosterOrder | secret_santa_bot.py:102-105 | The offered names are the names at a strictly increasing list of roster indices. That list holds exactly the participants that are unapproved or held by the actor. |
| Queries.OwnNameNeverOffered | secret_santa_bot.py:100-105 | When the actor holds nothing, the offered names are exactly the unapproved names in roster order. |
| Queries.HandleName | secret_santa_bot.py:119-148 | A proposal of the stripped text is made exactly when an unapproved participant has that name and the actor holds nothing. An actor holding a participant is told its name. Otherwise the name is unavailable exactly when no unapproved participant has it. |
| Queries.TaskOf | secret_santa_bot.py:239 | A participant has an assignment exactly when both `assigned_to` and `color` are truthy. The assignment carries those two values. |
| Queries.MyTask | secret_santa_bot.py:235-246 | A task is reported only to a holder, and exactly when both `assigned_to` and `color` of the held participant are set and non-empty. The reported task is those two fields. |
| Confirmation.ParseCallback | secret_santa_bot.py:154-161 | Parsing fails exactly when the callback does not hold exactly one '\|'. Otherwise it gives the two '\|'-free pieces on either side of the '\|'. |
| Confirmation.ParseCallbackIff | secret_santa_bot.py:154-161 | The callback parses to (action, name) exactly when it is the action, one separator and the name, with neither part containing '\|'. |
| Confirmation.Screen | secret_santa_bot.py:154-232 | The checks end the handler with a reply that does not commit, or they let through the index and name of a participant in the roster. |
| Confirmation.ScreenProceeds | secret_santa_bot.py:163-187 | For `confirm\|name`, the checks pass exactly when the actor holds nothing and the first participant with that name is unapproved. |
| Confirmation.Confirm | secret_santa_bot.py:151-232 | One button press. A reply that does not commit leaves the registry unchanged. The roster keeps its length and every name. |
| Confirmation.MalformedCallbackRejected | secret_santa_bot.py:154-161 | A callback without exactly one '\|' gets "malformed" and changes nothing. |
| Confirmation.UnknownNameRejected | secret_santa_bot.py:163-168 | A name not in the roster gets "not found" and changes nothing, whatever the action. |
| Confirmation.DuplicateActorRejected | secret_santa_bot.py:172-178 | An actor who holds a participant cannot confirm any name. The reply names the held participant and nothing changes. |
| Confirmation.TakenByOtherRejected | secret_santa_bot.py:181-187 | A name already approved gets "taken" and changes nothing. At that point its `user_id` is never the actor's. |
| Confirmation.OtherActionsChangeNothing | secret_santa_bot.py:227-232 | "cancel" and any other action on a known name change nothing and get their own replies. |
| Confirmation.Claimed | secret_santa_bot.py:190-191 | The claimed participant becomes approved and held by the actor. No other participant changes, no name, `assigned_to` or `color` changes, and the pool stays as it was. |
| Confirmation.ClaimCommitted | secret_santa_bot.py:170-191 | A confirmation commits exactly when the actor holds nothing and the named participant is unapproved. Then that participant is approved and held by the actor, and it is the only participant the actor holds. |
| Confirmation.CommitLeavesOneClaim | secret_santa_bot.py:172-191 | Every committed claim was made by an actor who held nothing before, and who holds exactly one approved participant after. |
| Confirmation.Candidates | secret_santa_bot.py:195-198 | The candidates are exactly the participants with another name whose `assigned_to` is falsy, in roster order. |
| Confirmation.CandidatesIgnoreClaim | secret_santa_bot.py:190-198 | The claim writes no field the candidate filter reads, so the candidates are the same before and after it. |
| Confirmation.FirstIndex | secret_santa_bot.py:214 | Finds the first occurrence of the token, the one `list.remove` deletes. |
| Confirmation.RemoveFirst | secret_santa_bot.py:214 | `list.remove` drops the first copy of the token and keeps every other token in order. The pool is one shorter and has one copy of the token fewer. On distinct tokens the token is gone and the rest stay distinct. |
| Confirmation.Allocate | secret_santa_bot.py:212-219 | The target gets the confirmer's name and the colour. The confirmer gets the target's name and the same colour. No other participant changes. The pool loses the colour by `list.remove`. |
| Confirmation.PicksAlwaysExist | secret_santa_bot.py:207-208 | Requiring picks in range excludes no registry and no callback. The first candidate and the first token are always valid picks, and so is any pair of indices into the candidates and the pool. |
| Confirmation.AllocationHappens | secret_santa_bot.py:190-208 | An allocation happens exactly when the claim commits and both a candidate and a token remain. The picks are then in range. |
| Confirmation.ConfirmOnProceed | secret_santa_bot.py:190-219 | Once the checks pass and a candidate and a token remain, the step is the claim followed by the allocation with the picked target and token. The target is an unassigned participant with another name. |
| Confirmation.ConfirmAllocates | secret_santa_bot.py:170-219 | The same, for `confirm\|name` by an actor holding nothing on an unapproved participant. |
| Confirmation.AllocationWrites | secret_santa_bot.py:195-219 | When `confirm\|name` commits and a candidate and a token remain: the target is unassigned and is not the confirmer. It gets the confirmer's name and the colour. The confirmer is approved, held by the actor, and gets the target's name and the same colour. Nobody else changes. The pool loses the colour by `list.remove`. |
| Confirmation.NewAssignmentsNotSelf | secret_santa_bot.py:195-198 | A changed `assigned_to` never names its own participant. |
| Confirmation.PoolShrinksByChosenColor | secret_santa_bot.py:199-214 | An allocated colour comes from the pool. The pool loses exactly one copy of it, and all copies when the tokens were distinct. Every other reply leaves the pool as it was. |
| Confirmation.ExhaustionKeepsClaim | secret_santa_bot.py:201-204 | "Nothing to assign" happens exactly when the claim commits and no candidate or no token remains. Then only the claim is written. |
| Confirmation.OnlyConfirmerReassigned | secret_santa_bot.py:212-219 | A participant whose `assigned_to` was already set keeps it and its colour, unless it is the one the actor now holds. |
| Confirmation.AssignedIsNoCandidate | secret_santa_bot.py:197 | A participant whose `assigned_to` is truthy is a candidate for no name. |
| Confirmation.AllocatedLeaveCandidates | secret_santa_bot.py:195-219 | With non-empty names, every `assigned_to` a press changes is truthy afterwards. So both participants an allocation writes leave the candidates for good. |
| Confirmation.ProposalConfirmable | secret_santa_bot.py:136-191 | If the registry is the same when the name is typed and when the button is pressed, and names are unique, then pressing "confirm" under a proposal commits the claim when the name has no '\|'. A name with a '\|' always gets "malformed" and changes nothing. |
| Confirmation.ProposalCancellable | secret_santa_bot.py:139-140 | Pressing "cancel" under a proposal changes nothing. The reply is "cancelled" when the name has no '\|', and "malformed" when it has one. |
| Confirmation.ConfirmOfBarredName | secret_santa_bot.py:154-161 | `confirm\|name` for a name containing '\|' gets "malformed" and changes nothing. |
| Confirmation.CancelOfCleanName | secret_santa_bot.py:227-229 | `cancel\|name` for a '\|'-free roster name gets "cancelled" and changes nothing. |
| Confirmation.CancelOfBarredName | secret_santa_bot.py:154-161 | `cancel\|name` for a name containing '\|' gets "malformed" and changes nothing. |
| Confirmation.ClaimKeepsConsistency | secret_santa_bot.py:190-191 | A claim by an actor holding nothing, on an unapproved participant, keeps the registry consistent. |
| Confirmation.AllocateKeepsConsistency | secret_santa_bot.py:212-219 | An allocation between differently named participants, with a token from the pool, keeps the registry consistent. |
| Confirmation.ConfirmKeepsConsistency | secret_santa_bot.py:151-232 | Every button press keeps a consistent registry consistent. |
| Confirmation.ClaimsArePermanent | secret_santa_bot.py:181-191 | An approved participant stays approved and keeps its `user_id` after any press. |
| Confirmation.RunKeepsConsistency | secret_santa_bot.py:151-232 | Any run of presses keeps a consistent registry consistent. |
| Confirmation.RunKeepsClaims | secret_santa_bot.py:151-232 | Over any run of presses, the roster keeps its length and its names, and no claim is undone or moved to another actor. |
| Confirmation.RunShrinksPool | secret_santa_bot.py:199-214 | Over any run of presses, the pool only loses tokens: the final pool is a sub-multiset of the first. |
| Confirmation.ReachableIsConsistent | secret_santa_bot.py:40-71 | Every registry reachable from the seed data is consistent. |
| Confirmation.FirstCandidates | secret_santa_bot.py:195-198 | On a fresh roster of three, the candidates for the first name are the other two participants, in roster order. |
| Confirmation.SecondCandidates | secret_santa_bot.py:195-198 | After the first allocation, the only candidate for the drawn participant is the third one. The first confirmer is excluded although nobody gives to it yet. |
| Confirmation.FirstConfirmExample | secret_santa_bot.py:190-219 | On a roster of three, confirming the first name with the first picks pairs it with the second name in the first colour. That colour leaves the pool. |
| Confirmation.ConfirmerReassignedExample | secret_santa_bot.py:212-218 | The participant drawn as a target later confirms and has its `assigned_to` and `color` rewritten. |
| Bot.Registry.Load | secret_santa_bot.py:65-71 | Start-up takes the file's registry, or the seed registry when there is no file, and the file then holds what is in memory. |
| Bot.Registry.Save | secret_santa_bot.py:74-77 | `save_data()` makes the file hold the in-memory registry and changes nothing else. |
| Bot.Registry.HandleConfirmation | secret_santa_bot.py:151-232 | The in-place handler ends with exactly the reply and registry `Confirm` gives. It saves only after an allocation, and it keeps a consistent registry consistent. |

## Left out

- Telegram transport and user interface: replies, message edits,
  keyboards, Markdown and wording (lines 7-15, 89-116, 136-147, 249-265).
  Replies are datatypes carrying the names and tokens the messages show.
- Handler registration (lines 249-256). In particular, the pattern
  `^(confirm|cancel)\|.+$` on line 256 filters which callbacks reach the
  handler. The model states the handler's behaviour on any callback
  string, so its "unknown action" and "malformed" branches are covered
  even though the filter keeps most of them from running.
- JSON encoding and decoding and file I/O (lines 65-77). The file is
  modelled only as the `persisted` registry value. An unreadable or
  malformed file, and missing keys in an entry, are not modelled.
- Environment and token handling, `nest_asyncio`, `asyncio.run` and
  logging (lines 4-34). These are plumbing with no effect on the registry.
- Concurrency. Each handler is one atomic step, because the handler has no
  `await` between its lookup and its save.
- The quality of randomness. `random.choice` is any index in range, and
  its uniformity is not modelled.
- Text.Strip: the whitespace set is Python's `str.isspace()` written out as
  code points. Strings are sequences of code points, with no
  normalisation.
- Telegram limits on callback data (64 bytes) and on message text are not
  modelled: any string is accepted.
