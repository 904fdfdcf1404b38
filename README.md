# Pizza shop order pipeline — a Dafny model

This project models the sequential core of a small pizza-shop system written
in Python: order intake, confirmation and kitchen sync, the order-modification
service, standardised recipes, and overcooking alerts. The model is split into
one module per program:

- `Orders` (orders.dfy) is the shared SQLite `orders` table. Three programs declare a repository over it. Here it is one class: a map from id to row, plus the AUTOINCREMENT counter. Every update is atomic by construction.
- `ModPedido` (mod_pedido.dfy) models the order-modification service. It covers:
  - the priority key of a request and the pop of a smallest key;
  - the change set and the closed-set checks;
  - the time-gated atomic update, with its bounded retry loop that re-reads the order after each rejection;
  - the kitchen/client notifications;
  - the outcome counters and the latency average.
- `RegistroPedido` (registro_pedido.dfy) models the order-form validator.
- `RegistroAutoCocina` (registro_auto_cocina.dfy) models the kitchen-sync worker. It covers the retry schedule after a failed transport, the delivery status (OK, OK after N retries, late) and the SLA warning.
- `Recetas` (recetas.dfy) models the versioned recipe table. At most one version is in force per pizza type, and versions are numbered max + 1 per type. The module also has the ingredient-quantity validator and the tolerance validator.
- `Alertas` (alertas.dfy) models the oven timers. It covers the per-size threshold, the one-shot alert latch, the severity and its sort key, the oven table's state column, and the shared oven-id counter.
- `Retry` (retry.dfy) is the doubling pause that both retrying workers use.
- `Text` (text.dfy) holds the string helpers these share: Python's ASCII `isspace`, `strip()`, `replace(" ", "")`, digit runs, and decimal literals with their exact values.

Clock readings, transport and notification outcomes, and latencies are
parameters. Stored order and recipe timestamps and the modification
service's clock are integer seconds; the oven timers' readings, alert stamps
and the kitchen-sync arrival time are real seconds; elapsed minutes and
latencies are exact reals. Threads become a sequential worker: one call per loop turn.

Where the written description of the system and the code disagree, the model
follows the code:

- The modification store never checks that the state is "confirmed". It only refuses locked states (cancelled, cooking, done), orders with no confirmation time, an expired window or an empty change set.
- A request without a positive quantity sorts as quantity 9999. A request for 10000 or more therefore sorts after it.
- The retry loop also pauses after its third and last failed attempt.
- `confirm_order` re-confirms cooking or done orders. Only a cancelled order is refused.

## Model

| member | source | states |
|---|---|---|
| Orders.Apply | hu6_ModPedido.py:185-197 | the updated row keeps id, state, creation and confirmation times |
| Orders.Confirm | hu2_RegistroAutoCocina.py:125 | the row becomes "confirmed" at `now`; every other field is unchanged |
| Orders.IdsBelowSorted | hu1_RegistroPedido.py:104-108 | the id-descending scan yields table rows with ids in range, strictly descending |
| Orders.IdsBelowComplete | hu1_RegistroPedido.py:104-108 | the scan misses no row of the table |
| Orders.OrderRepository.constructor | hu1_RegistroPedido.py:71-87 | an empty table whose counter starts at 1 |
| Orders.OrderRepository.CreateOrder | hu1_RegistroPedido.py:89-99 | qty <= 0 inserts nothing; otherwise a draft, unconfirmed row under an id larger than every existing id, and the counter advances |
| Orders.OrderRepository.ListOrders | hu1_RegistroPedido.py:101-109 | every row exactly once, newest (largest id) first |
| Orders.OrderRepository.ListRecent | hu6_ModPedido.py:145-154 | at most `limit` rows, id descending; every row left out is older than all rows returned; a negative limit returns all |
| Orders.OrderRepository.FetchOne | hu6_ModPedido.py:132-143 | the row with that id, or none exactly when the id is absent |
| Orders.OrderRepository.ConfirmOrder | hu2_RegistroAutoCocina.py:121-126 | succeeds iff the id exists and is not cancelled; then only that row changes, to confirmed at `now`; otherwise nothing changes |
| Orders.OrderRepository.ApplyModificationAtomic | hu6_ModPedido.py:156-199 | applies iff the row exists, has a confirmation time at most 300 s old, is not cancelled/cooking/done and the change set is not empty; then only that row changes, in the present fields; otherwise the table is untouched |
| Orders.ApplyWritesOnlyPresentFields | hu6_ModPedido.py:186-197 | each editable field takes the change when present and keeps its value otherwise |
| Orders.WindowBoundary | hu6_ModPedido.py:178 | exactly 300 s after confirmation an edit is accepted; any later instant is refused |
| Orders.ReapplyIsIdempotent | hu6_ModPedido.py:156-199 | re-applying the same changes within the window is accepted again and leaves the row as the first application did |
| Orders.ReconfirmReopensWindow | hu2_RegistroAutoCocina.py:125 | a re-confirmed order, whatever its state except cancelled, is editable at the confirmation instant |
| RegistroPedido.ValidateDto | hu1_RegistroPedido.py:118-129 | none iff the name has a non-blank character, product, size and payment are in their sets and qty > 0; each error iff all earlier checks pass and its own fails |
| RegistroPedido.BlankNameIsRefused | hu1_RegistroPedido.py:119-120 | a name made only of spaces, the empty name included, is refused with the name error first |
| RegistroPedido.MessagesDistinct | hu1_RegistroPedido.py:119-129 | under Message two refusals have the same text iff they are the same refusal |
| RegistroPedido.MessagesListChoices | hu1_RegistroPedido.py:121-128 | the product, size and payment messages list the accepted values joined by ", " |
| RegistroAutoCocina.RetryPauses | hu2_RegistroAutoCocina.py:182-191 | the pause before retry i is 800 ms doubled i - 1 times |
| RegistroAutoCocina.RetryScheduleIsDoubling | hu2_RegistroAutoCocina.py:182-191 | the three pauses are 800, 1600 and 3200 ms |
| RegistroAutoCocina.RetryStatus | hu2_RegistroAutoCocina.py:184-203 | OK after retry N iff retry N is the first that succeeds; late with 3 retries iff all three fail |
| RegistroAutoCocina.RetriesMade | hu2_RegistroAutoCocina.py:184-191 | between 1 and 3 retries are made, the count RetryStatus reports |
| RegistroAutoCocina.StatusOf | hu2_RegistroAutoCocina.py:199-203 | late iff forced; plain OK iff neither retried nor forced; otherwise the status carries the retry count |
| RegistroAutoCocina.MakeDelivery | hu2_RegistroAutoCocina.py:196-214 | the SLA warning is raised iff the delivery comes more than 5 s after the order's creation |
| RegistroAutoCocina.MessageFor | hu2_RegistroAutoCocina.py:148-157 | the queued message carries the order's id and creation time |
| RegistroAutoCocina.KitchenSyncService.constructor | hu2_RegistroAutoCocina.py:137-142 | empty queue, no deliveries, running |
| RegistroAutoCocina.KitchenSyncService.Stop | hu2_RegistroAutoCocina.py:144-146 | raises the stop flag and queues the sentinel (-1) |
| RegistroAutoCocina.KitchenSyncService.SendConfirmed | hu2_RegistroAutoCocina.py:148-157 | appends the order's message to the queue; nothing else changes |
| RegistroAutoCocina.KitchenSyncService.Deliver | hu2_RegistroAutoCocina.py:196-214 | appends exactly one delivery with the status rule (forced: late; retried: OK after N; else OK) |
| RegistroAutoCocina.KitchenSyncService.RetrySend | hu2_RegistroAutoCocina.py:181-194 | exactly one delivery, with RetryStatus, after the pauses of the retries made |
| RegistroAutoCocina.KitchenSyncService.WorkerStep | hu2_RegistroAutoCocina.py:159-179 | stopped: halts; empty queue: idle; the sentinel halts without a delivery; any other head message is dequeued and delivered exactly once |
| ModPedido.UrgentFirst | hu6_ModPedido.py:98-101 | SortKey puts an urgent request's key below any non-urgent one's |
| ModPedido.SmallerQtyFirst | hu6_ModPedido.py:98-101 | at equal urgency the smaller positive quantity has the smaller key |
| ModPedido.MissingQtySortsAs9999 | hu6_ModPedido.py:98-101 | a missing or non-positive quantity sorts as 9999, hence before a quantity over 9999 |
| ModPedido.MinKeyIndex | hu6_ModPedido.py:267 | the index of an entry whose key is not above any other entry's |
| ModPedido.StrippedIfTruthy | hu6_ModPedido.py:279-284 | present iff the input is truthy; the kept text is a slice of the input with only whitespace cut off its ends, and neither starts nor ends with whitespace |
| ModPedido.BuildChanges | hu6_ModPedido.py:278-284 | a text field present iff its input is truthy; qty present iff it is > 0, then unchanged; the qty column check holds |
| ModPedido.ChangesAreStripped | hu6_ModPedido.py:279-284 | every present text field is a slice of its input with only whitespace cut off either end, and neither starts nor ends with whitespace |
| ModPedido.LocalCheck | hu6_ModPedido.py:287-298 | none iff product, size and payment are each absent or in their sets; the reason is the first failing check in product, size, payment order |
| ModPedido.Pauses | hu6_ModPedido.py:301-321 | one pause per step, each the doubling backoff from 250 ms |
| ModPedido.PauseSchedule | hu6_ModPedido.py:301-321 | the three pauses are 250, 500 and 1000 ms |
| Retry.DoublingPause | hu6_ModPedido.py:301-321 | no pause is shorter than the initial one |
| ModPedido.RetryLoopOutcomes | hu6_ModPedido.py:300-327 | RetryLoop, each attempt judged by AttemptVerdict, makes at most 3 attempts; applied only at an attempt the store admits; TIME_EXPIRED iff the reason is the expired window; exhaustion is MOD_FAIL after 3 attempts |
| ModPedido.RetryLoopPauses | hu6_ModPedido.py:319-321 | a pause follows each attempt that neither applied nor stopped, the last one included |
| ModPedido.RetryLoopAgain | hu6_ModPedido.py:319-321 | a rejection inside the window moves the loop to the next attempt after one more pause, and the next pause is twice this one |
| ModPedido.RetryLoopStops | hu6_ModPedido.py:304-318 | an attempt that applies ends the loop as MOD_OK; one that gives up ends it with the re-read's code and reason; both with the pauses taken so far |
| ModPedido.RetryLoopRunsOut | hu6_ModPedido.py:303-327 | after the third rejection the loop has given up as MOD_FAIL, with every pause taken |
| ModPedido.Process | hu6_ModPedido.py:273-344 | applied iff the outcome is MOD_OK or SYNC_FAIL, and then admitted by the store; MOD_OK iff both notifications succeed; no store call iff the local check fails |
| ModPedido.InvalidFieldSkipsStore | hu6_ModPedido.py:290-298 | a closed-set failure is MOD_FAIL with that reason, with no attempt and no pause |
| ModPedido.MissingOrderFailsAtOnce | hu6_ModPedido.py:309-313 | an unknown order is MOD_FAIL (not found or unconfirmed) after one attempt |
| ModPedido.LateRequestExpires | hu6_ModPedido.py:314-318 | a first attempt more than 300 s after confirmation ends as TIME_EXPIRED after one attempt, whatever the state |
| ModPedido.UnexplainedRejectionExhaustsRetries | hu6_ModPedido.py:303-327 | a locked state or empty change set inside the window burns 3 attempts, pauses 250, 500 and 1000 ms, and ends as MOD_FAIL with no reason |
| ModPedido.NothingToChangeIsNeverApplied | hu6_ModPedido.py:192-194 | a request with no usable field passes the local check but is never applied |
| ModPedido.AdmittedRequestApplies | hu6_ModPedido.py:329-344 | an admitted first attempt applies; MOD_OK with both notifications, SYNC_FAIL otherwise |
| ModPedido.QuantityChangeWithinWindow | hu6_ModPedido.py:156-199 | a quantity edit 299 s after confirmation is MOD_OK and changes only the quantity |
| ModPedido.Bump | hu6_ModPedido.py:348-349 | processed and exactly one outcome counter go up by one; the counters keep adding up to processed |
| ModPedido.UpdateLatency | hu6_ModPedido.py:259-262 | the new average times (n + 1) is the old average times n plus the new latency |
| ModPedido.FinishAsWritten | hu6_ModPedido.py:346-350 | as written, the average is divided by one more than the number of latencies seen |
| ModPedido.FinishAsWrittenHalvesFirstLatency | hu6_ModPedido.py:346-350 | one request of 100 ms gives an average of 50 ms as written, 100 ms corrected |
| ModPedido.Finish | hu6_ModPedido.py:346-350 | one more processed, one more for exactly its outcome, and the average stays the mean of all latencies |
| ModPedido.FinishKeepsMean | hu6_ModPedido.py:259-262 | the corrected finish keeps the average equal to the mean of every latency seen |
| ModPedido.ModService.constructor | hu6_ModPedido.py:230-247 | empty queue, zero counters, running, no log |
| ModPedido.ModService.Enqueue | hu6_ModPedido.py:256-257 | the request is added to the pending set; nothing else changes |
| ModPedido.ModService.Stop | hu6_ModPedido.py:249-254 | raises the stop flag and queues the sentinel request (order id -1) |
| ModPedido.ModService.FinishRequest | hu6_ModPedido.py:346-366 | metrics follow Finish; one log record; one metrics snapshot pushed |
| ModPedido.ModService.TryOnce | hu6_ModPedido.py:304-318 | one store call and re-read, with the verdict of AttemptVerdict; the table changes only when applied |
| ModPedido.ModService.ApplyWithRetry | hu6_ModPedido.py:300-327 | the loop's result is RetryLoop's; the table changes only on success, by the change set |
| ModPedido.ModService.Notify | hu6_ModPedido.py:332-342 | kitchen then client; synced iff both succeed |
| ModPedido.ModService.ProcessEvent | hu6_ModPedido.py:273-344 | outcome and pauses are Process's; the table changes iff applied; notices only when applied; one log record; metrics follow Finish; one snapshot pushed |
| ModPedido.ModService.WorkerStep | hu6_ModPedido.py:264-271 | stopped: halts; empty queue: idle; otherwise removes one smallest-key entry; the sentinel halts uncounted; any other request is processed once: the table, notices, log record, metrics and snapshot are those of Process for it; idle and halting steps leave notices, log and snapshots unchanged; the stop flag is kept |
| Recetas.ReadUnit | hu3_Recetas.py:85 | reads `g` or `kg` in any case at the start, or nothing |
| Recetas.ParseQuantity | hu3_Recetas.py:85-93 | a quantity that matches yields a well-formed literal: digits, then optionally a dot and digits |
| Recetas.GramsOf | hu3_Recetas.py:94-96 | the literal's value, times 1000 for kilograms |
| Recetas.QuantityRoundTrip | hu3_Recetas.py:85 | a literal with optional whitespace around it and a `g`/`kg` unit is read back as that literal and unit |
| Recetas.UnitSpelling | hu3_Recetas.py:85 | the unit text read is one of `g`, `G`, `kg`, `KG`, `Kg`, `kG`, one letter exactly for grams |
| Recetas.ParseQuantityOnlyMatches | hu3_Recetas.py:85-92 | a quantity is accepted only if its whole text is whitespace, the literal, whitespace, a spelling of the unit read and whitespace (QuantityText) |
| Recetas.MatchesAreParsed | hu3_Recetas.py:85-93 | every text of that shape is accepted as exactly its literal and unit; with ParseQuantityOnlyMatches, acceptance is the full-match pattern |
| Recetas.IngredientVerdict | hu3_Recetas.py:86-100 | CheckIngredient accepts iff the name is not blank and the quantity parses to more than 0 and at most 5000 g; blank name and blank quantity get their own errors |
| Recetas.FirstRefused | hu3_Recetas.py:86-101 | every verdict before the position found is an acceptance, and the one at it (if any) a refusal |
| Recetas.ValidateIngredients | hu3_Recetas.py:78-101 | none iff every ingredient is accepted; otherwise the error of the first refused one |
| Recetas.FirstIngredientError | hu3_Recetas.py:86-101 | the loop with early return computes ValidateIngredients |
| Recetas.ParseFloatFormat | hu3_Recetas.py:119 | a written-out literal is read as a float of its exact value |
| Recetas.ParseFloat | hu3_Recetas.py:119-127 | a finite value read from text that does not start with `-` is not negative |
| Recetas.NumeralStart | hu3_Recetas.py:119 | a numeral (digits with at most one dot and at least one digit) starts with a digit or a dot |
| Recetas.NumeralIsNoWord | hu3_Recetas.py:119 | a numeral never spells `nan`, `inf` or `infinity` |
| Recetas.PointIsFirstDot | hu3_Recetas.py:119 | a numeral's dot is the first dot of its text |
| Recetas.ParseUnsignedAtDot | hu3_Recetas.py:119 | text with a dot is read as digits, the first dot and digits, with at least one digit |
| Recetas.ParseUnsignedIff | hu3_Recetas.py:119 | the unsigned reading gives x exactly when the text is a numeral worth x |
| Recetas.ParseUnsignedNone | hu3_Recetas.py:119-121 | the unsigned reading fails exactly when the text is no numeral at all |
| Recetas.ParseFloatReads | hu3_Recetas.py:119-121 | after stripping and one optional sign: NaN iff the word `nan`, an infinity of that sign iff `inf`/`infinity`, the signed value x iff a numeral worth x, and ValueError iff none of these |
| Recetas.ParseFloatRefuses | hu3_Recetas.py:119-128 | `float` raises ValueError exactly on text that is not FloatText |
| Recetas.UnreadableBody | hu3_Recetas.py:116-128 | a body is unreadable exactly when an operand (either side of the first dash, or the whole) is not FloatText |
| Recetas.ToleranceNotANumber | hu3_Recetas.py:116-128 | "not a number" is answered exactly for a non-empty tolerance with an operand that is not FloatText |
| Recetas.NaNToleranceAccepted | hu3_Recetas.py:108-132 | as written, "nan%" passes the tolerance check |
| Recetas.ValidateTolerance | hu3_Recetas.py:103-132 | accepted iff non-empty with real operands in 0–10, low not above high; empty and non-numeric inputs get their own errors |
| Recetas.ToleranceAgreesWithoutNaN | hu3_Recetas.py:103-132 | without a NaN operand the corrected check agrees with ValidateToleranceAsWritten, the check as written |
| Recetas.NaNToleranceRefused | hu3_Recetas.py:108-132 | the corrected check refuses "nan%" as out of range |
| Recetas.DecoratedShape | hu3_Recetas.py:110-113 | dropping the optional `±` and `%` gives back the body, which stays compact |
| Recetas.BodyInSpaces | hu3_Recetas.py:108-113 | whitespace around a compact tolerance is stripped, and its body is the compact text without `±` and `%` |
| Recetas.RangeToleranceAccepted | hu3_Recetas.py:106-124 | `a-b`, with or without `±` and `%`, with whitespace around it, is accepted iff a <= b <= 10 |
| Recetas.SingleToleranceAccepted | hu3_Recetas.py:106-132 | one literal x, with or without `±` and `%`, with whitespace around it, is accepted iff x <= 10 |
| Recetas.RetireAll | hu3_Recetas.py:264 | no row is added or removed |
| Recetas.RetireAllRows | hu3_Recetas.py:264 | each row of the type becomes inactive; the rest are unchanged |
| Recetas.LatestVersion | hu3_Recetas.py:260 | none iff the type has no row; otherwise a version some row of the type has, and no row of the type has a larger one |
| Recetas.MaxVersion | hu3_Recetas.py:260-262 | 0 for a type without rows; otherwise the largest version among the type's rows, attained by one of them |
| Recetas.MaxVersionNotNegative | hu3_Recetas.py:260-262 | with every version at least 1, the highest version is never negative |
| Recetas.MaxVersionRetired | hu3_Recetas.py:260-264 | retiring the rows of a type leaves every type's highest version unchanged |
| Recetas.WithNewVersionRows | hu3_Recetas.py:263-276 | the new row is last; other types unchanged; rows of the type retired iff activating; without activation every old row unchanged |
| Recetas.NewVersionKeepsOneActive | hu3_Recetas.py:263-271 | at most one active row per type is preserved |
| Recetas.NewVersionKeepsOrder | hu3_Recetas.py:260-262 | numbering max + 1 keeps versions increasing within each type |
| Recetas.NewVersionKeepsTable | hu3_Recetas.py:249-282 | increasing ids, increasing versions per type and one active per type are preserved |
| Recetas.NewVersionKeepsIds | hu3_Recetas.py:265-278 | the new row takes the next id, so ids stay increasing and below the counter |
| Recetas.VersionsOfSelects | hu3_Recetas.py:219-235 | the listing holds exactly the rows of the type whose day lies within the bounds |
| Recetas.VersionsOfDescending | hu3_Recetas.py:236 | with versions increasing per type, the listing comes by version descending |
| Recetas.ActiveOf | hu3_Recetas.py:238-247 | an active row of the type, or none iff there is no active row of it |
| Recetas.ActiveIsUnique | hu3_Recetas.py:238-247 | with one active per type, the lookup returns that row |
| Recetas.RecipeRepository.constructor | hu3_Recetas.py:173-208 | a table without rows becomes Seeded: active version 1 of pepperoni then hawaiana under the next two ids, with the base ingredients, "±2%", the base note and one clock reading each, and the counter advances by two; a table with rows is kept |
| Recetas.RecipeRepository.SeedInitial | hu3_Recetas.py:196-208 | the table becomes Seeded: an active new version of pepperoni, then of hawaiana, with the base ingredients and "±2%", each stamped with its own clock reading; the counter advances by two; the invariants hold |
| Recetas.RecipeRepository.RetireType | hu3_Recetas.py:264 | the table becomes RetireAll of the type; the counter is kept |
| Recetas.RecipeRepository.CreateNewVersion | hu3_Recetas.py:249-282 | returns the next id; the table becomes WithNewVersion with version max + 1; the invariants hold |
| Recetas.RecipeRepository.ListVersions | hu3_Recetas.py:216-236 | only rows of the type within the bounds, all of them, version strictly descending |
| Recetas.RecipeRepository.GetActive | hu3_Recetas.py:238-247 | the active row of the type, or none iff it has none |
| Recetas.MaxVersionOtherType | hu3_Recetas.py:260-264 | adding a version of another type leaves a type's highest version unchanged |
| Recetas.ActivatedVersionIsInForce | hu3_Recetas.py:263-271 | after activating, the lookup for the type returns the new row |
| Text.Strip | hu1_RegistroPedido.py:119 | no whitespace at either end; empty iff the input is all whitespace; never longer than the input |
| Text.StripIsTrim | hu1_RegistroPedido.py:119 | the result is a slice of the input with only whitespace before and after it |
| Text.StripAround | hu3_Recetas.py:108 | whitespace around text that neither starts nor ends with whitespace is exactly what is removed |
| Text.RemoveSpaces | hu3_Recetas.py:108 | no space is left, and the result is never longer |
| Text.RemoveSpacesNoSpace | hu3_Recetas.py:108 | text without spaces is unchanged |
| Text.RemoveSpacesKeepsOthers | hu3_Recetas.py:108 | every character other than a space is kept as often as it occurs, and every space goes |
| Text.RemoveSpacesConcat | hu3_Recetas.py:108 | removal works piece by piece, so the kept characters keep their order |
| Text.ReadDecimalSplits | hu3_Recetas.py:85 | the literal read followed by the rest is the input; nothing is read iff the input does not start with a digit |
| Text.ReadDecimalFormat | hu3_Recetas.py:85 | a written-out literal followed by a non-digit, non-dot text is read back exactly |
| Alertas.SeverityOf | hu5_Alertas.py:141 | CRITICO or ALTO |
| Alertas.CriticalSortsFirst | hu5_Alertas.py:90-92 | under SortIndex an event's key is below another's iff it is CRITICO and the other is not |
| Alertas.DisplayAgreesWithSeverity | hu5_Alertas.py:355-359 | the DisplayState column is OK iff no alert is due; past the threshold, CRÍTICO/ALTO agree with the alert severity |
| Alertas.LatchedTimerIsSilent | hu5_Alertas.py:140-151 | once the latch is set, no further alert is emitted |
| Alertas.OneAlertAtFirstOverdue | hu5_Alertas.py:132-151 | Alerts holds at most one alert; one iff the latch was clear and some reading is past the threshold; it is the alert for the first such reading |
| Alertas.AlertsAreOverdue | hu5_Alertas.py:140-141 | every alert is past the threshold, names its oven and is CRITICO iff more than 3 minutes past |
| Alertas.OvenIdSequence.constructor | hu5_Alertas.py:104 | the counter starts at 1 |
| Alertas.OvenIdSequence.Draw | hu5_Alertas.py:108-110 | returns the counter and advances it by one |
| Alertas.BakeTimer.constructor | hu5_Alertas.py:106-124 | latch clear, nothing elapsed, not stopped |
| Alertas.BakeTimer.Stop | hu5_Alertas.py:129-130 | the stop flag is raised; the latch and elapsed time are kept |
| Alertas.BakeTimer.Tick | hu5_Alertas.py:135-151 | elapsed time updated; an alert iff the latch was clear and the reading is overdue, and then the latch is set |
| Alertas.BakeTimer.Run | hu5_Alertas.py:132-151 | a stopped timer does nothing; otherwise the alerts are Alerts over the readings, and the latch ends set iff it was set or an alert went out |
| Alertas.NewBakeTimer | hu5_Alertas.py:106-124 | an id is drawn first; a known size yields a fresh timer with that id and the size's threshold, an unknown size none |
| Alertas.StartMany | hu5_Alertas.py:327-329 | timers started in a row get successive, strictly increasing ids |

## Left out

- Threads, blocking queue reads with timeouts, `threading.Timer` alert clean-up, locks and real sleeps are not modelled. Workers are sequential, one call per loop turn. Pauses are returned as millisecond lists.
- SQLite connections, schema creation, `BEGIN EXCLUSIVE` and busy-database errors are replaced by in-memory tables with atomic updates. A busy database raises an uncaught error in the source and is not modelled.
- Text timestamps (`now_str`, `to_ts`, `strptime`, `parse_date` and `date(created_at)`) are numbers of seconds: integers for stored orders, recipe rows and the modification service's clock, reals for the oven timers' readings, the alert stamps `started_at`/`created_at` and the kitchen-sync arrival time. A recipe row's day is its `createdAt` divided by 86400.
- The following are not modelled: logging and log formatting, JSON/CSV export, `json.dumps` of recipes, `normalize_tolerance` (its output depends on float `repr`), rounding of logged latencies, the kitchen label and payload text, and the alert message text.
- Random transport delays and failures are not modelled. The outcome of each transport and retry is a parameter.
- Tkinter UI classes, sounds, the alert panel and `hu4_ControlCoccion.py` are not part of this model. So are the ordering of the oven table's rows and `list_types`. The recipe table is seeded when it has no rows, which is when `list_types` is empty.
- Priority-queue ties are not modelled. Among requests with equal keys, Python compares further fields and may raise an error. The model takes any entry with a smallest key.
- A non-integer quantity in an order form or a modification request is not modelled. Quantities are integers.
- `isspace`, `strip`, digits and case-insensitive matching are ASCII only. Unicode whitespace, Unicode digits and Unicode case folding are not modelled.
- Python's `float()` grammar is modelled for signs, `nan`, `inf`, `infinity` and the decimal forms `5`, `5.`, `.5` and `5.25`. Exponents and underscores are not modelled. Floats are exact reals, so rounding differences, e.g. between `elapsed - threshold > 3` and `elapsed > threshold + 3`, are not captured.
- Latencies are parameters, and `avg_latency_ms` is an exact real rather than a float.
- ModPedido.ModService.FinishRequest: the service keeps the corrected average, the sum of the latencies divided by the number processed. The source divides by one more than that (see Findings). The as-written rule is `FinishAsWritten`.
- ModPedido.ModService.ProcessEvent: its metrics follow the corrected `Finish`, not the as-written average, for the same reason.
- ModPedido.ModService.WorkerStep: its metrics follow the corrected `Finish`, not the as-written average, for the same reason.
- Alertas.NewBakeTimer: an unknown size gives none. The source raises an error instead, after the id has been drawn.

## Findings

| source | as written | input that shows it | evidently intended | confidence | as-written member | corrected member |
|---|---|---|---|---|---|---|
| hu6_ModPedido.py:346-350 | `_finish` adds one to `processed` before `_update_latency` reads it, so the running average is divided by one too many | a first request with latency 100 ms: `avg_latency_ms` becomes 50 | the mean of the latencies of all processed requests | high, not executed | ModPedido.FinishAsWrittenHalvesFirstLatency | ModPedido.FinishKeepsMean |
| hu3_Recetas.py:108-132 | the range test only refuses when a comparison is true, and every comparison with NaN is false | "nan%" (also "nan-5%") is accepted | accept only numbers between 0 and 10 | high, not executed | Recetas.NaNToleranceAccepted | Recetas.NaNToleranceRefused |
