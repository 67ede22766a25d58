# PyAbsence presence controller, modelled in Dafny

PyAbsence watches a Wi-Fi network for a fixed set of trigger MAC addresses. When none of
them has been seen for more than `retries` consecutive scans it publishes the payload `"on"`
once to an MQTT topic, and it re-arms as soon as any trigger shows up again. The whole
program is `app.py`; this project models its logic:

- `wrappers.dfy` (module `Wrappers`): `Option` and a failure-compatible `Result`.
- `config.dfy` (module `AbsenceConfig`): `getenv` over an environment map in which an unset
  variable reads as `""`, Python's `str.split(",")` with its inverse `join`, and the
  construction of `PyAbsenceConfig` with its first-error-wins order.
- `mqtt.dfy` (module `Mqtt`): `MqttClient.__publish__`, the bounded publish retry, against
  a broker oracle `broker: seq<int>` whose i-th entry is the status of the i-th publish call.
- `presence.dfy` (module `Presence`): the absence verdict of a scan, one cycle of the
  counter/flag update as a pure transition, the fold `Run` of cycles over a finite sequence
  of verdicts (`true` = nobody home), and the run-level properties as lemmas.
- `watcher.dfy` (module `Watcher`): the `main` loop state as a class `Controller` whose
  fields `absentCount` and `notified` are updated in place by `Step`, exactly as the loop
  body does, and `RunCycle`, which adds the `notify` call. A ghost `history` of verdicts and
  `Valid()` tie the fields to `Presence.Run`, so every `Presence` lemma applies to the
  object after any number of steps.

The threshold `retries` is an `int`, as in the code: `int(...)` of an environment variable
is never checked to be non-negative. With a negative value the flag is set from the first
cycle on, so every cycle that sees a trigger publishes at once and an absent cycle publishes
only when it is the very first cycle (`Presence.NegativeRetriesFiring`). The run-level
lemmas that speak of "one notification per streak" therefore assume `retries >= 0`.

Three further facts about app.py that the model keeps as they are:
- The code does not reject an empty trigger list: `","` gives the triggers `["", ""]`, and
  only a `PYABS_TRIGGERS` that is unset or `""` stops start-up (app.py:27-28, 67-68).
- The code does not handle a failing scan: an exception from `who()` (app.py:164) leaves the
  loop and ends the process, so the model has no scan-failure path.
- The code sets `notified` before publishing (app.py:176, 179) and `notify` returns nothing,
  so the flag stays set whether or not the broker accepted the message.

## Model

| member | source | states |
|---|---|---|
| `AbsenceConfig.Getenv` | app.py:26-29 | fails, with the variable's name, exactly when the value is unset or `""` and the variable is required; otherwise returns the value unchanged, `""` included |
| `AbsenceConfig.Split` | app.py:68 | the comma split has at least one piece and no piece contains the separator |
| `AbsenceConfig.JoinSplit` | app.py:68 | joining the pieces of a split with the separator gives back the original string |
| `AbsenceConfig.SplitJoin` | app.py:68 | splitting a join of separator-free pieces gives back the pieces |
| `AbsenceConfig.Triggers` | app.py:67-68 | the trigger list loads exactly when its variable is non-empty, else fails with `Missing`; it is then the comma split of the raw value: at least one element, none containing a comma, joining back to the raw value |
| `AbsenceConfig.GetInt` | app.py:69-72 | an integer variable loads exactly when it is non-empty and parses; a failure is `Missing` for an empty value and `Malformed` otherwise |
| `AbsenceConfig.Load` | app.py:66-74 | succeeds exactly when all seven variables are accepted; a failure names the first rejected variable in reading order, as `Missing` or `Malformed`; on success every field is the looked-up or parsed value and the triggers are the comma split, with at least one element |
| `Mqtt.Publish` | app.py:125-134 | makes between 1 and 5 publish calls, all of the same message; every call but the last failed; reports success exactly when the last call returned 0; when nothing succeeded it made exactly 5 calls, and it never fails |
| `Presence.Hits` | app.py:166 | the `sum` of app.py:166: at most the number of triggers, and zero exactly when no trigger occurs in the MAC list (this is what makes `Absent` the membership test) |
| `Presence.Absent` | app.py:165-166 | the verdict of one scan is `Hits == 0`, the `sum` being 0; it holds exactly when no configured trigger occurs among the scanned MAC addresses |
| `Presence.AbsentIgnoresOrderAndDuplicates` | app.py:165-166 | the verdict depends only on the sets of triggers and of scanned addresses, not on order or duplicates |
| `Presence.Cycle` | app.py:167-176 | the next counter (one more on an absent cycle, 0 otherwise), whether this cycle fires (the new counter exceeds `retries` and the flag was not already set on an absent cycle) and the next flag (set when it fires, kept on an absent cycle, cleared otherwise) |
| `Presence.CyclePreservesInv` | app.py:167-176 | each cycle keeps `absentCount >= 0` and `notified ==> absentCount > retries` |
| `Presence.Run` | app.py:161-176 | the state after any finite run satisfies the same invariant |
| `Presence.TrailingAbsent` | app.py:167-174 | the length of the maximal run of absent verdicts at the end of a sequence: all of its cycles are absent and the one before it is not |
| `Presence.Notifications` | app.py:175-179 | counts the cycles of a run that notify; its own contract is only the bound of one per cycle, its meaning is proved in `Presence.NotificationsCountLongStreaks` |
| `Presence.RunCountsTrailingAbsence` | app.py:167-174 | after any run the counter equals the length of the current absence streak |
| `Presence.RunNotifiedIff` | app.py:167-176 | after any non-empty run (any run when `retries >= 0`) the flag is set exactly when the current streak is longer than `retries` |
| `Presence.FiresIff` | app.py:175-176 | with `retries >= 0`, a cycle notifies exactly when it is absent and is the `(retries + 1)`-th cycle of its streak |
| `Presence.PresenceNeverFires` | app.py:170-176 | with `retries >= 0`, a cycle that sees a trigger never notifies |
| `Presence.NegativeRetriesFiring` | app.py:173-176 | with a negative `retries`, a cycle notifies exactly when it sees a trigger or is the first cycle of the run |
| `Presence.FirstNotificationOfStreak` | app.py:167-176 | the first notification of a streak comes on its `(retries + 1)`-th absent cycle and none before; with `retries == 0` on the first |
| `Presence.StreakStart` | app.py:167-176 | within a streak that started at cycle `s`, cycle `k` notifies exactly when `k == s + retries` |
| `Presence.NoRefireWithoutPresence` | app.py:171-176 | between two notifications there is always a cycle that saw a trigger |
| `Presence.NotificationsCountLongStreaks` | app.py:167-179 | the number of notifications of any run equals the number of its maximal absence streaks longer than `retries` |
| `Presence.TwoEpisodesTwoNotifications` | app.py:167-179 | `retries + 1` absent cycles, one present cycle and `retries + 1` absent cycles give exactly two notifications |
| `Presence.FiveCycleScenario` | app.py:161-179 | with `retries == 2` and verdicts absent, absent, absent, present, absent the counter runs 1, 2, 3, 0, 1 and only the third cycle notifies |
| `Watcher.Controller.constructor` | app.py:161-162 | the controller starts with count 0, flag clear and empty history, with the triggers, threshold and topic of the configuration |
| `Watcher.Controller.Step` | app.py:164-179 | an absent cycle adds one to the counter; a cycle seeing any trigger resets it to 0 and clears the flag; it requests exactly one `"on"` message on the configured topic exactly when the counter exceeds `retries` and, on an absent cycle, the flag was not already set; afterwards the counter is the current streak length and the flag says whether it passed `retries` |
| `Watcher.RunCycle` | app.py:136-147 | requests a message exactly when the step fires (the counter exceeds `retries` and, on an absent cycle, the flag was not already set); after the step, publishes the requested message through the bounded retry and nothing otherwise: 1 to 5 calls of that message, every call but the last failed, `sent` exactly when the last returned 0, exactly 5 calls when nothing was sent; the flag is set whether or not the broker accepted it |

## Left out

- `who()` Wi-Fi scanning and the `device[3]` projection (app.py:164-165): operating-system and network I/O in a foreign library; each cycle receives the scanned MAC addresses directly.
- Paho MQTT connection handling (`Client` construction, `connect`, `on_connect`, `loop_start`/`loop_stop`, app.py:112-123, 144-147): network I/O with a background thread in a foreign library; `RunCycle` keeps only the publish retry, and the broker is the status oracle `broker`.
- `Mqtt.Publish`: requires the oracle to hold a status for each of the 5 possible calls, since each `publish` call of the client library returns a status (app.py:128-129); an exception raised by `publish` is not modelled.
- `sleep(config.delay)` and the endless `while True` (app.py:163, 180): a single step is modelled, and runs are finite sequences of verdicts.
- Logging (app.py:121-133, 151-178): output only.
- Python's `int(...)` (app.py:69-72): a parameter `parseInt: string -> Option<int>` of `AbsenceConfig.Load` stands for it; a failed parse becomes `Malformed` instead of a `ValueError`.
- Scan failures and an empty trigger list: the code handles neither, so the model has no behaviour for them.
