# OTP number bot — a Dafny model

This is a model of the engine inside a Telegram bot that hands out phone numbers and forwards one-time passwords (OTPs).

- **Stock.** The admin stocks the bot with phone numbers, kept in a table of unique strings.
- **Issuing a number.** A user presses "Get Number" and gets one number taken from the stock at random. At most one number is issued per user every 15 seconds. The cleaned number, meaning its digits only, is then assigned to that user.
- **Forwarding an OTP.** A listener watches a source channel. For every phone number it finds in a message, it looks up the user holding that number and forwards the message to them. After a successful send it credits the user 0.60 taka and ends the assignment.
- **Withdrawing.** Users withdraw their balance by mobile recharge, Rocket or Binance. Each method has a minimum amount.

The model is in six files:

- `options.dfy` — `Option`.
- `phone.dfy` — the following parts:
  - `clean_phone_number`, which keeps only the digits of a string.
  - A scanner that does what `re.findall(r'(\+?\d[ \d\-\(\)]{8,}\d)', ...)` does.
  - The scanner is proved sound and complete against a declarative description of a match (`NumberShape`, `Longest`, `NoShapeAt`).
- `stock.dfy` — the value-level behaviour of the numbers table under its unique column:
  - inserting a list (`InsertAll`);
  - deleting one string (`Without`).
- `otp.dfy` — the following parts:
  - the cooldown gate;
  - the balance credit;
  - the routing pass of the channel listener, as a function over the balances and assignments tables (`Route`), with lemmas about what it credits and clears.
- `withdraw.dfy` — the threshold and balance checks of the withdrawal conversation.
- `bot.dfy` — class `Bot.Database`:
  - It holds the five tables as fields: `numbers`, `cooldowns`, `users`, `balances` and `assignments`.
  - Each database function of the bot is a method that updates those fields in place.
  - So are the issuance step of the "Get Number" handler, the two withdrawal steps and the forwarding loop.
  - Each method's `ensures` ties its new state to the functions above.
  - `Valid()` holds across all methods: the stock has no duplicates, and every registered user has an account.
  - `HoldersRegistered()` says every holder of an assignment is a registered user. `HandleGetNumberMessage`, `ForwarderHandler` and `RemoveAssignment` preserve it. `AssignNumberToUser` preserves it when the user is registered, as the "Get Number" handler ensures by registering first.

Units and inputs:

- Money is in hundredths: poisha for taka and cents for US dollars.
  - One OTP is worth 60.
  - The minima are 2000 for recharge, 3000 for Rocket and 25 cents for Binance.
  - The Binance minimum in taka is 25 × 110 = 2750.
- Time is in whole milliseconds.
- `now` is a parameter, and so is the outcome of each outbound send (`delivered(i)` for the i-th candidate of a message).
- The random stock offset is a nondeterministic choice in `[0, count)`.

Behaviour of the code worth noting:

- **Earlier assignments.** `assign_number_to_user` replaces only the row of the same cleaned number (main.py:117). A user's earlier assignments stay, so one user can hold several numbers.
- **When credit happens.** The credit and the clearing of an assignment happen only after the send to the holder succeeds (main.py:444-450, inside the `try`).
- **The zero id.** A holder id of 0 is treated as no holder, because of the truthiness test at main.py:437.
- **The reported wait.** The wait shown to a user denied by the cooldown is the rest of the 15-second window cut down to whole seconds by `int()` (main.py:184). It can be 0 while the gate is still closed (`Otp.ZeroWaitWhileClosed`).
- **Length of a match.** A match needs at least 10 characters: a digit, 8 more, then a digit. So an 8-digit string such as `15550100` is not extracted (`Phone.EightDigitsAreNotExtracted`).

## Model

| member | source | states |
|---|---|---|
| Phone.Clean | main.py:84-85 | the cleaned number is all digits and no longer than the input |
| Phone.CleanAppend | main.py:84-85 | cleaning distributes over concatenation, so the digits come out in input order |
| Phone.CleanKeepsDigitsInPlace | main.py:84-85 | a character survives cleaning, in its place, exactly when it is a digit |
| Phone.CleanOfDigits | main.py:84-85 | a string of digits is left as it is |
| Phone.CleanIdempotent | main.py:84-85 | cleaning twice is cleaning once |
| Phone.CleanKeepsDigitCounts | main.py:84-85 | each digit occurs as often in the result as in the input, and nothing else occurs |
| Phone.MatchAt | main.py:430 | at a position the regex either finds the longest well-shaped span starting there (optional `+`, digit, at least 8 characters from space/digit/`-`/`(`/`)`, digit), or no such span exists |
| Phone.Scan | main.py:430 | findall from a position reports at most one match per 10 characters, as every match spans at least 10 |
| Phone.ScanMatches | main.py:430 | every span findall reports from a position is a well-shaped match at or after it, longest from its start |
| Phone.ScanOrdered | main.py:430 | the spans findall reports come in text order and do not overlap |
| Phone.ScanSound | main.py:430 | every match findall reports is well shaped and longest from its start, and matches are in text order without overlap |
| Phone.ScanComplete | main.py:430 | no well-shaped span starts at a position that no reported match covers |
| Phone.ScanEmpty | main.py:430 | findall reports nothing exactly when no position starts a well-shaped span |
| Phone.ScanSkips | main.py:430 | positions where nothing matches are passed over without effect |
| Phone.ScanSingleMatch | main.py:430 | a text whose only well-shaped spans lie inside one maximal span yields exactly that span |
| Phone.FindNumbers | main.py:430 | every extracted string starts with a digit or `+` and a digit, ends with a digit, has only number characters, and has at least 8 characters between its first and last digit; there is at most one candidate per 10 characters of text |
| Phone.EightDigitsAreNotExtracted | main.py:430 | `code 123456 for 15550100` yields no candidate |
| Phone.InternationalNumberIsExtracted | main.py:430 | `OTP 4821 for +880 1712-345678.` yields exactly `+880 1712-345678` |
| Stock.InsertAll | main.py:132-142 | inserting a list keeps the old stock as a prefix, holds exactly the old strings and the listed ones, stays duplicate-free, and grows by at most the list length |
| Stock.AddedCountIsDistinctNew | main.py:132-142 | added_count is the number of distinct listed strings not already in stock |
| Stock.Without | main.py:144-148 | deleting a string removes it and only it, shrinks a duplicate-free stock by one when present, and changes nothing when absent |
| Stock.RemoveAtIsWithout | main.py:187-192 | deleting the row at an offset of a duplicate-free stock is deleting that row's string |
| Otp.CooldownWait | main.py:181-185 | a request is denied exactly when a cooldown record exists and fewer than 15 seconds have passed; the reported wait is the rest of the window rounded down to whole seconds, so it is never negative and falls short of the window's end by less than a second; it is at most 15 when the last request is not later than now |
| Otp.CooldownWaitIsExact | main.py:181-185 | before the reported seconds have passed the gate stays closed, and once one more second has passed it is open |
| Otp.ZeroWaitWhileClosed | main.py:181-185 | a request made 14.5 seconds after the last one is told to wait 0 seconds |
| Otp.Credit | main.py:108-113 | update_user_balance adds the amount, unclamped, to an existing account only; no account is created and no other account changes |
| Otp.RouteOne | main.py:434-450 | one candidate: its cleaned number's assignment goes exactly when the holder is truthy and the send succeeded, and then that holder alone gains 60; every other assignment and account stays |
| Otp.RouteFrom | main.py:434-450 | the loop over candidates never opens an account and only removes assignments |
| Otp.Route | main.py:426-453 | routing a message never opens an account and only removes assignments; a message without candidates changes nothing |
| Otp.RouteOnlyClears | main.py:434-450 | every assignment that no candidate of the message cleans to is kept |
| Otp.RouteClearsExactly | main.py:434-450 | for any mix of send outcomes, an assignment is cleared exactly when its holder is truthy and some candidate cleaning to its number was delivered; a failed send alone keeps it |
| Otp.RouteCreditsEachClearedOnce | main.py:434-450 | each account gains exactly 60 for each assignment of its own that routing cleared, so a repeated candidate credits an assignment at most once |
| Otp.RouteWithoutHitsChangesNothing | main.py:434-450 | candidates that resolve to no holder, or whose send fails, change nothing |
| Otp.RouteClearsEveryDeliveredHit | main.py:434-450 | when every send succeeds, no candidate of the message still resolves to a holder afterwards |
| Otp.EmptyMessageChangesNothing | main.py:427-432 | an empty message changes nothing |
| Otp.RepeatedMessageIsNoOp | main.py:426-453 | routing the same message again after all its sends succeeded credits nobody and clears nothing |
| Withdraw.MinBdt | main.py:261 | the minimum in taka is the method's minimum converted (Binance at 110 taka per dollar), and at least 20 taka for every method |
| Withdraw.ChooseMethod | main.py:251-274 | cancel ends the conversation; a method is accepted exactly when the balance reaches its minimum in taka; otherwise the minimum is reported |
| Withdraw.AmountInBdt | main.py:298 | a Binance amount is converted at 110 taka per dollar, other methods' amounts stay as they are, and only finite amounts are finite |
| Withdraw.ConfirmAsWritten | main.py:286-308 | as written: unparsable text is refused; an amount below the minimum in its own currency is refused; then an amount in taka above the balance is refused; anything else is approved and debited in taka |
| Withdraw.NanIsApproved | main.py:286-308 | as written, the amount `nan` passes both checks and is debited |
| Withdraw.Confirm | main.py:286-308 | approved exactly when the amount is a number, at least the method's minimum, and covered by the balance; the debit is the amount in taka, between the minimum in taka and the balance; non-numbers and amounts below the minimum are told apart |
| Withdraw.ConfirmDiffersOnlyOnNan | main.py:286-308 | the corrected check differs from the code as written only for not-a-number |
| Withdraw.ApprovedImpliesMethodChoosable | main.py:261-264 | a balance that allows a withdrawal also passes the method-choice check |
| Bot.Database.constructor | main.py:55-78 | the five tables start empty |
| Bot.Database.AddOrUpdateUser | main.py:95-101 | registers the user and opens a zero account only when none exists; an existing balance is kept, so repeating the call changes nothing |
| Bot.Database.GetUserBalance | main.py:103-106 | the balance, or 0 for a user without an account; nothing changes |
| Bot.Database.UpdateUserBalance | main.py:108-113 | balances become Credit of the old balances |
| Bot.Database.AssignNumberToUser | main.py:115-120 | the cleaned number resolves to the user and every other row, including others of the same user, is unchanged; holders stay registered when the user is |
| Bot.Database.GetAssignedUser | main.py:122-125 | the holder of the cleaned number, or none; nothing changes |
| Bot.Database.RemoveAssignment | main.py:127-130 | the row for the cleaned number is gone and nothing else changes, so removing an absent or already removed row is a no-op; holders stay registered |
| Bot.Database.AddNumbersToDb | main.py:132-142 | the loop leaves the stock equal to InsertAll of the old stock and the list, duplicate-free, and returns the growth, at most the list length |
| Bot.Database.DeleteNumberFromDb | main.py:144-148 | true exactly when the string was in stock; the stock becomes Without that string |
| Bot.Database.ClearAllNumbersFromDb | main.py:150-155 | returns the old count and empties the stock |
| Bot.Database.GetTotalNumbersCount | main.py:157-159 | the number of strings in stock |
| Bot.Database.HandleGetNumberMessage | main.py:176-216 | the user is registered first; the request is denied with the CooldownWait wait exactly when the gate is closed; on an empty stock nothing else changes; otherwise the entry at some offset is removed, so the stock shrinks by one and no longer holds it, the cooldown is stamped with now, and the cleaned number is assigned to the user |
| Bot.Database.ChooseWithdrawMethod | main.py:251-274 | the outcome is ChooseMethod of the choice and the stored balance |
| Bot.Database.ConfirmWithdraw | main.py:286-308 | the verdict is Confirm of the amount and the stored balance; only an approval debits, and it never leaves the balance negative |
| Bot.Database.ForwarderHandler | main.py:426-453 | the loop leaves balances and assignments equal to Route of the old ones over the extracted candidates |
| Bot.IssuedNumberResolvesToRequester | main.py:187-204 | right after a number is issued, resolving its cleaned form gives the requester |

## Left out

- Telegram replies, keyboards, Markdown text, the conversation wiring and the admin-id guards are left out. They are user interface.
- The depletion notice to the admin is left out; it is only an outgoing message.
- The Flask keep-alive server, the broadcasts (including `get_all_user_ids`) and the Telethon client lifecycle are left out. They are network I/O and threads.
- `send_message` is left out. Its success is the `delivered` parameter.
- SQLAlchemy engines, sessions, commits and rollbacks are left out. Each database function is one atomic step on the fields.
- Races between the bot handlers and the channel listener are left out. The model is sequential.
- Floating-point money is left out. Balances and amounts are whole hundredths, and amounts with finer fractions are not modelled.
  - `float()` results are modelled only as finite, infinite or not-a-number.
- `time.time()` is modelled as whole milliseconds passed in as `now`. Sub-millisecond differences in the cooldown gate are not modelled.
  - `assign_number_to_user` reads the clock a second time. The model stamps the assignment with the same `now`.
- `random.randint` is a nondeterministic offset.
- The table's row order, which the offset indexes, is taken to be insertion order.
- `\d` and `\D` in Python match every Unicode decimal digit. The model treats only ASCII `0`-`9` as digits.
- Exceptions raised by `update_user_balance` or `remove_assignment` inside the forwarding `try` are left out. Only the send can fail.
- Bot.Database.ConfirmWithdraw: applies the corrected check `Withdraw.Confirm` from the Findings table. For the amount text `nan` it therefore refuses and keeps the balance, where the code approves and sets the balance to NaN. Its never-negative balance clause rests on that correction. A NaN balance cannot be stored in the model's whole-number balances.
- Otp.CooldownWait: the bound of 15 on the reported wait is stated only when the clock has not gone backwards since the last request. With an earlier `now` the code reports a longer wait, and so does the model.

## Findings

| source | as written | input that shows it | evidently intended | confidence | as-written member | corrected member |
|---|---|---|---|---|---|---|
| main.py:286-308 | `float(text)` accepts `nan`. Both `amount < min_amount` and `balance < amount_in_bdt` are false for NaN, so the withdrawal is approved and `update_user_balance(user_id, -nan)` makes the balance NaN | the amount text `nan` for any method and any balance | an amount that is not a number is refused like any other non-numeric text | not executed | Withdraw.NanIsApproved | Withdraw.Confirm |
