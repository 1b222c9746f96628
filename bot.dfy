/**
 * The bot's database and the handlers that change it: the numbers stock, the
 * per-user cooldowns, the registered users, the balances and the active
 * assignments, each a field of one object. Every database function is one
 * atomic step on these fields.
 */
module Bot {
  import opened Options
  import Phone
  import Stock
  import opened Otp
  import opened Withdraw

  /** What a press of "Get Number" comes to. */
  datatype Issue = Denied(wait: int) | Issued(number: string) | OutOfStock

  class Database {
    /** numbers: the raw strings in stock, in table order. */
    var numbers: seq<string>
    /** user_cooldown: time of each user's last successful request. */
    var cooldowns: map<UserId, int>
    /** users: everyone who has interacted with the bot. */
    var users: set<UserId>
    /** user_balances, in hundredths of a taka. */
    var balances: map<UserId, int>
    /** active_assignments, keyed by cleaned number. */
    var assignments: map<string, Holding>

    /** The unique column keeps the stock free of duplicates, and every registered user has an account. */
    ghost predicate Valid()
      reads this
    {
      Stock.NoDup(numbers) && balances.Keys == users
    }

    /** Every holder of an assignment is a registered user. */
    ghost predicate HoldersRegistered()
      reads this
    {
      forall k :: k in assignments ==> assignments[k].user in users
    }

    /** The tables the routing pass works on. */
    function Ledger(): Books
      reads this
    {
      Books(balances, assignments)
    }

    /** The balance get_user_balance reports: the stored one, or 0 for a user without an account. */
    function BalanceOf(u: UserId): int
      reads this
    {
      if u in balances then balances[u] else 0
    }

    constructor ()
      ensures Valid() && HoldersRegistered()
      ensures numbers == [] && cooldowns == map[] && users == {} && balances == map[] && assignments == map[]
    {
      numbers, cooldowns, users, balances, assignments := [], map[], {}, map[], map[];
    }

    /** add_or_update_user: register the user and open an account at zero, keeping any existing balance. */
    method AddOrUpdateUser(u: UserId)
      requires Valid()
      modifies this`users, this`balances
      ensures Valid()
      ensures users == old(users) + {u}
      ensures balances == if u in old(balances) then old(balances) else old(balances)[u := 0]
    {
      if u !in users {
        users := users + {u};
      }
      if u !in balances {
        balances := balances[u := 0];
      }
    }

    /** get_user_balance: the balance, or 0 for a user without an account. */
    method GetUserBalance(u: UserId) returns (b: int)
      ensures u in balances ==> b == balances[u]
      ensures u !in balances ==> b == 0
    {
      b := BalanceOf(u);
    }

    /** update_user_balance: add amount, unclamped, to an existing account only. */
    method UpdateUserBalance(u: UserId, amount: int)
      requires Valid()
      modifies this`balances
      ensures Valid()
      ensures balances == Credit(old(balances), u, amount)
    {
      if u in balances {
        balances := balances[u := balances[u] + amount];
      }
    }

    /**
     * assign_number_to_user: replace the row for this cleaned number, if any.
     * Other rows stay, including other numbers held by the same user.
     */
    method AssignNumberToUser(key: string, u: UserId, now: int)
      modifies this`assignments
      ensures assignments == old(assignments)[key := Holding(u, now)]
      ensures old(HoldersRegistered()) && u in users ==> HoldersRegistered()
    {
      assignments := assignments[key := Holding(u, now)];
    }

    /** get_assigned_user: the holder of a cleaned number, if any; changes nothing. */
    method GetAssignedUser(key: string) returns (r: Option<UserId>)
      ensures r.Some? <==> key in assignments
      ensures r.Some? ==> r.value == assignments[key].user
    {
      r := if key in assignments then Some(assignments[key].user) else None;
    }

    /** remove_assignment: drop the row for a cleaned number; nothing happens when there is none. */
    method RemoveAssignment(key: string)
      modifies this`assignments
      ensures assignments == old(assignments) - {key}
      ensures old(HoldersRegistered()) ==> HoldersRegistered()
    {
      assignments := assignments - {key};
    }

    /**
     * add_numbers_to_db: insert the strings one by one; a string already in
     * stock, or repeated earlier in the list, is rejected by the unique column
     * and not counted.
     */
    method AddNumbersToDb(list: seq<string>) returns (added: nat)
      requires Valid()
      modifies this`numbers
      ensures Valid()
      ensures numbers == Stock.InsertAll(old(numbers), list)
      ensures added == |numbers| - |old(numbers)| <= |list|
    {
      added := 0;
      var i := 0;
      while i < |list|
        invariant 0 <= i <= |list|
        invariant Stock.NoDup(numbers)
        invariant Stock.InsertAll(numbers, list[i..]) == Stock.InsertAll(old(numbers), list)
        invariant |old(numbers)| <= |numbers| && added == |numbers| - |old(numbers)|
      {
        var num := list[i];
        assert list[i..][0] == num && list[i..][1..] == list[i + 1..];
        if num !in numbers {
          numbers := numbers + [num];
          added := added + 1;
        }
        i := i + 1;
      }
      assert list[i..] == [];
    }

    /** delete_number_from_db: true exactly when the string was in stock; only that string goes. */
    method DeleteNumberFromDb(n: string) returns (deleted: bool)
      requires Valid()
      modifies this`numbers
      ensures Valid()
      ensures deleted <==> n in old(numbers)
      ensures numbers == Stock.Without(old(numbers), n)
    {
      deleted := n in numbers;
      numbers := Stock.Without(numbers, n);
    }

    /** clear_all_numbers_from_db: empty the stock and report how many strings it held. */
    method ClearAllNumbersFromDb() returns (count: nat)
      requires Valid()
      modifies this`numbers
      ensures Valid()
      ensures count == |old(numbers)| && numbers == []
    {
      count := |numbers|;
      numbers := [];
    }

    /** get_total_numbers_count. */
    method GetTotalNumbersCount() returns (count: nat)
      ensures count == |numbers|
    {
      count := |numbers|;
    }

    /**
     * handle_get_number_message: register the user; deny while the cooldown
     * window is open; otherwise take the stock entry at a random offset, stamp
     * the cooldown and assign the cleaned number to the user. An empty stock
     * changes nothing but the registration (the caller then alerts the admin).
     */
    method HandleGetNumberMessage(u: UserId, now: int) returns (r: Issue)
      requires Valid()
      modifies this`numbers, this`cooldowns, this`users, this`balances, this`assignments
      ensures Valid()
      ensures old(HoldersRegistered()) ==> HoldersRegistered()
      ensures users == old(users) + {u}
      ensures balances == if u in old(balances) then old(balances) else old(balances)[u := 0]
      ensures r.Denied? <==> CooldownWait(old(cooldowns), u, now).Some?
      ensures r.Denied? ==> r.wait == CooldownWait(old(cooldowns), u, now).value
      ensures r.OutOfStock? <==> CooldownWait(old(cooldowns), u, now).None? && old(numbers) == []
      ensures !r.Issued? ==> numbers == old(numbers) && cooldowns == old(cooldowns) && assignments == old(assignments)
      ensures r.Issued? ==>
        exists k :: 0 <= k < |old(numbers)| && old(numbers)[k] == r.number && numbers == old(numbers)[..k] + old(numbers)[k + 1..]
      ensures r.Issued? ==> r.number !in numbers && |numbers| == |old(numbers)| - 1
      ensures r.Issued? ==> cooldowns == old(cooldowns)[u := now]
      ensures r.Issued? ==> assignments == old(assignments)[Phone.Clean(r.number) := Holding(u, now)]
    {
      AddOrUpdateUser(u);
      var wait := CooldownWait(cooldowns, u, now);
      if wait.Some? {
        return Denied(wait.value);
      }
      var total := GetTotalNumbersCount();
      if total == 0 {
        return OutOfStock;
      }
      var offset :| 0 <= offset < total;
      var number := numbers[offset];
      Stock.RemoveAtIsWithout(numbers, offset);
      numbers := numbers[..offset] + numbers[offset + 1..];
      cooldowns := cooldowns[u := now];
      AssignNumberToUser(Phone.Clean(number), u, now);
      r := Issued(number);
    }

    /** choose_withdraw_method: read the balance and check it against the chosen method's minimum. */
    method ChooseWithdrawMethod(u: UserId, choice: Choice) returns (r: ChoiceOutcome)
      ensures r == ChooseMethod(choice, BalanceOf(u))
    {
      if choice.Cancel? {
        return Cancelled;
      }
      var balance := GetUserBalance(u);
      r := ChooseMethod(choice, balance);
    }

    /**
     * confirm_withdraw: re-read the balance, check the amount, and debit the
     * amount in taka when approved. The balance never goes below zero through
     * a withdrawal.
     */
    method ConfirmWithdraw(u: UserId, p: Payout, parsed: Option<Amount>) returns (v: Verdict)
      requires Valid()
      modifies this`balances
      ensures Valid()
      ensures v == Confirm(p, parsed, old(BalanceOf(u)))
      ensures v.Approved? ==> u in balances && balances == old(balances)[u := old(balances)[u] - v.debit.hundredths]
      ensures v.Approved? ==> balances[u] >= 0
      ensures !v.Approved? ==> balances == old(balances)
    {
      var balance := GetUserBalance(u);
      v := Confirm(p, parsed, balance);
      if v.Approved? {
        UpdateUserBalance(u, -v.debit.hundredths);
      }
    }

    /**
     * forwarder_handler: for every candidate number in the message, in order,
     * clean it, look up its holder and, when the send to the holder succeeds,
     * credit BalancePerOtp and clear the assignment. delivered(i) is the
     * outcome of the send for the i-th candidate.
     */
    method ForwarderHandler(text: string, delivered: nat -> bool)
      requires Valid()
      modifies this`balances, this`assignments
      ensures Valid()
      ensures old(HoldersRegistered()) ==> HoldersRegistered()
      ensures Ledger() == Route(old(Ledger()), text, delivered)
    {
      if text == [] {
        return;
      }
      var raws := Phone.FindNumbers(text);
      var i := 0;
      while i < |raws|
        invariant 0 <= i <= |raws|
        invariant balances.Keys == old(balances).Keys
        invariant SubMap(assignments, old(assignments))
        invariant RouteFrom(Ledger(), raws, delivered, i) == RouteFrom(old(Ledger()), raws, delivered, 0)
      {
        var key := Phone.Clean(raws[i]);
        var holder := GetAssignedUser(key);
        if holder.Some? && holder.value != 0 && delivered(i) {
          UpdateUserBalance(holder.value, BalancePerOtp);
          RemoveAssignment(key);
        }
        i := i + 1;
      }
    }
  }

  /**
   * A user who is handed a number is the one the forwarder resolves that
   * number's cleaned form to, until an OTP for it is delivered.
   */
  method IssuedNumberResolvesToRequester(db: Database, u: UserId, now: int) returns (r: Issue, holder: Option<UserId>)
    requires db.Valid()
    modifies db
    ensures db.Valid()
    ensures r.Issued? ==> holder == Some(u)
    ensures r.Denied? ==> 0 <= r.wait
  {
    r := db.HandleGetNumberMessage(u, now);
    holder := None;
    if r.Issued? {
      holder := db.GetAssignedUser(Phone.Clean(r.number));
    }
  }
}
