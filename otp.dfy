/**
 * The tables the bot shares between number issuance and OTP routing, seen as
 * values: who holds which cleaned number, the balances, the cooldown gate, and
 * the routing pass the channel listener makes over one inbound message.
 */
module Otp {
  import opened Options
  import Phone

  /** A Telegram user id. */
  type UserId = int

  /**
   * A row of active_assignments: the holder of a cleaned number and when it
   * was handed out, in milliseconds.
   */
  datatype Holding = Holding(user: UserId, issuedAt: int)

  /** COOLDOWN_SECONDS. */
  const CooldownSeconds: int := 15

  /** Milliseconds per second: timestamps are time.time() in whole milliseconds. */
  const MillisPerSecond: int := 1000

  /** BALANCE_PER_OTP, 0.60 taka, in hundredths. */
  const BalancePerOtp: int := 60

  /**
   * The cooldown gate of handle_get_number_message, on timestamps in
   * milliseconds: the whole seconds the user is told to wait, or None when a
   * number may be handed out. Only a recorded request less than
   * CooldownSeconds ago denies. The wait is the rest of the window cut down to
   * whole seconds, as int() does, so it can be 0 while the gate is still
   * closed and falls short of the window's end by less than a second.
   */
  function CooldownWait(cooldowns: map<UserId, int>, u: UserId, now: int): (r: Option<int>)
    ensures r.Some? <==> u in cooldowns && now - cooldowns[u] < CooldownSeconds * MillisPerSecond
    ensures r.Some? ==> 0 <= r.value
    ensures r.Some? ==>
      && r.value * MillisPerSecond <= cooldowns[u] + CooldownSeconds * MillisPerSecond - now
      && cooldowns[u] + CooldownSeconds * MillisPerSecond - now < (r.value + 1) * MillisPerSecond
    ensures r.Some? && cooldowns[u] <= now ==> r.value <= CooldownSeconds
  {
    if u in cooldowns && now - cooldowns[u] < CooldownSeconds * MillisPerSecond
    then Some((CooldownSeconds * MillisPerSecond - (now - cooldowns[u])) / MillisPerSecond)
    else None
  }

  /**
   * The reported wait is nearly enough: the gate is still closed until that
   * many seconds have passed, and open once one second more has passed.
   */
  lemma {:induction false} CooldownWaitIsExact(cooldowns: map<UserId, int>, u: UserId, now: int, later: int)
    requires CooldownWait(cooldowns, u, now).Some?
    ensures later < now + CooldownWait(cooldowns, u, now).value * MillisPerSecond ==> CooldownWait(cooldowns, u, later).Some?
    ensures later >= now + (CooldownWait(cooldowns, u, now).value + 1) * MillisPerSecond ==> CooldownWait(cooldowns, u, later).None?
  {
  }

  /**
   * With half a second of the window left, the user is told to wait 0
   * seconds although the gate is still closed.
   */
  lemma ZeroWaitWhileClosed(cooldowns: map<UserId, int>, u: UserId)
    requires cooldowns == map[u := 1000700]
    ensures CooldownWait(cooldowns, u, 1015200) == Some(0)
  {
  }

  /** update_user_balance: add amount to an existing account, unclamped; do nothing for an unknown user. */
  function Credit(balances: map<UserId, int>, u: UserId, amount: int): (r: map<UserId, int>)
    ensures r.Keys == balances.Keys
    ensures forall v :: v in r ==> r[v] == balances[v] + (if v == u then amount else 0)
  {
    if u in balances then balances[u := balances[u] + amount] else balances
  }

  /** The two tables the routing pass touches. */
  datatype Books = Books(balances: map<UserId, int>, assignments: map<string, Holding>)

  /** The candidate raw resolves to a truthy holder (the test `if assigned_user_id`). */
  predicate Hit(b: Books, raw: string)
  {
    var key := Phone.Clean(raw);
    key in b.assignments && b.assignments[key].user != 0
  }

  /** Every entry of small is an entry of big. */
  ghost predicate SubMap(small: map<string, Holding>, big: map<string, Holding>)
  {
    forall k :: k in small ==> k in big && small[k] == big[k]
  }

  /**
   * One turn of the loop in forwarder_handler for the candidate raw: clean it,
   * look up the holder and, if the holder id is truthy and the message reached
   * them, credit BalancePerOtp and then drop the assignment.
   */
  function RouteOne(b: Books, raw: string, delivered: bool): (r: Books)
    ensures r.balances.Keys == b.balances.Keys && SubMap(r.assignments, b.assignments)
    ensures Phone.Clean(raw) in r.assignments <==> Phone.Clean(raw) in b.assignments && !(delivered && Hit(b, raw))
    ensures forall k :: k in b.assignments && k != Phone.Clean(raw) ==> k in r.assignments
    ensures forall v :: v in r.balances ==>
      r.balances[v] == b.balances[v]
        + (if delivered && Hit(b, raw) && v == b.assignments[Phone.Clean(raw)].user then BalancePerOtp else 0)
  {
    var key := Phone.Clean(raw);
    if delivered && Hit(b, raw) then
      Books(Credit(b.balances, b.assignments[key].user, BalancePerOtp), b.assignments - {key})
    else b
  }

  /**
   * The loop from candidate i on; delivered(j) says whether the send for
   * candidate j succeeded. Routing never opens an account and only ever
   * removes assignments.
   */
  function RouteFrom(b: Books, raws: seq<string>, delivered: nat -> bool, i: nat): (r: Books)
    requires i <= |raws|
    ensures r.balances.Keys == b.balances.Keys && SubMap(r.assignments, b.assignments)
    decreases |raws| - i
  {
    if i == |raws| then b else RouteFrom(RouteOne(b, raws[i], delivered(i)), raws, delivered, i + 1)
  }

  /** forwarder_handler over one message text: a message without candidates changes nothing. */
  function Route(b: Books, text: string, delivered: nat -> bool): (r: Books)
    ensures r.balances.Keys == b.balances.Keys && SubMap(r.assignments, b.assignments)
    ensures Phone.FindNumbers(text) == [] ==> r == b
  {
    RouteFrom(b, Phone.FindNumbers(text), delivered, 0)
  }

  /** Some candidate from position i on cleans to key. */
  ghost predicate Mentions(raws: seq<string>, i: nat, key: string)
  {
    exists j :: i <= j < |raws| && Phone.Clean(raws[j]) == key
  }

  /** Every holder of an assignment has a balance account. */
  ghost predicate HoldersHaveAccounts(b: Books)
  {
    forall k :: k in b.assignments ==> b.assignments[k].user in b.balances
  }

  /** The assignments of u that were in before and are gone after. */
  ghost function Cleared(before: map<string, Holding>, after: map<string, Holding>, u: UserId): set<string>
  {
    set k | k in before && before[k].user == u && k !in after
  }

  /** Routing leaves alone each assignment whose number no candidate cleans to. */
  lemma {:induction false} RouteOnlyClears(b: Books, raws: seq<string>, delivered: nat -> bool, i: nat)
    requires i <= |raws|
    ensures forall k :: k in b.assignments && !Mentions(raws, i, k) ==> k in RouteFrom(b, raws, delivered, i).assignments
    decreases |raws| - i
  {
    if i < |raws| {
      var b1 := RouteOne(b, raws[i], delivered(i));
      RouteOnlyClears(b1, raws, delivered, i + 1);
      forall k | k in b.assignments && !Mentions(raws, i, k)
        ensures k in RouteFrom(b, raws, delivered, i).assignments
      {
        assert Phone.Clean(raws[i]) != k;
        assert !Mentions(raws, i + 1, k);
      }
    }
  }

  /** Cleared sets of a chain of removals add up without overlap. */
  lemma ClearedSplits(a: map<string, Holding>, m: map<string, Holding>, c: map<string, Holding>, u: UserId)
    requires SubMap(m, a) && SubMap(c, m)
    ensures Cleared(a, c, u) == Cleared(a, m, u) + Cleared(m, c, u)
    ensures Cleared(a, m, u) !! Cleared(m, c, u)
    ensures |Cleared(a, c, u)| == |Cleared(a, m, u)| + |Cleared(m, c, u)|
  {
    assert Cleared(a, c, u) == Cleared(a, m, u) + Cleared(m, c, u);
  }

  /**
   * Credits match clearings: after routing, each user's balance has grown by
   * exactly BalancePerOtp for every assignment of theirs that was cleared. As
   * routing never creates an assignment, each assignment is credited at most
   * once, however often a message or a candidate repeats.
   */
  lemma {:induction false} RouteCreditsEachClearedOnce(b: Books, raws: seq<string>, delivered: nat -> bool, i: nat)
    requires i <= |raws|
    requires HoldersHaveAccounts(b)
    ensures forall u :: u in b.balances ==>
      && u in RouteFrom(b, raws, delivered, i).balances
      && RouteFrom(b, raws, delivered, i).balances[u]
        == b.balances[u] + BalancePerOtp * |Cleared(b.assignments, RouteFrom(b, raws, delivered, i).assignments, u)|
    decreases |raws| - i
  {
    var r := RouteFrom(b, raws, delivered, i);
    RouteOnlyClears(b, raws, delivered, i);
    if i == |raws| {
      forall u | u in b.balances ensures r.balances[u] == b.balances[u] + BalancePerOtp * |Cleared(b.assignments, r.assignments, u)| {
        assert Cleared(b.assignments, r.assignments, u) == {};
      }
    } else {
      var b1 := RouteOne(b, raws[i], delivered(i));
      assert HoldersHaveAccounts(b1);
      RouteCreditsEachClearedOnce(b1, raws, delivered, i + 1);
      RouteOnlyClears(b1, raws, delivered, i + 1);
      assert r == RouteFrom(b1, raws, delivered, i + 1);
      forall u | u in b.balances ensures r.balances[u] == b.balances[u] + BalancePerOtp * |Cleared(b.assignments, r.assignments, u)| {
        var key := Phone.Clean(raws[i]);
        assert SubMap(b1.assignments, b.assignments);
        ClearedSplits(b.assignments, b1.assignments, r.assignments, u);
        if b1 == b {
          assert Cleared(b.assignments, b1.assignments, u) == {};
        } else {
          assert b1.balances[u] == b.balances[u] + (if b.assignments[key].user == u then BalancePerOtp else 0);
          assert Cleared(b.assignments, b1.assignments, u) == if b.assignments[key].user == u then {key} else {};
        }
      }
    }
  }

  /** Candidates that resolve to no holder, and candidates whose send failed, change nothing. */
  lemma {:induction false} RouteWithoutHitsChangesNothing(b: Books, raws: seq<string>, delivered: nat -> bool, i: nat)
    requires i <= |raws|
    requires forall j :: i <= j < |raws| ==> !delivered(j) || !Hit(b, raws[j])
    ensures RouteFrom(b, raws, delivered, i) == b
    decreases |raws| - i
  {
    if i < |raws| {
      assert RouteOne(b, raws[i], delivered(i)) == b;
      RouteWithoutHitsChangesNothing(b, raws, delivered, i + 1);
    }
  }

  /** When every send succeeds, no candidate of the message still resolves to a holder afterwards. */
  lemma {:induction false} RouteClearsEveryDeliveredHit(b: Books, raws: seq<string>, delivered: nat -> bool, i: nat)
    requires i <= |raws|
    requires forall j :: i <= j < |raws| ==> delivered(j)
    ensures forall j :: i <= j < |raws| ==> !Hit(RouteFrom(b, raws, delivered, i), raws[j])
    decreases |raws| - i
  {
    if i < |raws| {
      var b1 := RouteOne(b, raws[i], delivered(i));
      assert !Hit(b1, raws[i]);
      RouteClearsEveryDeliveredHit(b1, raws, delivered, i + 1);
      RouteOnlyClears(b1, raws, delivered, i + 1);
    }
  }

  /**
   * Exactly which assignments routing clears, for any mix of send outcomes: an
   * assignment goes exactly when its holder is truthy and some candidate that
   * cleans to its number was delivered. A failed send for one candidate keeps
   * that assignment, whatever happens to the other candidates.
   */
  lemma {:induction false} RouteClearsExactly(b: Books, raws: seq<string>, delivered: nat -> bool, i: nat, k: string)
    requires i <= |raws| && k in b.assignments
    ensures k !in RouteFrom(b, raws, delivered, i).assignments
      <==> b.assignments[k].user != 0 && exists j :: i <= j < |raws| && delivered(j) && Phone.Clean(raws[j]) == k
    decreases |raws| - i
  {
    if i < |raws| {
      var b1 := RouteOne(b, raws[i], delivered(i));
      if Phone.Clean(raws[i]) == k && delivered(i) && Hit(b, raws[i]) {
        assert k !in b1.assignments;
      } else {
        assert k in b1.assignments && b1.assignments[k] == b.assignments[k];
        RouteClearsExactly(b1, raws, delivered, i + 1, k);
        if b.assignments[k].user != 0 && exists j :: i <= j < |raws| && delivered(j) && Phone.Clean(raws[j]) == k {
          var j :| i <= j < |raws| && delivered(j) && Phone.Clean(raws[j]) == k;
          assert j != i;
        }
      }
    }
  }

  /** An empty message changes nothing. */
  lemma EmptyMessageChangesNothing(b: Books, delivered: nat -> bool)
    ensures Route(b, "", delivered) == b
  {
  }

  /**
   * The same channel message arriving a second time, after every send of the
   * first succeeded, credits nobody and clears nothing.
   */
  lemma {:induction false} RepeatedMessageIsNoOp(b: Books, text: string, delivered: nat -> bool)
    ensures Route(Route(b, text, (j: nat) => true), text, delivered) == Route(b, text, (j: nat) => true)
  {
    var raws := Phone.FindNumbers(text);
    var once := Route(b, text, (j: nat) => true);
    RouteClearsEveryDeliveredHit(b, raws, (j: nat) => true, 0);
    RouteWithoutHitsChangesNothing(once, raws, delivered, 0);
  }
}
