/**
 * The amount checks of the withdrawal dialogue: the balance check when a
 * payout method is chosen (choose_withdraw_method) and the amount checks
 * before the debit (confirm_withdraw). Money is counted in hundredths.
 */
module Withdraw {
  import opened Options

  /** The payout methods offered. */
  datatype Payout = Recharge | Rocket | Binance

  /** USD_TO_BDT_RATE. */
  const UsdToBdt: int := 110

  /**
   * MIN_WITHDRAW in hundredths of the method's own currency: taka for Recharge
   * and Rocket, US dollars for Binance.
   */
  function MinAmount(p: Payout): int
  {
    match p
    case Recharge => 2000
    case Rocket => 3000
    case Binance => 25
  }

  /** An amount in the method's currency, in hundredths of a taka. */
  function ToBdt(p: Payout, amount: int): int
  {
    if p == Binance then amount * UsdToBdt else amount
  }

  /** The least balance, in hundredths of a taka, with which a method can be chosen. */
  function MinBdt(p: Payout): (r: int)
    ensures r == ToBdt(p, MinAmount(p))
    ensures r >= 2000
  {
    match p
    case Recharge => 2000
    case Rocket => 3000
    case Binance => 2750
  }

  /** The button pressed in choose_withdraw_method. */
  datatype Choice = Cancel | Pick(payout: Payout)

  datatype ChoiceOutcome = Cancelled | BalanceTooLow(minBdt: int) | AskDetails(payout: Payout)

  /**
   * choose_withdraw_method: cancelling ends the dialogue; otherwise the user
   * goes on to enter details only when the balance reaches the method's
   * minimum in taka.
   */
  function ChooseMethod(choice: Choice, balance: int): (r: ChoiceOutcome)
    ensures r.Cancelled? <==> choice.Cancel?
    ensures r.AskDetails? <==> choice.Pick? && balance >= ToBdt(choice.payout, MinAmount(choice.payout))
    ensures r.AskDetails? ==> r.payout == choice.payout
    ensures r.BalanceTooLow? ==> balance < r.minBdt && r.minBdt == MinBdt(choice.payout)
  {
    match choice
    case Cancel => Cancelled
    case Pick(p) => if balance < MinBdt(p) then BalanceTooLow(MinBdt(p)) else AskDetails(p)
  }

  /**
   * What float(update.message.text) yields, in hundredths: a finite value, an
   * infinity, or not-a-number (float accepts "inf" and "nan").
   */
  datatype Amount = Finite(hundredths: int) | Infinite(negative: bool) | NaN

  /** a < x as IEEE 754 compares: false whenever a is not a number. */
  predicate Below(a: Amount, x: int)
  {
    match a
    case Finite(v) => v < x
    case Infinite(negative) => negative
    case NaN => false
  }

  /** x < a as IEEE 754 compares: false whenever a is not a number. */
  predicate Above(a: Amount, x: int)
  {
    match a
    case Finite(v) => x < v
    case Infinite(negative) => !negative
    case NaN => false
  }

  /** amount_in_bdt: Binance amounts times the rate; infinities and NaN stay as they are. */
  function AmountInBdt(p: Payout, a: Amount): (r: Amount)
    ensures r.Finite? <==> a.Finite?
    ensures a.Finite? ==> r.hundredths == ToBdt(p, a.hundredths)
    ensures p != Binance ==> r == a
  {
    match a
    case Finite(v) => Finite(ToBdt(p, v))
    case _ => a
  }

  datatype Verdict = NotANumber | BelowMinimum | Insufficient | Approved(debit: Amount)

  /**
   * confirm_withdraw as written: None is a text float() rejects. The minimum
   * is checked in the method's own currency before the balance is checked in
   * taka, and whatever passes both comparisons is debited.
   */
  function ConfirmAsWritten(p: Payout, parsed: Option<Amount>, balance: int): (r: Verdict)
    ensures r.NotANumber? <==> parsed.None?
    ensures r.BelowMinimum? <==> parsed.Some? && Below(parsed.value, MinAmount(p))
    ensures r.Insufficient? <==>
      parsed.Some? && !Below(parsed.value, MinAmount(p)) && Above(AmountInBdt(p, parsed.value), balance)
    ensures r.Approved? ==> r.debit == AmountInBdt(p, parsed.value)
  {
    match parsed
    case None => NotANumber
    case Some(a) =>
      if Below(a, MinAmount(p)) then BelowMinimum
      else if Above(AmountInBdt(p, a), balance) then Insufficient
      else Approved(AmountInBdt(p, a))
  }

  /** The text "nan" passes both checks of confirm_withdraw, and NaN is debited. */
  lemma NanIsApproved(p: Payout, balance: int)
    ensures ConfirmAsWritten(p, Some(NaN), balance) == Approved(NaN)
  {
  }

  /**
   * confirm_withdraw with not-a-number turned away like any other text that
   * is not a number: a withdrawal is approved exactly when the amount is a
   * number at least the method's minimum that the balance covers, and the
   * debit is that amount in taka, at least the method's minimum in taka, and
   * never more than the balance.
   */
  function Confirm(p: Payout, parsed: Option<Amount>, balance: int): (r: Verdict)
    ensures r.Approved? <==>
      parsed.Some? && parsed.value.Finite? && parsed.value.hundredths >= MinAmount(p)
      && balance >= ToBdt(p, parsed.value.hundredths)
    ensures r.Approved? ==> r.debit == Finite(ToBdt(p, parsed.value.hundredths))
    ensures r.Approved? ==> MinBdt(p) <= r.debit.hundredths <= balance
    ensures r.NotANumber? <==> parsed.None? || parsed == Some(NaN)
    ensures r.BelowMinimum? <==> parsed.Some? && Below(parsed.value, MinAmount(p))
  {
    if parsed == Some(NaN) then NotANumber else ConfirmAsWritten(p, parsed, balance)
  }

  /** The correction changes the outcome for not-a-number and for nothing else. */
  lemma ConfirmDiffersOnlyOnNan(p: Payout, parsed: Option<Amount>, balance: int)
    ensures Confirm(p, parsed, balance) != ConfirmAsWritten(p, parsed, balance) <==> parsed == Some(NaN)
  {
  }

  /** A balance that allows a withdrawal also allowed choosing its method. */
  lemma {:induction false} ApprovedImpliesMethodChoosable(p: Payout, parsed: Option<Amount>, balance: int)
    requires Confirm(p, parsed, balance).Approved?
    ensures ChooseMethod(Pick(p), balance) == AskDetails(p)
  {
    var v := parsed.value.hundredths;
    assert ToBdt(p, MinAmount(p)) <= ToBdt(p, v);
  }
}
