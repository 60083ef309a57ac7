/**
 * The year-by-year drawdown of two retirement accounts, iDeCo and NISA, as
 * pure functions: one account's year (growth, payout, depletion marker,
 * clamp), the joint year of both accounts, and the state after k simulated
 * years. The loop in module Simulator is proved to compute exactly these.
 */
module Drawdown {
  import opened Wrappers

  /** One account's configuration: opening balance, the age from which it
      pays out, and the monthly amount it pays. */
  datatype Account = Account(initialBalance: real, payoutStartAge: int, monthlyPayout: real)

  /** A scenario: the simulated age range (both ends inclusive), the annual
      rate of return shared by both accounts, and the two accounts. */
  datatype Scenario = Scenario(startAge: int, endAge: int, rate: real, ideco: Account, nisa: Account)

  /** The constants the script is shipped with. */
  const SourceScenario: Scenario :=
    Scenario(60, 90, 0.04, Account(6200000.0, 65, 30000.0), Account(12000000.0, 75, 50000.0))

  /** The shipped configuration simulates the 31 ages 60 to 90. */
  lemma SourceYears()
    ensures Years(SourceScenario) == 31
  {
  }

  /** An account's balance and the first age at which it ran dry, if any. */
  datatype AccountState = AccountState(balance: real, depletedAt: Option<int>)

  /** The state the loop carries from one year to the next. */
  datatype State = State(ideco: AccountState, nisa: AccountState)

  /** Number of simulated years: `range(end - start + 1)`, which is empty
      when the count is not positive. */
  function Years(p: Scenario): (r: nat)
    ensures p.endAge < p.startAge ==> r == 0
    ensures p.startAge <= p.endAge ==> p.startAge + r - 1 == p.endAge
  {
    if p.startAge <= p.endAge then p.endAge - p.startAge + 1 else 0
  }

  /** Twelve monthly payouts. */
  function AnnualPayout(a: Account): real
  {
    12.0 * a.monthlyPayout
  }

  /** `max(0, x)`. */
  function Clamp(x: real): (r: real)
    ensures r >= 0.0 && r >= x
    ensures r == x || r == 0.0
  {
    if x >= 0.0 then x else 0.0
  }

  /** A year's growth: `balance * (1 + rate)`. */
  function Grow(balance: real, rate: real): real
  {
    balance * (1.0 + rate)
  }

  /** Does the account pay out in a year that opens with `balance` at `age`?
      Only from its payout start age, and only if the grown balance is positive. */
  predicate PaysOut(a: Account, rate: real, balance: real, age: int)
  {
    age >= a.payoutStartAge && Grow(balance, rate) > 0.0
  }

  /** Does that year's payout bring the balance to zero or below? */
  predicate Depletes(a: Account, rate: real, balance: real, age: int)
  {
    PaysOut(a, rate, balance, age) && Grow(balance, rate) - AnnualPayout(a) <= 0.0
  }

  /** One account's year at `age`: grow, pay out, mark depletion, clamp. */
  function AccountYear(a: Account, rate: real, s: AccountState, age: int): (r: AccountState)
    // the recorded balance is never negative
    ensures r.balance >= 0.0
    // before the payout start age the year only compounds the balance
    ensures age < a.payoutStartAge ==>
              r == AccountState(Clamp(Grow(s.balance, rate)), s.depletedAt)
    ensures age < a.payoutStartAge && s.balance >= 0.0 && rate >= -1.0 ==>
              r.balance == Grow(s.balance, rate)
    // a paying year removes exactly twelve monthly amounts, then clamps
    ensures PaysOut(a, rate, s.balance, age) ==>
              r.balance == Clamp(Grow(s.balance, rate) - AnnualPayout(a))
    ensures !PaysOut(a, rate, s.balance, age) ==>
              r.balance == Clamp(Grow(s.balance, rate)) && r.depletedAt == s.depletedAt
    // the marker, once set, is never overwritten
    ensures s.depletedAt.Some? ==> r.depletedAt == s.depletedAt
    // an unset marker becomes this age exactly when this payout runs the account dry
    ensures s.depletedAt.None? ==>
              (r.depletedAt == Some(age) <==> Depletes(a, rate, s.balance, age))
    ensures s.depletedAt.None? && !Depletes(a, rate, s.balance, age) ==> r.depletedAt.None?
    // an empty account stays empty and unmarked
    ensures s.balance == 0.0 ==> r == s
  {
    var grown := Grow(s.balance, rate);
    if age >= a.payoutStartAge && grown > 0.0 then
      var paid := grown - AnnualPayout(a);
      var marker := if paid <= 0.0 && s.depletedAt.None? then Some(age) else s.depletedAt;
      AccountState(Clamp(paid), marker)
    else
      assert age < a.payoutStartAge && s.balance >= 0.0 && rate >= -1.0 ==> grown >= 0.0 by {
        if s.balance >= 0.0 && rate >= -1.0 {
          assert 1.0 + rate >= 0.0;
          assert s.balance * (1.0 + rate) >= 0.0;
        }
      }
      AccountState(Clamp(grown), s.depletedAt)
  }

  /** Names the two accounts. */
  datatype AccountId = IDeCo | NISA

  /** The configuration of the named account. */
  function ConfigOf(p: Scenario, which: AccountId): Account
  {
    match which
    case IDeCo => p.ideco
    case NISA => p.nisa
  }

  /** The state of the named account. */
  function StateOf(st: State, which: AccountId): AccountState
  {
    match which
    case IDeCo => st.ideco
    case NISA => st.nisa
  }

  /** The loop body: both accounts advance one year at `age`. */
  function Step(p: Scenario, st: State, age: int): State
  {
    State(AccountYear(p.ideco, p.rate, st.ideco, age), AccountYear(p.nisa, p.rate, st.nisa, age))
  }

  /** The state before the first simulated year. */
  function Init(p: Scenario): State
  {
    State(AccountState(p.ideco.initialBalance, None), AccountState(p.nisa.initialBalance, None))
  }

  /** The state after the first `k` simulated years (ages startAge .. startAge + k - 1). */
  function Trace(p: Scenario, k: nat): (r: State)
  {
    if k == 0 then Init(p) else Step(p, Trace(p, k - 1), p.startAge + k - 1)
  }

  /** One account on its own: its state after `k` years starting at age `start`. */
  function AccountTrace(a: Account, rate: real, start: int, k: nat): (r: AccountState)
  {
    if k == 0 then AccountState(a.initialBalance, None)
    else AccountYear(a, rate, AccountTrace(a, rate, start, k - 1), start + k - 1)
  }

  /** Does the (j+1)-th year, at age start + j, run the account dry? */
  predicate DepletesInYear(a: Account, rate: real, start: int, j: nat)
  {
    Depletes(a, rate, AccountTrace(a, rate, start, j).balance, start + j)
  }

  /** Year j (of the first k) is the first one whose payout runs the account dry. */
  predicate IsFirstDepletionYear(a: Account, rate: real, start: int, k: nat, j: nat)
  {
    j < k && DepletesInYear(a, rate, start, j) &&
    forall i: nat :: i < j ==> !DepletesInYear(a, rate, start, i)
  }

  /** `balance` compounded over `k` years at `rate`: (1 + rate)^k times it. */
  function Compounded(balance: real, rate: real, k: nat): real
  {
    if k == 0 then balance else Grow(Compounded(balance, rate, k - 1), rate)
  }

  // ---------------------------------------------------------------------
  // The two accounts are independent
  // ---------------------------------------------------------------------

  /** The joint trajectory, seen through either account, is that account's
      own trajectory. */
  lemma {:induction false} Independence(p: Scenario, which: AccountId, k: nat)
    ensures StateOf(Trace(p, k), which) == AccountTrace(ConfigOf(p, which), p.rate, p.startAge, k)
  {
    if k > 0 {
      Independence(p, which, k - 1);
    }
  }

  /** Changing one account's parameters never changes the other's trajectory. */
  lemma {:induction false} AccountsDoNotInteract(p: Scenario, q: Scenario, which: AccountId, k: nat)
    requires p.startAge == q.startAge && p.rate == q.rate
    requires ConfigOf(p, which) == ConfigOf(q, which)
    ensures StateOf(Trace(p, k), which) == StateOf(Trace(q, k), which)
  {
    Independence(p, which, k);
    Independence(q, which, k);
  }

  // ---------------------------------------------------------------------
  // Depletion marker
  // ---------------------------------------------------------------------

  /** Once set, the depletion age is never overwritten in a later year. */
  lemma {:induction false} DepletionSticky(a: Account, rate: real, start: int, j: nat, k: nat)
    requires j <= k
    ensures AccountTrace(a, rate, start, j).depletedAt.Some? ==>
              AccountTrace(a, rate, start, k).depletedAt == AccountTrace(a, rate, start, j).depletedAt
  {
    if j < k {
      DepletionSticky(a, rate, start, j, k - 1);
    }
  }

  /** The depletion age after k years is unset exactly when no year so far ran
      the account dry, and otherwise it is the age of the first such year. */
  lemma {:induction false} DepletionIsFirst(a: Account, rate: real, start: int, k: nat)
    ensures AccountTrace(a, rate, start, k).depletedAt.None? <==>
              forall j: nat :: j < k ==> !DepletesInYear(a, rate, start, j)
    ensures forall j: nat :: IsFirstDepletionYear(a, rate, start, k, j) ==>
              AccountTrace(a, rate, start, k).depletedAt == Some(start + j)
    ensures AccountTrace(a, rate, start, k).depletedAt.Some? ==>
              exists j: nat :: IsFirstDepletionYear(a, rate, start, k, j) &&
                AccountTrace(a, rate, start, k).depletedAt == Some(start + j)
  {
    if k > 0 {
      DepletionIsFirst(a, rate, start, k - 1);
      var before := AccountTrace(a, rate, start, k - 1);
      var after := AccountTrace(a, rate, start, k);
      assert after == AccountYear(a, rate, before, start + k - 1);
      if before.depletedAt.Some? {
        assert after.depletedAt == before.depletedAt;
        var j0: nat :| IsFirstDepletionYear(a, rate, start, k - 1, j0) && before.depletedAt == Some(start + j0);
        assert IsFirstDepletionYear(a, rate, start, k, j0);
        forall j: nat | IsFirstDepletionYear(a, rate, start, k, j)
          ensures after.depletedAt == Some(start + j)
        {
        }
      } else {
        assert forall j: nat :: j < k - 1 ==> !DepletesInYear(a, rate, start, j);
        if DepletesInYear(a, rate, start, k - 1) {
          assert after.depletedAt == Some(start + (k - 1));
          assert IsFirstDepletionYear(a, rate, start, k, k - 1);
        } else {
          assert after.depletedAt.None?;
          forall j: nat | j < k ensures !DepletesInYear(a, rate, start, j) {
          }
        }
      }
    }
  }

  /** A recorded depletion age lies in the simulated range and not before the
      account's payout start age. */
  lemma {:induction false} DepletionAgeInRange(a: Account, rate: real, start: int, k: nat)
    ensures AccountTrace(a, rate, start, k).depletedAt.Some? ==>
              var d := AccountTrace(a, rate, start, k).depletedAt.value;
              a.payoutStartAge <= d && start <= d < start + k
  {
    DepletionIsFirst(a, rate, start, k);
  }

  /** For the whole scenario: each reported depletion age lies in
      [max(startAge, payout start age), endAge]. */
  lemma {:induction false} ScenarioDepletionInRange(p: Scenario)
    ensures var d := Trace(p, Years(p)).ideco.depletedAt;
              d.Some? ==> p.ideco.payoutStartAge <= d.value && p.startAge <= d.value <= p.endAge
    ensures var d := Trace(p, Years(p)).nisa.depletedAt;
              d.Some? ==> p.nisa.payoutStartAge <= d.value && p.startAge <= d.value <= p.endAge
  {
    Independence(p, IDeCo, Years(p));
    Independence(p, NISA, Years(p));
    DepletionAgeInRange(p.ideco, p.rate, p.startAge, Years(p));
    DepletionAgeInRange(p.nisa, p.rate, p.startAge, Years(p));
  }

  // ---------------------------------------------------------------------
  // Balances
  // ---------------------------------------------------------------------

  /** A balance that has reached 0 stays 0, and its marker stays as it was,
      for every later year. */
  lemma {:induction false} ZeroIsAbsorbing(a: Account, rate: real, start: int, j: nat, k: nat)
    requires j <= k
    requires AccountTrace(a, rate, start, j).balance == 0.0
    ensures AccountTrace(a, rate, start, k) == AccountTrace(a, rate, start, j)
  {
    if j < k {
      ZeroIsAbsorbing(a, rate, start, j, k - 1);
    }
  }

  /** The depletion age splits the trajectory: every balance recorded before
      that year is positive, and from that year's record on every balance is 0. */
  lemma {:induction false} DepletionSplitsTrajectory(a: Account, rate: real, start: int, k: nat, j: nat)
    requires AccountTrace(a, rate, start, k).depletedAt == Some(start + j)
    ensures j < k
    ensures forall i: nat :: 1 <= i <= j ==> AccountTrace(a, rate, start, i).balance > 0.0
    ensures forall i: nat :: j < i <= k ==> AccountTrace(a, rate, start, i).balance == 0.0
  {
    DepletionIsFirst(a, rate, start, k);
    var j0: nat :| IsFirstDepletionYear(a, rate, start, k, j0) &&
                   AccountTrace(a, rate, start, k).depletedAt == Some(start + j0);
    assert j0 == j;
    var dry := AccountTrace(a, rate, start, j + 1);
    assert dry == AccountYear(a, rate, AccountTrace(a, rate, start, j), start + j);
    assert dry.balance == 0.0;
    forall i: nat | j < i <= k
      ensures AccountTrace(a, rate, start, i).balance == 0.0
    {
      ZeroIsAbsorbing(a, rate, start, j + 1, i);
    }
    forall i: nat | 1 <= i <= j
      ensures AccountTrace(a, rate, start, i).balance > 0.0
    {
      var at := AccountTrace(a, rate, start, i);
      assert at == AccountYear(a, rate, AccountTrace(a, rate, start, i - 1), start + i - 1);
      if at.balance == 0.0 {
        ZeroIsAbsorbing(a, rate, start, i, k);
        DepletionIsFirst(a, rate, start, i);
        assert false;
      }
    }
  }

  /** Before the payout start age the balance only compounds: after k such
      years it is the opening balance times (1 + rate)^k, and nothing is marked. */
  lemma {:induction false} CompoundingBeforePayout(a: Account, rate: real, start: int, k: nat)
    requires a.initialBalance >= 0.0 && rate >= -1.0
    requires start + k <= a.payoutStartAge
    ensures AccountTrace(a, rate, start, k) == AccountState(Compounded(a.initialBalance, rate, k), None)
  {
    if k > 0 {
      CompoundingBeforePayout(a, rate, start, k - 1);
      var before := AccountTrace(a, rate, start, k - 1);
      assert before.balance >= 0.0 by {
        if k > 1 {
          assert before == AccountYear(a, rate, AccountTrace(a, rate, start, k - 2), start + k - 2);
        }
      }
    }
  }

  /** The sum of k annual payouts. */
  function PaidOver(a: Account, k: nat): real
  {
    if k == 0 then 0.0 else PaidOver(a, k - 1) + AnnualPayout(a)
  }

  /** With a zero rate and payouts from the first year on, the balance after
      k years is the opening balance less k annual payouts, floored at 0. */
  lemma {:induction false} ZeroRateDrawdown(a: Account, start: int, k: nat)
    requires a.initialBalance >= 0.0 && a.monthlyPayout >= 0.0
    requires start >= a.payoutStartAge
    ensures AccountTrace(a, 0.0, start, k).balance == Clamp(a.initialBalance - PaidOver(a, k))
  {
    if k > 0 {
      ZeroRateDrawdown(a, start, k - 1);
      var before := AccountTrace(a, 0.0, start, k - 1);
      assert Grow(before.balance, 0.0) == before.balance;
    }
  }

  /** The same drawdown in closed form: k times the annual payout is removed. */
  lemma {:induction false} ZeroRateClosedForm(a: Account, start: int, k: nat)
    requires a.initialBalance >= 0.0 && a.monthlyPayout >= 0.0
    requires start >= a.payoutStartAge
    ensures AccountTrace(a, 0.0, start, k).balance ==
              Clamp(a.initialBalance - (k as real) * AnnualPayout(a))
  {
    ZeroRateDrawdown(a, start, k);
    PaidOverIsLinear(a, k);
  }

  /** The sum of k annual payouts is k times one annual payout. */
  lemma {:induction false} PaidOverIsLinear(a: Account, k: nat)
    ensures PaidOver(a, k) == (k as real) * AnnualPayout(a)
  {
    if k > 0 {
      PaidOverIsLinear(a, k - 1);
      MulSucc(k - 1, AnnualPayout(a));
    }
  }

  lemma MulSucc(n: nat, c: real)
    ensures ((n + 1) as real) * c == (n as real) * c + c
  {
  }
}
