/**
 * The script's calculation loop: local balances and depletion markers that
 * every year updates in place, in the script's own order (grow both, pay
 * out iDeCo, pay out NISA, clamp both, record), and four result lists
 * that grow by one entry per simulated age.
 */
module Simulator {
  import opened Wrappers
  import opened Drawdown

  /** Runs the year loop over `p` and returns the recorded ages, iDeCo
      balances, NISA balances and totals, plus each account's depletion age. */
  method Simulate(p: Scenario)
    returns (ages: seq<int>, idecoBalances: seq<real>, nisaBalances: seq<real>, totals: seq<real>,
             idecoDepleted: Option<int>, nisaDepleted: Option<int>)
    // one entry per simulated age in every list
    ensures |ages| == |idecoBalances| == |nisaBalances| == |totals| == Years(p)
    ensures p.startAge <= p.endAge ==> |ages| == p.endAge - p.startAge + 1
    ensures forall i :: 0 <= i < |ages| ==> ages[i] == p.startAge + i
    // each recorded balance is the account's state after that year
    ensures forall i :: 0 <= i < |idecoBalances| ==> idecoBalances[i] == Trace(p, i + 1).ideco.balance
    ensures forall i :: 0 <= i < |nisaBalances| ==> nisaBalances[i] == Trace(p, i + 1).nisa.balance
    // balances are never negative, and the total is their sum
    ensures forall i :: 0 <= i < |totals| ==>
              idecoBalances[i] >= 0.0 && nisaBalances[i] >= 0.0 &&
              totals[i] == idecoBalances[i] + nisaBalances[i]
    // the reported depletion ages are those of the whole trajectory
    ensures idecoDepleted == Trace(p, Years(p)).ideco.depletedAt
    ensures nisaDepleted == Trace(p, Years(p)).nisa.depletedAt
  {
    ages, idecoBalances, nisaBalances, totals := [], [], [], [];
    var ideco := p.ideco.initialBalance;
    var nisa := p.nisa.initialBalance;
    idecoDepleted, nisaDepleted := None, None;
    var years := Years(p);
    for i := 0 to years
      invariant |ages| == |idecoBalances| == |nisaBalances| == |totals| == i
      invariant State(AccountState(ideco, idecoDepleted), AccountState(nisa, nisaDepleted)) == Trace(p, i)
      invariant forall j :: 0 <= j < i ==> ages[j] == p.startAge + j
      invariant forall j :: 0 <= j < i ==>
                  idecoBalances[j] == Trace(p, j + 1).ideco.balance &&
                  nisaBalances[j] == Trace(p, j + 1).nisa.balance
      invariant forall j :: 0 <= j < i ==>
                  idecoBalances[j] >= 0.0 && nisaBalances[j] >= 0.0 &&
                  totals[j] == idecoBalances[j] + nisaBalances[j]
    {
      var age := p.startAge + i;
      ghost var before := Trace(p, i);

      // growth
      ideco := Grow(ideco, p.rate);
      nisa := Grow(nisa, p.rate);

      // iDeCo payout
      if age >= p.ideco.payoutStartAge && ideco > 0.0 {
        ideco := ideco - p.ideco.monthlyPayout * 12.0;
        if ideco <= 0.0 && idecoDepleted == None {
          idecoDepleted := Some(age);
        }
      }

      // NISA withdrawal
      if age >= p.nisa.payoutStartAge && nisa > 0.0 {
        nisa := nisa - p.nisa.monthlyPayout * 12.0;
        if nisa <= 0.0 && nisaDepleted == None {
          nisaDepleted := Some(age);
        }
      }

      ideco := Clamp(ideco);
      nisa := Clamp(nisa);
      assert AccountState(ideco, idecoDepleted) == AccountYear(p.ideco, p.rate, before.ideco, age);
      assert AccountState(nisa, nisaDepleted) == AccountYear(p.nisa, p.rate, before.nisa, age);

      ages := ages + [age];
      idecoBalances := idecoBalances + [ideco];
      nisaBalances := nisaBalances + [nisa];
      totals := totals + [ideco + nisa];
    }
  }
}
