/** The settlement engine: from net balances, the greedy plan of transfers
    that pays everybody off (ExpenseManager.getMinimizedBalances). */
module Settlement {
  import opened Totals
  import opened Ledger

  /** One settling payment: `payer` pays `payee` `amount`. */
  datatype Pays = Pays(payer: User, payee: User, amount: real)

  /** A queue of creditors: each holds a strictly positive claim. A user
      appears in a queue at most once, so a queue is a map from the user to
      the amount still open. */
  predicate Creditors(credit: map<User, real>)
  {
    forall u | u in credit :: credit[u] > 0.0
  }

  /** A queue of debtors: each holds a strictly negative balance. */
  predicate Debtors(debit: map<User, real>)
  {
    forall u | u in debit :: debit[u] < 0.0
  }

  /** The two queues of the settlement loop. */
  predicate Queues(credit: map<User, real>, debit: map<User, real>)
  {
    Creditors(credit) && Debtors(debit) && credit.Keys !! debit.Keys
  }

  /** What `u` still has open according to the queues (0 when in neither). */
  function Residual(credit: map<User, real>, debit: map<User, real>, u: User): real
  {
    if u in credit then credit[u] else if u in debit then debit[u] else 0.0
  }

  /** The head of the creditor queue: an entry with the largest claim. */
  predicate IsTop(credit: map<User, real>, u: User)
  {
    u in credit && forall x | x in credit :: credit[x] <= credit[u]
  }

  /** The head of the debtor queue: an entry with the most negative balance. */
  predicate IsBottom(debit: map<User, real>, u: User)
  {
    u in debit && forall x | x in debit :: debit[u] <= debit[x]
  }

  /** A non-empty queue has a head (ties are broken arbitrarily). */
  lemma {:induction false} TopExists(m: map<User, real>)
    requires m != map[]
    ensures exists u :: IsTop(m, u)
    decreases |m|
  {
    var k :| k in m;
    var rest := m - {k};
    assert rest.Keys == m.Keys - {k};
    assert forall x | x in m :: x == k || (x in rest && rest[x] == m[x]);
    if rest == map[] {
      assert IsTop(m, k);
    } else {
      TopExists(rest);
      var t :| IsTop(rest, t);
      if m[t] < m[k] {
        assert IsTop(m, k);
      } else {
        assert IsTop(m, t);
      }
    }
  }

  lemma {:induction false} BottomExists(m: map<User, real>)
    requires m != map[]
    ensures exists u :: IsBottom(m, u)
    decreases |m|
  {
    var k :| k in m;
    var rest := m - {k};
    assert rest.Keys == m.Keys - {k};
    assert forall x | x in m :: x == k || (x in rest && rest[x] == m[x]);
    if rest == map[] {
      assert IsBottom(m, k);
    } else {
      BottomExists(rest);
      var t :| IsBottom(rest, t);
      if m[k] < m[t] {
        assert IsBottom(m, k);
      } else {
        assert IsBottom(m, t);
      }
    }
  }

  /** How a transfer moves the net balance of `u`: the payer's debt shrinks,
      the payee's claim shrinks. */
  function Shift(t: Pays, u: User): real
  {
    (if u == t.payer then t.amount else 0.0) - (if u == t.payee then t.amount else 0.0)
  }

  /** How a whole plan of transfers, applied in order, moves the net balance
      of `u`. */
  function Shifted(ts: seq<Pays>, u: User): real
  {
    if ts == [] then 0.0 else Shifted(ts[..|ts| - 1], u) + Shift(ts[|ts| - 1], u)
  }

  /** One round of the settlement loop on the heads `cu` and `du`: the debtor
      pays the creditor the smaller of the two open amounts, and each side is
      put back only if something is left of it. */
  function Settle(credit: map<User, real>, debit: map<User, real>, cu: User, du: User)
    : (r: (Pays, map<User, real>, map<User, real>))
    requires Queues(credit, debit) && cu in credit && du in debit
    ensures var (t, credit', debit') := r;
            && t.payer == du && t.payee == cu
            && 0.0 < t.amount <= credit[cu] && t.amount <= -debit[du]
            && (t.amount == credit[cu] || t.amount == -debit[du])
            && Queues(credit', debit')
            && credit'.Keys <= credit.Keys && debit'.Keys <= debit.Keys
            && credit.Keys - {cu} <= credit'.Keys && debit.Keys - {du} <= debit'.Keys
            && (cu !in credit' || du !in debit')
            && (forall u :: Residual(credit', debit', u) == Residual(credit, debit, u) + Shift(t, u))
  {
    var amount := if credit[cu] <= -debit[du] then credit[cu] else -debit[du];
    var crRemaining := credit[cu] - amount;
    var drRemaining := debit[du] + amount;
    var credit' := if crRemaining > 0.0 then credit[cu := crRemaining] else credit - {cu};
    var debit' := if drRemaining < 0.0 then debit[du := drRemaining] else debit - {du};
    (Pays(du, cu, amount), credit', debit')
  }

  /** Splits the net balances into the creditor and the debtor queue, visiting
      the users in no particular order; users who are settled go in neither. */
  method Partition(net: map<User, real>) returns (credit: map<User, real>, debit: map<User, real>)
    ensures forall u :: u in credit <==> u in net && net[u] > 0.0
    ensures forall u :: u in debit <==> u in net && net[u] < 0.0
    ensures forall u | u in credit :: credit[u] == net[u]
    ensures forall u | u in debit :: debit[u] == net[u]
    ensures Queues(credit, debit)
    ensures Total(credit) + Total(debit) == Total(net)
    ensures |credit| + |debit| == |NonZero(net)|
  {
    credit, debit := map[], map[];
    var left := net;
    while left != map[]
      invariant Split(net, left, credit, debit)
      invariant Total(credit) + Total(debit) + Total(left) == Total(net)
      decreases |left|
    {
      var u :| u in left;
      var v := left[u];
      SplitStep(net, left, credit, debit, u);
      SplitTotal(net, left, credit, debit, u);
      if v > 0.0 {
        credit := credit[u := v];
      } else if v < 0.0 {
        debit := debit[u := v];
      }
      left := left - {u};
    }
    SplitDone(net, credit, debit);
  }

  /** What the partition loop keeps: `left` is what is still to be visited,
      and every visited user with a non-zero net is in the queue of its
      sign. */
  ghost predicate Split(net: map<User, real>, left: map<User, real>,
                        credit: map<User, real>, debit: map<User, real>)
  {
    && (forall u | u in left :: u in net && left[u] == net[u])
    && (forall u :: u in credit <==> u in net && u !in left && net[u] > 0.0)
    && (forall u :: u in debit <==> u in net && u !in left && net[u] < 0.0)
    && (forall u | u in credit :: credit[u] == net[u])
    && (forall u | u in debit :: debit[u] == net[u])
  }

  /** Visiting one more user keeps the partition's facts. */
  lemma SplitStep(net: map<User, real>, left: map<User, real>,
                  credit: map<User, real>, debit: map<User, real>, u: User)
    requires Split(net, left, credit, debit) && u in left
    ensures var v := left[u];
            Split(net, left - {u},
                  if v > 0.0 then credit[u := v] else credit,
                  if v < 0.0 then debit[u := v] else debit)
    ensures u !in credit && u !in debit
    ensures |left - {u}| < |left|
  {
    assert (left - {u}).Keys == left.Keys - {u};
  }

  /** Moving one user out of `left` and into a queue keeps the total. */
  lemma SplitTotal(net: map<User, real>, left: map<User, real>,
                   credit: map<User, real>, debit: map<User, real>, u: User)
    requires u in left && u !in credit && u !in debit
    requires Total(credit) + Total(debit) + Total(left) == Total(net)
    ensures var v := left[u];
            Total(if v > 0.0 then credit[u := v] else credit)
              + Total(if v < 0.0 then debit[u := v] else debit) + Total(left - {u}) == Total(net)
  {
    var v := left[u];
    TotalRemove(left, u);
    if v > 0.0 {
      TotalUpdate(credit, u, v);
    } else if v < 0.0 {
      TotalUpdate(debit, u, v);
    }
  }

  /** Once everybody is visited, the queues hold exactly the unsettled users. */
  lemma SplitDone(net: map<User, real>, credit: map<User, real>, debit: map<User, real>)
    requires Split(net, map[], credit, debit)
    ensures Queues(credit, debit)
    ensures |credit| + |debit| == |NonZero(net)|
  {
    assert credit.Keys + debit.Keys == NonZero(net);
    assert credit.Keys * debit.Keys == {};
  }

  /** The settlement loop: while both queues are non-empty, settle their
      heads. Every transfer goes from a debtor to a creditor of the initial
      queues and is strictly positive; there are fewer transfers than
      queued users; the first settles a largest creditor against a largest
      debtor; and when the claims and debts cancel out, the transfers bring
      everybody's balance to zero. */
  method SettleQueues(credit0: map<User, real>, debit0: map<User, real>) returns (out: seq<Pays>)
    requires Queues(credit0, debit0)
    ensures forall t | t in out :: t.amount > 0.0 && t.payer in debit0 && t.payee in credit0
    ensures |credit0| + |debit0| == 0 ==> out == []
    ensures |credit0| + |debit0| > 0 ==> |out| < |credit0| + |debit0|
    ensures out != [] ==> IsTop(credit0, out[0].payee) && IsBottom(debit0, out[0].payer)
    ensures Total(credit0) + Total(debit0) == 0.0 ==>
              forall u :: Residual(credit0, debit0, u) + Shifted(out, u) == 0.0
  {
    var credit, debit := credit0, debit0;
    out := [];
    assert Round(credit0, debit0, credit, debit, out);
    while credit != map[] && debit != map[]
      invariant Round(credit0, debit0, credit, debit, out)
      decreases |credit| + |debit|
    {
      TopExists(credit);
      BottomExists(debit);
      var cu :| IsTop(credit, cu);
      var du :| IsBottom(debit, du);
      var step := Settle(credit, debit, cu, du);
      NextRound(credit0, debit0, credit, debit, out, cu, du);
      out := out + [step.0];
      credit, debit := step.1, step.2;
    }
    LastRound(credit0, debit0, credit, debit, out);
  }

  /** What the settlement loop keeps between rounds, starting from the queues
      `credit0` and `debit0`: the queues left, the transfers made so far. */
  ghost predicate Round(credit0: map<User, real>, debit0: map<User, real>,
                        credit: map<User, real>, debit: map<User, real>, out: seq<Pays>)
  {
    && Queues(credit, debit)
    && credit.Keys <= credit0.Keys && debit.Keys <= debit0.Keys
    && (forall u :: Residual(credit, debit, u) == Residual(credit0, debit0, u) + Shifted(out, u))
    && Total(credit) + Total(debit) == Total(credit0) + Total(debit0)
    && (forall t | t in out :: t.amount > 0.0 && t.payer in debit0 && t.payee in credit0)
    && |out| + |credit| + |debit| <= |credit0| + |debit0|
    && (credit == map[] && debit == map[] && |credit0| + |debit0| > 0 ==> |out| < |credit0| + |debit0|)
    && (out == [] ==> credit == credit0 && debit == debit0)
    && (out != [] ==> IsTop(credit0, out[0].payee) && IsBottom(debit0, out[0].payer))
  }

  /** One round of settlement keeps the loop's facts and shrinks the queues. */
  lemma NextRound(credit0: map<User, real>, debit0: map<User, real>,
                  credit: map<User, real>, debit: map<User, real>, out: seq<Pays>, cu: User, du: User)
    requires Round(credit0, debit0, credit, debit, out)
    requires IsTop(credit, cu) && IsBottom(debit, du)
    ensures var (t, credit', debit') := Settle(credit, debit, cu, du);
            && Round(credit0, debit0, credit', debit', out + [t])
            && |credit'| + |debit'| < |credit| + |debit|
  {
    var (t, credit', debit') := Settle(credit, debit, cu, du);
    Shrinks(credit, credit', cu);
    Shrinks(debit, debit', du);
    TotalSettle(credit, debit, cu, du);
    assert (out + [t])[..|out|] == out;
    ShiftedStep(credit0, debit0, credit, debit, out, cu, du);
  }

  /** The residuals after one more round still account for every transfer. */
  lemma ShiftedStep(credit0: map<User, real>, debit0: map<User, real>,
                    credit: map<User, real>, debit: map<User, real>, out: seq<Pays>, cu: User, du: User)
    requires Queues(credit, debit) && cu in credit && du in debit
    requires forall u :: Residual(credit, debit, u) == Residual(credit0, debit0, u) + Shifted(out, u)
    ensures var (t, credit', debit') := Settle(credit, debit, cu, du);
            forall u :: Residual(credit', debit', u) == Residual(credit0, debit0, u) + Shifted(out + [t], u)
  {
    var (t, credit', debit') := Settle(credit, debit, cu, du);
    assert (out + [t])[..|out|] == out;
  }

  /** When one queue runs empty, the loop's facts give the promised outcome. */
  lemma LastRound(credit0: map<User, real>, debit0: map<User, real>,
                  credit: map<User, real>, debit: map<User, real>, out: seq<Pays>)
    requires Round(credit0, debit0, credit, debit, out)
    requires credit == map[] || debit == map[]
    ensures |credit0| + |debit0| == 0 ==> out == []
    ensures |credit0| + |debit0| > 0 ==> |out| < |credit0| + |debit0|
    ensures Total(credit0) + Total(debit0) == 0.0 ==>
              forall u :: Residual(credit0, debit0, u) + Shifted(out, u) == 0.0
  {
    if credit == map[] {
      TotalNegative(debit);
    } else {
      TotalPositive(credit);
    }
  }

  /** How the size of a queue changes when its head is settled: it keeps its
      size if the head goes back, and loses one if not. */
  lemma Shrinks(q: map<User, real>, q': map<User, real>, u: User)
    requires u in q && q'.Keys <= q.Keys && q.Keys - {u} <= q'.Keys
    ensures u in q' ==> |q'| == |q|
    ensures u !in q' ==> |q'| == |q| - 1
  {
    if u in q' {
      assert q'.Keys == q.Keys;
    } else {
      assert q'.Keys == q.Keys - {u};
    }
  }

  /** A round of settlement takes the same amount off both sides, so the
      queues' total is unchanged. */
  lemma TotalSettle(credit: map<User, real>, debit: map<User, real>, cu: User, du: User)
    requires Queues(credit, debit) && cu in credit && du in debit
    ensures var (_, credit', debit') := Settle(credit, debit, cu, du);
            Total(credit') + Total(debit') == Total(credit) + Total(debit)
  {
    var (t, credit', debit') := Settle(credit, debit, cu, du);
    TotalRemove(credit, cu);
    TotalRemove(debit, du);
    if cu in credit' {
      assert credit' == (credit - {cu})[cu := credit[cu] - t.amount];
      TotalUpdate(credit - {cu}, cu, credit[cu] - t.amount);
    } else {
      assert credit' == credit - {cu};
    }
    if du in debit' {
      assert debit' == (debit - {du})[du := debit[du] + t.amount];
      TotalUpdate(debit - {du}, du, debit[du] + t.amount);
    } else {
      assert debit' == debit - {du};
    }
  }
}
