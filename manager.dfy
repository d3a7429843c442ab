/** The expense manager: registered users, the pairwise balances, the
    history of charged lines, and the reports over them. */
module Manager {
  import opened Totals
  import opened Ledger
  import opened Settlement

  class ExpenseManager {
    /** Registered users in the order they were added (repeats allowed). */
    var users: seq<User>
    /** `balances[d][c]`: what `d` owes `c`. One row per registered name. */
    var balances: Balances
    /** Every charged line, oldest first. */
    var history: seq<Owes>

    /** Each registered name has exactly one row, and nobody owes themself. */
    ghost predicate Valid()
      reads this
    {
      && (forall u :: u in balances <==> u in users)
      && (forall u | u in balances :: u !in balances[u])
    }

    /** Everybody somebody owes is registered. A payer who was never added
        breaks this; `getMinimizedBalances` then fails. */
    ghost predicate CreditorsRegistered()
      reads this
    {
      forall d, c | d in balances && c in balances[d] :: c in balances
    }

    constructor ()
      ensures Valid() && CreditorsRegistered()
      ensures users == [] && balances == map[] && history == []
    {
      users := [];
      balances := map[];
      history := [];
    }

    /** Registers `name` at the end of the user list and gives it an empty
        row, replacing any row the same name already had. */
    method AddUser(name: string)
      requires Valid()
      modifies this
      ensures Valid()
      ensures users == old(users) + [User(name)]
      ensures balances == old(balances)[User(name) := map[]]
      ensures history == old(history)
      ensures old(CreditorsRegistered()) ==> CreditorsRegistered()
    {
      var user := User(name);
      users := users + [user];
      balances := balances[user := map[]];
    }

    method GetUsers() returns (r: seq<User>)
      ensures r == users
    {
      r := users;
    }

    /** One step of the charging loop: `e.debtor`'s debt to `e.creditor`
        grows by `e.amount` (starting from 0 when there is no entry yet) and
        the line is appended to the history. */
    method ChargeLine(e: Owes)
      requires Valid() && e.debtor in balances && e.debtor != e.creditor
      modifies this
      ensures Valid() && users == old(users)
      ensures balances == Record(old(balances), e)
      ensures history == old(history) + [e]
      ensures old(CreditorsRegistered()) && e.creditor in users ==> CreditorsRegistered()
    {
      var row := balances[e.debtor];
      balances := balances[e.debtor := row[e.creditor := Get(balances, e.debtor, e.creditor) + e.amount]];
      history := history + [e];
    }

    /** The equal-split loop: every position of `sharedWith` held by someone
        other than the payer is charged `amount / |sharedWith|`. */
    method ChargeEqually(paidBy: User, amount: real, sharedWith: seq<User>)
      requires Valid()
      requires forall u | u in sharedWith && u != paidBy :: u in users
      modifies this
      ensures Valid() && users == old(users)
      ensures var lines := Charges(paidBy, sharedWith, EqualShares(amount, |sharedWith|));
              && (forall e | e in lines :: e.debtor in old(balances))
              && history == old(history) + lines
              && balances == Post(old(balances), lines)
      ensures old(CreditorsRegistered()) && paidBy in users ==> CreditorsRegistered()
    {
      ghost var b0, h0 := balances, history;
      ghost var shares := EqualShares(amount, |sharedWith|);
      ghost var done: seq<Owes> := [];
      var share := if |sharedWith| == 0 then 0.0 else amount / |sharedWith| as real;
      for i := 0 to |sharedWith|
        invariant Valid() && users == old(users)
        invariant done == Charges(paidBy, sharedWith[..i], shares)
        invariant Charged(b0, h0, done, balances, history)
        invariant old(CreditorsRegistered()) && paidBy in users ==> CreditorsRegistered()
      {
        var user := sharedWith[i];
        ChargeNext(b0, paidBy, sharedWith, shares, i);
        if user != paidBy {
          assert shares[i] == share;
          var e := Owes(user, paidBy, share);
          ChargedStep(b0, h0, done, balances, history, e);
          ChargeLine(e);
          done := done + [e];
        }
      }
      assert sharedWith[..|sharedWith|] == sharedWith;
    }

    /** The custom-split loop: every position `i` of `sharedWith` held by
        someone other than the payer is charged `customShares[i]`. */
    method ChargeCustom(paidBy: User, sharedWith: seq<User>, customShares: seq<real>)
      requires Valid()
      requires Covered(paidBy, sharedWith, customShares)
      requires forall u | u in sharedWith && u != paidBy :: u in users
      modifies this
      ensures Valid() && users == old(users)
      ensures var lines := Charges(paidBy, sharedWith, customShares);
              && (forall e | e in lines :: e.debtor in old(balances))
              && history == old(history) + lines
              && balances == Post(old(balances), lines)
      ensures old(CreditorsRegistered()) && paidBy in users ==> CreditorsRegistered()
    {
      ghost var b0, h0 := balances, history;
      ghost var done: seq<Owes> := [];
      for i := 0 to |sharedWith|
        invariant Valid() && users == old(users)
        invariant done == Charges(paidBy, sharedWith[..i], customShares)
        invariant Charged(b0, h0, done, balances, history)
        invariant old(CreditorsRegistered()) && paidBy in users ==> CreditorsRegistered()
      {
        var user := sharedWith[i];
        ChargeNext(b0, paidBy, sharedWith, customShares, i);
        if user != paidBy {
          var e := Owes(user, paidBy, customShares[i]);
          ChargedStep(b0, h0, done, balances, history, e);
          ChargeLine(e);
          done := done + [e];
        }
      }
      assert sharedWith[..|sharedWith|] == sharedWith;
    }

    /** Records an expense of `amount` paid by `paidBy` and shared by the
        positions of `sharedWith`, split equally or by `customShares`. A
        custom split whose shares miss the amount by more than the tolerance
        is rejected and changes nothing. Otherwise every position held by
        someone other than the payer charges that user's debt to the payer
        with the position's share and adds one history line, in order. */
    method AddExpense(paidBy: User, amount: real, sharedWith: seq<User>, isEqual: bool, customShares: seq<real>)
      returns (applied: bool)
      requires Valid()
      requires Accepts(isEqual, amount, customShares) ==>
                 && Covered(paidBy, sharedWith, Shares(isEqual, amount, sharedWith, customShares))
                 && forall u | u in sharedWith && u != paidBy :: u in users
      modifies this
      ensures Valid()
      ensures applied == Accepts(isEqual, amount, customShares)
      ensures users == old(users)
      ensures var lines := if applied then Charges(paidBy, sharedWith, Shares(isEqual, amount, sharedWith, customShares)) else [];
              && (forall e | e in lines :: e.debtor in old(balances))
              && history == old(history) + lines
              && balances == Post(old(balances), lines)
      ensures old(CreditorsRegistered()) && paidBy in users ==> CreditorsRegistered()
    {
      if isEqual {
        ChargeEqually(paidBy, amount, sharedWith);
        applied := true;
      } else {
        var total := 0.0;
        for i := 0 to |customShares|
          invariant total == Sum(customShares[..i])
        {
          assert customShares[..i + 1][..i] == customShares[..i];
          total := total + customShares[i];
        }
        assert customShares[..|customShares|] == customShares;
        if Abs(total - amount) > Tolerance {
          applied := false;
          return;
        }
        ChargeCustom(paidBy, sharedWith, customShares);
        applied := true;
      }
    }

    /** The stored debt `e.debtor` owes `e.creditor`, when it is positive. */
    ghost predicate Owing(e: Owes)
      reads this
    {
      && e.debtor in balances && e.creditor in balances[e.debtor]
      && balances[e.debtor][e.creditor] == e.amount && e.amount > 0.0
    }

    /** Lists every stored positive debt once, visiting the rows and the
        entries of each row in no particular order. */
    method GetBalances() returns (out: seq<Owes>)
      ensures forall e :: e in out <==> Owing(e)
      ensures DistinctPairs(out)
    {
      out := [];
      var rows := balances.Keys;
      while rows != {}
        invariant rows <= balances.Keys
        invariant forall e :: e in out <==> Owing(e) && e.debtor !in rows
        invariant DistinctPairs(out)
        decreases |rows|
      {
        var d :| d in rows;
        var row := balances[d];
        var cols := row.Keys;
        while cols != {}
          invariant cols <= row.Keys
          invariant forall e :: e in out <==> Owing(e) && (e.debtor !in rows || (e.debtor == d && e.creditor !in cols))
          invariant DistinctPairs(out)
          decreases |cols|
        {
          var c :| c in cols;
          var amt := row[c];
          if amt > 0.0 {
            out := out + [Owes(d, c, amt)];
          }
          cols := cols - {c};
        }
        rows := rows - {d};
      }
    }

    /** A copy of the history. */
    method GetAllTransactions() returns (r: seq<Owes>)
      ensures r == history
    {
      r := history;
    }

    /** The net balance of every registered user: what others owe them minus
        what they owe others. Every stored amount is taken off its debtor and
        added to its creditor, so the nets add up to zero. */
    method ComputeNet() returns (net: map<User, real>)
      requires Valid() && CreditorsRegistered()
      ensures net == NetBalances(users, balances)
      ensures Total(net) == 0.0
    {
      net := ZeroNets();
      ghost var seen: map<(User, User), real> := map[];
      var rows := balances.Keys;
      while rows != {}
        invariant rows <= balances.Keys
        invariant Rows(net, users, seen, balances, rows)
        decreases |rows|
      {
        var d :| d in rows;
        RowsEntry(net, users, seen, balances, rows, d);
        ghost var net0, seen0 := net, seen;
        net, seen := TakeRow(net, seen, d, balances[d]);
        RowsStep(net0, users, seen0, balances, rows, d, net, seen);
        rows := rows - {d};
      }
      AllSeen(net, users, seen, balances);
      NetsCancel(users, Flat(balances));
    }

    /** The first loop of the net computation: every registered user starts
        at zero, which is their net over no entries. */
    method ZeroNets() returns (net: map<User, real>)
      ensures forall u :: u in net <==> u in users
      ensures forall u | u in net :: net[u] == NetOver(u, map[])
    {
      net := map[];
      for i := 0 to |users|
        invariant forall u :: u in net <==> u in users[..i]
        invariant forall u | u in net :: net[u] == 0.0
      {
        assert users[..i + 1] == users[..i] + [users[i]];
        net := net[users[i] := 0.0];
      }
      assert users[..|users|] == users;
    }

    /** The settlement plan: the net balances are split into a queue of
        creditors and a queue of debtors, and the largest debtor repeatedly
        pays the largest creditor the smaller of the two amounts. Every
        transfer goes from a user with a negative net to one with a positive
        net; the plan brings every net to zero; it is empty when everyone is
        settled and otherwise has fewer transfers than there are unsettled
        users; the first transfer pairs a largest debtor with a largest
        creditor. */
    method GetMinimizedBalances() returns (out: seq<Pays>)
      requires Valid() && CreditorsRegistered()
      ensures var net := NetBalances(users, balances);
              && (forall t | t in out :: && t.amount > 0.0
                                         && t.payer in net && net[t.payer] < 0.0
                                         && t.payee in net && net[t.payee] > 0.0)
              && (forall u | u in net :: net[u] + Shifted(out, u) == 0.0)
              && (NonZero(net) == {} ==> out == [])
              && (NonZero(net) != {} ==> |out| < |NonZero(net)|)
              && (out != [] ==> forall u | u in net :: net[u] <= net[out[0].payee] && net[out[0].payer] <= net[u])
    {
      var net := ComputeNet();
      var credit, debit := Partition(net);
      out := SettleQueues(credit, debit);
      assert forall u | u in net :: Residual(credit, debit, u) == net[u];
    }
  }

  /** The charging loops' progress: the lines `done` have been recorded on
      top of the balances `b0` and appended to the history `h0`. */
  ghost predicate Charged(b0: Balances, h0: seq<Owes>, done: seq<Owes>, bal: Balances, hist: seq<Owes>)
  {
    && hist == h0 + done
    && (forall e | e in done :: e.debtor in b0)
    && bal == Post(b0, done)
  }

  /** Recording one more line keeps the charging loops' progress. */
  lemma ChargedStep(b0: Balances, h0: seq<Owes>, done: seq<Owes>, bal: Balances, hist: seq<Owes>, e: Owes)
    requires Charged(b0, h0, done, bal, hist) && e.debtor in b0
    ensures e.debtor in bal
    ensures Charged(b0, h0, done + [e], Record(bal, e), hist + [e])
  {
    PostStep(b0, done, e);
    assert hist + [e] == h0 + (done + [e]);
  }

  /** What the row loop of the net computation keeps: the rows outside
      `rows` have been taken in, and the nets of `users` agree with them. */
  ghost predicate Rows(net: map<User, real>, users: seq<User>, seen: map<(User, User), real>,
                       bal: Balances, rows: set<User>)
  {
    && (forall p :: p in seen <==> p.0 in bal && p.1 in bal[p.0] && p.0 !in rows)
    && (forall p | p in seen :: seen[p] == bal[p.0][p.1])
    && (forall u :: u in net <==> u in users)
    && (forall u | u in net :: net[u] == NetOver(u, seen))
  }

  /** The row about to be taken in is a new one, between registered users. */
  lemma RowsEntry(net: map<User, real>, users: seq<User>, seen: map<(User, User), real>,
                  bal: Balances, rows: set<User>, d: User)
    requires forall u :: u in bal <==> u in users
    requires forall u | u in bal :: u !in bal[u]
    requires forall d, c | d in bal && c in bal[d] :: c in bal
    requires Rows(net, users, seen, bal, rows) && rows <= bal.Keys && d in rows
    ensures d in net && forall c | c in bal[d] :: c in net && c != d
    ensures forall p | p in seen :: p.0 != d
    ensures forall u | u in net :: net[u] == NetOver(u, seen)
  {
  }

  /** Taking in the row of `d` keeps the row loop's facts. */
  lemma RowsStep(net: map<User, real>, users: seq<User>, seen: map<(User, User), real>,
                 bal: Balances, rows: set<User>, d: User, net': map<User, real>, seen': map<(User, User), real>)
    requires Rows(net, users, seen, bal, rows) && rows <= bal.Keys && d in rows
    requires forall p :: p in seen' <==> p in seen || (p.0 == d && p.1 in bal[d])
    requires forall p | p in seen' :: seen'[p] == if p in seen then seen[p] else bal[d][p.1]
    requires net'.Keys == net.Keys
    requires forall u | u in net' :: net'[u] == NetOver(u, seen')
    ensures Rows(net', users, seen', bal, rows - {d})
  {
  }

  /** No two lines are about the same pair of users. */
  predicate DistinctPairs(lines: seq<Owes>)
  {
    forall i, j | 0 <= i < j < |lines| :: (lines[i].debtor, lines[i].creditor) != (lines[j].debtor, lines[j].creditor)
  }

  /** Two reports that list the same lines, each line once, differ only in
      order: asking twice for the balances gives the same lines. */
  lemma SameReport(a: seq<Owes>, b: seq<Owes>)
    requires DistinctPairs(a) && DistinctPairs(b)
    requires forall e :: e in a <==> e in b
    ensures multiset(a) == multiset(b)
  {
    forall e
      ensures multiset(a)[e] == multiset(b)[e]
    {
      CountOnce(a, e);
      CountOnce(b, e);
    }
  }

  /** In a report without repeated pairs every line occurs at most once. */
  lemma {:induction false} CountOnce(lines: seq<Owes>, e: Owes)
    requires DistinctPairs(lines)
    ensures multiset(lines)[e] == if e in lines then 1 else 0
  {
    if lines != [] {
      var n := |lines| - 1;
      var front := lines[..n];
      assert lines == front + [lines[n]];
      assert DistinctPairs(front);
      CountOnce(front, e);
      assert lines[n] !in front by {
        forall i | 0 <= i < n
          ensures front[i] != lines[n]
        {
          assert (lines[i].debtor, lines[i].creditor) != (lines[n].debtor, lines[n].creditor);
        }
      }
    }
  }

  /** The inner loop of the net computation: every entry of `d`'s row, in
      no particular order, is taken into the nets. `seen` holds the entries
      taken in before. */
  method TakeRow(net: map<User, real>, ghost seen: map<(User, User), real>, d: User, row: map<User, real>)
    returns (net': map<User, real>, ghost seen': map<(User, User), real>)
    requires d in net && forall c | c in row :: c in net && c != d
    requires forall p | p in seen :: p.0 != d
    requires forall u | u in net :: net[u] == NetOver(u, seen)
    ensures forall p :: p in seen' <==> p in seen || (p.0 == d && p.1 in row)
    ensures forall p | p in seen' :: seen'[p] == if p in seen then seen[p] else row[p.1]
    ensures net'.Keys == net.Keys
    ensures forall u | u in net' :: net'[u] == NetOver(u, seen')
  {
    net', seen' := net, seen;
    var cols := row.Keys;
    while cols != {}
      invariant cols <= row.Keys
      invariant RowPart(net, seen, d, row, cols, net', seen')
      decreases |cols|
    {
      var c :| c in cols;
      var amt := row[c];
      ghost var net0, seen0 := net', seen';
      RowPartEntry(net, seen, d, row, cols, net', seen', c);
      net', seen' := TakeEntry(net', seen', d, c, amt);
      RowPartStep(net, seen, d, row, cols, net0, seen0, c, net', seen');
      cols := cols - {c};
    }
  }

  /** What the row loop keeps: the entries of the row outside `cols` have
      been taken in on top of `seen`, and the nets agree with them. */
  ghost predicate RowPart(net: map<User, real>, seen: map<(User, User), real>, d: User, row: map<User, real>,
                          cols: set<User>, net': map<User, real>, seen': map<(User, User), real>)
  {
    && (forall p :: p in seen' <==> p in seen || (p.0 == d && p.1 in row && p.1 !in cols))
    && (forall p | p in seen' :: seen'[p] == if p in seen then seen[p] else row[p.1])
    && net'.Keys == net.Keys
    && (forall u | u in net' :: net'[u] == NetOver(u, seen'))
  }

  /** The entry about to be taken in is a new one between two registered users. */
  lemma RowPartEntry(net: map<User, real>, seen: map<(User, User), real>, d: User, row: map<User, real>,
                     cols: set<User>, net': map<User, real>, seen': map<(User, User), real>, c: User)
    requires d in net && forall c | c in row :: c in net && c != d
    requires forall p | p in seen :: p.0 != d
    requires RowPart(net, seen, d, row, cols, net', seen') && c in cols && cols <= row.Keys
    ensures d in net' && c in net' && d != c && (d, c) !in seen'
    ensures forall u | u in net' :: net'[u] == NetOver(u, seen')
  {
  }

  /** Taking the entry in keeps the row loop's facts. */
  lemma RowPartStep(net: map<User, real>, seen: map<(User, User), real>, d: User, row: map<User, real>,
                    cols: set<User>, net0: map<User, real>, seen0: map<(User, User), real>, c: User,
                    net1: map<User, real>, seen1: map<(User, User), real>)
    requires forall p | p in seen :: p.0 != d
    requires RowPart(net, seen, d, row, cols, net0, seen0) && c in cols && cols <= row.Keys
    requires seen1 == seen0[(d, c) := row[c]]
    requires net1.Keys == net0.Keys
    requires forall u | u in net1 :: net1[u] == NetOver(u, seen1)
    ensures RowPart(net, seen, d, row, cols - {c}, net1, seen1)
  {
  }

  /** One entry of the ledger taken into the nets: `amt` is taken off the
      debtor `d` and added to the creditor `c`, and the nets still agree with
      the entries taken in so far. */
  method TakeEntry(net: map<User, real>, ghost seen: map<(User, User), real>, d: User, c: User, amt: real)
    returns (net': map<User, real>, ghost seen': map<(User, User), real>)
    requires d in net && c in net && d != c && (d, c) !in seen
    requires forall u | u in net :: net[u] == NetOver(u, seen)
    ensures seen' == seen[(d, c) := amt]
    ensures net'.Keys == net.Keys
    ensures forall u | u in net' :: net'[u] == NetOver(u, seen')
  {
    net' := net[d := net[d] - amt];
    net' := net'[c := net'[c] + amt];
    seen' := seen[(d, c) := amt];
    forall u | u in net'
      ensures net'[u] == NetOver(u, seen')
    {
      NetOverAdd(u, seen, (d, c), amt);
      assert net'[u] == net[u] + Weight(u, d, c, amt);
    }
  }

  /** Once every entry is taken in, the nets are the net balances. */
  lemma AllSeen(net: map<User, real>, users: seq<User>, seen: map<(User, User), real>, bal: Balances)
    requires forall u :: u in net <==> u in users
    requires forall u | u in net :: net[u] == NetOver(u, seen)
    requires forall p :: p in seen <==> p.0 in bal && p.1 in bal[p.0]
    requires forall p | p in seen :: seen[p] == bal[p.0][p.1]
    ensures net == NetBalances(users, bal)
  {
    SeenIsFlat(seen, bal);
    NetsAre(net, users, seen);
  }

  lemma NetsAre(net: map<User, real>, users: seq<User>, seen: map<(User, User), real>)
    requires forall u :: u in net <==> u in users
    requires forall u | u in net :: net[u] == NetOver(u, seen)
    ensures net == Nets(users, seen)
  {
    var want := Nets(users, seen);
    assert net.Keys == want.Keys;
  }

  lemma SeenIsFlat(seen: map<(User, User), real>, bal: Balances)
    requires forall p :: p in seen <==> p.0 in bal && p.1 in bal[p.0]
    requires forall p | p in seen :: seen[p] == bal[p.0][p.1]
    ensures seen == Flat(bal)
  {
    var f := Flat(bal);
    assert seen.Keys == f.Keys;
  }
}
