/** The ledger of an expense manager, as values: who owes whom how much, the
    lines an expense adds to it, and the net position of each user. */
module Ledger {
  import opened Totals

  /** A participant. Two users are equal exactly when their names are, as
      `User.equals` and `User.hashCode` compare and hash the name only. */
  datatype User = User(name: string)

  /** One "debtor owes creditor amount" line, as a history or balance report
      shows it (without the text formatting). */
  datatype Owes = Owes(debtor: User, creditor: User, amount: real)

  /** `bal[d][c]` is what `d` owes `c`; each registered user has a row. */
  type Balances = map<User, map<User, real>>

  /** `bal.get(d).getOrDefault(c, 0.0)`, and 0 where `d` has no row. */
  function Get(bal: Balances, d: User, c: User): real
  {
    if d in bal && c in bal[d] then bal[d][c] else 0.0
  }

  function Abs(x: real): real
  {
    if x < 0.0 then -x else x
  }

  /** Custom shares may miss the amount by at most this much. */
  const Tolerance: real := 0.01

  /** Whether `addExpense` goes ahead: always for an equal split, and for a
      custom split when the shares add up to the amount within the tolerance. */
  predicate Accepts(isEqual: bool, amount: real, customShares: seq<real>)
  {
    isEqual || Abs(Sum(customShares) - amount) <= Tolerance
  }

  /** `n` equal shares of `amount` (none when nobody shares the expense). */
  function EqualShares(amount: real, n: nat): (r: seq<real>)
    ensures |r| == n
  {
    if n == 0 then [] else var share := amount / n as real; seq(n, _ => share)
  }

  /** The share of each position of `sharedWith` under the chosen split. */
  function Shares(isEqual: bool, amount: real, sharedWith: seq<User>, customShares: seq<real>): seq<real>
  {
    if isEqual then EqualShares(amount, |sharedWith|) else customShares
  }

  /** Every position held by someone other than the payer has a share. */
  predicate Covered(payer: User, sharers: seq<User>, shares: seq<real>)
  {
    forall i | 0 <= i < |sharers| && sharers[i] != payer :: i < |shares|
  }

  /** The lines an expense paid by `payer` adds to the history: one for each
      position of `sharers` not held by the payer, in order, charged that
      position's share and owed to the payer. */
  function Charges(payer: User, sharers: seq<User>, shares: seq<real>): seq<Owes>
    requires Covered(payer, sharers, shares)
  {
    if sharers == [] then []
    else
      var n := |sharers| - 1;
      Charges(payer, sharers[..n], shares)
        + (if sharers[n] != payer then [Owes(sharers[n], payer, shares[n])] else [])
  }

  /** Charging one more position appends at most one line. */
  lemma ChargesStep(payer: User, sharers: seq<User>, shares: seq<real>, i: nat)
    requires i < |sharers| && Covered(payer, sharers, shares)
    ensures Covered(payer, sharers[..i], shares) && Covered(payer, sharers[..i + 1], shares)
    ensures Charges(payer, sharers[..i + 1], shares)
            == Charges(payer, sharers[..i], shares)
               + (if sharers[i] != payer then [Owes(sharers[i], payer, shares[i])] else [])
  {
    assert sharers[..i + 1][..i] == sharers[..i];
  }

  /** Adds one line to the balances: the debtor's debt to the creditor grows. */
  function Record(bal: Balances, e: Owes): Balances
    requires e.debtor in bal
  {
    bal[e.debtor := bal[e.debtor][e.creditor := Get(bal, e.debtor, e.creditor) + e.amount]]
  }

  /** The balances after recording `lines` one after the other. */
  function Post(bal: Balances, lines: seq<Owes>): (r: Balances)
    requires forall e | e in lines :: e.debtor in bal
    ensures r.Keys == bal.Keys
  {
    if lines == [] then bal
    else
      var n := |lines| - 1;
      assert forall e | e in lines[..n] :: e in lines;
      Record(Post(bal, lines[..n]), lines[n])
  }

  /** Recording one more line is one more `Record`. */
  lemma PostStep(bal: Balances, lines: seq<Owes>, e: Owes)
    requires forall x | x in lines + [e] :: x.debtor in bal
    ensures forall x | x in lines :: x.debtor in bal
    ensures Post(bal, lines + [e]) == Record(Post(bal, lines), e)
  {
    assert forall x | x in lines :: x in lines + [e];
    assert (lines + [e])[..|lines|] == lines;
  }

  /** What `d` is charged in all, over every position of `sharers` that `d`
      holds. */
  function ShareOf(d: User, sharers: seq<User>, shares: seq<real>): real
  {
    if sharers == [] then 0.0
    else
      var n := |sharers| - 1;
      ShareOf(d, sharers[..n], shares) + (if sharers[n] == d && n < |shares| then shares[n] else 0.0)
  }

  /** Every charged line is owed to the payer by someone else who shares the
      expense, and there is one line per position the payer does not hold. */
  lemma {:induction false} ChargeLines(payer: User, sharers: seq<User>, shares: seq<real>)
    requires Covered(payer, sharers, shares)
    ensures forall e | e in Charges(payer, sharers, shares) ::
              e.creditor == payer && e.debtor != payer && e.debtor in sharers
    ensures |Charges(payer, sharers, shares)| == |sharers| - multiset(sharers)[payer]
  {
    if sharers != [] {
      var n := |sharers| - 1;
      ChargeLines(payer, sharers[..n], shares);
      assert sharers == sharers[..n] + [sharers[n]];
    }
  }

  /** `idx` lists, in increasing order, exactly the positions of `sharers`
      that are not held by `payer` (increasing positions of others, as many
      as there are). */
  ghost predicate Enumerates(idx: seq<int>, payer: User, sharers: seq<User>)
  {
    && (forall j | 0 <= j < |idx| :: 0 <= idx[j] < |sharers| && sharers[idx[j]] != payer)
    && (forall j, k | 0 <= j < k < |idx| :: idx[j] < idx[k])
    && |idx| == |sharers| - multiset(sharers)[payer]
  }

  /** The charged lines follow the order of `sharers`: the j-th line comes
      from the j-th position not held by the payer. */
  lemma {:induction false} ChargesInOrder(payer: User, sharers: seq<User>, shares: seq<real>)
    requires Covered(payer, sharers, shares)
    ensures exists idx :: ListsCharges(idx, payer, sharers, shares)
  {
    if sharers == [] {
      var none: seq<int> := [];
      assert ListsCharges(none, payer, sharers, shares);
    } else {
      var front := sharers[..|sharers| - 1];
      ChargesInOrder(payer, front, shares);
      var idx :| ListsCharges(idx, payer, front, shares);
      ChargesGrow(idx, payer, sharers, shares);
    }
  }

  /** `idx` enumerates the positions not held by the payer, and the j-th
      charged line comes from position `idx[j]`. */
  ghost predicate ListsCharges(idx: seq<int>, payer: User, sharers: seq<User>, shares: seq<real>)
    requires Covered(payer, sharers, shares)
  {
    && Enumerates(idx, payer, sharers)
    && |idx| == |Charges(payer, sharers, shares)|
    && forall j | 0 <= j < |idx| ::
         Charges(payer, sharers, shares)[j] == Owes(sharers[idx[j]], payer, shares[idx[j]])
  }

  lemma ChargesGrow(idx: seq<int>, payer: User, sharers: seq<User>, shares: seq<real>)
    requires sharers != [] && Covered(payer, sharers, shares)
    requires Covered(payer, sharers[..|sharers| - 1], shares)
    requires ListsCharges(idx, payer, sharers[..|sharers| - 1], shares)
    ensures var n := |sharers| - 1;
            ListsCharges(if sharers[n] != payer then idx + [n] else idx, payer, sharers, shares)
  {
    var n := |sharers| - 1;
    var front := sharers[..n];
    var before := Charges(payer, front, shares);
    var idx' := if sharers[n] != payer then idx + [n] else idx;
    EnumerationGrows(idx, payer, sharers);
    var after := Charges(payer, sharers, shares);
    assert |idx'| == |after|;
    forall j | 0 <= j < |idx'|
      ensures after[j] == Owes(sharers[idx'[j]], payer, shares[idx'[j]])
    {
      if j < |idx| {
        assert after[j] == before[j];
        assert idx'[j] == idx[j] && front[idx[j]] == sharers[idx[j]];
      }
    }
  }

  /** Appending the last position of `sharers`, when the payer does not hold
      it, extends an enumeration of the positions before it. */
  lemma EnumerationGrows(idx: seq<int>, payer: User, sharers: seq<User>)
    requires sharers != []
    requires Enumerates(idx, payer, sharers[..|sharers| - 1])
    ensures var n := |sharers| - 1;
            Enumerates(if sharers[n] != payer then idx + [n] else idx, payer, sharers)
  {
    var n := |sharers| - 1;
    var front := sharers[..n];
    var idx' := if sharers[n] != payer then idx + [n] else idx;
    forall j | 0 <= j < |idx'|
      ensures 0 <= idx'[j] < |sharers| && sharers[idx'[j]] != payer
    {
      if j < |idx| {
        assert idx'[j] == idx[j] && front[idx[j]] == sharers[idx[j]];
      }
    }
    forall j, k | 0 <= j < k < |idx'|
      ensures idx'[j] < idx'[k]
    {
      if k < |idx| {
        assert idx'[j] == idx[j] && idx'[k] == idx[k];
      }
    }
    assert sharers == front + [sharers[n]];
  }

  /** Every charged line is owed by a user who has a row. */
  lemma ChargedHaveRows(bal: Balances, payer: User, sharers: seq<User>, shares: seq<real>)
    requires Covered(payer, sharers, shares)
    requires forall u | u in sharers && u != payer :: u in bal
    ensures forall e | e in Charges(payer, sharers, shares) :: e.debtor in bal
  {
    ChargeLines(payer, sharers, shares);
  }

  /** Charging one more position of `sharers`: when someone other than the
      payer holds it, the lines so far grow by that position's line and the
      balances by recording it; otherwise nothing changes. */
  lemma ChargeNext(bal: Balances, payer: User, sharers: seq<User>, shares: seq<real>, i: nat)
    requires i < |sharers| && Covered(payer, sharers, shares)
    requires forall u | u in sharers && u != payer :: u in bal
    ensures Covered(payer, sharers[..i], shares) && Covered(payer, sharers[..i + 1], shares)
    ensures forall e | e in Charges(payer, sharers[..i], shares) :: e.debtor in bal
    ensures sharers[i] == payer ==>
              Charges(payer, sharers[..i + 1], shares) == Charges(payer, sharers[..i], shares)
    ensures sharers[i] != payer ==>
              var done, e := Charges(payer, sharers[..i], shares), Owes(sharers[i], payer, shares[i]);
              && Charges(payer, sharers[..i + 1], shares) == done + [e]
              && e.debtor in bal
              && Post(bal, done + [e]) == Record(Post(bal, done), e)
  {
    ChargesStep(payer, sharers, shares, i);
    assert forall u | u in sharers[..i + 1] && u != payer :: u in bal;
    ChargedHaveRows(bal, payer, sharers[..i + 1], shares);
    if sharers[i] != payer {
      PostStep(bal, Charges(payer, sharers[..i], shares), Owes(sharers[i], payer, shares[i]));
    }
  }

  /** Recording an expense's lines moves only the pairs "someone else owes the
      payer": each such debt grows by everything that debtor is charged.
      Every other pair, the payer's own row included, keeps its amount. */
  lemma {:induction false} PostCharges(bal: Balances, payer: User, sharers: seq<User>, shares: seq<real>, d: User, c: User)
    requires Covered(payer, sharers, shares)
    requires forall u | u in sharers && u != payer :: u in bal
    ensures forall e | e in Charges(payer, sharers, shares) :: e.debtor in bal
    ensures Get(Post(bal, Charges(payer, sharers, shares)), d, c)
            == Get(bal, d, c) + (if c == payer && d != payer then ShareOf(d, sharers, shares) else 0.0)
  {
    ChargedHaveRows(bal, payer, sharers, shares);
    if sharers != [] {
      var n := |sharers| - 1;
      var front := sharers[..n];
      ChargeNext(bal, payer, sharers, shares, n);
      assert sharers[..n + 1] == sharers;
      assert forall u | u in front && u != payer :: u in bal;
      PostCharges(bal, payer, front, shares, d, c);
      if sharers[n] != payer {
        RecordEffect(Post(bal, Charges(payer, front, shares)), Owes(sharers[n], payer, shares[n]), d, c);
      }
    }
  }

  /** After an expense, a debtor's row has an entry for exactly the creditors
      it had before, plus the payer when the debtor is someone else sharing
      the expense. */
  lemma {:induction false} PostChargesKeys(bal: Balances, payer: User, sharers: seq<User>, shares: seq<real>, d: User, c: User)
    requires Covered(payer, sharers, shares)
    requires forall u | u in sharers && u != payer :: u in bal
    requires d in bal
    ensures forall e | e in Charges(payer, sharers, shares) :: e.debtor in bal
    ensures c in Post(bal, Charges(payer, sharers, shares))[d]
            <==> c in bal[d] || (c == payer && d != payer && d in sharers)
  {
    ChargedHaveRows(bal, payer, sharers, shares);
    if sharers != [] {
      var n := |sharers| - 1;
      var front := sharers[..n];
      ChargeNext(bal, payer, sharers, shares, n);
      assert sharers[..n + 1] == sharers;
      assert sharers == front + [sharers[n]];
      assert d in sharers <==> d in front || d == sharers[n];
      assert forall u | u in front && u != payer :: u in bal;
      PostChargesKeys(bal, payer, front, shares, d, c);
      if sharers[n] != payer {
        RecordEffect(Post(bal, Charges(payer, front, shares)), Owes(sharers[n], payer, shares[n]), d, c);
      }
    }
  }

  /** Recording one line moves exactly the entry it names, creating it if
      needed. */
  lemma RecordEffect(bal: Balances, e: Owes, d: User, c: User)
    requires e.debtor in bal
    ensures Get(Record(bal, e), d, c)
            == Get(bal, d, c) + (if d == e.debtor && c == e.creditor then e.amount else 0.0)
    ensures d in bal ==> (c in Record(bal, e)[d] <==> c in bal[d] || (d == e.debtor && c == e.creditor))
  {
  }

  /** The payer's own row never changes: nobody records a debt to themself. */
  lemma {:induction false} PayerRowUnchanged(bal: Balances, payer: User, sharers: seq<User>, shares: seq<real>)
    requires Covered(payer, sharers, shares)
    requires forall u | u in sharers && u != payer :: u in bal
    requires payer in bal
    ensures forall e | e in Charges(payer, sharers, shares) :: e.debtor in bal
    ensures Post(bal, Charges(payer, sharers, shares))[payer] == bal[payer]
  {
    ChargeLines(payer, sharers, shares);
    if sharers != [] {
      var n := |sharers| - 1;
      var front := sharers[..n];
      assert sharers == front + [sharers[n]];
      PayerRowUnchanged(bal, payer, front, shares);
      var lines := Charges(payer, front, shares);
      if sharers[n] != payer {
        var e := Owes(sharers[n], payer, shares[n]);
        assert (lines + [e])[..|lines|] == lines;
      } else {
        assert Charges(payer, sharers, shares) == lines;
      }
    }
  }

  /** When every position carries the same share, a user is charged that
      share once per position they hold. */
  lemma {:induction false} ShareOfUniform(d: User, sharers: seq<User>, shares: seq<real>, v: real)
    requires |sharers| <= |shares|
    requires forall i | 0 <= i < |sharers| :: shares[i] == v
    ensures ShareOf(d, sharers, shares) == Times(multiset(sharers)[d], v)
  {
    if sharers != [] {
      var n := |sharers| - 1;
      ShareOfUniform(d, sharers[..n], shares, v);
      assert sharers == sharers[..n] + [sharers[n]];
    }
  }

  /** Under an equal split, each occurrence of a user among the sharers adds
      `amount / |sharers|` to what they are charged. */
  lemma EqualSplitShare(d: User, amount: real, sharers: seq<User>)
    requires |sharers| > 0
    ensures ShareOf(d, sharers, EqualShares(amount, |sharers|))
            == multiset(sharers)[d] as real * (amount / |sharers| as real)
  {
    ShareOfUniform(d, sharers, EqualShares(amount, |sharers|), amount / |sharers| as real);
    TimesIsProduct(multiset(sharers)[d], amount / |sharers| as real);
  }

  /** The effect of an equal split on the balances: every other sharer's
      debt to the payer grows by `amount / |sharers|` once per position they
      hold; every other pair, the payer's own entries included, is as it
      was. */
  lemma EqualSplitEffect(bal: Balances, payer: User, amount: real, sharers: seq<User>, d: User, c: User)
    requires |sharers| > 0
    requires forall u | u in sharers && u != payer :: u in bal
    ensures Covered(payer, sharers, EqualShares(amount, |sharers|))
    ensures forall e | e in Charges(payer, sharers, EqualShares(amount, |sharers|)) :: e.debtor in bal
    ensures Get(Post(bal, Charges(payer, sharers, EqualShares(amount, |sharers|))), d, c)
            == Get(bal, d, c)
               + (if c == payer && d != payer then multiset(sharers)[d] as real * (amount / |sharers| as real) else 0.0)
  {
    PostCharges(bal, payer, sharers, EqualShares(amount, |sharers|), d, c);
    EqualSplitShare(d, amount, sharers);
  }

  /** The equal shares add up to the amount exactly. */
  lemma EqualSharesTotal(amount: real, n: nat)
    requires n > 0
    ensures Sum(EqualShares(amount, n)) == amount
  {
    SumConstant(EqualShares(amount, n), amount / n as real);
  }

  /** How a stored "d owes c a" entry contributes to the net position of `u`:
      the creditor gains `a`, the debtor loses it. */
  function Weight(u: User, d: User, c: User, a: real): real
  {
    (if u == c then a else 0.0) - (if u == d then a else 0.0)
  }

  /** The stored entries keyed by (debtor, creditor). */
  ghost function Flat(bal: Balances): (r: map<(User, User), real>)
    ensures forall p :: p in r <==> p.0 in bal && p.1 in bal[p.0]
    ensures forall p | p in r :: r[p] == bal[p.0][p.1]
  {
    map p | p in (set d, c | d in bal && c in bal[d] :: (d, c)) :: bal[p.0][p.1]
  }

  /** The net position of `u` over a set of entries: what `u` is owed minus
      what `u` owes. */
  ghost function NetOver(u: User, entries: map<(User, User), real>): real
  {
    Total(map p | p in entries :: Weight(u, p.0, p.1, entries[p]))
  }

  /** Taking in one more entry moves each net position by that entry's weight. */
  lemma NetOverAdd(u: User, entries: map<(User, User), real>, q: (User, User), a: real)
    requires q !in entries
    ensures NetOver(u, entries[q := a]) == NetOver(u, entries) + Weight(u, q.0, q.1, a)
  {
    var before := map p | p in entries :: Weight(u, p.0, p.1, entries[p]);
    var after := map p | p in entries[q := a] :: Weight(u, p.0, p.1, entries[q := a][p]);
    assert after == before[q := Weight(u, q.0, q.1, a)];
    TotalUpdate(before, q, Weight(u, q.0, q.1, a));
  }

  /** The net positions of `users` over a set of entries. */
  ghost function Nets(users: seq<User>, entries: map<(User, User), real>): map<User, real>
  {
    map u | u in users :: NetOver(u, entries)
  }

  /** The net balance of every registered user over the whole ledger. */
  ghost function NetBalances(users: seq<User>, bal: Balances): map<User, real>
  {
    Nets(users, Flat(bal))
  }

  /** Conservation: every entry is taken off its debtor and added to its
      creditor, so when both ends of every entry are among `users` the nets
      add up to zero. */
  lemma {:induction false} NetsCancel(users: seq<User>, entries: map<(User, User), real>)
    requires forall p | p in entries :: p.0 in users && p.1 in users
    ensures Total(Nets(users, entries)) == 0.0
    decreases |entries|
  {
    if entries == map[] {
      ZeroTotal(Nets(users, entries));
    } else {
      var q :| q in entries;
      var rest := entries - {q};
      assert rest.Keys == entries.Keys - {q};
      assert entries == rest[q := entries[q]];
      NetsCancel(users, rest);
      forall u | u in users
        ensures Nets(users, entries)[u] == Nets(users, rest)[u] + Weight(u, q.0, q.1, entries[q])
      {
        NetOverAdd(u, rest, q, entries[q]);
      }
      TotalShift(Nets(users, rest), Nets(users, entries), q.0, q.1, entries[q]);
    }
  }

  /** Moving `a` from `d` to `c` leaves the total unchanged. */
  lemma TotalShift(m: map<User, real>, m': map<User, real>, d: User, c: User, a: real)
    requires d in m && c in m && m'.Keys == m.Keys
    requires forall u | u in m :: m'[u] == m[u] + Weight(u, d, c, a)
    ensures Total(m') == Total(m)
  {
    ShiftedMap(m, m', d, c, a);
    if d != c {
      TotalMove(m, d, c, a);
    }
  }

  /** The map of shifted positions, written as updates of `m`. */
  lemma ShiftedMap(m: map<User, real>, m': map<User, real>, d: User, c: User, a: real)
    requires d in m && c in m && m'.Keys == m.Keys
    requires forall u | u in m :: m'[u] == m[u] + Weight(u, d, c, a)
    ensures d == c ==> m' == m
    ensures d != c ==> m' == m[d := m[d] - a][c := m[c] + a]
  {
    if d == c {
      assert forall u | u in m :: m'[u] == m[u];
    } else {
      var m2 := m[d := m[d] - a][c := m[c] + a];
      assert forall u | u in m :: m'[u] == m2[u];
      assert m2.Keys == m.Keys;
    }
  }

  lemma TotalMove(m: map<User, real>, d: User, c: User, a: real)
    requires d in m && c in m && d != c
    ensures Total(m[d := m[d] - a][c := m[c] + a]) == Total(m)
  {
    var m1 := m[d := m[d] - a];
    TotalUpdate(m, d, m[d] - a);
    TotalUpdate(m1, c, m[c] + a);
  }

  /** The users whose net balance is not zero. */
  ghost function NonZero(net: map<User, real>): set<User>
  {
    set u | u in net && net[u] != 0.0
  }
}
