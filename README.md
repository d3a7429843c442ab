# SplitExpense: a verified model of the expense manager

SplitExpense is a small Swing application for sharing expenses. This project
models its core: the `User` record and the `ExpenseManager` class
(`SplitExpense.java`). The manager keeps three things:

- the registered users, in the order they were added;
- the pairwise balances, where `balances[d][c]` is what `d` owes `c`;
- the history of every "d owes c amount" line charged so far.

It offers these operations:

- `addUser` registers a user.
- `addExpense` records an expense paid by one user and shared by a list of
  users. The split is either equal, or by custom shares that must add up to
  the amount within 0.01.
- `getBalances` lists every positive pairwise debt.
- `getAllTransactions` returns a copy of the history.
- `getMinimizedBalances` settles the ledger. It computes each user's net
  balance, puts creditors and debtors into two priority queues, and keeps
  letting the largest debtor pay the largest creditor as much as possible.

The model has four modules, one file each:

- `totals.dfy` (`Totals`): sums of amounts over a map, which is
  order-independent as a hash map's traversal needs, and over a sequence.
- `ledger.dfy` (`Ledger`): the value-level specification.
  - `User`, the `Owes` line, and the `Balances` map.
  - `Charges`: the lines an expense adds, in order.
  - `Post`: the balances after recording those lines.
  - `NetBalances`: the net position of every user.
  - The lemmas that say what an expense does to the balances, and that the
    net positions add up to zero.
- `settlement.dfy` (`Settlement`): the two queues, one settling round
  (`Settle`), the partition into queues (`Partition`), and the settlement
  loop (`SettleQueues`), all with their proofs.
- `manager.dfy` (`Manager`): the class `ExpenseManager`. It has the source's
  three fields, and its methods update them in place, with the same loops as
  the source. Each method is proved against the functions of `Ledger` and
  `Settlement`.

Amounts are exact `real`s. A report line is the datatype `Owes` or `Pays`
rather than formatted text. A user is `User(name)`, so two users are equal
exactly when their names are, as `User.equals` and `User.hashCode` decide.

## Model

| member | source | states |
|---|---|---|
| Manager.ExpenseManager.constructor | SplitExpense.java:28-31 | A new manager has no users, no balances and an empty history. |
| Manager.ExpenseManager.AddUser | SplitExpense.java:33-37 | The new user is appended to the user list, even if the name is already there. That name's row is reset to empty. The history, and every other row, stay as they were. |
| Manager.ExpenseManager.GetUsers | SplitExpense.java:39 | Returns the registered users in registration order. |
| Manager.ExpenseManager.AddExpense | SplitExpense.java:41-66 | The expense goes ahead exactly when the split is equal, or the custom shares add up to the amount within 0.01. A rejected expense changes nothing. An accepted one appends the expense's lines to the history, in order, and records exactly those lines on the balances. The user list does not change. |
| Manager.ExpenseManager.ChargeEqually | SplitExpense.java:42-49 | The equal-split loop charges one line per position of `sharedWith` not held by the payer. Each line is worth the amount divided by the number of positions and is owed to the payer. No line is charged to the payer. |
| Manager.ExpenseManager.ChargeCustom | SplitExpense.java:57-64 | The custom-split loop charges `customShares[i]` for each position `i` not held by the payer, in order. |
| Manager.ExpenseManager.ChargeLine | SplitExpense.java:46-47 | The debtor's debt to the creditor grows by the line's amount, starting from 0 when there is no entry yet. The line is appended to the history, and nothing else changes. |
| Ledger.ChargeLines | SplitExpense.java:44-48 | Every charged line is owed to the payer by a sharer other than the payer. There is one line per position not held by the payer, so the history grows by that many lines. |
| Ledger.ChargesInOrder | SplitExpense.java:57-63 | The j-th charged line comes from the j-th position not held by the payer, with that position's share. |
| Ledger.PostCharges | SplitExpense.java:41-66 | After an expense, what a sharer `d` other than the payer owes the payer has grown by everything `d` is charged over all the positions `d` holds. Every other pair of users keeps its amount. |
| Ledger.PostChargesKeys | SplitExpense.java:46-61 | After an expense, a row has an entry for exactly the creditors it had before. The payer is added when the row's owner is another sharer. |
| Ledger.PayerRowUnchanged | SplitExpense.java:44-48 | The payer's own row is untouched, because nobody is charged a debt to themself. |
| Ledger.EqualSplitShare | SplitExpense.java:43-47 | Under an equal split, a user is charged the amount divided by the number of positions once per position they hold. |
| Ledger.EqualSplitEffect | SplitExpense.java:42-49 | The whole effect of an equal split: each other sharer's debt to the payer grows by the amount divided by the number of positions per position they hold. Everything else is as it was. |
| Ledger.EqualSharesTotal | SplitExpense.java:43 | For a non-empty list of sharers, the equal shares add up to the amount exactly. |
| Ledger.RecordEffect | SplitExpense.java:46 | One update moves exactly the entry it names, and creates that entry when it is missing. |
| Ledger.Post | SplitExpense.java:46 | Recording lines never adds or removes a row: only existing rows are updated. |
| Ledger.NetsCancel | SplitExpense.java:85-92 | Conservation: each stored amount is taken off its debtor and added to its creditor, so the net balances add up to zero when both ends of every entry are registered. |
| Ledger.NetOverAdd | SplitExpense.java:87-89 | Taking in one more entry moves a user's net by that entry's weight: the creditor gains the amount and the debtor loses it. |
| Manager.ExpenseManager.GetBalances | SplitExpense.java:68-79 | The report holds exactly the stored positive debts, each pair once, with its amount. Zero and negative entries are left out. |
| Manager.SameReport | SplitExpense.java:68-79 | Two balance reports of the same ledger are the same lines, up to order. So asking twice gives the same report up to hash order. |
| Manager.CountOnce | SplitExpense.java:70-76 | In a report without repeated pairs, every line occurs exactly once. |
| Manager.ExpenseManager.GetAllTransactions | SplitExpense.java:120-122 | Returns the whole history, oldest line first. |
| Manager.ExpenseManager.ComputeNet | SplitExpense.java:82-92 | The map built by the two net loops is the net balance of each registered user: what others owe them minus what they owe others. The nets add up to zero. |
| Manager.ExpenseManager.ZeroNets | SplitExpense.java:83 | Every registered user starts with a net of zero, and nobody else is in the map. |
| Manager.TakeRow | SplitExpense.java:86-90 | Taking in one debtor's row, in any order, extends the entries taken in by exactly that row. The nets agree with the extended entries. |
| Manager.TakeEntry | SplitExpense.java:87-89 | One entry is subtracted from its debtor's net and added to its creditor's. The nets still agree with the entries taken in so far. |
| Settlement.Partition | SplitExpense.java:96-100 | The creditor queue holds exactly the users with a positive net, and the debtor queue exactly those with a negative net, each with its amount. Users with a net of zero are queued nowhere. The queues keep the total of the nets. |
| Settlement.TopExists | SplitExpense.java:93 | A non-empty creditor queue has a head with the largest claim. Ties are broken arbitrarily. |
| Settlement.BottomExists | SplitExpense.java:94 | A non-empty debtor queue has a head with the most negative balance. Ties are broken arbitrarily. |
| Settlement.Settle | SplitExpense.java:104-114 | In one round the head debtor pays the head creditor `min(claim, -debt)`. This amount is positive and clears at least one of the two. Each side is requeued only while something is left of it. The round moves the two open amounts by exactly the transfer. |
| Settlement.SettleQueues | SplitExpense.java:102-117 | The loop terminates. Every transfer is positive and goes from an initial debtor to an initial creditor. There are fewer transfers than queued users, and none when nobody is queued. The first transfer pairs a largest debtor with a largest creditor. When the claims and the debts cancel out, the transfers bring everyone to zero. |
| Manager.ExpenseManager.GetMinimizedBalances | SplitExpense.java:81-118 | Every transfer is positive and goes from a user with a negative net to one with a positive net. After the plan, every registered user's net is exactly zero. The plan is empty when everybody is settled, and otherwise has fewer transfers than unsettled users. The first transfer is from a largest debtor to a largest creditor. |
| Totals.TotalRemove | SplitExpense.java:85-92 | The total of a map does not depend on the order in which its keys are visited, as a hash map's traversal requires. |

## Left out

- The Swing interface, lines 125-296 of `SplitExpense.java`, is not part of
  this model. That covers the frame, the panels and buttons, the input
  dialogs, and the parsing of user input.
- The error dialog of a rejected custom split is not modelled. Rejection is
  the result `applied == false`, with no state change.
- `double` arithmetic is not modelled. Amounts are exact reals, so rounding
  in the shares, in the custom total, and in the settlement loop is not
  modelled. The 0.01 tolerance is kept.
- The text of report lines is left out: the "owes"/"pays" wording, the
  rupee sign, and the two-decimal formatting. Lines are `Owes`/`Pays`
  values, and the history stores the values, not strings.
- Hash map iteration order, and the choice among tied heads of a priority
  queue, are left unspecified. Every loop picks an arbitrary remaining key
  or head.
- Each priority queue is a map from user to remaining amount. A user is in a
  queue at most once, and each round removes and requeues the heads.
- The source crashes with a null pointer when a non-payer sharer is not
  registered. `AddExpense` and its loops instead require every non-payer
  sharer to be registered, and every such position to have a custom share
  once the split is accepted.
- `getMinimizedBalances` crashes when a balance names an unregistered payer.
  Manager.ExpenseManager.GetMinimizedBalances requires every creditor in the
  ledger to be registered (`CreditorsRegistered`). `AddExpense` preserves
  this when the payer is registered.
- An equal split with an empty `sharedWith` divides by zero in `double`
  arithmetic and then charges nothing. The model charges nothing in that
  case, without the division.
- Manager.ExpenseManager.GetUsers returns a value. The source returns the
  live list, so aliasing between the caller and the manager is not modelled.
- `getMinimizedBalances` is one method in the source. Here it is split
  into `ComputeNet`, `Partition` and `SettleQueues`, with `Settle` as the
  settlement loop's body. The steps are the same.
- Manager.SameReport: repeated `getBalances` calls are shown to give the
  same lines up to order, not in the same order, because hash order is not
  modelled.
