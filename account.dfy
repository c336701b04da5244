/** The account slice of the application state and its reducer: the wallet
    (metamask) status, the active account, the network, the user's
    transactions keyed by a unique event hash, the count of unseen
    notifications and whether transactions are being loaded. */
module Account {

  /** The wallet status. Only its initial value is named here; the others
      are carried as opaque tags. */
  datatype MetamaskState = MetamaskUnknown | MetamaskKnown(tag: nat)

  /** The network. Only its initial value is named here. */
  datatype NetworkName = NetworkUnknown | NetworkKnown(name: string)

  /** The kind and status of a transaction, passed through unchanged. */
  datatype TxType = TxType(tag: nat)
  datatype TxStatus = TxStatus(tag: nat)

  datatype UserTransaction = UserTransaction(txType: TxType, txStatus: TxStatus, blockNumber: int, txHash: string)

  datatype AccountState = AccountState(
    metamaskState: MetamaskState,
    activeAccount: string,
    networkName: NetworkName,
    userTransactions: map<string, UserTransaction>,
    notificationCount: nat,
    isLoadingData: bool)

  /** The actions the reducer handles, with their payloads, and any other
      action of the application. */
  datatype Action =
    | UpdateMetamaskState(newState: MetamaskState, newNetworkName: NetworkName)
    | UpdateActiveAccount(newActiveAccount: string)
    | AddTransaction(uniqueEventHash: string, txHash: string, txType: TxType, txStatus: TxStatus,
                     blockNumber: int, isNew: bool)
    | ClearNotificationCount
    | LoadTransactions
    | LoadTransactionsDone
    | OtherAction(actionType: string)

  /** The state before any action. */
  const InitialState := AccountState(MetamaskUnknown, "", NetworkUnknown, map[], 0, false)

  // ---------------------------------------------------------------------
  // Frames

  /** The fields of the state, by name. */
  datatype Field = MetamaskStateField | ActiveAccountField | NetworkNameField
                 | UserTransactionsField | NotificationCountField | IsLoadingDataField

  /** Two states hold the same value in field f. */
  predicate Agree(s: AccountState, t: AccountState, f: Field) {
    match f
    case MetamaskStateField => s.metamaskState == t.metamaskState
    case ActiveAccountField => s.activeAccount == t.activeAccount
    case NetworkNameField => s.networkName == t.networkName
    case UserTransactionsField => s.userTransactions == t.userTransactions
    case NotificationCountField => s.notificationCount == t.notificationCount
    case IsLoadingDataField => s.isLoadingData == t.isLoadingData
  }

  /** Two states agree on every field outside `fs`. */
  predicate SameExcept(s: AccountState, t: AccountState, fs: set<Field>) {
    forall f :: f !in fs ==> Agree(s, t, f)
  }

  /** The fields an action may write. */
  function Writes(action: Action): set<Field> {
    match action
    case UpdateMetamaskState(_, _) => {MetamaskStateField, NetworkNameField}
    case UpdateActiveAccount(_) => {ActiveAccountField}
    case AddTransaction(_, _, _, _, _, _) => {UserTransactionsField, NotificationCountField}
    case ClearNotificationCount => {NotificationCountField}
    case LoadTransactions => {IsLoadingDataField, UserTransactionsField}
    case LoadTransactionsDone => {IsLoadingDataField}
    case OtherAction(_) => {}
  }

  // ---------------------------------------------------------------------
  // The reducer

  /** The next state after `action`. Only the fields the action writes
      change, and each gets the value described per action. */
  function AccountReducer(state: AccountState, action: Action): (next: AccountState)
    ensures SameExcept(state, next, Writes(action))
    ensures action.UpdateMetamaskState? ==>
              next.metamaskState == action.newState && next.networkName == action.newNetworkName
    ensures action.UpdateActiveAccount? ==> next.activeAccount == action.newActiveAccount
    ensures action.AddTransaction? ==>
              next.notificationCount == (if action.isNew then state.notificationCount + 1 else state.notificationCount)
    ensures action.ClearNotificationCount? ==> next.notificationCount == 0
    ensures action.LoadTransactions? ==> next.isLoadingData && |next.userTransactions| == 0
    ensures action.LoadTransactionsDone? ==> !next.isLoadingData
    ensures action.OtherAction? ==> next == state
  {
    match action
    case UpdateMetamaskState(newState, newNetworkName) =>
      state.(metamaskState := newState, networkName := newNetworkName)
    case UpdateActiveAccount(newActiveAccount) =>
      state.(activeAccount := newActiveAccount)
    case AddTransaction(uniqueEventHash, txHash, txType, txStatus, blockNumber, isNew) =>
      var userTransactionsCopy := state.userTransactions[uniqueEventHash := UserTransaction(txType, txStatus, blockNumber, txHash)];
      var newNotificationCount := if isNew then state.notificationCount + 1 else state.notificationCount;
      state.(userTransactions := userTransactionsCopy, notificationCount := newNotificationCount)
    case ClearNotificationCount =>
      state.(notificationCount := 0)
    case LoadTransactions =>
      state.(isLoadingData := true, userTransactions := map[])
    case LoadTransactionsDone =>
      state.(isLoadingData := false)
    case OtherAction(_) =>
      state
  }

  // ---------------------------------------------------------------------
  // Properties

  /** Adding a transaction stores it under its unique event hash and keeps
      every other entry as it was. */
  lemma AddTransactionEntries(state: AccountState, action: Action)
    requires action.AddTransaction?
    ensures var next := AccountReducer(state, action);
            next.userTransactions.Keys == state.userTransactions.Keys + {action.uniqueEventHash} &&
            next.userTransactions[action.uniqueEventHash] ==
              UserTransaction(action.txType, action.txStatus, action.blockNumber, action.txHash) &&
            forall h :: h in state.userTransactions && h != action.uniqueEventHash ==>
              next.userTransactions[h] == state.userTransactions[h]
  {
  }

  /** Re-adding a transaction under a hash already present replaces the
      entry; the number of entries does not grow. */
  lemma AddTransactionReplaces(state: AccountState, action: Action)
    requires action.AddTransaction? && action.uniqueEventHash in state.userTransactions
    ensures |AccountReducer(state, action).userTransactions| == |state.userTransactions|
  {
    assert AccountReducer(state, action).userTransactions.Keys == state.userTransactions.Keys;
  }

  /** Clearing the notification count twice is clearing it once. */
  lemma ClearIsIdempotent(state: AccountState)
    ensures var once := AccountReducer(state, ClearNotificationCount);
            AccountReducer(once, ClearNotificationCount) == once
  {
  }

  /** Loading and then finishing the load leaves an empty transaction map,
      not loading, and everything else as before. */
  lemma LoadThenDone(state: AccountState)
    ensures var next := AccountReducer(AccountReducer(state, LoadTransactions), LoadTransactionsDone);
            next == state.(userTransactions := map[], isLoadingData := false)
  {
  }

  /** The initial state: unknown wallet and network, no active account, no
      transactions, no notifications, not loading. */
  lemma InitialStateFacts()
    ensures InitialState.metamaskState == MetamaskUnknown && InitialState.networkName == NetworkUnknown
    ensures InitialState.activeAccount == "" && |InitialState.userTransactions| == 0
    ensures InitialState.notificationCount == 0 && !InitialState.isLoadingData
  {
  }

  // ---------------------------------------------------------------------
  // Sequences of actions

  /** The state after dispatching `actions` in order, starting from `state`. */
  function ReduceAll(state: AccountState, actions: seq<Action>): AccountState
    decreases |actions|
  {
    if |actions| == 0 then state
    else AccountReducer(ReduceAll(state, actions[..|actions| - 1]), actions[|actions| - 1])
  }

  /** Whether a notification-count reset occurs among the actions. */
  predicate HasClear(actions: seq<Action>) {
    exists k :: 0 <= k < |actions| && actions[k].ClearNotificationCount?
  }

  /** The number of new transactions added after the last reset (or since
      the beginning, without a reset). */
  function NewSinceLastClear(actions: seq<Action>): nat
    decreases |actions|
  {
    if |actions| == 0 then 0
    else
      var last := actions[|actions| - 1];
      var before := NewSinceLastClear(actions[..|actions| - 1]);
      if last.ClearNotificationCount? then 0
      else if last.AddTransaction? && last.isNew then before + 1
      else before
  }

  /** The notification count counts the new transactions since the last
      reset, on top of the starting count when there was no reset. */
  lemma {:induction false} NotificationCountOfHistory(state: AccountState, actions: seq<Action>)
    ensures ReduceAll(state, actions).notificationCount ==
            (if HasClear(actions) then 0 else state.notificationCount) + NewSinceLastClear(actions)
    decreases |actions|
  {
    if |actions| > 0 {
      var n := |actions| - 1;
      var prefix := actions[..n];
      NotificationCountOfHistory(state, prefix);
      assert forall k :: 0 <= k < n ==> prefix[k] == actions[k];
      if !actions[n].ClearNotificationCount? {
        assert HasClear(actions) <==> HasClear(prefix) by {
          if HasClear(actions) {
            var k :| 0 <= k < |actions| && actions[k].ClearNotificationCount?;
            assert prefix[k] == actions[k];
          }
        }
      }
    }
  }

  /** From the initial state, the notification count is the number of new
      transactions added since the last reset. */
  lemma NotificationCountFromStart(actions: seq<Action>)
    ensures ReduceAll(InitialState, actions).notificationCount == NewSinceLastClear(actions)
  {
    NotificationCountOfHistory(InitialState, actions);
  }
}
