/**
 * The replies of the commands that only read the store: `balance`,
 * `receive`, `transactions` and `send`. Each starts from the user's selected
 * wallet (`WalletStore.SelectedWallet`); the wallet service's answer is a
 * parameter, and so is the floating-point formatting the service's integer
 * amounts go through before the trailing zeros are stripped.
 */
module Commands {
  import opened Wrappers
  import opened ZeroStrip
  import Pager
  import WalletStore

  datatype Reply =
    | NoWalletSelected | FetchFailed | NoTransactions
    | TimedOut | PasswordTooLong | WrongPassword | SendFailed(error: string)
    | Balance(amount: string) | ReceiveAddress(address: string)
    | Page(entries: seq<Pager.Entry>) | Sent(amount: string, destination: string)

  /**
   * `balance`; `fixedBalance` is the balance scaled by the fork's precision
   * and written with that many decimals.
   */
  function BalanceReply(selected: Option<WalletStore.Wallet>, success: bool, fixedBalance: string): (r: Reply)
    ensures selected.None? ==> r == NoWalletSelected
    ensures selected.Some? && !success ==> r == FetchFailed
    ensures r.Balance? <==> selected.Some? && success
    ensures r.Balance? ==> r.amount <= fixedBalance && r.amount == RegexReplace(fixedBalance)
  {
    StripIsRegexReplace(fixedBalance);
    if selected.None? then NoWalletSelected
    else if !success then FetchFailed
    else Balance(Strip(fixedBalance))
  }

  /** `receive`: the selected wallet's address. */
  function ReceiveReply(selected: Option<WalletStore.Wallet>): (r: Reply)
    ensures r.ReceiveAddress? <==> selected.Some?
    ensures r.ReceiveAddress? ==> r.address == selected.value.address
  {
    if selected.None? then NoWalletSelected else ReceiveAddress(selected.value.address)
  }

  /**
   * `transactions`: page the list and show page 0, which holds the first
   * min(n, 10) transactions numbered n, n - 1, ... .
   */
  method TransactionsReply(selected: Option<WalletStore.Wallet>, success: bool, transactions: seq<Pager.Transaction>, fixed: int -> string)
    returns (r: Reply)
    ensures selected.None? ==> r == NoWalletSelected
    ensures selected.Some? && !success ==> r == FetchFailed
    ensures selected.Some? && success && transactions == [] ==> r == NoTransactions
    ensures r.Page? <==> selected.Some? && success && transactions != []
    ensures r.Page? ==>
      |r.entries| == (if |transactions| < Pager.PageSize then |transactions| else Pager.PageSize)
      && forall i :: 0 <= i < |r.entries| ==> r.entries[i] == Pager.Describe(|transactions| - i, transactions[i], fixed)
  {
    if selected.None? {
      return NoWalletSelected;
    }
    if !success {
      return FetchFailed;
    }
    if transactions == [] {
      return NoTransactions;
    }
    var pages := Pager.Paginate(transactions);
    Pager.FirstPage(transactions, fixed);
    r := Page(Pager.MakePage(pages, |transactions|, 0, fixed));
  }

  /**
   * `send`: ask for the selected wallet's password, have the service send,
   * and echo the amount typed with its trailing zeros stripped. `password`
   * is None when no reply came in time; `sent` and `error` are the service's
   * answer.
   */
  function SendReply(selected: Option<WalletStore.Wallet>, amount: string, destination: string,
                     password: Option<string>, sent: bool, error: string): (r: Reply)
    ensures selected.None? ==> r == NoWalletSelected
    ensures selected.Some? && password.None? ==> r == Reply.TimedOut
    ensures selected.Some? && password.Some? && WalletStore.TooLong(password.value) ==> r == Reply.PasswordTooLong
    ensures (selected.Some? && password.Some? && !WalletStore.TooLong(password.value)
             && password.value != selected.value.password) ==> r == Reply.WrongPassword
    ensures (selected.Some? && password == Some(selected.value.password) && !WalletStore.TooLong(password.value)
             && !sent) ==> r == SendFailed(error)
    ensures r.Sent? <==>
      selected.Some? && password == Some(selected.value.password) && !WalletStore.TooLong(selected.value.password) && sent
    ensures r.Sent? ==> r.destination == destination && r.amount <= amount && r.amount == RegexReplace(amount)
  {
    StripIsRegexReplace(amount);
    if selected.None? then NoWalletSelected
    else if password.None? then TimedOut
    else if WalletStore.TooLong(password.value) then PasswordTooLong
    else if password.value != selected.value.password then WrongPassword
    else if !sent then SendFailed(error)
    else Sent(Strip(amount), destination)
  }

  /** A refused transfer reports the service's error; nothing is stored, since `send` only reads. */
  lemma SendRefused(w: WalletStore.Wallet)
    requires !WalletStore.TooLong(w.password)
    ensures SendReply(Some(w), "0.5", "addr1", Some(w.password), false, "insufficient funds")
      == SendFailed("insufficient funds")
  {
  }

  /** Sending "100" is confirmed as "1": the strip also eats an integer's zeros. */
  lemma SendHundred(w: WalletStore.Wallet)
    requires !WalletStore.TooLong(w.password)
    ensures SendReply(Some(w), "100", "addr1", Some(w.password), true, "") == Sent("1", "addr1")
  {
    StripExamples();
  }

  /** A balance of 150 whole coins written with twelve decimals shows as "150". */
  lemma BalanceHundredFifty(w: WalletStore.Wallet)
    ensures BalanceReply(Some(w), true, "150.000000000000") == Balance("150")
  {
    StripExamples();
  }

  /**
   * Once `delete` has removed the selected wallet, every reading command
   * answers that no wallet is selected.
   */
  lemma DanglingPointerSelectsNothing(users: map<WalletStore.UserId, Option<WalletStore.WalletId>>, wallets: map<WalletStore.WalletId, WalletStore.Wallet>,
                                      user: WalletStore.UserId, id: WalletStore.WalletId, balance: string, amount: string, destination: string,
                                      password: Option<string>, sent: bool, error: string)
    requires user in users && users[user] == Some(id)
    ensures var selected := WalletStore.SelectedWallet(users, wallets - {id}, user);
      selected == None
      && BalanceReply(selected, true, balance) == NoWalletSelected
      && ReceiveReply(selected) == NoWalletSelected
      && SendReply(selected, amount, destination, password, sent, error) == NoWalletSelected
  {
  }
}
