/**
 * The `users` and `wallets` tables and the store effects of the `create`,
 * `recover`, `delete` and `wallet` commands.
 *
 * A command's conversation (the private-message replies, the button and the
 * select menu) and its calls to the wallet service are parameters: a reply
 * that did not come within the timeout is `None`, and each service reply is
 * its `success` flag with the values it carries.
 */
module WalletStore {
  import opened Wrappers

  /** The chat platform's user id (the `users` primary key). */
  type UserId = string

  /** The auto-increment `wallets.id`. */
  type WalletId = nat

  /** The longest wallet name and password the commands accept. */
  const MaxLength: nat := 64

  /** JavaScript's `length`: UTF-16 code units, two for a character outside the Basic Multilingual Plane. */
  function Utf16Length(s: string): (n: nat)
    ensures |s| <= n <= 2 * |s|
  {
    if s == [] then 0 else (if s[0] as int > 0xFFFF then 2 else 1) + Utf16Length(s[1..])
  }

  /** The 64-character guard, in UTF-16 code units: more than 64 characters always fails it, at most 32 never do. */
  predicate TooLong(s: string)
    ensures |s| > MaxLength ==> TooLong(s)
    ensures 2 * |s| <= MaxLength ==> !TooLong(s)
  {
    Utf16Length(s) > MaxLength
  }

  /** A `wallets` row; the password is stored as typed. */
  datatype Wallet = Wallet(user: UserId, name: string, address: string, privateKey: string, publicKey: string, password: string)

  /** What the wallet service answers to `/keygen` and `/recover`: a flag and a key pair (`/keygen` also sends the phrase). */
  datatype Keys = Keys(success: bool, privateKey: string, publicKey: string)

  /** What the wallet service answers to `/wallet`. */
  datatype Address = Address(success: bool, address: string)

  /** How a store command ends. */
  datatype Outcome =
    | NameTooLong | NameTaken | NoSuchWallet | NoWallets
    | TimedOut | PasswordTooLong | WrongPassword
    | KeysFailed | AddressFailed | NotASelection
    | Added(id: WalletId) | Deleted(id: WalletId) | Selected(id: WalletId)

  /** Some wallet of `user` is called `name` (the `COUNT(*)` and `SELECT` by user and name). */
  predicate HasName(wallets: map<WalletId, Wallet>, user: UserId, name: string)
    ensures HasName(wallets, user, name) ==> OwnsAny(wallets, user)
  {
    exists id :: id in wallets && wallets[id].user == user && wallets[id].name == name
  }

  /** The id of that wallet: the only one, while names are unique per user. */
  ghost function NamedId(wallets: map<WalletId, Wallet>, user: UserId, name: string): (id: WalletId)
    requires HasName(wallets, user, name)
    ensures id in wallets && wallets[id].user == user && wallets[id].name == name
    ensures NamesUnique(wallets) ==>
      forall j :: j in wallets && wallets[j].user == user && wallets[j].name == name ==> j == id
  {
    var id :| id in wallets && wallets[id].user == user && wallets[id].name == name; id
  }

  /** `user` owns at least one wallet. */
  predicate OwnsAny(wallets: map<WalletId, Wallet>, user: UserId)
  {
    exists id :: id in wallets && wallets[id].user == user
  }

  /** No user has two wallets with the same name. */
  ghost predicate NamesUnique(wallets: map<WalletId, Wallet>)
  {
    forall i, j :: i in wallets && j in wallets && i != j && wallets[i].user == wallets[j].user ==>
      wallets[i].name != wallets[j].name
  }

  /** Every wallet id in use, and every id a user points to, was handed out before `next`. */
  ghost predicate IdsBelow(users: map<UserId, Option<WalletId>>, wallets: map<WalletId, Wallet>, next: nat)
  {
    (forall id :: id in wallets ==> id < next)
    && (forall u :: u in users && users[u].Some? ==> users[u].value < next)
  }

  /** A user's pointer, when it leads to a wallet, leads to one of that user's wallets. */
  ghost predicate PointersOwned(users: map<UserId, Option<WalletId>>, wallets: map<WalletId, Wallet>)
  {
    forall u :: u in users && users[u].Some? && users[u].value in wallets ==> wallets[users[u].value].user == u
  }

  /** Adding a wallet under a name its owner does not use keeps names unique. */
  lemma AddKeepsNamesUnique(wallets: map<WalletId, Wallet>, id: WalletId, w: Wallet)
    requires NamesUnique(wallets) && id !in wallets && !HasName(wallets, w.user, w.name)
    ensures NamesUnique(wallets[id := w])
  {
    var after := wallets[id := w];
    forall i, j | i in after && j in after && i != j && after[i].user == after[j].user
      ensures after[i].name != after[j].name
    {
      if i == id {
        assert j in wallets && wallets[j] == after[j];
      } else if j == id {
        assert i in wallets && wallets[i] == after[i];
      }
    }
  }

  /** `ensureUser`: the user table after inserting a row for `user` only if it has none. */
  function EnsuredUsers(users: map<UserId, Option<WalletId>>, user: UserId): (r: map<UserId, Option<WalletId>>)
    ensures r.Keys == users.Keys + {user}
    ensures forall u :: u in users ==> r[u] == users[u]
    ensures user !in users ==> r[user] == None
  {
    if user in users then users else users[user := None]
  }

  /** Ensuring a user twice gives the table ensuring it once gives. */
  lemma EnsureUserIdempotent(users: map<UserId, Option<WalletId>>, user: UserId)
    ensures EnsuredUsers(EnsuredUsers(users, user), user) == EnsuredUsers(users, user)
  {
  }

  /**
   * The wallet `balance`, `receive`, `transactions` and `send` work on: the row
   * whose id is the user's `wallet` column, if the user row, the pointer and
   * that row all exist.
   */
  function SelectedWallet(users: map<UserId, Option<WalletId>>, wallets: map<WalletId, Wallet>, user: UserId): (r: Option<Wallet>)
    ensures r.Some? ==> r.value in wallets.Values
    ensures PointersOwned(users, wallets) ==> r.Some? ==> r.value.user == user
    ensures user in users && users[user].Some? && users[user].value in wallets ==> r == Some(wallets[users[user].value])
    ensures user in users && users[user].Some? && users[user].value !in wallets ==> r == None
    ensures user !in users || users[user].None? ==> r == None
  {
    if user in users && users[user].Some? && users[user].value in wallets then Some(wallets[users[user].value]) else None
  }

  /**
   * The first guard of `create` or `recover` that fails, in the order the
   * commands run them, or None when all pass. `password` is None when a reply
   * the command waited for did not arrive.
   */
  function AddRejection(taken: bool, name: string, password: Option<string>, keysOk: bool, addressOk: bool): (r: Option<Outcome>)
    ensures r == None <==>
      !TooLong(name) && !taken && password.Some? && !TooLong(password.value) && keysOk && addressOk
    ensures TooLong(name) ==> r == Some(NameTooLong)
    ensures r.Some? ==> !r.value.Added?
  {
    if TooLong(name) then Some(NameTooLong)
    else if taken then Some(NameTaken)
    else if password.None? then Some(TimedOut)
    else if TooLong(password.value) then Some(PasswordTooLong)
    else if !keysOk then Some(KeysFailed)
    else if !addressOk then Some(AddressFailed)
    else None
  }

  class Store {
    var users: map<UserId, Option<WalletId>>
    var wallets: map<WalletId, Wallet>
    /** The `AUTO_INCREMENT` counter of `wallets`. */
    var nextId: nat

    /** The store's invariant; under it, the wallet a user has selected is always one of their own. */
    ghost predicate Valid()
      reads this
      ensures Valid() ==> forall u :: SelectedWallet(users, wallets, u).Some? ==> SelectedWallet(users, wallets, u).value.user == u
    {
      IdsBelow(users, wallets, nextId) && PointersOwned(users, wallets) && NamesUnique(wallets)
    }

    constructor ()
      ensures Valid()
      ensures users == map[] && wallets == map[] && nextId == 1
    {
      users, wallets, nextId := map[], map[], 1;
    }

    /** `ensureUser(id)`: insert a user row with no wallet, unless there is one. */
    method EnsureUser(user: UserId)
      requires Valid()
      modifies this
      ensures Valid()
      ensures users == EnsuredUsers(old(users), user)
      ensures wallets == old(wallets) && nextId == old(nextId)
    {
      if user !in users {
        users := users[user := None];
      }
    }

    /** The common tail of `create` and `recover`: insert the row, ensure the user, point the user at it. */
    method AddAndSelect(w: Wallet) returns (id: WalletId)
      requires Valid()
      requires !HasName(wallets, w.user, w.name)
      modifies this
      ensures Valid()
      ensures id == old(nextId) && id !in old(wallets)
      ensures wallets == old(wallets)[id := w]
      ensures users == old(users)[w.user := Some(id)]
      ensures nextId == old(nextId) + 1
    {
      AddKeepsNamesUnique(wallets, nextId, w);
      id := nextId;
      wallets := wallets[id := w];
      nextId := nextId + 1;
      EnsureUser(w.user);
      users := users[w.user := Some(id)];
    }

    /**
     * `create`: check the name, ask for a password, generate a key pair, ask
     * the service for an address, then store the wallet and select it.
     */
    method Create(user: UserId, name: string, password: Option<string>, keygen: Keys, created: Address)
      returns (outcome: Outcome)
      requires Valid()
      modifies this
      ensures Valid()
      ensures var rejected := AddRejection(old(HasName(wallets, user, name)), name, password, keygen.success, created.success);
        if rejected.Some? then
          outcome == rejected.value
          && wallets == old(wallets) && users == old(users) && nextId == old(nextId)
        else
          outcome == Added(old(nextId)) && outcome.id !in old(wallets)
          && wallets == old(wallets)[outcome.id := Wallet(user, name, created.address, keygen.privateKey, keygen.publicKey, password.value)]
          && users == old(users)[user := Some(outcome.id)]
          && nextId == old(nextId) + 1
    {
      if TooLong(name) {
        return NameTooLong;
      }
      if HasName(wallets, user, name) {
        return NameTaken;
      }
      if password.None? {
        return TimedOut;
      }
      if TooLong(password.value) {
        return PasswordTooLong;
      }
      if !keygen.success {
        return KeysFailed;
      }
      if !created.success {
        return AddressFailed;
      }
      var id := AddAndSelect(Wallet(user, name, created.address, keygen.privateKey, keygen.publicKey, password.value));
      outcome := Added(id);
    }

    /**
     * `recover`: check the name, ask for the phrase and then a password,
     * recover the key pair, ask the service for an address, then store the
     * wallet and select it. The phrase itself goes only to the service.
     */
    method Recover(user: UserId, name: string, phrase: Option<string>, password: Option<string>, recovered: Keys, created: Address)
      returns (outcome: Outcome)
      requires Valid()
      modifies this
      ensures Valid()
      ensures var replied := if phrase.None? then None else password;
        var rejected := AddRejection(old(HasName(wallets, user, name)), name, replied, recovered.success, created.success);
        if rejected.Some? then
          outcome == rejected.value
          && wallets == old(wallets) && users == old(users) && nextId == old(nextId)
        else
          outcome == Added(old(nextId)) && outcome.id !in old(wallets)
          && wallets == old(wallets)[outcome.id := Wallet(user, name, created.address, recovered.privateKey, recovered.publicKey, password.value)]
          && users == old(users)[user := Some(outcome.id)]
          && nextId == old(nextId) + 1
    {
      if TooLong(name) {
        return NameTooLong;
      }
      if HasName(wallets, user, name) {
        return NameTaken;
      }
      if phrase.None? || password.None? {
        return TimedOut;
      }
      if TooLong(password.value) {
        return PasswordTooLong;
      }
      if !recovered.success {
        return KeysFailed;
      }
      if !created.success {
        return AddressFailed;
      }
      var id := AddAndSelect(Wallet(user, name, created.address, recovered.privateKey, recovered.publicKey, password.value));
      outcome := Added(id);
    }

    /**
     * `delete`: find the user's wallet by name, ask for its password, and
     * delete that row only. The users table is left alone, so a user whose
     * pointer named the deleted wallet now has no wallet selected.
     */
    method Delete(user: UserId, name: string, password: Option<string>) returns (outcome: Outcome)
      requires Valid()
      modifies this
      ensures Valid()
      ensures TooLong(name) ==> outcome == NameTooLong
      ensures !TooLong(name) && !old(HasName(wallets, user, name)) ==> outcome == NoSuchWallet
      ensures !TooLong(name) && old(HasName(wallets, user, name)) && password.None? ==> outcome == TimedOut
      ensures !TooLong(name) && old(HasName(wallets, user, name)) && password.Some? && TooLong(password.value) ==>
        outcome == PasswordTooLong
      ensures (!TooLong(name) && old(HasName(wallets, user, name)) && password.Some? && !TooLong(password.value)
               && password.value != old(wallets[NamedId(wallets, user, name)].password)) ==> outcome == WrongPassword
      ensures outcome.Deleted? <==>
        !TooLong(name) && old(HasName(wallets, user, name))
        && password.Some? && !TooLong(password.value)
        && password.value == old(wallets[NamedId(wallets, user, name)].password)
      ensures outcome.Deleted? ==>
        outcome.id == old(NamedId(wallets, user, name))
        && wallets == old(wallets) - {outcome.id}
        && forall u :: u in users && users[u] == Some(outcome.id) ==> SelectedWallet(users, wallets, u) == None
      ensures !outcome.Deleted? ==> wallets == old(wallets)
      ensures users == old(users) && nextId == old(nextId)
    {
      if TooLong(name) {
        return NameTooLong;
      }
      if !HasName(wallets, user, name) {
        return NoSuchWallet;
      }
      var id :| id in wallets && wallets[id].user == user && wallets[id].name == name;
      assert id == NamedId(wallets, user, name);
      var wallet := wallets[id];
      if password.None? {
        return TimedOut;
      }
      if TooLong(password.value) {
        return PasswordTooLong;
      }
      if password.value != wallet.password {
        return WrongPassword;
      }
      wallets := wallets - {id};
      outcome := Deleted(id);
    }

    /**
     * `wallet`: refuse a user with no user row or no wallets; otherwise take
     * the name picked from the menu (None when the answer is not a menu
     * choice) and point the user at their wallet of that name. A name that no
     * longer matches a wallet makes the lookup fail and nothing changes.
     */
    method Select(user: UserId, choice: Option<string>) returns (outcome: Outcome)
      requires Valid()
      modifies this
      ensures Valid()
      ensures user !in old(users) || !OwnsAny(old(wallets), user) ==> outcome == NoWallets
      ensures user in old(users) && OwnsAny(old(wallets), user) && choice.None? ==> outcome == NotASelection
      ensures user in old(users) && OwnsAny(old(wallets), user) && choice.Some? && !old(HasName(wallets, user, choice.value)) ==>
        outcome == NoSuchWallet
      ensures outcome.Selected? <==>
        user in old(users) && OwnsAny(old(wallets), user) && choice.Some? && old(HasName(wallets, user, choice.value))
      ensures outcome.Selected? ==>
        outcome.id == old(NamedId(wallets, user, choice.value))
        && users == old(users)[user := Some(outcome.id)]
      ensures !outcome.Selected? ==> users == old(users)
      ensures wallets == old(wallets) && nextId == old(nextId)
    {
      if user !in users || !OwnsAny(wallets, user) {
        return NoWallets;
      }
      if choice.None? {
        return NotASelection;
      }
      if !HasName(wallets, user, choice.value) {
        return NoSuchWallet;
      }
      var id :| id in wallets && wallets[id].user == user && wallets[id].name == choice.value;
      assert id == NamedId(wallets, user, choice.value);
      users := users[user := Some(id)];
      outcome := Selected(id);
    }
  }
}
