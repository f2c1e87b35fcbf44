# Arbor wallet chat bot: a verified model of its store, pager and amount strip

The bot lets a chat user create, recover, delete and select cryptocurrency
wallets. It also shows balances and transaction history and sends funds. The
key work is done by a remote wallet service, and wallets are kept in two SQL
tables. This project models the parts of `src/index.ts` that hold logic of
their own:

- **`wallet_store.dfy`, module `WalletStore`.** The `users` table
  (user id to an optional selected-wallet id), the `wallets` table (id to row)
  and the auto-increment counter, held in class `Store`.
  - `ensureUser` and the store effects of `create`, `recover`, `delete` and
    `wallet` are methods of `Store`.
  - Each method applies the guards the code applies, in the code's order, before any
    change. Names and passwords longer than 64 UTF-16 code units are refused, as is a
    name the user already has, a reply that timed out, a wrong password and a
    `success: false` from the service.
  - The object invariant `Valid` says three things. The ids in use are below the
    counter. A user's pointer, when it leads to a row, leads to that user's own wallet.
    No user has two wallets with the same name.
  - `SelectedWallet` is the lookup through `users.wallet` that
    `balance`, `receive`, `transactions` and `send` start from.
- **`pager.dfy`, module `Pager`.** The loop that splits the transaction
  list into pages of ten (`Paginate`, a method proved equal to the reference
  `Pages`), and `makePage`, which numbers the entries counting down from the list's length.
- **`zero_strip.dfy`, module `ZeroStrip`.** `s.replace(/\.?0+$/, '')`.
  `Strip` removes the maximal trailing run of `'0'` and one `'.'` just before it.
  `RegexReplace` follows the regular-expression engine instead: it tries each start
  position from the left and cuts at the first match. `StripIsRegexReplace` proves
  the two always agree.
- **`commands.dfy`, module `Commands`.** The answers of the commands that
  only read the store: `balance`, `receive`, `transactions` and `send`. These are built
  from the selected wallet, the strip and the pager.
- **`wrappers.dfy`, module `Wrappers`.** `Option`.

The strip is modelled as written. It also removes the zeros of an integer, so a
`send` of `"100"` is confirmed as `"1"` (`SendHundred`). Two further facts follow
from the code. The result can end in `'0'` when a `'.'` was removed: `"0.0"`
becomes `"0"`. Stripping is then not idempotent, since `"0"` becomes `""`
(`StripNotIdempotent`). `StripEndsInZero` and `StripIdempotentWhen` give the exact
conditions under which each of these happens.

A user's `wallet` column need not name one of that user's wallets: `delete`
removes the row and leaves the pointer alone, so the pointer can dangle. A
dangling pointer reads as "no wallet selected". The model follows the code
(`Store.Delete`, `DanglingPointerSelectsNothing`). It keeps the weaker invariant
that a pointer leading to a row leads to one of the user's own wallets. That
invariant rests on the assumption that ids are never reused.

## Model

| member | source | states |
|---|---|---|
| `ZeroStrip.TrailingZeros` | src/index.ts:467 | the length of the maximal run of `'0'` ending the string: all of it is `'0'` and the character before it is not |
| `ZeroStrip.Strip` | src/index.ts:467 | the strip as written: a prefix of the input, equal to it exactly when the input does not end in `'0'` |
| `ZeroStrip.RegexReplace` | src/index.ts:467 | the regular-expression reading of the replacement: cut at the leftmost position from which `\.?0+$` matches; always a prefix of the input |
| `ZeroStrip.StripIsRegexReplace` | src/index.ts:467 | on every string, the strip equals replacing the leftmost match of `\.?0+$` (found by scanning start positions from the left) with nothing |
| `ZeroStrip.StripShape` | src/index.ts:467 | the result is a prefix of the input; it is the input itself when there are no trailing zeros, otherwise the input minus its trailing zeros, or minus them and one `'.'` |
| `ZeroStrip.StripEndsInZero` | src/index.ts:467 | the result ends in `'0'` exactly when a `'.'` was removed and the character before it is `'0'` |
| `ZeroStrip.StripIdempotentWhen` | src/index.ts:467 | stripping the result again changes it exactly when the result ends in `'0'` |
| `ZeroStrip.StripNotIdempotent` | src/index.ts:467 | `"0.0"` strips to `"0"`, which strips to `""` |
| `ZeroStrip.StripKeepsIntegerPart` | src/index.ts:462-467 | for `whole + "." + fraction`, the part before the `'.'` always survives |
| `ZeroStrip.StripInteger` | src/index.ts:642-645 | in a string with no `'.'`, every trailing zero is removed, integer digits included |
| `ZeroStrip.StripExamples` | src/index.ts:642-645 | `"150.000"` and `"150.000000000000"` give `"150"`, `"100"` gives `"1"`, `"0.500"` gives `"0.5"` |
| `Pager.Paginate` | src/index.ts:535-543 | the loop that pushes each transaction onto the last page, opening a new page when that one holds ten, returns exactly `Pages(transactions)` (one empty page for an empty list) |
| `Pager.Pages` | src/index.ts:535-543 | the reference paging, full pages of ten then the rest; never fewer than one page |
| `Pager.PagesPush` | src/index.ts:536-543 | paging a list with one more item is one loop step applied to the pages of the list |
| `Pager.PagesFlatten` | src/index.ts:535-543 | concatenating the pages gives back the list in its original order |
| `Pager.PagesShape` | src/index.ts:535-543 | every page but the last holds exactly 10 entries; the last holds at most 10, and at least 1 when the list is not empty |
| `Pager.PagesCount` | src/index.ts:529-543 | a non-empty list of n transactions gives ceil(n / 10) pages |
| `Pager.PagesAt` | src/index.ts:545-550 | entry i of page p is transaction 10p + i of the list |
| `Pager.MakePage` | src/index.ts:545-568 | a page renders one entry per transaction on it |
| `Pager.Describe` | src/index.ts:549-564 | one entry: its number and timestamp, Sent exactly when the type is `send`, the destination of a send or the sender otherwise, and the regex strip of the formatted amount |
| `Pager.EntryLabels` | src/index.ts:545-568 | on page p of a list of n, entry i is numbered n - (10p + i) and describes transaction 10p + i; the numbers lie in 1..n and strictly decrease |
| `Pager.FirstPage` | src/index.ts:544-569 | the page shown, page 0, holds min(n, 10) entries; entry i is numbered n - i and describes transaction i |
| `Pager.TwentyThree` | src/index.ts:535-568 | 23 transactions give pages of 10, 10 and 3; page 0 is numbered 23 down to 14, page 2 from 3 down to 1 |
| `WalletStore.Utf16Length` | src/index.ts:53 | the JavaScript `length` used by the 64-character guards lies between the character count and twice it |
| `WalletStore.TooLong` | src/index.ts:53 | the 64-code-unit guard: more than 64 characters always fail it, at most 32 never do |
| `WalletStore.NamedId` | src/index.ts:177-180 | the row the lookup by user and name finds is that user's wallet of that name, and while names are unique per user it is the only such row |
| `WalletStore.HasName` | src/index.ts:58-63 | some wallet of the user carries the name (the `COUNT(*) > 0` check); a user with such a name owns a wallet |
| `WalletStore.AddKeepsNamesUnique` | src/index.ts:58-67 | inserting a wallet whose name its owner does not already use keeps per-user names unique |
| `WalletStore.EnsuredUsers` | src/index.ts:31-39 | after ensuring a user the table has exactly one more key at most: the user; existing rows and their `wallet` pointers are untouched and a new row has no wallet |
| `WalletStore.EnsureUserIdempotent` | src/index.ts:31-39 | ensuring a user twice leaves the same table as ensuring them once |
| `WalletStore.SelectedWallet` | src/index.ts:435-443 | the lookup returns exactly the row the user's `wallet` column names when that row exists, and nothing when the user row is missing, the column is NULL or the pointer dangles; under owned pointers the row is the user's own |
| `WalletStore.AddRejection` | src/index.ts:52-121 | `create`/`recover` pass all guards exactly when the name is at most 64, not taken, the reply came, the password is at most 64 and both service flags are true; a long name is always rejected first |
| `WalletStore.Store.Valid` | src/index.ts:143-158 | the ids in use and pointed to are below the counter, pointers that lead to rows lead to the user's own, names are unique per user; so a selected wallet is always the user's own |
| `WalletStore.Store.constructor` | src/database.ts:6-13 | the database the pool connects to, taken as an assumed empty schema: no `users` or `wallets` rows and `AUTO_INCREMENT` at 1, a state satisfying the invariant (the cited lines only configure the pool) |
| `WalletStore.Store.EnsureUser` | src/index.ts:31-39 | the user table becomes `EnsuredUsers` of the old one; wallets and the counter are unchanged; the invariant is kept |
| `WalletStore.Store.AddAndSelect` | src/index.ts:143-158 | exactly one row is added, under the next auto-increment id, and the owner's pointer is set to that id |
| `WalletStore.Store.Create` | src/index.ts:45-163 | a rejected `create` changes nothing and reports the first failed guard; otherwise one row with the user, name, address, keys and password is added under a fresh id and selected |
| `WalletStore.Store.Recover` | src/index.ts:221-337 | like `create`, with the phrase reply as an extra wait before the password |
| `WalletStore.Store.Delete` | src/index.ts:164-220 | each failed guard gives its own outcome, in the code's order (name over 64, no such wallet, timeout, password over 64, wrong password) and removes nothing; it deletes exactly when all pass, removing only that id, leaving `users` unchanged so pointers to it select nothing |
| `WalletStore.Store.Select` | src/index.ts:338-427 | refuses a user with no user row or no wallets, an answer that is not a menu choice, and a chosen name with no wallet; otherwise points the user at their wallet of that name; nothing else changes |
| `Commands.BalanceReply` | src/index.ts:428-470 | no selected wallet gives "no wallet selected", a failed fetch gives the fetch failure, and otherwise the balance shown is the regex strip of the fixed-point text, a prefix of it |
| `Commands.ReceiveReply` | src/index.ts:471-491 | the selected wallet's address, or "no wallet selected" |
| `Commands.TransactionsReply` | src/index.ts:492-571 | a page is shown exactly when a wallet is selected, the fetch succeeded and the list is not empty; it holds min(n, 10) entries, entry i numbered n - i describing transaction i |
| `Commands.SendReply` | src/index.ts:572-648 | each failed guard gives its own reply, in the code's order: no wallet, timeout, password over 64, wrong password, then the service's refusal with its error; the transfer is confirmed exactly when the password matches and is at most 64 and the service succeeds, echoing the regex strip of the amount |
| `Commands.SendRefused` | src/index.ts:619-640 | with the right password and the service refusing with "insufficient funds", the reply carries that error |
| `Commands.SendHundred` | src/index.ts:641-646 | a confirmed send of `"100"` echoes `"1"` |
| `Commands.BalanceHundredFifty` | src/index.ts:461-467 | a balance written `"150.000000000000"` is shown as `"150"` |
| `Commands.DanglingPointerSelectsNothing` | src/index.ts:435-443 | after the selected wallet is deleted, `balance`, `receive` and `send` all answer "no wallet selected" |

## Left out

- The chat client is not modelled. This covers presence, opening the private channel, the check that the command runs there, the questions, replies and edits, the recovery-phrase message and its Delete button, and the select menu. It is event-driven I/O. A reply that does not come within the 120-second timeout is a `None` parameter and ends the command with no change.
- The `create` flow waits with no timeout for the Delete button on the phrase message. A button never pressed means the wallet is never stored. The model only covers a press.
- The HTTP calls to the wallet service are not modelled; they are foreign calls. Their answers (success flag, keys, address, balance, transactions, send error) are parameters. The recovery phrase is passed on to the service only, so it is not stored.
- Floating-point amount scaling is not modelled. This covers `balance * 10 ** -precision` with `toFixed` and `transaction.amount * 10 ** -precision` with `toFixed`: both are a given string, or the function parameter `fixed`. It also covers `+amount * 10 ** 12` in `send`. Only the strip applied afterwards is modelled.
- The entry's markdown text and the `join('\n\n')` are not modelled. An entry is a record of its number, timestamp, direction, stripped amount and counterparty, which leaves the text's layout out.
- Names are compared by exact equality, and `users.wallet` is taken to have no foreign-key action. Both are assumptions about a schema the code does not contain. Under a case-insensitive or trailing-space-ignoring column collation, as MySQL's defaults are, the `name = ?` checks and lookups would treat more names as equal than the model does. A foreign key on `users.wallet` would clear or block the dangling pointer that `delete` leaves.
- SQL text, the driver and the pool configuration in `src/database.ts` are not modelled. The tables are maps. The initial state is an assumed empty schema with `AUTO_INCREMENT` at 1; no code creates the tables.
- Ids are never reused: the counter only grows. This is an assumption about the schema and the database engine, not something the code guarantees. InnoDB before MySQL 8.0 re-seeds `AUTO_INCREMENT` to MAX(id)+1 at restart. A user could delete their highest-id wallet, leaving their pointer dangling. After a restart, another user's new wallet could receive the same id. The first user's `balance`, `receive`, `transactions` and `send` would then read the other user's wallet, and `PointersOwned` would fail in the program.
- The top-level `catch` that logs and replies is not modelled. A lookup that finds no row in the `wallet` command, where the code would throw, ends with `NoSuchWallet` and no change.
- Commands run one at a time in the model. In the code, two concurrent `create` or `recover` commands for the same user and name can both pass the uniqueness check during their waits and both insert, and the steps between the insert and the pointer update are not atomic. Neither the interleaving nor a crash between statements is modelled.
- ZeroStrip.StripIdempotentWhen: "stripping twice equals stripping once" and "the result never ends in '0'" do not hold for every string. `"0.0"` is a counterexample (`StripNotIdempotent`). They are proved under their exact conditions instead.
