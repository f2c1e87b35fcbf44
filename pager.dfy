/**
 * The `transactions` presenter: the loop that splits the fetched list into
 * pages of at most ten, and `makePage`, which numbers the entries of one page
 * counting down from the length of the whole list.
 */
module Pager {
  import ZeroStrip

  const PageSize: nat := 10

  /** The reference paging: full pages of ten, then the rest (one empty page for an empty list). */
  function Pages<T>(s: seq<T>): (pages: seq<seq<T>>)
    ensures |pages| >= 1
    decreases |s|
  {
    if |s| <= PageSize then [s] else [s[..PageSize]] + Pages(s[PageSize..])
  }

  function Flatten<T>(pages: seq<seq<T>>): (s: seq<T>)
  {
    if pages == [] then [] else pages[0] + Flatten(pages[1..])
  }

  /** One step of the loop: push onto the last page, opening a new one when it already holds ten. */
  function PushLast<T>(pages: seq<seq<T>>, x: T): (pushed: seq<seq<T>>)
    requires |pages| >= 1
  {
    var last := pages[|pages| - 1];
    if |last| >= PageSize then pages + [[x]] else pages[..|pages| - 1] + [last + [x]]
  }

  lemma {:induction false} PagesPush<T>(s: seq<T>, x: T)
    ensures Pages(s + [x]) == PushLast(Pages(s), x)
    decreases |s|
  {
    if |s| > PageSize {
      PagesPush(s[PageSize..], x);
      assert (s + [x])[..PageSize] == s[..PageSize];
      assert (s + [x])[PageSize..] == s[PageSize..] + [x];
      var rest := Pages(s[PageSize..]);
      assert Pages(s) == [s[..PageSize]] + rest;
      assert Pages(s)[|Pages(s)| - 1] == rest[|rest| - 1];
      assert Pages(s)[..|Pages(s)| - 1] == [s[..PageSize]] + rest[..|rest| - 1];
    } else if |s| == PageSize {
      assert (s + [x])[..PageSize] == s;
      assert (s + [x])[PageSize..] == [x];
    }
  }

  /** The paging loop, building `pages` by pushing each transaction onto the last page. */
  method Paginate<T>(transactions: seq<T>) returns (pages: seq<seq<T>>)
    ensures pages == Pages(transactions)
  {
    pages := [[]];
    for k := 0 to |transactions|
      invariant pages == Pages(transactions[..k])
    {
      ghost var before := pages;
      var page := pages[|pages| - 1];
      if |page| >= PageSize {
        page := [];
        pages := pages + [page];
        assert pages[..|pages| - 1] == before;
        assert page + [transactions[k]] == [transactions[k]];
      }
      page := page + [transactions[k]];
      pages := pages[|pages| - 1 := page];
      assert pages == pages[..|pages| - 1] + [page];
      assert pages == PushLast(before, transactions[k]);
      PagesPush(transactions[..k], transactions[k]);
      assert transactions[..k + 1] == transactions[..k] + [transactions[k]];
    }
    assert transactions[..|transactions|] == transactions;
  }

  /** Concatenating the pages gives back the list, in order. */
  lemma {:induction false} PagesFlatten<T>(s: seq<T>)
    ensures Flatten(Pages(s)) == s
    decreases |s|
  {
    if |s| > PageSize {
      PagesFlatten(s[PageSize..]);
      var ps := Pages(s);
      assert ps[1..] == Pages(s[PageSize..]);
      assert s[..PageSize] + s[PageSize..] == s;
    } else {
      assert Pages(s)[1..] == [];
    }
  }

  /** Every page but the last holds ten entries; the last holds at most ten, and at least one unless the list is empty. */
  lemma {:induction false} PagesShape<T>(s: seq<T>)
    ensures forall p :: 0 <= p < |Pages(s)| - 1 ==> |Pages(s)[p]| == PageSize
    ensures |Pages(s)[|Pages(s)| - 1]| <= PageSize
    ensures s != [] ==> |Pages(s)[|Pages(s)| - 1]| >= 1
    decreases |s|
  {
    if |s| > PageSize {
      PagesShape(s[PageSize..]);
      var rest := Pages(s[PageSize..]);
      assert Pages(s) == [s[..PageSize]] + rest;
      assert forall p :: 1 <= p < |Pages(s)| ==> Pages(s)[p] == rest[p - 1];
    }
  }

  /** A non-empty list of n transactions gives ceil(n / 10) pages. */
  lemma {:induction false} PagesCount<T>(s: seq<T>)
    requires s != []
    ensures |Pages(s)| == (|s| + PageSize - 1) / PageSize
    decreases |s|
  {
    if |s| > PageSize {
      PagesCount(s[PageSize..]);
    }
  }

  /** Entry i of page p is transaction 10 * p + i of the list. */
  lemma {:induction false} PagesAt<T>(s: seq<T>, p: nat, i: nat)
    requires p < |Pages(s)| && i < |Pages(s)[p]|
    ensures PageSize * p + i < |s|
    ensures Pages(s)[p][i] == s[PageSize * p + i]
    decreases p
  {
    if p > 0 {
      assert |s| > PageSize;
      assert Pages(s)[p] == Pages(s[PageSize..])[p - 1];
      PagesAt(s[PageSize..], p - 1, i);
    }
  }

  /** A transaction as the wallet service reports it; `kind` is "send" for outgoing ones. */
  datatype Transaction = Transaction(timestamp: int, kind: string, amount: int, destination: string, sender: string)

  datatype Direction = Sent | Received

  datatype Counterparty = To(address: string) | From(address: string)

  /**
   * One displayed entry: its number, the timestamp, Sent or Received, the
   * amount text, and the destination of a send or the sender of a receipt.
   */
  datatype Entry = Entry(number: int, timestamp: int, direction: Direction, amount: string, counterparty: Counterparty)

  /**
   * `fixed` stands for the floating-point scaling by the fork's precision and
   * `toFixed`, which are not modelled; the strip after it is.
   */
  function Describe(number: int, t: Transaction, fixed: int -> string): (e: Entry)
    ensures e.number == number && e.timestamp == t.timestamp
    ensures e.direction == Sent <==> t.kind == "send"
    ensures e.counterparty == if t.kind == "send" then To(t.destination) else From(t.sender)
    ensures e.amount <= fixed(t.amount) && e.amount == ZeroStrip.RegexReplace(fixed(t.amount))
  {
    ZeroStrip.StripIsRegexReplace(fixed(t.amount));
    var amount := ZeroStrip.Strip(fixed(t.amount));
    if t.kind == "send" then Entry(number, t.timestamp, Sent, amount, To(t.destination))
    else Entry(number, t.timestamp, Received, amount, From(t.sender))
  }

  /** `makePage(page)`: the entries of one page, numbered `total - (page * 10 + i)`. */
  function MakePage(pages: seq<seq<Transaction>>, total: int, page: nat, fixed: int -> string): (entries: seq<Entry>)
    requires page < |pages|
    ensures |entries| == |pages[page]|
  {
    seq(|pages[page]|, i requires 0 <= i < |pages[page]| =>
      Describe(total - (page * PageSize + i), pages[page][i], fixed))
  }

  /**
   * On the pages of a list of n transactions, entry i of page p is numbered
   * n - (10 * p + i), describes transaction 10 * p + i, and the numbers lie in
   * 1..n and strictly decrease down the page.
   */
  lemma EntryLabels(s: seq<Transaction>, p: nat, fixed: int -> string)
    requires p < |Pages(s)|
    ensures var entries := MakePage(Pages(s), |s|, p, fixed);
      (forall i :: 0 <= i < |entries| ==>
        entries[i].number == |s| - (PageSize * p + i)
        && 1 <= entries[i].number <= |s|
        && entries[i] == Describe(entries[i].number, s[PageSize * p + i], fixed))
      && (forall i, j :: 0 <= i < j < |entries| ==> entries[i].number > entries[j].number)
  {
    var entries := MakePage(Pages(s), |s|, p, fixed);
    forall i | 0 <= i < |entries|
      ensures entries[i].number == |s| - (PageSize * p + i)
      ensures 1 <= entries[i].number <= |s|
      ensures entries[i] == Describe(entries[i].number, s[PageSize * p + i], fixed)
    {
      PagesAt(s, p, i);
    }
  }

  /**
   * The page the bot shows, page 0, lists the first min(n, 10) transactions
   * numbered n, n - 1, ... .
   */
  lemma FirstPage(s: seq<Transaction>, fixed: int -> string)
    requires s != []
    ensures var entries := MakePage(Pages(s), |s|, 0, fixed);
      |entries| == (if |s| < PageSize then |s| else PageSize)
      && forall i :: 0 <= i < |entries| ==>
        entries[i] == Describe(|s| - i, s[i], fixed)
  {
    EntryLabels(s, 0, fixed);
  }

  /** Twenty-three transactions: pages of 10, 10 and 3; page 0 numbered 23 down to 14, page 2 from 3 down to 1. */
  lemma TwentyThree(s: seq<Transaction>, fixed: int -> string)
    requires |s| == 23
    ensures |Pages(s)| == 3
    ensures |Pages(s)[0]| == 10 && |Pages(s)[1]| == 10 && |Pages(s)[2]| == 3
    ensures var first := MakePage(Pages(s), |s|, 0, fixed);
      first[0].number == 23 && first[9].number == 14
    ensures var last := MakePage(Pages(s), |s|, 2, fixed);
      last[0].number == 3 && last[2].number == 1
  {
    PagesCount(s);
    PagesShape(s);
    assert Pages(s)[2] == Pages(s[PageSize..])[1] == s[PageSize..][PageSize..];
  }
}
