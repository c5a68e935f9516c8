/** The stored transactions of the account, their total, and the filter of the
    transaction list. */
module Ledger {
  import opened Wrappers
  import opened Text
  import opened Numbers
  import opened Sequences

  /** A stored transaction; dates are day numbers and the amount is an exact decimal. */
  datatype Transaction = Transaction(
    id: string,
    accountingDate: int,
    currencyDate: int,
    name: string,
    kind: string,
    amount: Decimal,
    details: string,
    category: string)

  /** `txs.reduce((total, tx) => total + tx.amount, 0)` */
  function Total(txs: seq<Transaction>): real
    decreases |txs|
  {
    if txs == [] then 0.0 else Total(txs[..|txs| - 1]) + Value(txs[|txs| - 1].amount)
  }

  /** The total of two lists one after the other is the sum of their totals. */
  lemma {:induction false} TotalAppend(a: seq<Transaction>, b: seq<Transaction>)
    ensures Total(a + b) == Total(a) + Total(b)
    decreases |b|
  {
    if b == [] {
      assert a + b == a;
    } else {
      assert (a + b)[..|a + b| - 1] == a + b[..|b| - 1];
      TotalAppend(a, b[..|b| - 1]);
    }
  }

  lemma TotalOne(t: Transaction)
    ensures Total([t]) == Value(t.amount)
  {
    assert [t][..0] == [];
  }

  /** Removing the entry at `i` takes exactly its amount off the total. */
  lemma TotalRemove(txs: seq<Transaction>, i: nat)
    requires i < |txs|
    ensures Total(txs[..i] + txs[i + 1..]) == Total(txs) - Value(txs[i].amount)
  {
    var upto, post := txs[..i + 1], txs[i + 1..];
    assert upto + post == txs;
    assert upto[..|upto| - 1] == txs[..i];
    TotalAppend(upto, post);
    TotalAppend(txs[..i], post);
  }

  /** Replacing the entry at `i` changes the total by the change of its amount. */
  lemma TotalUpdate(txs: seq<Transaction>, i: nat, t: Transaction)
    requires i < |txs|
    ensures Total(txs[i := t]) == Total(txs) + (Value(t.amount) - Value(txs[i].amount))
  {
    var u := txs[i := t];
    assert u[..i + 1] + u[i + 1..] == u && txs[..i + 1] + txs[i + 1..] == txs;
    assert u[i + 1..] == txs[i + 1..];
    assert u[..i + 1][..i] == txs[..i] == txs[..i + 1][..i];
    TotalAppend(u[..i + 1], u[i + 1..]);
    TotalAppend(txs[..i + 1], txs[i + 1..]);
  }

  /** `txs.findIndex(t => t.id === id)`; `None` is -1. */
  function FindId(txs: seq<Transaction>, id: string): (r: Option<nat>)
    ensures r.Some? ==> r.value < |txs| && txs[r.value].id == id
    ensures r.Some? ==> forall j :: 0 <= j < r.value ==> txs[j].id != id
    ensures r.None? ==> forall j :: 0 <= j < |txs| ==> txs[j].id != id
  {
    if txs == [] then None
    else if txs[0].id == id then Some(0)
    else
      match FindId(txs[1..], id)
      case None => None
      case Some(k) => Some(k + 1)
  }

  /** `tx.amount.toString().replace('.', ',')`: the amount as the search sees it. */
  function AmountSearchText(d: Decimal): string {
    ReplaceFirst(DecimalText(d), '.', ',')
  }

  /** The list filter: the lower-cased query occurs in the lower-cased name or in the
      amount text, and the tab is `all`, or `incomes` with a positive amount, or
      `expenses` with a negative one. */
  predicate Shown(tx: Transaction, query: string, tab: string) {
    var q := Lower(query);
    (Contains(Lower(tx.name), q) || Contains(AmountSearchText(tx.amount), q))
    && (tab == "all" || (tab == "incomes" && tx.amount.digits > 0)
        || (tab == "expenses" && tx.amount.digits < 0))
  }

  /** `transactions.filter(...)` with the list filter. */
  function Filtered(txs: seq<Transaction>, query: string, tab: string): (r: seq<Transaction>)
    ensures |r| <= |txs|
    ensures forall t :: t in r <==> t in txs && Shown(t, query, tab)
  {
    if txs == [] then []
    else
      var rest := Filtered(txs[1..], query, tab);
      assert forall t :: t in txs <==> t == txs[0] || t in txs[1..];
      if Shown(txs[0], query, tab) then [txs[0]] + rest else rest
  }

  /** The filter keeps each shown transaction where it stands, as often as it occurs. */
  lemma {:induction false} FilteredAppend(a: seq<Transaction>, b: seq<Transaction>, query: string, tab: string)
    ensures Filtered(a + b, query, tab) == Filtered(a, query, tab) + Filtered(b, query, tab)
  {
    if a != [] {
      HeadOfAppend(a, b);
      FilteredAppend(a[1..], b, query, tab);
      if Shown(a[0], query, tab) {
        Associative([a[0]], Filtered(a[1..], query, tab), Filtered(b, query, tab));
      }
    } else {
      EmptyAppend(a, b);
    }
  }


  lemma FilteredOne(t: Transaction, query: string, tab: string)
    ensures Filtered([t], query, tab) == if Shown(t, query, tab) then [t] else []
  {
    assert [t][1..] == [];
  }

  /** Every text contains the empty query. */
  lemma ContainsEmpty(s: string)
    ensures Contains(s, "")
  {
    assert OccursAt(s, "", 0);
  }

  /** With an empty query the `all` tab lists every transaction, in order. */
  lemma {:induction false} EmptyQueryShowsAll(txs: seq<Transaction>)
    ensures Filtered(txs, "", "all") == txs
  {
    if txs != [] {
      ContainsEmpty(Lower(txs[0].name));
      assert Lower("") == "";
      EmptyQueryShowsAll(txs[1..]);
      assert [txs[0]] + txs[1..] == txs;
    }
  }

  /** A tab other than the three lists nothing. */
  lemma {:induction false} OtherTabShowsNothing(txs: seq<Transaction>, query: string, tab: string)
    requires tab != "all" && tab != "incomes" && tab != "expenses"
    ensures Filtered(txs, query, tab) == []
  {
    if txs != [] {
      assert !Shown(txs[0], query, tab);
      OtherTabShowsNothing(txs[1..], query, tab);
    }
  }
}
