/** The account the screen works on: its transactions and balance, and the edit mode
    with the taps on the profile picture that switch it. */
module Store {
  import opened Wrappers
  import opened Numbers
  import opened Ledger
  import opened Import
  import opened Sequences

  /** `config.TRIPLE_TAP_TIMEOUT`, in milliseconds. */
  const TripleTapTimeout: int := 600

  /** The taps of `times` less than the timeout before `now`, in order. */
  function Recent(times: seq<int>, now: int): (r: seq<int>)
    ensures |r| <= |times|
    ensures forall t :: t in r <==> t in times && now - t < TripleTapTimeout
  {
    if times == [] then []
    else
      var rest := Recent(times[1..], now);
      assert forall t :: t in times <==> t == times[0] || t in times[1..];
      if now - times[0] < TripleTapTimeout then [times[0]] + rest else rest
  }

  /** The recent taps keep their order and their number: each tap of the log stays
      exactly when it is recent. */
  lemma {:induction false} RecentAppend(a: seq<int>, b: seq<int>, now: int)
    ensures Recent(a + b, now) == Recent(a, now) + Recent(b, now)
  {
    if a != [] {
      HeadOfAppend(a, b);
      RecentAppend(a[1..], b, now);
      if now - a[0] < TripleTapTimeout {
        Associative([a[0]], Recent(a[1..], now), Recent(b, now));
      }
    } else {
      EmptyAppend(a, b);
    }
  }


  lemma RecentOne(t: int, now: int)
    ensures Recent([t], now) == if now - t < TripleTapTimeout then [t] else []
  {
    assert [t][1..] == [];
  }

  /** The tap log and the edit mode. */
  datatype TapState = TapState(times: seq<int>, editMode: bool)

  /** A tap at `now`: it joins the log, the taps older than the timeout leave it, and
      at three taps the edit mode switches and the log is emptied. */
  function AfterTap(s: TapState, now: int): (r: TapState)
    ensures |r.times| <= 2
    ensures r.editMode != s.editMode <==> r.times == [] && |Recent(s.times + [now], now)| >= 3
    ensures r.editMode == s.editMode ==> r.times == Recent(s.times + [now], now)
  {
    var kept := Recent(s.times + [now], now);
    if |kept| >= 3 then TapState([], !s.editMode) else TapState(kept, s.editMode)
  }

  lemma {:induction false} RecentAllRecent(times: seq<int>, now: int)
    requires forall k :: 0 <= k < |times| ==> now - times[k] < TripleTapTimeout
    ensures Recent(times, now) == times
  {
    if times != [] {
      assert now - times[0] < TripleTapTimeout;
      RecentAllRecent(times[1..], now);
      assert [times[0]] + times[1..] == times;
    }
  }

  /** Three taps within the timeout of the first switch the edit mode, when no earlier
      tap is still in the log. */
  lemma ThreeQuickTapsToggle(mode: bool, t1: int, t2: int, t3: int)
    requires t1 <= t2 <= t3 && t3 - t1 < TripleTapTimeout
    ensures var s := AfterTap(AfterTap(AfterTap(TapState([], mode), t1), t2), t3);
      s.editMode == !mode && s.times == []
  {
    RecentAllRecent([t1], t1);
    var s1 := AfterTap(TapState([], mode), t1);
    assert s1 == TapState([t1], mode);
    RecentAllRecent([t1, t2], t2);
    assert [t1] + [t2] == [t1, t2];
    var s2 := AfterTap(s1, t2);
    assert s2 == TapState([t1, t2], mode);
    RecentAllRecent([t1, t2, t3], t3);
    assert [t1, t2] + [t3] == [t1, t2, t3];
  }

  /** Taps all older than the timeout leave the log, and the tap at `now` stays. */
  lemma {:induction false} RecentAfterOldTaps(times: seq<int>, now: int)
    requires forall k :: 0 <= k < |times| ==> now - times[k] >= TripleTapTimeout
    ensures Recent(times + [now], now) == [now]
    decreases |times|
  {
    if times == [] {
      assert [] + [now] == [now];
    } else {
      assert (times + [now])[1..] == times[1..] + [now];
      assert now - times[0] >= TripleTapTimeout;
      RecentAfterOldTaps(times[1..], now);
    }
  }

  /** A tap long after every logged tap starts the log afresh and leaves the mode alone. */
  lemma LateTapStartsOver(s: TapState, now: int)
    requires forall k :: 0 <= k < |s.times| ==> now - s.times[k] >= TripleTapTimeout
    ensures AfterTap(s, now) == TapState([now], s.editMode)
  {
    RecentAfterOldTaps(s.times, now);
  }

  /** What `new Date()` and `Date.now()` give a new manual entry: a debit of 10,00. */
  function NewTransaction(stamp: string, today: int): (t: Transaction)
    ensures Value(t.amount) == -10.0
  {
    assert Pow10(2) == 100;
    Transaction("tx_" + stamp, today, today, "Nuova Transazione", "PAGAMENTO",
                Decimal(-1000, 2), "Aggiunto manualmente", "payment")
  }

  /** A new manual entry lowers the total by 10,00, wherever it goes in the list. */
  lemma NewTransactionTotal(stamp: string, today: int, txs: seq<Transaction>)
    ensures Total([NewTransaction(stamp, today)] + txs) == Total(txs) - 10.0
  {
    TotalAppend([NewTransaction(stamp, today)], txs);
    TotalOne(NewTransaction(stamp, today));
  }

  class Account {
    var transactions: seq<Transaction>
    var balance: real
    var editMode: bool
    var tapTimes: seq<int>

    /** The balance is the sum of the amounts. */
    predicate Balanced()
      reads this
    {
      balance == Total(transactions)
    }

    /** `loadData` and the start-up: the saved transactions and balance, or an empty
        account, with the edit mode off. */
    constructor (saved: Option<(seq<Transaction>, real)>)
      ensures saved.Some? ==> transactions == saved.value.0 && balance == saved.value.1
      ensures saved.None? ==> transactions == [] && balance == 0.0 && Balanced()
      ensures !editMode && tapTimes == []
    {
      if saved.Some? {
        transactions := saved.value.0;
        balance := saved.value.1;
      } else {
        transactions := [];
        balance := 0.0;
      }
      editMode := false;
      tapTimes := [];
    }

    /** `recalculateBalance` */
    method RecalculateBalance()
      modifies this
      ensures Balanced()
      ensures transactions == old(transactions)
      ensures editMode == old(editMode) && tapTimes == old(tapTimes)
    {
      balance := Total(transactions);
    }

    /** `addTransaction`: a new debit of 10,00 goes first, then the balance is summed. */
    method AddTransaction(stamp: string, today: int)
      modifies this
      ensures transactions == [NewTransaction(stamp, today)] + old(transactions)
      ensures Balanced() && balance == Total(old(transactions)) - 10.0
      ensures editMode == old(editMode) && tapTimes == old(tapTimes)
    {
      transactions := [NewTransaction(stamp, today)] + transactions;
      RecalculateBalance();
      NewTransactionTotal(stamp, today, old(transactions));
    }

    /** `deleteTransaction`: once confirmed, the first entry with the id leaves the list
        and the balance is summed again; an unknown id changes nothing. */
    method DeleteTransaction(id: string, confirmed: bool)
      modifies this
      ensures confirmed && FindId(old(transactions), id).Some? ==>
        var k := FindId(old(transactions), id).value;
        && transactions == old(transactions)[..k] + old(transactions)[k + 1..]
        && Balanced()
        && balance == Total(old(transactions)) - Value(old(transactions)[k].amount)
      ensures !(confirmed && FindId(old(transactions), id).Some?) ==>
        transactions == old(transactions) && balance == old(balance)
      ensures editMode == old(editMode) && tapTimes == old(tapTimes)
    {
      if confirmed {
        var found := FindId(transactions, id);
        if found.Some? {
          var k := found.value;
          transactions := transactions[..k] + transactions[k + 1..];
          RecalculateBalance();
          TotalRemove(old(transactions), k);
        }
      }
    }

    /** `deleteAllTransactions`: after the confirmation and the typed word `ELIMINA`
        (`None` is a cancelled prompt), the list is emptied and the balance is zero. */
    method DeleteAllTransactions(confirmed: bool, typed: Option<string>)
      modifies this
      ensures confirmed && typed == Some("ELIMINA") ==> transactions == [] && balance == 0.0
      ensures !(confirmed && typed == Some("ELIMINA")) ==>
        transactions == old(transactions) && balance == old(balance)
      ensures editMode == old(editMode) && tapTimes == old(tapTimes)
    {
      if !confirmed {
        return;
      }
      if typed == Some("ELIMINA") {
        transactions := [];
        RecalculateBalance();
      }
    }

    /** `handleFileUpload` once the grid is read: the new records go after the stored
        ones and the balance is summed; a failed or empty import changes nothing. */
    method ImportFile(rows: seq<Row>, today: int, idOf: nat -> string)
      returns (r: Result<seq<Transaction>, ImportError>)
      modifies this
      ensures r == ImportResult(rows, old(transactions), today, idOf)
      ensures r.Success? && |r.value| > 0 ==>
        transactions == old(transactions) + r.value && Balanced()
        && balance == Total(old(transactions)) + Total(r.value)
      ensures !(r.Success? && |r.value| > 0) ==>
        transactions == old(transactions) && balance == old(balance)
      ensures editMode == old(editMode) && tapTimes == old(tapTimes)
    {
      r := ParseComplexExcelData(rows, transactions, today, idOf);
      if r.Success? && |r.value| > 0 {
        transactions := transactions + r.value;
        RecalculateBalance();
        TotalAppend(old(transactions), r.value);
      }
    }

    /** `saveOnBlur` on the amount of a transaction: the text is read as an amount and
        the balance moves by the change of that amount; an unknown id changes nothing. */
    method EditAmount(id: string, text: string)
      modifies this
      ensures FindId(old(transactions), id).Some? ==>
        var k := FindId(old(transactions), id).value;
        && transactions == old(transactions)[k := old(transactions)[k].(amount := EditedAmount(text))]
        && balance == old(balance) + (Value(EditedAmount(text)) - Value(old(transactions)[k].amount))
      ensures FindId(old(transactions), id).None? ==>
        transactions == old(transactions) && balance == old(balance)
      ensures balance - Total(transactions) == old(balance) - Total(old(transactions))
      ensures editMode == old(editMode) && tapTimes == old(tapTimes)
    {
      var found := FindId(transactions, id);
      if found.None? {
        return;
      }
      var k := found.value;
      var before := transactions[k].amount;
      var amount := EditedAmount(text);
      balance := balance + (Value(amount) - Value(before));
      transactions := transactions[k := transactions[k].(amount := amount)];
      TotalUpdate(old(transactions), k, transactions[k]);
    }

    /** `saveOnBlur` on the name of a transaction: the text replaces the name. */
    method EditName(id: string, text: string)
      modifies this
      ensures FindId(old(transactions), id).Some? ==>
        var k := FindId(old(transactions), id).value;
        transactions == old(transactions)[k := old(transactions)[k].(name := text)]
      ensures FindId(old(transactions), id).None? ==> transactions == old(transactions)
      ensures Total(transactions) == Total(old(transactions))
      ensures balance == old(balance) && editMode == old(editMode) && tapTimes == old(tapTimes)
    {
      var found := FindId(transactions, id);
      if found.None? {
        return;
      }
      var k := found.value;
      transactions := transactions[k := transactions[k].(name := text)];
      TotalUpdate(old(transactions), k, transactions[k]);
    }

    /** `saveOnBlur` on the balance: the text is read as an amount and becomes the
        balance, whatever the transactions add up to. */
    method EditBalance(text: string)
      modifies this
      ensures balance == Value(EditedAmount(text))
      ensures transactions == old(transactions)
      ensures editMode == old(editMode) && tapTimes == old(tapTimes)
    {
      balance := Value(EditedAmount(text));
    }

    /** `handleProfileClick` */
    method HandleProfileClick(now: int)
      modifies this
      ensures TapState(tapTimes, editMode) == AfterTap(TapState(old(tapTimes), old(editMode)), now)
      ensures transactions == old(transactions) && balance == old(balance)
    {
      tapTimes := tapTimes + [now];
      tapTimes := Recent(tapTimes, now);
      if |tapTimes| >= 3 {
        editMode := !editMode;
        tapTimes := [];
      }
    }

    /** `exitEditMode` */
    method ExitEditMode()
      modifies this
      ensures !editMode
      ensures transactions == old(transactions) && balance == old(balance) && tapTimes == old(tapTimes)
    {
      editMode := false;
    }
  }
}
