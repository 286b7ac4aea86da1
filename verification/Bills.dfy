/** Posting a bill: the journal request of zavora-erp-api/src/routes/bills.rs,
    and its step from approved to posted. */
module Bills {
  import opened Prelude
  import opened Money
  import opened Journal
  import opened Ledger

  datatype BillLine = BillLine(account: string, total: real, tracksInventory: bool)

  /** The accounts a bill posts to, posting groups already resolved. */
  datatype Accounts = Accounts(defaultExpense: string, inventoryClearing: string, vatInput: string, payable: string,
                               whtPayable: string, rounding: string)

  datatype Header = Header(subtotal: real, taxTotal: real, whtAmount: real, grossTotal: real, currency: string,
      fxRate: real)

  function Debit(h: Header, account: string, amount: real): Request {
    Request(account, Some(amount), None, h.currency, Some(h.fxRate))
  }

  function Credit(h: Header, account: string, amount: real): Request {
    Request(account, None, Some(amount), h.currency, Some(h.fxRate))
  }

  // ----- What an entry amounts to, in the bill's currency -----

  function LineSum(ls: seq<BillLine>): real {
    if ls == [] then 0.0 else ls[|ls| - 1].total + LineSum(ls[..|ls| - 1])
  }

  /** The part of the lines owed by one account: tracked lines belong to the clearing account. */
  function LinesOf(ls: seq<BillLine>, accounts: Accounts, account: string): real {
    if ls == [] then 0.0
    else
      var l := ls[|ls| - 1];
      (if (if l.tracksInventory then accounts.inventoryClearing else l.account) == account then l.total else 0.0)
      + LinesOf(ls[..|ls| - 1], accounts, account)
  }

  function Positive(x: real): real {
    if x > 0.0 then x else 0.0
  }

  /** Every request carries one amount, in the bill's currency at the bill's rate. */
  predicate OneSided(rs: seq<Request>, h: Header) {
    forall i | 0 <= i < |rs| ::
      rs[i].fxRate == Some(h.fxRate) && rs[i].currency == h.currency && (rs[i].debit.Some? <==> rs[i].credit.None?)
  }

  function ExpenseAccount(l: BillLine, accounts: Accounts): string {
    if l.tracksInventory then accounts.inventoryClearing else l.account
  }

  function ExpenseLines(h: Header, ls: seq<BillLine>, accounts: Accounts): seq<Request> {
    if ls == [] then []
    else
      var l := ls[|ls| - 1];
      ExpenseLines(h, ls[..|ls| - 1], accounts) + [Debit(h, ExpenseAccount(l, accounts), l.total)]
  }

  /** What was bought, as lines. */
  function Bought(h: Header, ls: seq<BillLine>, accounts: Accounts): seq<Request> {
    if ls == [] then [Debit(h, accounts.defaultExpense, h.subtotal)] else ExpenseLines(h, ls, accounts)
  }

  /** The journal lines of a bill: what was bought, recoverable tax, the vendor's net, tax withheld. */
  function LinesFor(h: Header, ls: seq<BillLine>, accounts: Accounts): seq<Request> {
    Bought(h, ls, accounts)
    + (if h.taxTotal > 0.0 then [Debit(h, accounts.vatInput, h.taxTotal)] else [])
    + [Credit(h, accounts.payable, h.grossTotal)]
    + (if h.whtAmount > 0.0 then [Credit(h, accounts.whtPayable, h.whtAmount)] else [])
  }

  /** Lines 133-205. */
  method BuildLines(h: Header, billLines: seq<BillLine>, accounts: Accounts) returns (lines: seq<Request>)
    ensures lines == LinesFor(h, billLines, accounts)
    ensures forall a :: DebitTo(lines, a) ==
              (if billLines == [] then (if a == accounts.defaultExpense then h.subtotal else 0.0)
                  else LinesOf(billLines, accounts, a))
              + (if a == accounts.vatInput && h.taxTotal > 0.0 then h.taxTotal else 0.0)
    ensures forall a :: CreditTo(lines, a) ==
              (if a == accounts.payable then h.grossTotal else 0.0)
              + (if a == accounts.whtPayable && h.whtAmount > 0.0 then h.whtAmount else 0.0)
  {
    lines := [];
    if billLines == [] {
      lines := lines + [Debit(h, accounts.defaultExpense, h.subtotal)];
    } else {
      for n := 0 to |billLines|
        invariant lines == ExpenseLines(h, billLines[..n], accounts)
      {
        var l := billLines[n];
        var account := if l.tracksInventory then accounts.inventoryClearing else l.account;
        assert billLines[..n + 1][..n] == billLines[..n];
        lines := lines + [Debit(h, account, l.total)];
      }
      assert billLines[..|billLines|] == billLines;
    }
    if h.taxTotal > 0.0 {
      lines := lines + [Debit(h, accounts.vatInput, h.taxTotal)];
    }
    lines := lines + [Credit(h, accounts.payable, h.grossTotal)];
    if h.whtAmount > 0.0 {
      lines := lines + [Credit(h, accounts.whtPayable, h.whtAmount)];
    }
    EntryTotals(h, billLines, accounts);
  }

  // ----- What the lines amount to -----

  lemma {:induction false} ExpenseTotals(h: Header, ls: seq<BillLine>, accounts: Accounts)
    ensures OneSided(ExpenseLines(h, ls, accounts), h)
    ensures DebitTotal(ExpenseLines(h, ls, accounts)) == LineSum(ls)
              && CreditTotal(ExpenseLines(h, ls, accounts)) == 0.0
    ensures forall a :: DebitTo(ExpenseLines(h, ls, accounts), a) == LinesOf(ls, accounts, a)
    ensures forall a :: CreditTo(ExpenseLines(h, ls, accounts), a) == 0.0
  {
    if ls == [] {
    } else {
      var l := ls[|ls| - 1];
      ExpenseTotals(h, ls[..|ls| - 1], accounts);
      RequestTotalsAppend(ExpenseLines(h, ls[..|ls| - 1], accounts), Debit(h, ExpenseAccount(l, accounts), l.total));
    }
  }

  lemma BoughtTotals(h: Header, ls: seq<BillLine>, accounts: Accounts)
    ensures OneSided(Bought(h, ls, accounts), h)
    ensures DebitTotal(Bought(h, ls, accounts)) == (if ls == [] then h.subtotal else LineSum(ls))
    ensures CreditTotal(Bought(h, ls, accounts)) == 0.0
    ensures forall a :: CreditTo(Bought(h, ls, accounts), a) == 0.0
    ensures forall a :: DebitTo(Bought(h, ls, accounts), a) ==
              if ls == [] then (if a == accounts.defaultExpense then h.subtotal else 0.0) else LinesOf(ls, accounts, a)
  {
    if ls == [] {
      var r := Debit(h, accounts.defaultExpense, h.subtotal);
      RequestTotalsAppend([], r);
      assert [] + [r] == [r];
    } else {
      ExpenseTotals(h, ls, accounts);
    }
  }

  /** Both sides, account by account, and their totals. */
  lemma EntryTotals(h: Header, ls: seq<BillLine>, accounts: Accounts)
    ensures OneSided(LinesFor(h, ls, accounts), h)
    ensures DebitTotal(LinesFor(h, ls, accounts)) ==
              (if ls == [] then h.subtotal else LineSum(ls)) + Positive(h.taxTotal)
    ensures CreditTotal(LinesFor(h, ls, accounts)) == h.grossTotal + Positive(h.whtAmount)
    ensures forall a :: DebitTo(LinesFor(h, ls, accounts), a) ==
              (if ls == [] then (if a == accounts.defaultExpense then h.subtotal else 0.0)
                  else LinesOf(ls, accounts, a))
              + (if a == accounts.vatInput then Positive(h.taxTotal) else 0.0)
    ensures forall a :: CreditTo(LinesFor(h, ls, accounts), a) ==
              (if a == accounts.payable then h.grossTotal else 0.0)
              + (if a == accounts.whtPayable then Positive(h.whtAmount) else 0.0)
  {
    BoughtTotals(h, ls, accounts);
    var bought := Bought(h, ls, accounts);
    var tax, net, wht :=
      Debit(h, accounts.vatInput, h.taxTotal), Credit(h, accounts.payable, h.grossTotal),
          Credit(h, accounts.whtPayable, h.whtAmount);
    RequestTotalsAppend(bought, tax);
    var taxed := if h.taxTotal > 0.0 then bought + [tax] else bought;
    RequestTotalsAppend(taxed, net);
    RequestTotalsAppend(taxed + [net], wht);
    assert LinesFor(h, ls, accounts) == if h.whtAmount > 0.0 then taxed + [net] + [wht] else taxed + [net];
  }

  // ----- The entry balances -----

  /** Stored totals as bill creation computes them. */
  predicate Consistent(h: Header, billLines: seq<BillLine>) {
    && h.grossTotal == h.subtotal + h.taxTotal - h.whtAmount
    && (billLines != [] ==> LineSum(billLines) == h.subtotal)
  }

  /** Debits equal credits exactly when the tax and withholding left off the entry
      for being negative are equal; so always when neither is negative. */
  lemma BillBalances(h: Header, billLines: seq<BillLine>, accounts: Accounts)
    requires Consistent(h, billLines)
    ensures var rs := LinesFor(h, billLines, accounts);
            DebitTotal(rs) == CreditTotal(rs) <==> Positive(-h.taxTotal) == Positive(-h.whtAmount)
  {
    EntryTotals(h, billLines, accounts);
  }

  lemma Distribute(a: real, b: real, rate: real)
    ensures Convert(a + b, rate) == Convert(a, rate) + Convert(b, rate)
  {
  }

  /** With one rate for all lines, the exact base amounts are the document amounts scaled. */
  lemma {:induction false} SignedScales(rs: seq<Request>, h: Header)
    requires OneSided(rs, h)
    ensures |Signed(rs)| == |rs|
    ensures Sum(Signed(rs)) == Convert(DebitTotal(rs), h.fxRate) - Convert(CreditTotal(rs), h.fxRate)
  {
    if rs == [] {
    } else {
      SignedScales(rs[1..], h);
      Distribute(OrZero(rs[0].debit), DebitTotal(rs[1..]), h.fxRate);
      Distribute(OrZero(rs[0].credit), CreditTotal(rs[1..]), h.fxRate);
      assert rs[0].fxRate == Some(h.fxRate);
      if rs[0].debit.Some? {
        assert Signed(rs) == [Convert(rs[0].debit.value, h.fxRate)] + Signed(rs[1..]);
      } else {
        assert Signed(rs) == [-Convert(rs[0].credit.value, h.fxRate)] + Signed(rs[1..]);
      }
      assert Signed(rs)[1..] == Signed(rs[1..]);
    }
  }

  /** In base currency a balanced bill misses balance by at most MaxResidual cents;
      with at most three journal lines it always posts. */
  lemma BillResidual(h: Header, billLines: seq<BillLine>, accounts: Accounts, base: string)
    requires Consistent(h, billLines) && Positive(-h.taxTotal) == Positive(-h.whtAmount)
    ensures var rs := LinesFor(h, billLines, accounts);
            && -MaxResidual(|rs|) <= CentsSum(Signed(rs)) <= MaxResidual(|rs|)
            && (|rs| <= 3 ==> Post(rs, accounts.rounding, base).Posted?)
  {
    EntryTotals(h, billLines, accounts);
    BillBalances(h, billLines, accounts);
    OneRateResidual(h, LinesFor(h, billLines, accounts), accounts.rounding, base);
  }

  lemma OneRateResidual(h: Header, rs: seq<Request>, roundingAccount: string, base: string)
    requires OneSided(rs, h) && DebitTotal(rs) == CreditTotal(rs)
    ensures -MaxResidual(|rs|) <= CentsSum(Signed(rs)) <= MaxResidual(|rs|)
    ensures |rs| <= 3 ==> Post(rs, roundingAccount, base).Posted?
  {
    SignedScales(rs, h);
    assert Sum(Signed(rs)) == 0.0;
    BalancedEntryResidual(rs, roundingAccount, base);
  }

  lemma ExpenseOne(h: Header, ls: seq<BillLine>, l: BillLine, accounts: Accounts)
    ensures ExpenseLines(h, ls + [l], accounts) ==
              ExpenseLines(h, ls, accounts) + [Debit(h, ExpenseAccount(l, accounts), l.total)]
    ensures LineSum(ls + [l]) == LineSum(ls) + l.total
  {
    assert (ls + [l])[..|ls|] == ls;
  }

  lemma ThreeLines(h: Header, l: BillLine, accounts: Accounts)
    requires h.taxTotal == 0.0 && h.whtAmount == 0.0
    ensures var d := Debit(h, ExpenseAccount(l, accounts), l.total);
            LinesFor(h, [] + [l] + [l] + [l], accounts) == [d, d, d, Credit(h, accounts.payable, h.grossTotal)]
    ensures LineSum([] + [l] + [l] + [l]) == l.total + l.total + l.total
  {
    ExpenseOne(h, [], l, accounts);
    ExpenseOne(h, [] + [l], l, accounts);
    ExpenseOne(h, [] + [l] + [l], l, accounts);
  }

  /** Four lines can be refused: three lines of 0.03 against 0.09 at a rate of one half. */
  lemma FourLineBillRefused(accounts: Accounts, base: string) returns (h: Header, billLines: seq<BillLine>)
    ensures Consistent(h, billLines) && h.taxTotal == 0.0 && h.whtAmount == 0.0 && h.fxRate == 0.5
    ensures |LinesFor(h, billLines, accounts)| == 4
    ensures Post(LinesFor(h, billLines, accounts), accounts.rounding, base).Refused?
  {
    h := Header(0.09, 0.0, 0.0, 0.09, "USD", 0.5);
    var line := BillLine("5000", 0.03, false);
    billLines := [] + [line] + [line] + [line];
    ThreeLines(h, line, accounts);
    ThreeAgainstOneRefused(Debit(h, "5000", 0.03), Credit(h, accounts.payable, 0.09), accounts.rounding, base);
  }

  /** At rate one a balanced bill of whole-cent amounts posts without adjustment. */
  lemma BaseCurrencyBillPostsExactly(h: Header, billLines: seq<BillLine>, accounts: Accounts, base: string)
    requires Consistent(h, billLines) && h.fxRate == 1.0 && Positive(-h.taxTotal) == Positive(-h.whtAmount)
    requires forall r | r in LinesFor(h, billLines, accounts) :: WholeCents(r.debit) && WholeCents(r.credit)
    ensures Post(LinesFor(h, billLines, accounts), accounts.rounding, base) ==
              Posted(WriteAll(LinesFor(h, billLines, accounts)))
  {
    EntryTotals(h, billLines, accounts);
    BillBalances(h, billLines, accounts);
    WholeCentTotals(LinesFor(h, billLines, accounts));
  }

  // ----- The step from approved to posted -----

  datatype Status = Draft | Approved | PostedBill | Voided

  datatype PostResult = Ok | NotApproved | Failed(why: Result)

  class Bill {
    var status: Status
    var journalEntry: Option<nat>
    const header: Header
    const lines: seq<BillLine>

    constructor (header: Header, lines: seq<BillLine>)
      ensures status == Draft && journalEntry == None && this.header == header && this.lines == lines
    {
      status, journalEntry := Draft, None;
      this.header, this.lines := header, lines;
    }

    /** `post_bill`: journal entry and status change together or not at all. */
    method Post(book: Book, period: int, active: set<string>, accounts: Accounts, base: string)
      returns (result: PostResult)
      requires book.Valid()
      modifies this, book
      ensures book.Valid()
      ensures result.NotApproved? <==> old(status) != Approved
      ensures result == Ok <==>
                && old(status) == Approved
                && (forall r | r in LinesFor(header, lines, accounts) :: r.account in active)
                && Journal.Post(LinesFor(header, lines, accounts), accounts.rounding, base).Posted?
      ensures result == Ok ==>
                && status == PostedBill
                && journalEntry == Some(|old(book.entries)|)
                && |book.entries| == |old(book.entries)| + 1 && book.entries[..|old(book.entries)|] == old(book.entries)
                && book.entries[|old(book.entries)|].period == period
                && EntryOfBill(book.entries[|old(book.entries)|], accounts, base)
      ensures result != Ok ==>
                status == old(status) && journalEntry == old(journalEntry) &&
                book.entries == old(book.entries) && book.balances == old(book.balances)
    {
      if status != Approved {
        return NotApproved;
      }
      var rs := BuildLines(header, lines, accounts);
      var posting := book.CreateAndPost(rs, period, active, accounts.rounding, base);
      if posting.Done? {
        status, journalEntry := PostedBill, Some(|book.entries| - 1);
        return Ok;
      }
      return Failed(posting);
    }

    /** The entry written is the posting of this bill's own lines. */
    predicate EntryOfBill(e: Entry, accounts: Accounts, base: string) {
      Journal.Post(LinesFor(header, lines, accounts), accounts.rounding, base) == Posted(e.lines)
    }
  }
}
