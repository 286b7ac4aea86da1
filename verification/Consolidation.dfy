/** The consolidated trial balance of zavora-erp-api/src/routes/consolidation.rs. */
module Consolidation {
  import opened Prelude
  import opened Money

  /** One account of one entity, in the entity's base currency. */
  datatype Row = Row(account: string, debit: real, credit: real)

  /** The balance due on an invoice or bill, the PIN of the other party, and whether its
      status and date let it count. */
  datatype Open = Open(balance: real, pin: Option<string>, counted: bool)

  /** A selected entity: its rate to the presentation currency, if one is on file, its balances,
      its own PIN, and what it is owed and owes. */
  datatype Member = Member(rate: Option<real>, rows: seq<Row>, pin: Option<string>, receivables: seq<Open>,
      payables: seq<Open>)

  datatype Closing = Closing(debit: real, credit: real)

  datatype Report = Report(lines: map<string, Closing>, totalDebits: real, totalCredits: real, difference: real,
      isBalanced: bool)

  type Combined = map<string, (real, real)>

  /** A missing rate counts as one (and is flagged in the response). */
  function RateOf(m: Member): real {
    if m.rate.Some? then m.rate.value else 1.0
  }

  function Translate(amount: real, rate: real): real {
    amount * rate
  }

  function Held(combined: Combined, account: string): (real, real) {
    if account in combined then combined[account] else (0.0, 0.0)
  }

  // ----- What the combined balances should be -----

  /** The translated, rounded debits of one account over a member's first rows. */
  function RowDebits(rows: seq<Row>, rate: real, account: string): real {
    if rows == [] then 0.0
    else
      var r := rows[|rows| - 1];
      RowDebits(rows[..|rows| - 1], rate, account)
          + (if r.account == account then RoundMoney(Translate(r.debit, rate)) else 0.0)
  }

  function RowCredits(rows: seq<Row>, rate: real, account: string): real {
    if rows == [] then 0.0
    else
      var r := rows[|rows| - 1];
      RowCredits(rows[..|rows| - 1], rate, account)
          + (if r.account == account then RoundMoney(Translate(r.credit, rate)) else 0.0)
  }

  function MemberDebits(ms: seq<Member>, account: string): real {
    if ms == [] then 0.0
    else MemberDebits(ms[..|ms| - 1], account) + RowDebits(ms[|ms| - 1].rows, RateOf(ms[|ms| - 1]), account)
  }

  function MemberCredits(ms: seq<Member>, account: string): real {
    if ms == [] then 0.0
    else MemberCredits(ms[..|ms| - 1], account) + RowCredits(ms[|ms| - 1].rows, RateOf(ms[|ms| - 1]), account)
  }

  /** The group's rounded debits less credits, row by row, with no map in sight. */
  function RowNet(rows: seq<Row>, rate: real): real {
    if rows == [] then 0.0
    else
      var r := rows[|rows| - 1];
      RowNet(rows[..|rows| - 1], rate) + RoundMoney(Translate(r.debit, rate)) - RoundMoney(Translate(r.credit, rate))
  }

  function GroupNet(ms: seq<Member>): real {
    if ms == [] then 0.0 else GroupNet(ms[..|ms| - 1]) + RowNet(ms[|ms| - 1].rows, RateOf(ms[|ms| - 1]))
  }

  /** The accounts that appear. */
  function RowAccounts(rows: seq<Row>): set<string> {
    if rows == [] then {} else RowAccounts(rows[..|rows| - 1]) + {rows[|rows| - 1].account}
  }

  function GroupAccounts(ms: seq<Member>): set<string> {
    if ms == [] then {} else GroupAccounts(ms[..|ms| - 1]) + RowAccounts(ms[|ms| - 1].rows)
  }

  // ----- Sums over a set of accounts -----

  ghost function Total(f: string -> real, accounts: set<string>): real
    decreases accounts
  {
    if accounts == {} then 0.0
    else
      var a :| a in accounts;
      f(a) + Total(f, accounts - {a})
  }

  /** The order in which accounts are summed does not matter. */
  lemma {:induction false} TotalPick(f: string -> real, accounts: set<string>, a: string)
    requires a in accounts
    ensures Total(f, accounts) == f(a) + Total(f, accounts - {a})
    decreases accounts
  {
    var b :| b in accounts && Total(f, accounts) == f(b) + Total(f, accounts - {b});
    if a != b {
      TotalPick(f, accounts - {b}, a);
      TotalPick(f, accounts - {a}, b);
      assert accounts - {a} - {b} == accounts - {b} - {a};
    }
  }

  lemma {:induction false} TotalFrame(f: string -> real, g: string -> real, accounts: set<string>)
    requires forall a | a in accounts :: f(a) == g(a)
    ensures Total(f, accounts) == Total(g, accounts)
    decreases accounts
  {
    if accounts == {} {
    } else {
      var a :| a in accounts;
      TotalPick(f, accounts, a);
      TotalPick(g, accounts, a);
      TotalFrame(f, g, accounts - {a});
    }
  }

  lemma {:induction false} TotalDifference(f: string -> real, g: string -> real, h: string -> real,
          accounts: set<string>)
    requires forall a | a in accounts :: f(a) - g(a) == h(a)
    ensures Total(f, accounts) - Total(g, accounts) == Total(h, accounts)
    decreases accounts
  {
    if accounts == {} {
    } else {
      var a :| a in accounts;
      TotalPick(f, accounts, a);
      TotalPick(g, accounts, a);
      TotalPick(h, accounts, a);
      TotalDifference(f, g, h, accounts - {a});
    }
  }

  function Net(combined: Combined, account: string): real {
    Held(combined, account).0 - Held(combined, account).1
  }

  /** Debits less credits over all accounts of the map. */
  ghost function NetTotal(combined: Combined): real {
    Total(a => Net(combined, a), combined.Keys)
  }

  /** Changing one account of the map moves the net by the change. */
  lemma NetUpdate(combined: Combined, account: string, x: (real, real))
    ensures NetTotal(combined[account := x]) == NetTotal(combined) - Net(combined, account) + x.0 - x.1
  {
    var c2 := combined[account := x];
    var f, g := (a => Net(combined, a)), (a => Net(c2, a));
    var others := combined.Keys - {account};
    assert c2.Keys - {account} == others;
    TotalPick(g, c2.Keys, account);
    TotalFrame(f, g, others);
    if account in combined {
      TotalPick(f, combined.Keys, account);
    } else {
      assert others == combined.Keys;
    }
  }

  // ----- The report -----

  /** The map holds, account by account, the sums over all members' rows. */
  ghost predicate Reflects(combined: Combined, ms: seq<Member>) {
    && (forall a :: Held(combined, a) == (MemberDebits(ms, a), MemberCredits(ms, a)))
    && combined.Keys == GroupAccounts(ms)
    && NetTotal(combined) == GroupNet(ms)
  }

  lemma ReflectsNext(was: Combined, combined: Combined, ms: seq<Member>, i: nat)
    requires i < |ms| && Reflects(was, ms[..i])
    requires Extends(was, combined, ms[i].rows, RateOf(ms[i]))
    requires combined.Keys == was.Keys + RowAccounts(ms[i].rows)
    requires NetTotal(combined) == NetTotal(was) + RowNet(ms[i].rows, RateOf(ms[i]))
    ensures Reflects(combined, ms[..i + 1])
  {
    assert ms[..i + 1][..i] == ms[..i];
    forall a ensures Held(combined, a) == (MemberDebits(ms[..i + 1], a), MemberCredits(ms[..i + 1], a)) {
      assert Held(was, a) == (MemberDebits(ms[..i], a), MemberCredits(ms[..i], a));
    }
  }

  /** Lines 133-169: translate, round and combine. */
  method Combine(ms: seq<Member>) returns (combined: Combined)
    ensures Reflects(combined, ms)
  {
    combined := map[];
    for i := 0 to |ms|
      invariant Reflects(combined, ms[..i])
    {
      ghost var was := combined;
      combined := CombineMember(combined, ms[i].rows, RateOf(ms[i]));
      ReflectsNext(was, combined, ms, i);
    }
    assert ms[..|ms|] == ms;
  }

  method CombineMember(before: Combined, rows: seq<Row>, rate: real) returns (combined: Combined)
    ensures Extends(before, combined, rows, rate)
    ensures combined.Keys == before.Keys + RowAccounts(rows)
    ensures NetTotal(combined) == NetTotal(before) + RowNet(rows, rate)
  {
    combined := before;
    for n := 0 to |rows|
      invariant Extends(before, combined, rows[..n], rate)
      invariant combined.Keys == before.Keys + RowAccounts(rows[..n])
      invariant NetTotal(combined) == NetTotal(before) + RowNet(rows[..n], rate)
    {
      var d, c := RoundMoney(Translate(rows[n].debit, rate)), RoundMoney(Translate(rows[n].credit, rate));
      ghost var was := combined;
      combined := AddRow(combined, rows[n].account, d, c);
      ExtendsByRow(before, was, combined, rows, n, rate);
    }
    assert rows[..|rows|] == rows;
  }

  /** Every account of `after` holds what it held in `before` plus its share of the rows. */
  ghost predicate Extends(before: Combined, after: Combined, rows: seq<Row>, rate: real) {
    forall a ::
      Held(after, a) == (Held(before, a).0 + RowDebits(rows, rate, a), Held(before, a).1 + RowCredits(rows, rate, a))
  }

  lemma ExtendsByRow(before: Combined, was: Combined, after: Combined, rows: seq<Row>, n: nat, rate: real)
    requires n < |rows| && Extends(before, was, rows[..n], rate)
    requires forall a :: Held(after, a) ==
               if a == rows[n].account
               then (Held(was, a).0 + RoundMoney(Translate(rows[n].debit, rate)),
                   Held(was, a).1 + RoundMoney(Translate(rows[n].credit, rate)))
               else Held(was, a)
    ensures Extends(before, after, rows[..n + 1], rate)
    ensures RowAccounts(rows[..n + 1]) == RowAccounts(rows[..n]) + {rows[n].account}
    ensures RowNet(rows[..n + 1], rate) ==
              RowNet(rows[..n], rate) + RoundMoney(Translate(rows[n].debit, rate))
              - RoundMoney(Translate(rows[n].credit, rate))
  {
    forall a ensures Held(after, a) ==
                       (Held(before, a).0 + RowDebits(rows[..n + 1], rate, a),
                           Held(before, a).1 + RowCredits(rows[..n + 1], rate, a))
    {
      RowStep(rows, n, rate, a);
    }
    RowStep(rows, n, rate, "");
  }

  /** `entry(code).or_insert(zeros)`, then both sides added to. */
  method AddRow(before: Combined, code: string, d: real, c: real) returns (combined: Combined)
    ensures forall a :: Held(combined, a) ==
              if a == code then (Held(before, a).0 + d, Held(before, a).1 + c) else Held(before, a)
    ensures combined.Keys == before.Keys + {code}
    ensures NetTotal(combined) == NetTotal(before) + d - c
  {
    var e := Held(before, code);
    NetUpdate(before, code, (e.0 + d, e.1 + c));
    combined := before[code := (e.0 + d, e.1 + c)];
  }

  lemma RowStep(rows: seq<Row>, n: nat, rate: real, a: string)
    requires n < |rows|
    ensures RowAccounts(rows[..n + 1]) == RowAccounts(rows[..n]) + {rows[n].account}
    ensures RowDebits(rows[..n + 1], rate, a) ==
              RowDebits(rows[..n], rate, a)
              + (if rows[n].account == a then RoundMoney(Translate(rows[n].debit, rate)) else 0.0)
    ensures RowCredits(rows[..n + 1], rate, a) ==
              RowCredits(rows[..n], rate, a)
              + (if rows[n].account == a then RoundMoney(Translate(rows[n].credit, rate)) else 0.0)
    ensures RowNet(rows[..n + 1], rate) ==
              RowNet(rows[..n], rate) + RoundMoney(Translate(rows[n].debit, rate))
              - RoundMoney(Translate(rows[n].credit, rate))
  {
    assert rows[..n + 1][..n] == rows[..n];
  }

  // ----- Eliminations -----

  /** The request's flag and the two control accounts. */
  datatype Elimination = Elimination(requested: bool, arAccount: string, apAccount: string)

  /** The PINs of the group; a missing or empty one does not count. */
  function GroupPins(ms: seq<Member>): set<string> {
    if ms == [] then {}
    else
      var pin := ms[|ms| - 1].pin;
      GroupPins(ms[..|ms| - 1]) + if pin.Some? && pin.value != "" then {pin.value} else {}
  }

  predicate Inside(doc: Open, pins: set<string>) {
    doc.counted && doc.pin.Some? && doc.pin.value in pins
  }

  /** What is open between members: balances are added up as they are, whatever the rate. */
  function OpenSum(docs: seq<Open>, pins: set<string>): real {
    if docs == [] then 0.0
    else
      var doc := docs[|docs| - 1];
      OpenSum(docs[..|docs| - 1], pins) + if Inside(doc, pins) then doc.balance else 0.0
  }

  function Receivable(ms: seq<Member>, pins: set<string>): real {
    if ms == [] then 0.0 else Receivable(ms[..|ms| - 1], pins) + OpenSum(ms[|ms| - 1].receivables, pins)
  }

  function Payable(ms: seq<Member>, pins: set<string>): real {
    if ms == [] then 0.0 else Payable(ms[..|ms| - 1], pins) + OpenSum(ms[|ms| - 1].payables, pins)
  }

  /** What is taken off the receivables account: nothing unless asked for, with
      more than one entity, a known PIN, and the account present. */
  function AppliedReceivable(ms: seq<Member>, e: Elimination): real {
    if e.requested && |ms| > 1 && GroupPins(ms) != {} && e.arAccount in GroupAccounts(ms)
    then Receivable(ms, GroupPins(ms)) else 0.0
  }

  function AppliedPayable(ms: seq<Member>, e: Elimination): real {
    if e.requested && |ms| > 1 && GroupPins(ms) != {} && e.apAccount in GroupAccounts(ms)
    then Payable(ms, GroupPins(ms)) else 0.0
  }

  /** The net balance an account should show. */
  function ExpectedNet(ms: seq<Member>, e: Elimination, account: string): real {
    MemberDebits(ms, account) - MemberCredits(ms, account)
    - (if account == e.arAccount then AppliedReceivable(ms, e) else 0.0)
    + (if account == e.apAccount then AppliedPayable(ms, e) else 0.0)
  }

  /** One side of a closing balance carries the net, the other nothing. */
  predicate Closes(c: Closing, net: real) {
    c.debit >= 0.0 && c.credit >= 0.0 && c.debit - c.credit == net && (c.debit == 0.0 || c.credit == 0.0)
  }

  function ClosingOf(lines: map<string, Closing>, account: string): Closing {
    if account in lines then lines[account] else Closing(0.0, 0.0)
  }

  /** `trial_balance`: combine, eliminate, close each account, total. */
  method TrialBalance(ms: seq<Member>, e: Elimination) returns (report: Report)
    ensures report.lines.Keys == GroupAccounts(ms)
    ensures forall a | a in report.lines :: Closes(report.lines[a], ExpectedNet(ms, e, a))
    ensures report.totalDebits == Total(a => ClosingOf(report.lines, a).debit, report.lines.Keys)
    ensures report.totalCredits == Total(a => ClosingOf(report.lines, a).credit, report.lines.Keys)
    ensures report.difference == report.totalDebits - report.totalCredits
    ensures report.difference == GroupNet(ms) - AppliedReceivable(ms, e) + AppliedPayable(ms, e)
    ensures report.isBalanced <==> Abs(report.difference) < 0.01
  {
    var combined := Combine(ms);
    var eliminated := Eliminate(ms, e, combined);
    report := Close(eliminated);
    forall a | a in report.lines ensures Closes(report.lines[a], ExpectedNet(ms, e, a)) {
      assert Net(eliminated, a) == ExpectedNet(ms, e, a);
    }
  }

  /** Lines 171-240: add up what is open between members and take it off the control accounts. */
  method Eliminate(ms: seq<Member>, e: Elimination, combined: Combined) returns (eliminated: Combined)
    requires Reflects(combined, ms)
    ensures eliminated.Keys == combined.Keys
    ensures forall a :: Net(eliminated, a) == ExpectedNet(ms, e, a)
    ensures NetTotal(eliminated) == GroupNet(ms) - AppliedReceivable(ms, e) + AppliedPayable(ms, e)
  {
    var elimAr, elimAp := 0.0, 0.0;
    if e.requested && |ms| > 1 {
      var pins := GroupPins(ms);
      if pins != {} {
        elimAr, elimAp := Receivable(ms, pins), Payable(ms, pins);
      }
    }
    eliminated := combined;
    if elimAr != 0.0 {
      eliminated := TakeOff(eliminated, e.arAccount, elimAr, 0.0);
    }
    if elimAp != 0.0 {
      eliminated := TakeOff(eliminated, e.apAccount, 0.0, elimAp);
    }
  }

  /** Reduces both sides of an account, if it is there. */
  method TakeOff(combined: Combined, account: string, debit: real, credit: real) returns (reduced: Combined)
    ensures reduced.Keys == combined.Keys
    ensures forall a :: Net(reduced, a) ==
              Net(combined, a) + if a == account && account in combined then credit - debit else 0.0
    ensures NetTotal(reduced) == NetTotal(combined) + if account in combined then credit - debit else 0.0
  {
    reduced := combined;
    if account in combined {
      var held := combined[account];
      NetUpdate(combined, account, (held.0 - debit, held.1 - credit));
      reduced := combined[account := (held.0 - debit, held.1 - credit)];
    }
  }

  /** Lines 253-274: close every account on one side and total both sides. */
  method Close(combined: Combined) returns (report: Report)
    ensures report.lines.Keys == combined.Keys
    ensures forall a | a in report.lines :: Closes(report.lines[a], Net(combined, a))
    ensures report.totalDebits == Total(a => ClosingOf(report.lines, a).debit, report.lines.Keys)
    ensures report.totalCredits == Total(a => ClosingOf(report.lines, a).credit, report.lines.Keys)
    ensures report.difference == report.totalDebits - report.totalCredits == NetTotal(combined)
    ensures report.isBalanced <==> Abs(report.difference) < 0.01
  {
    var lines: map<string, Closing> := map[];
    var totalDebit, totalCredit := 0.0, 0.0;
    var codes := combined.Keys;
    while codes != {}
      invariant codes <= combined.Keys && lines.Keys == combined.Keys - codes
      invariant forall a | a in lines :: Closes(lines[a], Net(combined, a))
      invariant totalDebit == Total(a => ClosingOf(lines, a).debit, lines.Keys)
      invariant totalCredit == Total(a => ClosingOf(lines, a).credit, lines.Keys)
    {
      var code :| code in codes;
      var net := combined[code].0 - combined[code].1;
      var closing := if net >= 0.0 then Closing(net, 0.0) else Closing(0.0, -net);
      AddLine(lines, code, closing);
      totalDebit, totalCredit := totalDebit + closing.debit, totalCredit + closing.credit;
      lines := lines[code := closing];
      codes := codes - {code};
    }
    TotalDifference(a => ClosingOf(lines, a).debit, a => ClosingOf(lines, a).credit, a => Net(combined, a),
        combined.Keys);
    var difference := totalDebit - totalCredit;
    report := Report(lines, totalDebit, totalCredit, difference, Abs(difference) < 0.01);
  }

  lemma AddLine(lines: map<string, Closing>, code: string, c: Closing)
    requires code !in lines
    ensures var more := lines[code := c];
            && Total(a => ClosingOf(more, a).debit, more.Keys) ==
                Total(a => ClosingOf(lines, a).debit, lines.Keys) + c.debit
            && Total(a => ClosingOf(more, a).credit, more.Keys) ==
                Total(a => ClosingOf(lines, a).credit, lines.Keys) + c.credit
  {
    var more := lines[code := c];
    assert more.Keys - {code} == lines.Keys;
    TotalPick(a => ClosingOf(more, a).debit, more.Keys, code);
    TotalPick(a => ClosingOf(more, a).credit, more.Keys, code);
    TotalFrame(a => ClosingOf(more, a).debit, a => ClosingOf(lines, a).debit, lines.Keys);
    TotalFrame(a => ClosingOf(more, a).credit, a => ClosingOf(lines, a).credit, lines.Keys);
  }

  // ----- Conservation and the error bound -----

  function RowCount(ms: seq<Member>): nat {
    if ms == [] then 0 else RowCount(ms[..|ms| - 1]) + |ms[|ms| - 1].rows|
  }

  function SumRowDebits(rows: seq<Row>): real {
    if rows == [] then 0.0 else SumRowDebits(rows[..|rows| - 1]) + rows[|rows| - 1].debit
  }

  function SumRowCredits(rows: seq<Row>): real {
    if rows == [] then 0.0 else SumRowCredits(rows[..|rows| - 1]) + rows[|rows| - 1].credit
  }

  /** Every entity's own ledger balances, as the poster guarantees. */
  predicate BooksBalance(ms: seq<Member>) {
    forall i | 0 <= i < |ms| :: SumRowDebits(ms[i].rows) == SumRowCredits(ms[i].rows)
  }

  /** The exact translated amounts, debits positive and credits negative. */
  function RowAmounts(rows: seq<Row>, rate: real): seq<real> {
    if rows == [] then []
    else
      var r := rows[|rows| - 1];
      RowAmounts(rows[..|rows| - 1], rate) + [Translate(r.debit, rate), -Translate(r.credit, rate)]
  }

  function GroupAmounts(ms: seq<Member>): seq<real> {
    if ms == [] then [] else GroupAmounts(ms[..|ms| - 1]) + RowAmounts(ms[|ms| - 1].rows, RateOf(ms[|ms| - 1]))
  }

  lemma TranslateAdds(a: real, b: real, rate: real)
    ensures Translate(a + b, rate) == Translate(a, rate) + Translate(b, rate)
  {
  }

  lemma PairSums(xs: seq<real>, d: real, c: real)
    ensures Amount(CentsSum(xs + [d, -c])) == Amount(CentsSum(xs)) + RoundMoney(d) - RoundMoney(c)
    ensures Sum(xs + [d, -c]) == Sum(xs) + d - c
  {
    CentsAppend(xs, [d, -c]);
    assert [d, -c][1..] == [-c] && [-c][1..] == [];
    assert CentsSum([-c]) == Cents(-c) && Sum([-c]) == -c;
    NegatedCents(c);
  }

  lemma {:induction false} RowAmountSums(rows: seq<Row>, rate: real)
    ensures |RowAmounts(rows, rate)| == 2 * |rows|
    ensures RowNet(rows, rate) == Amount(CentsSum(RowAmounts(rows, rate)))
    ensures Sum(RowAmounts(rows, rate)) == Translate(SumRowDebits(rows), rate) - Translate(SumRowCredits(rows), rate)
  {
    if rows == [] {
    } else {
      var init, r := rows[..|rows| - 1], rows[|rows| - 1];
      RowAmountSums(init, rate);
      PairSums(RowAmounts(init, rate), Translate(r.debit, rate), Translate(r.credit, rate));
      TranslateAdds(SumRowDebits(init), r.debit, rate);
      TranslateAdds(SumRowCredits(init), r.credit, rate);
    }
  }

  lemma {:induction false} GroupAmountSums(ms: seq<Member>)
    ensures |GroupAmounts(ms)| == 2 * RowCount(ms)
    ensures GroupNet(ms) == Amount(CentsSum(GroupAmounts(ms)))
    ensures BooksBalance(ms) ==> Sum(GroupAmounts(ms)) == 0.0
  {
    if ms == [] {
    } else {
      var init, m := ms[..|ms| - 1], ms[|ms| - 1];
      GroupAmountSums(init);
      RowAmountSums(m.rows, RateOf(m));
      CentsAppend(GroupAmounts(init), RowAmounts(m.rows, RateOf(m)));
      if BooksBalance(ms) {
        assert forall i | 0 <= i < |init| :: init[i] == ms[i];
        assert SumRowDebits(m.rows) == SumRowCredits(m.rows);
      }
    }
  }

  /** Balanced books consolidate, before eliminations, to within one cent a row:
      a whole number of cents, at most the number of rows (one fewer when that is odd). */
  lemma ConsolidationBound(ms: seq<Member>) returns (cents: int)
    requires BooksBalance(ms)
    ensures GroupNet(ms) == Amount(cents)
    ensures var rows := RowCount(ms); var most := if rows % 2 == 0 then rows else rows - 1;
            -most <= cents <= most
  {
    GroupAmountSums(ms);
    ResidualBound(GroupAmounts(ms));
    cents := CentsSum(GroupAmounts(ms));
  }

  /** Without translation and in whole cents nothing is lost at all. */
  lemma {:induction false} SameCurrencyIsExact(ms: seq<Member>)
    requires BooksBalance(ms)
    requires forall i | 0 <= i < |ms| :: RateOf(ms[i]) == 1.0
    requires forall i, j | 0 <= i < |ms| && 0 <= j < |ms[i].rows| ::
               RoundMoney(ms[i].rows[j].debit) == ms[i].rows[j].debit
                   && RoundMoney(ms[i].rows[j].credit) == ms[i].rows[j].credit
    ensures GroupNet(ms) == 0.0
  {
    if ms == [] {
    } else {
      var init := ms[..|ms| - 1];
      assert forall i | 0 <= i < |init| :: init[i] == ms[i];
      SameCurrencyIsExact(init);
      SameCurrencyRows(ms[|ms| - 1].rows);
    }
  }

  lemma {:induction false} SameCurrencyRows(rows: seq<Row>)
    requires forall j | 0 <= j < |rows| ::
               RoundMoney(rows[j].debit) == rows[j].debit && RoundMoney(rows[j].credit) == rows[j].credit
    ensures RowNet(rows, 1.0) == SumRowDebits(rows) - SumRowCredits(rows)
  {
    if rows == [] {
    } else {
      SameCurrencyRows(rows[..|rows| - 1]);
      assert Translate(rows[|rows| - 1].debit, 1.0) == rows[|rows| - 1].debit;
      assert Translate(rows[|rows| - 1].credit, 1.0) == rows[|rows| - 1].credit;
    }
  }

  // ----- Missing rates -----

  /** The same members, a missing rate replaced by one. */
  predicate OneForMissing(ms: seq<Member>, rated: seq<Member>) {
    |rated| == |ms| && forall i | 0 <= i < |ms| :: rated[i] == RatedOne(ms[i])
  }

  function RatedOne(m: Member): Member {
    if m.rate == None then m.(rate := Some(1.0)) else m
  }

  /** A missing rate counts as a rate of one, everywhere. */
  lemma {:induction false} MissingRateIsOne(ms: seq<Member>, rated: seq<Member>, a: string)
    requires OneForMissing(ms, rated)
    ensures MemberDebits(ms, a) == MemberDebits(rated, a) && MemberCredits(ms, a) == MemberCredits(rated, a)
    ensures GroupNet(ms) == GroupNet(rated) && GroupAccounts(ms) == GroupAccounts(rated)
  {
    if ms == [] {
    } else {
      MissingRateIsOne(ms[..|ms| - 1], rated[..|ms| - 1], a);
    }
  }

  /** And a rate on file is the rate used. */
  lemma RatedMember(ms: seq<Member>, m: Member, rate: real, a: string)
    requires m.rate == Some(rate)
    ensures MemberDebits(ms + [m], a) == MemberDebits(ms, a) + RowDebits(m.rows, rate, a)
    ensures MemberCredits(ms + [m], a) == MemberCredits(ms, a) + RowCredits(m.rows, rate, a)
  {
    assert (ms + [m])[..|ms|] == ms;
  }

  /** Debits less credits of one account as they are in the rows, at no rate. */
  function RawNet(rows: seq<Row>, account: string): real {
    if rows == [] then 0.0
    else
      var r := rows[|rows| - 1];
      RawNet(rows[..|rows| - 1], account) + if r.account == account then r.debit - r.credit else 0.0
  }

  function GroupRawNet(ms: seq<Member>, account: string): real {
    if ms == [] then 0.0 else GroupRawNet(ms[..|ms| - 1], account) + RawNet(ms[|ms| - 1].rows, account)
  }

  predicate WholeCents(rows: seq<Row>) {
    forall j | 0 <= j < |rows| ::
      RoundMoney(rows[j].debit) == rows[j].debit && RoundMoney(rows[j].credit) == rows[j].credit
  }

  /** Without rates, or at rate one, whole-cent books are added up as they are, account by account. */
  lemma {:induction false} UnratedBooksAddUp(ms: seq<Member>, a: string)
    requires forall i | 0 <= i < |ms| :: ms[i].rate in {None, Some(1.0)} && WholeCents(ms[i].rows)
    ensures MemberDebits(ms, a) - MemberCredits(ms, a) == GroupRawNet(ms, a)
  {
    if ms == [] {
    } else {
      var m := ms[|ms| - 1];
      UnratedBooksAddUp(ms[..|ms| - 1], a);
      UnratedRowsAddUp(m.rows, a);
      assert RateOf(m) == 1.0;
    }
  }

  lemma {:induction false} UnratedRowsAddUp(rows: seq<Row>, a: string)
    requires WholeCents(rows)
    ensures RowDebits(rows, 1.0, a) - RowCredits(rows, 1.0, a) == RawNet(rows, a)
  {
    if rows == [] {
    } else {
      var r := rows[|rows| - 1];
      UnratedRowsAddUp(rows[..|rows| - 1], a);
      assert Translate(r.debit, 1.0) == r.debit && Translate(r.credit, 1.0) == r.credit;
    }
  }
}
