/** What the intercompany eliminations of the consolidated trial balance leave on the
    control accounts. */
module Eliminations {
  import opened Prelude
  import opened Money
  import opened Consolidation

  /** `m` with one more invoice to a sister company, and the debit it put on the receivables account. */
  function Lending(m: Member, account: string, amount: real, pin: string): Member {
    m.(rows := m.rows + [Row(account, amount, 0.0)], receivables := m.receivables + [Open(amount, Some(pin), true)])
  }

  /** `m` with one more bill from a sister company, and the credit it put on the payables account. */
  function Owing(m: Member, account: string, amount: real, pin: string): Member {
    m.(rows := m.rows + [Row(account, 0.0, amount)], payables := m.payables + [Open(amount, Some(pin), true)])
  }

  lemma {:induction false} Replaced(ms: seq<Member>, i: nat, m: Member, a: string, pins: set<string>)
    requires i < |ms| && m.pin == ms[i].pin && RateOf(m) == RateOf(ms[i])
    ensures GroupPins(ms[i := m]) == GroupPins(ms)
    ensures MemberDebits(ms[i := m], a) - MemberDebits(ms, a) ==
              RowDebits(m.rows, RateOf(m), a) - RowDebits(ms[i].rows, RateOf(m), a)
    ensures MemberCredits(ms[i := m], a) - MemberCredits(ms, a) ==
              RowCredits(m.rows, RateOf(m), a) - RowCredits(ms[i].rows, RateOf(m), a)
    ensures Receivable(ms[i := m], pins) - Receivable(ms, pins) ==
              OpenSum(m.receivables, pins) - OpenSum(ms[i].receivables, pins)
    ensures Payable(ms[i := m], pins) - Payable(ms, pins) ==
              OpenSum(m.payables, pins) - OpenSum(ms[i].payables, pins)
    ensures RowAccounts(ms[i].rows) <= RowAccounts(m.rows) ==> GroupAccounts(ms) <= GroupAccounts(ms[i := m])
  {
    var last := |ms| - 1;
    if i == last {
      assert ms[i := m][..last] == ms[..last];
    } else {
      assert ms[i := m][..last] == ms[..last][i := m];
      Replaced(ms[..last], i, m, a, pins);
    }
  }

  /** The elimination is requested and finds both control accounts, and `pin` is in the group. */
  predicate Eliminates(ms: seq<Member>, e: Elimination, pin: string) {
    && e.requested && |ms| > 1 && pin in GroupPins(ms) && e.arAccount != e.apAccount
    && {e.arAccount, e.apAccount} <= GroupAccounts(ms)
  }

  lemma LastRow(rows: seq<Row>, r: Row, rate: real)
    ensures RowDebits(rows + [r], rate, r.account) ==
              RowDebits(rows, rate, r.account) + RoundMoney(Translate(r.debit, rate))
    ensures RowCredits(rows + [r], rate, r.account) ==
              RowCredits(rows, rate, r.account) + RoundMoney(Translate(r.credit, rate))
    ensures RowAccounts(rows + [r]) == RowAccounts(rows) + {r.account}
  {
    assert (rows + [r])[..|rows|] == rows;
  }

  lemma LastOpen(docs: seq<Open>, amount: real, pin: string, pins: set<string>)
    requires pin in pins
    ensures OpenSum(docs + [Open(amount, Some(pin), true)], pins) == OpenSum(docs, pins) + amount
  {
    assert (docs + [Open(amount, Some(pin), true)])[..|docs|] == docs;
  }

  /** An invoice between members leaves the receivables account as it was, after its elimination,
      if and only if translation and rounding leave its amount as it is; a bill, the payables account. */
  lemma EliminatedExactly(ms: seq<Member>, i: nat, x: real, pin: string, e: Elimination)
    requires i < |ms| && Eliminates(ms, e, pin)
    ensures var put, lent, owed := RoundMoney(Translate(x, RateOf(ms[i]))),
                ms[i := Lending(ms[i], e.arAccount, x, pin)], ms[i := Owing(ms[i], e.apAccount, x, pin)];
            && ExpectedNet(lent, e, e.arAccount) - ExpectedNet(ms, e, e.arAccount) == put - x
            && ExpectedNet(owed, e, e.apAccount) - ExpectedNet(ms, e, e.apAccount) == x - put
            && (ExpectedNet(lent, e, e.arAccount) == ExpectedNet(ms, e, e.arAccount) <==> put == x)
            && (ExpectedNet(owed, e, e.apAccount) == ExpectedNet(ms, e, e.apAccount) <==> put == x)
  {
    Lent(ms, i, x, pin, e);
    Owed(ms, i, x, pin, e);
  }

  lemma Lent(ms: seq<Member>, i: nat, x: real, pin: string, e: Elimination)
    requires i < |ms| && Eliminates(ms, e, pin)
    ensures ExpectedNet(ms[i := Lending(ms[i], e.arAccount, x, pin)], e, e.arAccount) ==
              ExpectedNet(ms, e, e.arAccount) + RoundMoney(Translate(x, RateOf(ms[i]))) - x
  {
    var m := Lending(ms[i], e.arAccount, x, pin);
    LastRow(ms[i].rows, Row(e.arAccount, x, 0.0), RateOf(m));
    LastOpen(ms[i].receivables, x, pin, GroupPins(ms));
    Replaced(ms, i, m, e.arAccount, GroupPins(ms));
    ZeroStays(RateOf(m));
  }

  lemma Owed(ms: seq<Member>, i: nat, x: real, pin: string, e: Elimination)
    requires i < |ms| && Eliminates(ms, e, pin)
    ensures ExpectedNet(ms[i := Owing(ms[i], e.apAccount, x, pin)], e, e.apAccount) ==
              ExpectedNet(ms, e, e.apAccount) - RoundMoney(Translate(x, RateOf(ms[i]))) + x
  {
    var m := Owing(ms[i], e.apAccount, x, pin);
    LastRow(ms[i].rows, Row(e.apAccount, 0.0, x), RateOf(m));
    LastOpen(ms[i].payables, x, pin, GroupPins(ms));
    Replaced(ms, i, m, e.apAccount, GroupPins(ms));
    ZeroStays(RateOf(m));
  }

  lemma ZeroStays(rate: real)
    ensures RoundMoney(Translate(0.0, rate)) == 0.0
  {
    assert Translate(0.0, rate) == 0.0;
    WholeCentsAreKept(0);
  }

  lemma LastMember(ms: seq<Member>, m: Member, a: string, pins: set<string>)
    ensures GroupPins(ms + [m]) == GroupPins(ms) + if m.pin.Some? && m.pin.value != "" then {m.pin.value} else {}
    ensures GroupAccounts(ms + [m]) == GroupAccounts(ms) + RowAccounts(m.rows)
    ensures MemberDebits(ms + [m], a) == MemberDebits(ms, a) + RowDebits(m.rows, RateOf(m), a)
    ensures MemberCredits(ms + [m], a) == MemberCredits(ms, a) + RowCredits(m.rows, RateOf(m), a)
    ensures Receivable(ms + [m], pins) == Receivable(ms, pins) + OpenSum(m.receivables, pins)
  {
    assert (ms + [m])[..|ms|] == ms;
  }

  /** An instance at half rate: of 100 owed by a sister company 50 is put on the account and 100 taken off. */
  lemma HalfRateElimination(e: Elimination) returns (ms: seq<Member>)
    requires e.requested && e.arAccount != e.apAccount
    ensures |ms| == 2 && ms[0].rate == Some(0.5) && ms[0].receivables == [Open(100.0, ms[1].pin, true)]
    ensures ms[0].rows == [Row(e.arAccount, 100.0, 0.0)] && ms[1].rows == []
    ensures ExpectedNet(ms, e, e.arAccount) == -50.0
  {
    var row, doc := Row(e.arAccount, 100.0, 0.0), Open(100.0, Some("B"), true);
    var lender := Member(Some(0.5), [] + [row], Some("A"), [] + [doc], []);
    var other := Member(Some(1.0), [], Some("B"), [], []);
    ms := [] + [lender] + [other];
    LastMember([], lender, e.arAccount, {"A", "B"});
    LastMember([] + [lender], other, e.arAccount, {"A", "B"});
    assert GroupPins(ms) == {"A", "B"};
    LastRow([], row, 0.5);
    LastOpen([], 100.0, "B", {"A", "B"});
    assert Translate(100.0, 0.5) == Amount(5000);
    WholeCentsAreKept(5000);
    ZeroStays(0.5);
  }

  // ----- Which documents count -----

  /** Some member has the PIN, and it is not empty. */
  predicate PinOfMember(ms: seq<Member>, pin: string) {
    pin != "" && exists j | 0 <= j < |ms| :: ms[j].pin == Some(pin)
  }

  lemma {:induction false} PinsOfMembers(ms: seq<Member>, pin: string)
    ensures pin in GroupPins(ms) <==> PinOfMember(ms, pin)
  {
    if ms == [] {
    } else {
      var last := |ms| - 1;
      PinsOfMembers(ms[..last], pin);
      assert ms[last].pin == Some(pin) && pin != "" ==> PinOfMember(ms, pin);
    }
  }

  /** The document is counted, its party is one of several members, and eliminations are asked for. */
  predicate Counts(ms: seq<Member>, e: Elimination, doc: Open) {
    e.requested && |ms| > 1 && doc.counted && doc.pin.Some? && PinOfMember(ms, doc.pin.value)
  }

  /** One more invoice, with no row of its own, takes its balance off the receivables account if it
      counts and the account is there, and changes nothing else; one more bill, the payables account. */
  lemma DocumentCountsExactly(ms: seq<Member>, i: nat, doc: Open, e: Elimination)
    requires i < |ms|
    ensures var more := ms[i := ms[i].(receivables := ms[i].receivables + [doc])];
            && AppliedReceivable(more, e) - AppliedReceivable(ms, e) ==
                 (if Counts(ms, e, doc) && e.arAccount in GroupAccounts(ms) then doc.balance else 0.0)
            && AppliedPayable(more, e) == AppliedPayable(ms, e)
    ensures var more := ms[i := ms[i].(payables := ms[i].payables + [doc])];
            && AppliedPayable(more, e) - AppliedPayable(ms, e) ==
                 (if Counts(ms, e, doc) && e.apAccount in GroupAccounts(ms) then doc.balance else 0.0)
            && AppliedReceivable(more, e) == AppliedReceivable(ms, e)
  {
    var pins, m := GroupPins(ms), ms[i];
    assert (m.receivables + [doc])[..|m.receivables|] == m.receivables;
    assert (m.payables + [doc])[..|m.payables|] == m.payables;
    Replaced(ms, i, m.(receivables := m.receivables + [doc]), "", pins);
    Replaced(ms, i, m.(payables := m.payables + [doc]), "", pins);
    if doc.pin.Some? {
      PinsOfMembers(ms, doc.pin.value);
    }
    SameAccounts(ms, i, m.(receivables := m.receivables + [doc]));
    SameAccounts(ms, i, m.(payables := m.payables + [doc]));
  }

  lemma {:induction false} SameAccounts(ms: seq<Member>, i: nat, m: Member)
    requires i < |ms| && m.rows == ms[i].rows
    ensures GroupAccounts(ms[i := m]) == GroupAccounts(ms)
  {
    var last := |ms| - 1;
    if i == last {
      assert ms[i := m][..last] == ms[..last];
    } else {
      assert ms[i := m][..last] == ms[..last][i := m];
      SameAccounts(ms[..last], i, m);
    }
  }

  /** Without documents nothing is taken off. */
  lemma {:induction false} NoDocumentsNothingOff(ms: seq<Member>, e: Elimination, pins: set<string>)
    requires forall j | 0 <= j < |ms| :: ms[j].receivables == [] && ms[j].payables == []
    ensures Receivable(ms, pins) == 0.0 && Payable(ms, pins) == 0.0
    ensures AppliedReceivable(ms, e) == 0.0 && AppliedPayable(ms, e) == 0.0
  {
    if ms == [] {
    } else {
      NoDocumentsNothingOff(ms[..|ms| - 1], e, pins);
      NoDocumentsNothingOff(ms[..|ms| - 1], e, GroupPins(ms));
    }
  }
}
