/** The transaction replay of scripts/migrate/stage3_replay.py, in whole cents:
    first-in-first-out payment allocation, and journals plugged into balance. */
module Replay {
  import opened Prelude

  // ----- Payment allocation -----

  /** An open invoice or bill. */
  datatype Doc = Doc(id: string, bal: int)

  datatype Application = Application(id: string, amount: int)

  function Min(a: int, b: int): int {
    if a < b then a else b
  }

  function Positive(x: int): nat {
    if x > 0 then x else 0
  }

  /** What the documents together can take. */
  function Open(docs: seq<Doc>): nat {
    if docs == [] then 0 else Open(docs[..|docs| - 1]) + Positive(docs[|docs| - 1].bal)
  }

  /** The share of document `i`: what earlier documents leave of the payment, up to its balance. */
  function Share(docs: seq<Doc>, amount: int, i: nat): nat
    requires i < |docs|
  {
    Positive(Min(docs[i].bal, amount - Open(docs[..i])))
  }

  /** Document `i` once the payment is applied. */
  function Paid(docs: seq<Doc>, amount: int, i: nat): Doc
    requires i < |docs|
  {
    docs[i].(bal := docs[i].bal - Share(docs, amount, i))
  }

  function Settled(docs: seq<Doc>, amount: int): seq<Doc> {
    seq(|docs|, i requires 0 <= i < |docs| => Paid(docs, amount, i))
  }

  /** The non-zero shares of the first `n` documents, in order. */
  function Applications(docs: seq<Doc>, amount: int, n: nat): seq<Application>
    requires n <= |docs|
  {
    if n == 0 then []
    else
      var earlier := Applications(docs, amount, n - 1);
      var share := Share(docs, amount, n - 1);
      if share > 0 then earlier + [Application(docs[n - 1].id, share)] else earlier
  }

  function Total(apps: seq<Application>): int {
    if apps == [] then 0 else Total(apps[..|apps| - 1]) + apps[|apps| - 1].amount
  }

  lemma TakeOne(docs: seq<Doc>, i: nat)
    requires i < |docs|
    ensures Open(docs[..i + 1]) == Open(docs[..i]) + Positive(docs[i].bal)
  {
    assert docs[..i + 1][..i] == docs[..i];
  }

  lemma {:induction false} OpenGrows(docs: seq<Doc>, i: nat, j: nat)
    requires i <= j <= |docs|
    ensures Open(docs[..i]) <= Open(docs[..j])
    decreases j
  {
    if i == j {
    } else {
      TakeOne(docs, j - 1);
      OpenGrows(docs, i, j - 1);
    }
  }

  /** Once the payment is used up, later documents get nothing. */
  lemma {:induction false} NothingLeft(docs: seq<Doc>, amount: int, i: nat, n: nat)
    requires i <= n <= |docs| && amount <= Open(docs[..i])
    ensures forall j | i <= j < n :: Share(docs, amount, j) == 0
    ensures Applications(docs, amount, n) == Applications(docs, amount, i)
    decreases n
  {
    if i == n {
    } else {
      NothingLeft(docs, amount, i, n - 1);
      OpenGrows(docs, i, n - 1);
    }
  }

  /** The first `i` documents are settled, the others untouched. */
  predicate Progress(was: seq<Doc>, docs: seq<Doc>, amount: int, i: nat)
    requires i <= |was|
  {
    && |docs| == |was|
    && (forall j | 0 <= j < i :: docs[j] == Paid(was, amount, j))
    && (forall j | i <= j < |was| :: docs[j] == was[j])
  }

  /** What is left of the payment after the first `i` documents. */
  function Left(docs: seq<Doc>, amount: int, i: nat): int
    requires i <= |docs|
  {
    if amount <= 0 then amount else Positive(amount - Open(docs[..i]))
  }

  lemma ShareOfLeft(was: seq<Doc>, amount: int, i: nat)
    requires i < |was| && Left(was, amount, i) > 0
    ensures Positive(Min(was[i].bal, Left(was, amount, i))) == Share(was, amount, i)
    ensures Left(was, amount, i + 1) == Left(was, amount, i) - Share(was, amount, i)
  {
    TakeOne(was, i);
  }

  lemma ProgressOne(was: seq<Doc>, docs: seq<Doc>, amount: int, i: nat) returns (next: seq<Doc>)
    requires i < |was| && Progress(was, docs, amount, i) && Left(was, amount, i) > 0
    ensures docs[i] == was[i]
    ensures var a := Positive(Min(docs[i].bal, Left(was, amount, i)));
            && next == docs[i := docs[i].(bal := docs[i].bal - a)] && Progress(was, next, amount, i + 1)
            && Left(was, amount, i + 1) == Left(was, amount, i) - a
            && Applications(was, amount, i + 1) ==
                 Applications(was, amount, i) + if a > 0 then [Application(docs[i].id, a)] else []
  {
    ShareOfLeft(was, amount, i);
    next := docs[i := Paid(was, amount, i)];
  }

  lemma ProgressDone(was: seq<Doc>, docs: seq<Doc>, amount: int, i: nat)
    requires i <= |was| && Progress(was, docs, amount, i) && (i == |was| || Left(was, amount, i) <= 0)
    ensures docs == Settled(was, amount)
    ensures Applications(was, amount, |was|) == Applications(was, amount, i)
  {
    if i < |was| {
      NothingLeft(was, amount, i, |was|);
      forall j | i <= j < |was| ensures docs[j] == Paid(was, amount, j) {
        assert Share(was, amount, j) == 0;
      }
    }
  }

  /** `apply_fifo`. */
  method ApplyFifo(docs: array<Doc>, amount: int) returns (apps: seq<Application>)
    modifies docs
    ensures docs[..] == Settled(old(docs[..]), amount)
    ensures apps == Applications(old(docs[..]), amount, docs.Length)
  {
    ghost var was := docs[..];
    var rem := amount;
    apps := [];
    var i := 0;
    while i < docs.Length && rem > 0
      invariant 0 <= i <= docs.Length
      invariant rem == Left(was, amount, i)
      invariant apps == Applications(was, amount, i)
      invariant Progress(was, docs[..], amount, i)
    {
      ghost var now := docs[..];
      ghost var next := ProgressOne(was, now, amount, i);
      var d := docs[i];
      var a := Min(d.bal, rem);
      if a > 0 {
        apps := apps + [Application(d.id, a)];
        docs[i] := d.(bal := d.bal - a);
        rem := rem - a;
        assert docs[..] == now[i := docs[i]];
      } else {
        assert docs[..] == now[i := d];
      }
      i := i + 1;
    }
    ProgressDone(was, docs[..], amount, i);
  }

  /** The applications sum to the payment or to everything open, whichever is less. */
  lemma {:induction false} ApplicationsSum(docs: seq<Doc>, amount: int, n: nat)
    requires n <= |docs|
    ensures Total(Applications(docs, amount, n)) == Positive(Min(amount, Open(docs[..n])))
    decreases n
  {
    if n == 0 {
    } else {
      TakeOne(docs, n - 1);
      ApplicationsSum(docs, amount, n - 1);
    }
  }

  /** The documents that are paid, by position. */
  function Payees(docs: seq<Doc>, amount: int, n: nat): seq<nat>
    requires n <= |docs|
  {
    if n == 0 then []
    else
      var earlier := Payees(docs, amount, n - 1);
      if Share(docs, amount, n - 1) > 0 then earlier + [n - 1] else earlier
  }

  /** Positions below `n` of documents with a share, each above the one before. */
  predicate Ascend(docs: seq<Doc>, amount: int, n: nat, at: seq<nat>) {
    && (forall k | 0 <= k < |at| :: Paying(docs, amount, n, at[k]))
    && (forall j, k | 0 <= j < k < |at| :: at[j] < at[k])
  }

  predicate Paying(docs: seq<Doc>, amount: int, n: nat, i: nat) {
    i < n && i < |docs| && Share(docs, amount, i) > 0
  }

  lemma {:induction false} PayeesAscend(docs: seq<Doc>, amount: int, n: nat)
    requires n <= |docs|
    ensures Ascend(docs, amount, n, Payees(docs, amount, n))
    decreases n
  {
    if n == 0 {
    } else {
      var earlier, m := Payees(docs, amount, n - 1), n - 1;
      PayeesAscend(docs, amount, m);
      AscendOne(docs, amount, m, earlier);
      assert Payees(docs, amount, n) == if Share(docs, amount, m) > 0 then earlier + [m] else earlier;
    }
  }

  lemma AscendOne(docs: seq<Doc>, amount: int, n: nat, at: seq<nat>)
    requires n < |docs| && Ascend(docs, amount, n, at)
    ensures Ascend(docs, amount, n + 1, at)
    ensures Share(docs, amount, n) > 0 ==> Ascend(docs, amount, n + 1, at + [n])
  {
    forall k | 0 <= k < |at| ensures Paying(docs, amount, n + 1, at[k]) {
      assert Paying(docs, amount, n, at[k]);
    }
  }

  /** The application of one paid document. */
  predicate Pays(docs: seq<Doc>, amount: int, app: Application, i: nat) {
    i < |docs| && app == Application(docs[i].id, Share(docs, amount, i))
  }

  lemma {:induction false} PayeesArePaid(docs: seq<Doc>, amount: int, n: nat)
    requires n <= |docs|
    ensures |Applications(docs, amount, n)| == |Payees(docs, amount, n)|
    ensures forall k | 0 <= k < |Applications(docs, amount, n)| ::
              Pays(docs, amount, Applications(docs, amount, n)[k], Payees(docs, amount, n)[k])
    decreases n
  {
    if n == 0 {
    } else {
      PayeesArePaid(docs, amount, n - 1);
      assert Share(docs, amount, n - 1) > 0 ==>
          Pays(docs, amount, Application(docs[n - 1].id, Share(docs, amount, n - 1)), n - 1);
    }
  }

  /** The applications name documents in order, each at most once, for positive amounts. */
  lemma ApplicationsInOrder(docs: seq<Doc>, amount: int)
    ensures var apps, at := Applications(docs, amount, |docs|), Payees(docs, amount, |docs|);
            && |at| == |apps|
            && (forall k | 0 <= k < |apps| :: Pays(docs, amount, apps[k], at[k]) && apps[k].amount > 0)
            && (forall j, k | 0 <= j < k < |at| :: at[j] < at[k])
  {
    var apps, at := Applications(docs, amount, |docs|), Payees(docs, amount, |docs|);
    PayeesAscend(docs, amount, |docs|);
    PayeesArePaid(docs, amount, |docs|);
    forall k | 0 <= k < |apps| ensures Pays(docs, amount, apps[k], at[k]) && apps[k].amount > 0 {
      assert Paying(docs, amount, |docs|, at[k]);
    }
  }

  /** The applications sum to the payment or to everything open, and that much less stays open. */
  lemma FifoConserves(docs: seq<Doc>, amount: int)
    ensures Total(Applications(docs, amount, |docs|)) == Positive(Min(amount, Open(docs)))
    ensures Open(Settled(docs, amount)) == Open(docs) - Positive(Min(amount, Open(docs)))
  {
    ApplicationsSum(docs, amount, |docs|);
    SettledOpen(docs, amount, |docs|);
    assert docs[..|docs|] == docs && Settled(docs, amount)[..|docs|] == Settled(docs, amount);
  }

  lemma {:induction false} SettledOpen(docs: seq<Doc>, amount: int, n: nat)
    requires n <= |docs|
    ensures Open(Settled(docs, amount)[..n]) == Open(docs[..n]) - Positive(Min(amount, Open(docs[..n])))
    decreases n
  {
    if n == 0 {
    } else {
      TakeOne(docs, n - 1);
      TakeOne(Settled(docs, amount), n - 1);
      SettledOpen(docs, amount, n - 1);
    }
  }

  /** No balance is pushed below zero, and every open document before one that is paid is paid off. */
  lemma OldestFirst(docs: seq<Doc>, amount: int, i: nat)
    requires i < |docs|
    ensures docs[i].bal >= 0 ==> 0 <= Settled(docs, amount)[i].bal <= docs[i].bal
    ensures docs[i].bal < 0 ==> Settled(docs, amount)[i] == docs[i]
    ensures forall j | i < j < |docs| && Share(docs, amount, j) > 0 :: Settled(docs, amount)[i].bal <= 0
  {
    forall j | i < j < |docs| && Share(docs, amount, j) > 0 ensures Settled(docs, amount)[i].bal <= 0 {
      TakeOne(docs, i);
      OpenGrows(docs, i + 1, j);
    }
  }

  /** Two payments one after the other settle what one payment of their sum would. */
  lemma PaymentsBatch(docs: seq<Doc>, p1: nat, p2: nat)
    ensures Settled(Settled(docs, p1), p2) == Settled(docs, p1 + p2)
  {
    forall i | 0 <= i < |docs| ensures Settled(Settled(docs, p1), p2)[i] == Settled(docs, p1 + p2)[i] {
      SettledOpen(docs, p1, i);
    }
  }

  // ----- Journals -----

  datatype Kind = Asset | Expense | Liability | Equity | Revenue

  /** One line of a source transaction; accounts without a code are unresolved. */
  datatype Entry = Entry(kind: Kind, code: Option<string>, amount: int)

  /** One journal line; a zero side is absent. */
  datatype Line = Line(code: Option<string>, debit: Option<int>, credit: Option<int>)

  /** `to_dr_cr`. */
  function ToDrCr(kind: Kind, amount: int): (int, int) {
    if kind == Asset || kind == Expense then
      if amount >= 0 then (amount, 0) else (0, -amount)
    else
      if amount >= 0 then (0, amount) else (-amount, 0)
  }

  /** `jline`. */
  function JLine(code: Option<string>, debit: int, credit: int): Line {
    Line(code, if debit != 0 then Some(debit) else None, if credit != 0 then Some(credit) else None)
  }

  function OrZero(x: Option<int>): int {
    if x.Some? then x.value else 0
  }

  /** Debits less credits. */
  function Excess(lines: seq<Line>): int {
    if lines == [] then 0
    else Excess(lines[..|lines| - 1]) + OrZero(lines[|lines| - 1].debit) - OrZero(lines[|lines| - 1].credit)
  }

  function Debits(lines: seq<Line>): int {
    if lines == [] then 0 else Debits(lines[..|lines| - 1]) + OrZero(lines[|lines| - 1].debit)
  }

  function Credits(lines: seq<Line>): int {
    if lines == [] then 0 else Credits(lines[..|lines| - 1]) + OrZero(lines[|lines| - 1].credit)
  }

  function WithAmounts(lines: seq<Line>): seq<Line> {
    if lines == [] then []
    else
      var kept := WithAmounts(lines[..|lines| - 1]);
      var last := lines[|lines| - 1];
      if HasAmount(last) then kept + [last] else kept
  }

  predicate Touches(lines: seq<Line>, control: set<string>) {
    exists i | 0 <= i < |lines| :: lines[i].code.Some? && lines[i].code.value in control
  }

  datatype Sent = Controlled | TooShort | Journal(lines: seq<Line>)

  lemma AppendLine(lines: seq<Line>, l: Line)
    ensures Debits(lines + [l]) == Debits(lines) + OrZero(l.debit)
    ensures Credits(lines + [l]) == Credits(lines) + OrZero(l.credit)
    ensures Excess(lines + [l]) == Excess(lines) + OrZero(l.debit) - OrZero(l.credit)
  {
    assert (lines + [l])[..|lines|] == lines;
  }

  lemma {:induction false} ExcessIsDifference(lines: seq<Line>)
    ensures Debits(lines) - Credits(lines) == Excess(lines)
  {
    if lines == [] {
    } else {
      ExcessIsDifference(lines[..|lines| - 1]);
    }
  }

  lemma {:induction false} EmptyLinesWeighNothing(lines: seq<Line>)
    ensures Excess(WithAmounts(lines)) == Excess(lines)
  {
    if lines == [] {
    } else {
      EmptyLinesWeighNothing(lines[..|lines| - 1]);
      AppendLine(WithAmounts(lines[..|lines| - 1]), lines[|lines| - 1]);
    }
  }

  predicate HasAmount(l: Line) {
    l.debit.Some? || l.credit.Some?
  }

  lemma {:induction false} KeptHaveAmounts(lines: seq<Line>)
    ensures forall i | 0 <= i < |WithAmounts(lines)| :: HasAmount(WithAmounts(lines)[i])
  {
    if lines == [] {
    } else {
      KeptHaveAmounts(lines[..|lines| - 1]);
    }
  }

  lemma {:induction false} TouchesExactly(lines: seq<Line>, control: set<string>)
    ensures Touches(WithAmounts(lines), control) <==>
              exists i | 0 <= i < |lines| ::
                HasAmount(lines[i]) && lines[i].code.Some? && lines[i].code.value in control
    ensures !Touches(WithAmounts(lines), control) ==>
              forall l | l in WithAmounts(lines) :: l.code.Some? ==> l.code.value !in control
  {
    if lines == [] {
    } else {
      var before, last := lines[..|lines| - 1], lines[|lines| - 1];
      TouchesExactly(before, control);
      if HasAmount(last) {
        assert WithAmounts(lines)[|WithAmounts(before)|] == last;
        assert forall i | 0 <= i < |WithAmounts(before)| :: WithAmounts(lines)[i] == WithAmounts(before)[i];
      }
    }
  }

  /** The journals sent so far and the counters of the run. */
  class Run {
    const control: set<string>
    const plug: Option<string>
    var sequence: nat
    var skipped: nat
    var plugged: nat

    constructor (receivable: string, payable: string, plug: Option<string>)
      ensures control == {receivable, payable} && this.plug == plug && sequence == 0 && skipped == 0 && plugged == 0
    {
      control, this.plug := {receivable, payable}, plug;
      sequence, skipped, plugged := 0, 0, 0;
    }

    /** The line that makes up a difference. */
    function Plug(diff: int): Line {
      Line(plug, if diff < 0 then Some(-diff) else None, if diff > 0 then Some(diff) else None)
    }

    /** `post_journal`, up to the request it sends. A journal that reaches the API
        balances, has at least two lines, and is the caller's with at most a plug line added. */
    method PostJournal(all: seq<Line>) returns (sent: Sent)
      modifies this
      ensures sent.Controlled? <==>
                exists i | 0 <= i < |all| :: HasAmount(all[i]) && all[i].code.Some? && all[i].code.value in control
      ensures sent.TooShort? <==> !sent.Controlled? && |WithAmounts(all)| < 2
      ensures sent.Journal? ==>
                && Debits(sent.lines) == Credits(sent.lines)
                && |sent.lines| >= 2
                && sent.lines == WithAmounts(all) + (if Excess(all) == 0 then [] else [Plug(Excess(all))])
                && (plug.None? || plug.value !in control ==>
                      forall l | l in sent.lines :: l.code.Some? ==> l.code.value !in control)
      ensures skipped == old(skipped) + (if sent.Controlled? then 1 else 0)
      ensures sequence == old(sequence) + (if sent.Journal? then 1 else 0)
      ensures plugged == old(plugged) + (if sent.Journal? && Excess(all) != 0 then 1 else 0)
    {
      var lines := WithAmounts(all);
      TouchesExactly(all, control);
      EmptyLinesWeighNothing(all);
      ExcessIsDifference(lines);
      if Touches(lines, control) {
        skipped := skipped + 1;
        return Controlled;
      }
      if |lines| < 2 {
        return TooShort;
      }
      sequence := sequence + 1;
      var diff := Debits(lines) - Credits(lines);
      if diff != 0 {
        var l := if diff > 0 then JLine(plug, 0, diff) else JLine(plug, -diff, 0);
        AppendLine(lines, l);
        lines := lines + [l];
        plugged := plugged + 1;
      }
      return Journal(lines);
    }
  }

  /** An amount as it enters assets + expenses - liabilities - equity - revenue. */
  function Signed(e: Entry): int {
    if e.kind == Asset || e.kind == Expense then e.amount else -e.amount
  }

  function SignedSum(entries: seq<Entry>): int {
    if entries == [] then 0 else SignedSum(entries[..|entries| - 1]) + Signed(entries[|entries| - 1])
  }

  function Unresolved(entries: seq<Entry>): seq<Entry> {
    if entries == [] then []
    else
      var before := Unresolved(entries[..|entries| - 1]);
      if entries[|entries| - 1].code.None? then before + [entries[|entries| - 1]] else before
  }

  function LinesOf(entries: seq<Entry>): seq<Line> {
    if entries == [] then []
    else
      var before, e := LinesOf(entries[..|entries| - 1]), entries[|entries| - 1];
      var (d, c) := ToDrCr(e.kind, e.amount);
      if e.code.Some? then before + [JLine(e.code, d, c)] else before
  }

  /** The loop that replays a transaction as a journal: unresolved accounts are left out. */
  method BuildLines(entries: seq<Entry>) returns (lines: seq<Line>)
    ensures lines == LinesOf(entries)
  {
    lines := [];
    for n := 0 to |entries|
      invariant lines == LinesOf(entries[..n])
    {
      var e := entries[n];
      assert entries[..n + 1][..n] == entries[..n];
      if e.code.Some? {
        var (d, c) := ToDrCr(e.kind, e.amount);
        lines := lines + [JLine(e.code, d, c)];
      }
    }
    assert entries[..|entries|] == entries;
  }

  /** A replayed line has one non-negative side at most. */
  predicate OneSided(l: Line) {
    OrZero(l.debit) >= 0 && OrZero(l.credit) >= 0 && !(l.debit.Some? && l.credit.Some?)
  }

  lemma {:induction false} LinesAreOneSided(entries: seq<Entry>)
    ensures forall i | 0 <= i < |LinesOf(entries)| :: OneSided(LinesOf(entries)[i])
  {
    if entries == [] {
    } else {
      LinesAreOneSided(entries[..|entries| - 1]);
    }
  }

  lemma SignedAppend(entries: seq<Entry>, e: Entry)
    ensures SignedSum(entries + [e]) == SignedSum(entries) + Signed(e)
  {
    assert (entries + [e])[..|entries|] == entries;
  }

  lemma {:induction false} ExcessIsSigned(entries: seq<Entry>)
    ensures Excess(LinesOf(entries)) == SignedSum(entries) - SignedSum(Unresolved(entries))
  {
    if entries == [] {
    } else {
      var before, e := entries[..|entries| - 1], entries[|entries| - 1];
      ExcessIsSigned(before);
      var (d, c) := ToDrCr(e.kind, e.amount);
      AppendLine(LinesOf(before), JLine(e.code, d, c));
      SignedAppend(Unresolved(before), e);
    }
  }

  /** Debits less credits of one account. */
  function ExcessOf(lines: seq<Line>, code: string): int {
    if lines == [] then 0
    else
      var l := lines[|lines| - 1];
      ExcessOf(lines[..|lines| - 1], code) + if l.code == Some(code) then OrZero(l.debit) - OrZero(l.credit) else 0
  }

  /** The signed amounts of one account. */
  function SignedOf(entries: seq<Entry>, code: string): int {
    if entries == [] then 0
    else
      var e := entries[|entries| - 1];
      SignedOf(entries[..|entries| - 1], code) + if e.code == Some(code) then Signed(e) else 0
  }

  /** Every account is debited, net, by its own signed amounts, and no line is without a code. */
  lemma {:induction false} ExcessPerAccount(entries: seq<Entry>, code: string)
    ensures ExcessOf(LinesOf(entries), code) == SignedOf(entries, code)
    ensures forall l | l in LinesOf(entries) :: l.code.Some?
  {
    if entries == [] {
    } else {
      var before, e := entries[..|entries| - 1], entries[|entries| - 1];
      ExcessPerAccount(before, code);
      var (d, c) := ToDrCr(e.kind, e.amount);
      assert (LinesOf(before) + [JLine(e.code, d, c)])[..|LinesOf(before)|] == LinesOf(before);
    }
  }

  /** The plug is what the unresolved accounts held: for a transaction that meets the accounting
      equation the journal is plugged by exactly their sum, and not at all if and only if that is zero. */
  lemma PlugIsUnresolved(entries: seq<Entry>)
    requires SignedSum(entries) == 0
    ensures Excess(LinesOf(entries)) == -SignedSum(Unresolved(entries))
    ensures Unresolved(entries) == [] ==> Excess(LinesOf(entries)) == 0
  {
    ExcessIsSigned(entries);
  }
}
