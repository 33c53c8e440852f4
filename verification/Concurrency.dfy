/** The posting services as interleaved transactions: one row lock per contact, READ
    COMMITTED queries, and unique indexes whose check waits for conflicting in-flight
    rows. Every interleaving is a serial run of the committed calls. */
module Concurrency {
  import opened Sequences
  import opened Ledger
  import CT = Contacts
  import PR = PurchaseRequests
  import Inv = LedgerInvariant

  /** Where a transaction is. Pending rows and stamps live in the phase until commit. */
  datatype Phase =
    | Waiting
    | Locked
    | Checked
    | Read(previous: int)
    | Stamped(previous: int)
    | Inserted(row: Entry)
    | Committed
    | Failed(error: LedgerError)
    | Crashed

  datatype Tx = Tx(op: Op, contact: nat, phase: Phase)

  /** The committed books, the contact row locks, the transactions, and the log of what
      has been committed, in commit order. */
  datatype System = System(books: Books, locks: map<nat, nat>, txs: map<nat, Tx>, log: seq<Op>)

  datatype Step =
    | Begin(t: nat, op: Op)
    | Lock(t: nat)
    | Check(t: nat)
    | ReadBalance(t: nat)
    | WriteStamp(t: nat)
    | InsertRow(t: nat)
    | Commit(t: nat)
    | Crash(t: nat)
    | Environment(op: Op)

  predicate IsPosting(op: Op) {
    op.Post? || op.PostTrade? || op.Reverse?
  }

  /** The checks made before the lock. */
  function Refusal(b: Books, op: Op): Option<LedgerError>
    requires IsPosting(op)
  {
    match op
    case Post(p) => PostRefusal(b, p)
    case PostTrade(p) => TradeRefusal(b, p)
    case Reverse(r) => ReverseRefusal(b, r)
  }

  /** The account an operation posts on; for a reversal, that of the committed original. */
  function BusinessOf(b: Books, op: Op): nat
    requires IsPosting(op)
  {
    match op
    case Post(p) => p.business
    case PostTrade(p) => p.business
    case Reverse(r) =>
      if IndexOf(b.entries, r.entry) < |b.entries| then b.entries[IndexOf(b.entries, r.entry)].business else 0
  }

  function ContactOf(b: Books, op: Op): nat
    requires IsPosting(op)
  {
    match op
    case Post(p) => p.contact
    case PostTrade(p) => p.contact
    case Reverse(r) =>
      if IndexOf(b.entries, r.entry) < |b.entries| then b.entries[IndexOf(b.entries, r.entry)].contact else 0
  }

  predicate Active(p: Phase) {
    !p.Committed? && !p.Failed? && !p.Crashed?
  }

  predicate Holding(p: Phase) {
    Active(p) && !p.Waiting?
  }

  /** The checks made under the lock. */
  function LockedRefusal(b: Books, op: Op): Option<LedgerError>
    requires IsPosting(op)
  {
    match op
    case Post(p) => None
    case PostTrade(p) =>
      if p.offer.Some? && SlotTaken(b.entries, p.business, p.offer.value) then
        Some(Duplicate(Some(b.entries[TradeEntryForOffer(b.entries, p.business, p.offer.value)].id)))
      else PostRefusal(b, p)
    case Reverse(r) => if HasReversal(b.entries, r.entry) then Some(AlreadyReversed) else None
  }

  /** The row a transaction inserts on the balance it read, and the table its own insert sees. */
  function RowFor(b: Books, op: Op, previous: int): Entry
    requires CanInsert(b, op)
  {
    match op
    case Post(p) => PostedRow(p, previous)
    case PostTrade(p) => PostedRow(p, previous)
    case Reverse(r) => ReversalRow(r, b.entries[IndexOf(b.entries, r.entry)], previous)
  }

  predicate CanInsert(b: Books, op: Op) {
    match op
    case Post(p) => PostRefusal(b, p).None?
    case PostTrade(p) => PostRefusal(b, p).None?
    case Reverse(r) => IndexOf(b.entries, r.entry) < |b.entries|
    case _ => false
  }

  function OwnTable(b: Books, op: Op): seq<Entry> {
    if op.Reverse? && IndexOf(b.entries, op.r.entry) < |b.entries|
    then Stamp(b.entries, IndexOf(b.entries, op.r.entry), op.r.now)
    else b.entries
  }

  /** Does transaction `u` hold an uncommitted row or stamp that the unique indexes must
      wait for before they can judge `row`? */
  predicate InFlightConflict(b: Books, u: Tx, row: Entry) {
    || (u.phase.Inserted? && (u.phase.row.id == row.id || Inv.SameSlot(u.phase.row, row)))
    || (u.op.Reverse? && (u.phase.Stamped? || u.phase.Inserted?) && IndexOf(b.entries, u.op.r.entry) < |b.entries|
        && Inv.SameSlot(b.entries[IndexOf(b.entries, u.op.r.entry)], row))
  }

  function Previous(p: Phase): int
    requires p.Read? || p.Stamped?
  {
    p.previous
  }

  predicate ReadyToInsert(tx: Tx) {
    if tx.op.Reverse? then tx.phase.Stamped? else tx.phase.Read?
  }

  predicate Blocked(s: System, t: nat, u: nat)
    requires t in s.txs && u in s.txs && ReadyToInsert(s.txs[t]) && CanInsert(s.books, s.txs[t].op)
  {
    u != t && InFlightConflict(s.books, s.txs[u], RowFor(s.books, s.txs[t].op, Previous(s.txs[t].phase)))
  }

  predicate Enabled(s: System, step: Step) {
    match step
    case Begin(t, op) => t !in s.txs && IsPosting(op)
    case Lock(t) => t in s.txs && s.txs[t].phase.Waiting? && s.txs[t].contact !in s.locks
    case Check(t) => t in s.txs && s.txs[t].phase.Locked? && IsPosting(s.txs[t].op)
    case ReadBalance(t) => t in s.txs && s.txs[t].phase.Checked? && IsPosting(s.txs[t].op)
    case WriteStamp(t) => t in s.txs && s.txs[t].phase.Read? && s.txs[t].op.Reverse?
    case InsertRow(t) =>
      && t in s.txs && ReadyToInsert(s.txs[t]) && CanInsert(s.books, s.txs[t].op)
      && forall u :: u in s.txs ==> !Blocked(s, t, u)
    case Commit(t) => t in s.txs && s.txs[t].phase.Inserted?
    case Crash(t) => t in s.txs && Active(s.txs[t].phase)
    case Environment(op) => (op.ContactCall? || op.OfferCall?) && PR.References(s.books.desk)
  }

  function Move(s: System, t: nat, p: Phase): System
    requires t in s.txs
  {
    s.(txs := s.txs[t := s.txs[t].(phase := p)])
  }

  /** The end of a transaction: its lock is released, pending work is kept or dropped. */
  function End(s: System, t: nat, p: Phase): System
    requires t in s.txs
  {
    var c := s.txs[t].contact;
    Move(s, t, p).(locks := if c in s.locks && s.locks[c] == t then s.locks - {c} else s.locks)
  }

  /** How an error inside the savepoint surfaces. */
  function Surfaced(op: Op, e: LedgerError): LedgerError {
    if op.PostTrade? && e.IntegrityViolation? then Duplicate(None) else e
  }

  function Next(s: System, step: Step): System
    requires Enabled(s, step)
  {
    match step
    case Begin(t, op) =>
      var phase := if Refusal(s.books, op).Some? then Failed(Refusal(s.books, op).value) else Waiting;
      s.(txs := s.txs[t := Tx(op, ContactOf(s.books, op), phase)])
    case Lock(t) => Move(s, t, Locked).(locks := s.locks[s.txs[t].contact := t])
    case Check(t) =>
      var e := LockedRefusal(s.books, s.txs[t].op);
      if e.Some? then End(s, t, Failed(e.value)) else Move(s, t, Checked)
    case ReadBalance(t) =>
      Move(s, t, Read(LastBalance(s.books.entries, BusinessOf(s.books, s.txs[t].op), s.txs[t].contact)))
    case WriteStamp(t) => Move(s, t, Stamped(s.txs[t].phase.previous))
    case InsertRow(t) =>
      var op := s.txs[t].op;
      var row := RowFor(s.books, op, Previous(s.txs[t].phase));
      var e := InsertError(OwnTable(s.books, op), row);
      if e.Some? then End(s, t, Failed(Surfaced(op, e.value))) else Move(s, t, Inserted(row))
    case Commit(t) =>
      var tx := s.txs[t];
      End(s, t, Committed).(
        books := s.books.(entries := Accepted(s.books.entries, tx.op, tx.phase.row)),
        log := s.log + [tx.op])
    case Crash(t) => End(s, t, Crashed)
    case Environment(op) => s.(books := Apply(s.books, op), log := s.log + [op])
  }

  // ----- The invariant -----

  /** What a transaction has established by its phase, in terms of the committed books. */
  ghost predicate TxOk(b: Books, tx: Tx) {
    Active(tx.phase) ==>
      && IsPosting(tx.op) && Refusal(b, tx.op).None? && tx.contact == ContactOf(b, tx.op)
      && (tx.phase.Stamped? ==> tx.op.Reverse?)
      && (tx.phase.Checked? || tx.phase.Read? || tx.phase.Stamped? ==> CanInsert(b, tx.op) && Unreversed(b, tx.op))
      && (tx.phase.Read? || tx.phase.Stamped? ==>
            Previous(tx.phase) == LastBalance(b.entries, BusinessOf(b, tx.op), tx.contact))
      && (tx.phase.Inserted? ==> Verdict(b, tx.op) == Ok(tx.phase.row))
  }

  predicate Unreversed(b: Books, op: Op) {
    op.Reverse? ==> !HasReversal(b.entries, op.r.entry)
  }

  ghost predicate LocksOk(s: System) {
    && (forall t :: t in s.txs && Holding(s.txs[t].phase) ==>
          s.txs[t].contact in s.locks && s.locks[s.txs[t].contact] == t)
    && (forall c :: c in s.locks ==>
          s.locks[c] in s.txs && Holding(s.txs[s.locks[c]].phase) && s.txs[s.locks[c]].contact == c)
  }

  /** No two uncommitted rows compete for one id or one slot. */
  ghost predicate PendingDistinct(s: System) {
    forall t, u :: t in s.txs && u in s.txs && t != u && s.txs[t].phase.Inserted? && s.txs[u].phase.Inserted? ==>
                     s.txs[t].phase.row.id != s.txs[u].phase.row.id
                         && !Inv.SameSlot(s.txs[t].phase.row, s.txs[u].phase.row)
  }

  ghost predicate Good(s: System) {
    Inv.Valid(s.books) && Protocol(s)
  }

  ghost predicate Protocol(s: System) {
    && LocksOk(s)
    && (forall t :: t in s.txs ==> TxOk(s.books, s.txs[t]))
    && PendingDistinct(s)
  }

  // ----- Checks stay passed -----

  /** Facts the checks rely on never go back: contacts keep their business, parties to an
      offer stay, and an accepted offer stays accepted. */
  ghost predicate Later(b: Books, c: Books) {
    && CT.Extends(b.contacts, c.contacts)
    && PR.Preserves(b.desk, c.desk) && PR.References(b.desk)
  }

  lemma PostRefusalStays(b: Books, c: Books, p: Posting)
    requires Later(b, c)
    ensures PostRefusal(b, p).None? ==> PostRefusal(c, p).None?
    ensures TradeRefusal(b, p).None? ==> TradeRefusal(c, p).None?
  {
    if p.offer.Some? && p.offer.value < |b.desk.offers| {
      assert PR.Continues(b.desk.offers[p.offer.value], c.desk.offers[p.offer.value]);
    }
  }

  lemma EnvironmentIsLater(b: Books, op: Op)
    requires Inv.Valid(b) && (op.ContactCall? || op.OfferCall?)
    ensures Inv.Valid(Apply(b, op)) && Later(b, Apply(b, op)) && Apply(b, op).entries == b.entries
  {
    Inv.StepKeepsValid(b, op);
  }

  lemma CanInsertStays(b: Books, c: Books, op: Op)
    requires Later(b, c) && c.entries == b.entries && CanInsert(b, op)
    ensures CanInsert(c, op)
  {
    match op
    case Post(p) => PostRefusalStays(b, c, p);
    case PostTrade(p) => PostRefusalStays(b, c, p);
    case _ =>
  }

  lemma RefusalStaysNone(b: Books, c: Books, op: Op)
    requires Later(b, c) && c.entries == b.entries && IsPosting(op) && Refusal(b, op).None?
    ensures Refusal(c, op).None?
  {
    match op
    case Post(p) => PostRefusalStays(b, c, p);
    case PostTrade(p) => PostRefusalStays(b, c, p);
    case Reverse(r) =>
  }

  lemma KeepsTx(b: Books, c: Books, tx: Tx)
    requires Later(b, c) && c.entries == b.entries && TxOk(b, tx) && Active(tx.phase)
    ensures TxOk(c, tx)
  {
    RefusalStaysNone(b, c, tx.op);
    if CanInsert(b, tx.op) {
      CanInsertStays(b, c, tx.op);
    }
    match tx.op
    case Post(p) => PostRefusalStays(b, c, p);
    case PostTrade(p) => PostRefusalStays(b, c, p);
    case _ =>
  }

  lemma EnvironmentKeepsTx(b: Books, op: Op, tx: Tx)
    requires Inv.Valid(b) && (op.ContactCall? || op.OfferCall?) && TxOk(b, tx)
    ensures TxOk(Apply(b, op), tx)
  {
    EnvironmentIsLater(b, op);
    if Active(tx.phase) {
      KeepsTx(b, Apply(b, op), tx);
    }
  }

  // ----- Commits on other accounts change nothing a transaction relies on -----

  lemma OtherBalance(es: seq<Entry>, op: Op, row: Entry, business: nat, contact: nat)
    requires row.contact != contact
    ensures LastBalance(Accepted(es, op, row), business, contact) == LastBalance(es, business, contact)
  {
    var fs := Accepted(es, op, row);
    if op.Reverse? && IndexOf(es, op.r.entry) < |es| {
      Inv.StampKeepsBalances(es, IndexOf(es, op.r.entry), op.r.now, business, contact);
      assert fs[..|es|] == Stamp(es, IndexOf(es, op.r.entry), op.r.now);
    } else {
      assert fs[..|es|] == es;
    }
  }

  /** Old rows keep their place, and only the reversed one gains a stamp. */
  lemma AcceptedAt(es: seq<Entry>, op: Op, row: Entry, i: nat)
    requires i < |es|
    ensures |Accepted(es, op, row)| == |es| + 1 && Accepted(es, op, row)[|es|] == row
    ensures Inv.SameButStamp(es[i], Accepted(es, op, row)[i])
    ensures Accepted(es, op, row)[i] == es[i] || (op.Reverse? && es[i].id == op.r.entry)
  {
  }

  lemma AcceptedIndex(es: seq<Entry>, op: Op, row: Entry, id: nat)
    requires IndexOf(es, id) < |es|
    ensures IndexOf(Accepted(es, op, row), id) == IndexOf(es, id)
  {
    var fs := Accepted(es, op, row);
    var k := IndexOf(es, id);
    AcceptedAt(es, op, row, k);
    var m := IndexOf(fs, id);
    assert m <= k;
    AcceptedAt(es, op, row, m);
  }

  lemma AcceptedReversal(es: seq<Entry>, op: Op, row: Entry, id: nat)
    requires row.reverses != Some(id)
    ensures HasReversal(Accepted(es, op, row), id) <==> HasReversal(es, id)
  {
    var fs := Accepted(es, op, row);
    if HasReversal(es, id) {
      var i :| 0 <= i < |es| && es[i].reverses == Some(id);
      AcceptedAt(es, op, row, i);
      assert fs[i].reverses == Some(id);
    }
    if HasReversal(fs, id) {
      var i :| 0 <= i < |fs| && fs[i].reverses == Some(id);
      if i < |es| {
        AcceptedAt(es, op, row, i);
        assert es[i].reverses == Some(id);
      }
    }
  }

  /** An insert that the store would take is still taken after another one commits. */
  lemma AcceptedInsert(es: seq<Entry>, op: Op, row: Entry, mine: Entry)
    requires InsertError(es, mine).None? && row.id != mine.id && !Inv.SameSlot(row, mine)
    requires mine.reversedAt.None?
    ensures InsertError(Accepted(es, op, row), mine).None?
  {
    var fs := Accepted(es, op, row);
    forall i | 0 <= i < |fs|
      ensures fs[i].id != mine.id
      ensures mine.offer.Some? && Occupies(mine, mine.business, mine.offer.value) ==>
                !Occupies(fs[i], mine.business, mine.offer.value)
    {
      if i < |es| {
        AcceptedAt(es, op, row, i);
      }
    }
  }

  lemma VerdictRow(b: Books, op: Op)
    requires IsPosting(op) && Verdict(b, op).Ok?
    ensures var row := Verdict(b, op).value;
            && row.business == BusinessOf(b, op) && row.contact == ContactOf(b, op) && row.reversedAt.None?
            && Refusal(b, op).None? && CanInsert(b, op) && Unreversed(b, op)
            && row == RowFor(b, op, LastBalance(b.entries, row.business, row.contact))
            && row.reverses == (if op.Reverse? then Some(op.r.entry) else None)
  {
  }

  /** Two calls on different contacts, both acceptable and not competing for a slot or an
      id: the second is still accepted, with the same row, after the first commits. */
  lemma VerdictStays(b: Books, mine: Op, other: Op)
    requires PR.References(b.desk) && IsPosting(mine) && IsPosting(other) && Verdict(b, mine).Ok?
               && Verdict(b, other).Ok?
    requires ContactOf(b, mine) != ContactOf(b, other)
    requires Verdict(b, mine).value.id != Verdict(b, other).value.id
    requires !Inv.SameSlot(Verdict(b, other).value, Verdict(b, mine).value)
    ensures Verdict(Apply(b, other), mine) == Verdict(b, mine)
  {
    VerdictRow(b, mine);
    VerdictRow(b, other);
    match mine
    case Post(p) => PostStays(b, p, other);
    case PostTrade(p) =>
      PostStays(b, p, other);
      if p.offer.Some? {
        SlotStaysFree(b.entries, other, Verdict(b, other).value, Verdict(b, mine).value);
      }
    case Reverse(r) => ReverseStays(b, r, other);
  }

  lemma PostStays(b: Books, p: Posting, other: Op)
    requires PR.References(b.desk) && IsPosting(other) && PostEntry(b, p).Ok? && Verdict(b, other).Ok?
    requires Verdict(b, other).value.contact != p.contact && Verdict(b, other).value.id != p.id
    requires !Inv.SameSlot(Verdict(b, other).value, PostEntry(b, p).value)
    ensures PostEntry(Apply(b, other), p) == PostEntry(b, p)
  {
    var fs := Accepted(b.entries, other, Verdict(b, other).value);
    VerdictRow(b, other);
    ApplyPosting(b, other);
    OtherBalance(b.entries, other, Verdict(b, other).value, p.business, p.contact);
    AcceptedInsert(b.entries, other, Verdict(b, other).value, PostEntry(b, p).value);
    SamePosting(b, fs, p);
  }

  lemma ApplyPosting(b: Books, op: Op)
    requires PR.References(b.desk) && IsPosting(op) && Verdict(b, op).Ok?
    ensures Apply(b, op) == b.(entries := Accepted(b.entries, op, Verdict(b, op).value))
  {
  }

  /** A posting reads no more of the table than the last balance and the indexes. */
  lemma SamePosting(b: Books, fs: seq<Entry>, p: Posting)
    requires PostEntry(b, p).Ok? && InsertError(fs, PostEntry(b, p).value).None?
    requires LastBalance(fs, p.business, p.contact) == LastBalance(b.entries, p.business, p.contact)
    ensures PostEntry(b.(entries := fs), p) == PostEntry(b, p)
  {
  }

  lemma SlotStaysFree(es: seq<Entry>, op: Op, row: Entry, mine: Entry)
    requires mine.offer.Some? && Occupies(mine, mine.business, mine.offer.value)
    requires !SlotTaken(es, mine.business, mine.offer.value) && !Inv.SameSlot(row, mine)
    ensures !SlotTaken(Accepted(es, op, row), mine.business, mine.offer.value)
  {
    var fs := Accepted(es, op, row);
    forall i | 0 <= i < |fs|
      ensures !Occupies(fs[i], mine.business, mine.offer.value)
    {
      if i < |es| {
        AcceptedAt(es, op, row, i);
      }
    }
  }

  lemma ReverseStays(b: Books, r: Reversing, other: Op)
    requires PR.References(b.desk) && IsPosting(other) && ReverseEntry(b, r).Ok? && Verdict(b, other).Ok?
    requires ContactOf(b, Reverse(r)) != ContactOf(b, other)
               && ReverseEntry(b, r).value.id != Verdict(b, other).value.id
    ensures ReverseEntry(Apply(b, other), r) == ReverseEntry(b, r)
  {
    var es, row := b.entries, Verdict(b, other).value;
    var fs, k := Accepted(es, other, row), IndexOf(es, r.entry);
    VerdictRow(b, other);
    OtherReversal(b, other, r.entry);
    AcceptedIndex(es, other, row, r.entry);
    AcceptedAt(es, other, row, k);
    OtherBalance(es, other, row, es[k].business, es[k].contact);
    Inv.StampIds(es, k, r.now, r.id);
    Inv.StampIds(fs, k, r.now, r.id);
    AcceptedHasId(es, other, row, r.id);
  }

  lemma AcceptedHasId(es: seq<Entry>, op: Op, row: Entry, id: nat)
    requires row.id != id && !HasId(es, id)
    ensures !HasId(Accepted(es, op, row), id)
  {
    var fs := Accepted(es, op, row);
    forall i | 0 <= i < |fs|
      ensures fs[i].id != id
    {
      if i < |es| {
        AcceptedAt(es, op, row, i);
      }
    }
  }

  /** A commit on another contact neither reverses nor stamps an entry of this one. */
  lemma OtherReversal(b: Books, other: Op, id: nat)
    requires IsPosting(other) && Verdict(b, other).Ok? && IndexOf(b.entries, id) < |b.entries|
    requires ContactOf(b, other) != b.entries[IndexOf(b.entries, id)].contact
    ensures !(other.Reverse? && other.r.entry == id)
    ensures HasReversal(Accepted(b.entries, other, Verdict(b, other).value), id) <==> HasReversal(b.entries, id)
  {
    VerdictRow(b, other);
    AcceptedReversal(b.entries, other, Verdict(b, other).value, id);
  }

  /** The checks before the lock survive any commit; what was read under the lock
      survives commits on other contacts. */
  lemma RefusalStays(b: Books, op: Op, other: Op)
    requires IsPosting(op) && PR.References(b.desk) && IsPosting(other) && Verdict(b, other).Ok? && Refusal(b, op).None?
    ensures Refusal(Apply(b, other), op).None?
    ensures ContactOf(Apply(b, other), op) == ContactOf(b, op) && BusinessOf(Apply(b, other), op) == BusinessOf(b, op)
  {
    ApplyPosting(b, other);
    if op.Reverse? {
      ReverseRefusalStays(b, Accepted(b.entries, other, Verdict(b, other).value), op.r, other);
    }
  }

  lemma ReverseRefusalStays(b: Books, fs: seq<Entry>, r: Reversing, other: Op)
    requires ReverseRefusal(b, r).None? && Verdict(b, other).Ok?
    requires fs == Accepted(b.entries, other, Verdict(b, other).value)
    ensures ReverseRefusal(b.(entries := fs), r).None?
    ensures IndexOf(fs, r.entry) == IndexOf(b.entries, r.entry) < |b.entries|
    ensures Inv.SameButStamp(b.entries[IndexOf(b.entries, r.entry)], fs[IndexOf(b.entries, r.entry)])
  {
    AcceptedIndex(b.entries, other, Verdict(b, other).value, r.entry);
    AcceptedAt(b.entries, other, Verdict(b, other).value, IndexOf(b.entries, r.entry));
  }

  lemma CommitKeepsChecks(b: Books, op: Op, other: Op)
    requires PR.References(b.desk) && IsPosting(op) && IsPosting(other) && Verdict(b, other).Ok?
    requires Refusal(b, op).None? && ContactOf(b, op) != ContactOf(b, other)
    requires CanInsert(b, op) && Unreversed(b, op)
    ensures CanInsert(Apply(b, other), op) && Unreversed(Apply(b, other), op)
  {
    ApplyPosting(b, other);
    if op.Reverse? {
      AcceptedIndex(b.entries, other, Verdict(b, other).value, op.r.entry);
      OtherReversal(b, other, op.r.entry);
    }
  }

  /** What a transaction read under its lock. */
  lemma CommitKeepsReading(b: Books, op: Op, other: Op)
    requires PR.References(b.desk) && IsPosting(op) && IsPosting(other) && Verdict(b, other).Ok?
    requires ContactOf(b, op) != ContactOf(b, other)
    ensures LastBalance(Apply(b, other).entries, BusinessOf(b, op), ContactOf(b, op))
            == LastBalance(b.entries, BusinessOf(b, op), ContactOf(b, op))
  {
    VerdictRow(b, other);
    ApplyPosting(b, other);
    OtherBalance(b.entries, other, Verdict(b, other).value, BusinessOf(b, op), ContactOf(b, op));
  }

  lemma CommitKeepsTx(b: Books, tx: Tx, other: Op)
    requires PR.References(b.desk) && TxOk(b, tx) && IsPosting(other) && Verdict(b, other).Ok?
    requires Holding(tx.phase) ==> tx.contact != ContactOf(b, other)
    requires tx.phase.Inserted? ==>
               tx.phase.row.id != Verdict(b, other).value.id && !Inv.SameSlot(Verdict(b, other).value, tx.phase.row)
    ensures TxOk(Apply(b, other), tx)
  {
    if Active(tx.phase) {
      RefusalStays(b, tx.op, other);
      if tx.phase.Inserted? {
        VerdictStays(b, tx.op, other);
      } else if Holding(tx.phase) {
        CommitKeepsReading(b, tx.op, other);
        if CanInsert(b, tx.op) && Unreversed(b, tx.op) {
          CommitKeepsChecks(b, tx.op, other);
        }
      }
    }
  }

  // ----- Every step keeps the invariant -----

  /** A transaction that goes on under its lock disturbs nobody. */
  lemma MoveKeepsProtocol(s: System, t: nat, p: Phase)
    requires Protocol(s) && t in s.txs && Holding(s.txs[t].phase) && Holding(p) && !p.Inserted?
    requires TxOk(s.books, s.txs[t].(phase := p))
    ensures Protocol(Move(s, t, p))
  {
  }

  lemma EndKeepsLocks(s: System, t: nat, p: Phase)
    requires LocksOk(s) && t in s.txs && !Active(p)
    ensures LocksOk(End(s, t, p))
  {
  }

  /** A transaction that ends without a commit gives its lock back and disturbs nobody. */
  lemma EndKeepsProtocol(s: System, t: nat, p: Phase)
    requires Protocol(s) && t in s.txs && !Active(p)
    ensures Protocol(End(s, t, p))
  {
    EndKeepsLocks(s, t, p);
  }

  lemma BeginKeepsProtocol(s: System, t: nat, op: Op)
    requires Protocol(s) && Enabled(s, Begin(t, op))
    ensures Protocol(Next(s, Begin(t, op)))
  {
  }

  lemma LockKeepsLocks(s: System, t: nat)
    requires LocksOk(s) && Enabled(s, Lock(t))
    ensures LocksOk(Next(s, Lock(t)))
  {
  }

  lemma LockKeepsProtocol(s: System, t: nat)
    requires Protocol(s) && Enabled(s, Lock(t))
    ensures Protocol(Next(s, Lock(t)))
  {
    assert TxOk(s.books, s.txs[t]);
    LockKeepsLocks(s, t);
  }

  lemma CheckKeepsProtocol(s: System, t: nat)
    requires Protocol(s) && Enabled(s, Check(t))
    ensures Protocol(Next(s, Check(t)))
  {
    assert TxOk(s.books, s.txs[t]);
    var e := LockedRefusal(s.books, s.txs[t].op);
    if e.Some? {
      EndKeepsProtocol(s, t, Failed(e.value));
    } else {
      MoveKeepsProtocol(s, t, Checked);
    }
  }

  lemma ReadKeepsProtocol(s: System, t: nat)
    requires Protocol(s) && Enabled(s, ReadBalance(t))
    ensures Protocol(Next(s, ReadBalance(t)))
  {
    assert TxOk(s.books, s.txs[t]);
    MoveKeepsProtocol(s, t, Read(LastBalance(s.books.entries, BusinessOf(s.books, s.txs[t].op), s.txs[t].contact)));
  }

  lemma StampKeepsProtocol(s: System, t: nat)
    requires Protocol(s) && Enabled(s, WriteStamp(t))
    ensures Protocol(Next(s, WriteStamp(t)))
  {
    assert TxOk(s.books, s.txs[t]);
    MoveKeepsProtocol(s, t, Stamped(s.txs[t].phase.previous));
  }

  lemma EnvironmentKeepsGood(s: System, op: Op)
    requires Good(s) && Enabled(s, Environment(op))
    ensures Good(Next(s, Environment(op)))
  {
    EnvironmentIsLater(s.books, op);
    forall t | t in s.txs
      ensures TxOk(Apply(s.books, op), s.txs[t])
    {
      EnvironmentKeepsTx(s.books, op, s.txs[t]);
    }
  }

  /** A row that passes the indexes is the row the serial call would post right now. */
  lemma InsertedIsVerdict(b: Books, tx: Tx)
    requires TxOk(b, tx) && Active(tx.phase) && ReadyToInsert(tx) && CanInsert(b, tx.op)
    requires InsertError(OwnTable(b, tx.op), RowFor(b, tx.op, Previous(tx.phase))).None?
    ensures Verdict(b, tx.op) == Ok(RowFor(b, tx.op, Previous(tx.phase)))
  {
  }

  lemma InsertKeepsPending(s: System, t: nat)
    requires PendingDistinct(s) && Enabled(s, InsertRow(t))
    ensures PendingDistinct(Move(s, t, Inserted(RowFor(s.books, s.txs[t].op, Previous(s.txs[t].phase)))))
  {
    var row := RowFor(s.books, s.txs[t].op, Previous(s.txs[t].phase));
    forall u | u in s.txs && u != t && s.txs[u].phase.Inserted?
      ensures s.txs[u].phase.row.id != row.id && !Inv.SameSlot(s.txs[u].phase.row, row)
                && !Inv.SameSlot(row, s.txs[u].phase.row)
    {
      assert !Blocked(s, t, u);
    }
  }

  /** A row let in by the indexes joins the pending rows. */
  lemma PendingKeepsProtocol(s: System, t: nat, row: Entry)
    requires Protocol(s) && t in s.txs && Holding(s.txs[t].phase) && TxOk(s.books, s.txs[t].(phase := Inserted(row)))
    requires PendingDistinct(Move(s, t, Inserted(row)))
    ensures Protocol(Move(s, t, Inserted(row)))
  {
  }

  lemma InsertKeepsProtocol(s: System, t: nat)
    requires Protocol(s) && Enabled(s, InsertRow(t))
    ensures Protocol(Next(s, InsertRow(t)))
  {
    var tx := s.txs[t];
    assert TxOk(s.books, tx);
    var row := RowFor(s.books, tx.op, Previous(tx.phase));
    var e := InsertError(OwnTable(s.books, tx.op), row);
    if e.Some? {
      EndKeepsProtocol(s, t, Failed(Surfaced(tx.op, e.value)));
    } else {
      InsertedIsVerdict(s.books, tx);
      InsertKeepsPending(s, t);
      PendingKeepsProtocol(s, t, row);
    }
  }

  /** A commit is exactly the serial call on the committed books. */
  lemma CommitIsApply(s: System, t: nat)
    requires Protocol(s) && PR.References(s.books.desk) && Enabled(s, Commit(t))
    ensures IsPosting(s.txs[t].op) && Verdict(s.books, s.txs[t].op) == Ok(s.txs[t].phase.row)
    ensures Next(s, Commit(t)).books == Apply(s.books, s.txs[t].op)
  {
    assert TxOk(s.books, s.txs[t]);
  }

  /** The other transactions still hold what they established. */
  lemma CommitKeepsOthers(s: System, t: nat, u: nat)
    requires Protocol(s) && PR.References(s.books.desk) && Enabled(s, Commit(t)) && u in s.txs && u != t
    ensures TxOk(Next(s, Commit(t)).books, s.txs[u])
  {
    CommitIsApply(s, t);
    assert TxOk(s.books, s.txs[t]) && TxOk(s.books, s.txs[u]);
    CommitKeepsTx(s.books, s.txs[u], s.txs[t].op);
  }

  lemma CommitKeepsProtocol(s: System, t: nat)
    requires Protocol(s) && PR.References(s.books.desk) && Enabled(s, Commit(t))
    ensures Protocol(Next(s, Commit(t)))
  {
    var z := Next(s, Commit(t));
    EndKeepsProtocol(s, t, Committed);
    forall u | u in z.txs
      ensures TxOk(z.books, z.txs[u])
    {
      if u != t {
        CommitKeepsOthers(s, t, u);
      }
    }
  }

  lemma CommitKeepsGood(s: System, t: nat)
    requires Good(s) && Enabled(s, Commit(t))
    ensures Good(Next(s, Commit(t)))
  {
    CommitIsApply(s, t);
    Inv.StepKeepsValid(s.books, s.txs[t].op);
    CommitKeepsProtocol(s, t);
  }

  lemma StepKeepsGood(s: System, step: Step)
    requires Good(s) && Enabled(s, step)
    ensures Good(Next(s, step))
  {
    match step
    case Begin(t, op) => BeginKeepsProtocol(s, t, op);
    case Lock(t) => LockKeepsProtocol(s, t);
    case Check(t) => CheckKeepsProtocol(s, t);
    case ReadBalance(t) => ReadKeepsProtocol(s, t);
    case WriteStamp(t) => StampKeepsProtocol(s, t);
    case InsertRow(t) => InsertKeepsProtocol(s, t);
    case Commit(t) => CommitKeepsGood(s, t);
    case Crash(t) => EndKeepsProtocol(s, t, Crashed);
    case Environment(op) => EnvironmentKeepsGood(s, op);
  }

  // ----- Every interleaving is a serial run -----

  /** A serial run in which every posting is accepted. */
  ghost predicate SerialRun(b: Books, ops: seq<Op>, c: Books)
    decreases |ops|
  {
    if ops == [] then c == b
    else
      && PR.References(b.desk) && (IsPosting(ops[0]) ==> Verdict(b, ops[0]).Ok?)
      && SerialRun(Apply(b, ops[0]), ops[1..], c)
  }

  lemma {:induction false} SerialAppend(b: Books, ops: seq<Op>, c: Books, op: Op)
    requires SerialRun(b, ops, c) && PR.References(c.desk) && (IsPosting(op) ==> Verdict(c, op).Ok?)
    ensures SerialRun(b, ops + [op], Apply(c, op))
    decreases |ops|
  {
    if ops == [] {
      assert [op][1..] == [];
    } else {
      SerialAppend(Apply(b, ops[0]), ops[1..], c, op);
      assert (ops + [op])[1..] == ops[1..] + [op];
    }
  }

  function Start(b: Books): System {
    System(b, map[], map[], [])
  }

  ghost predicate Runs(s: System, steps: seq<Step>, z: System)
    decreases |steps|
  {
    if steps == [] then z == s
    else Enabled(s, steps[0]) && Runs(Next(s, steps[0]), steps[1..], z)
  }

  /** Everything a committed transaction did is in the log. */
  ghost predicate CommittedLogged(s: System) {
    forall t :: t in s.txs && s.txs[t].phase.Committed? ==> s.txs[t].op in s.log
  }

  /** And nothing else: every posting in the log is that of a committed transaction. */
  ghost predicate NoPhantoms(s: System) {
    forall op :: op in s.log && IsPosting(op) ==>
        exists t :: t in s.txs && s.txs[t].phase.Committed? && s.txs[t].op == op
  }

  lemma StepKeepsNoPhantoms(s: System, step: Step)
    requires NoPhantoms(s) && Enabled(s, step)
    ensures NoPhantoms(Next(s, step))
  {
    var z := Next(s, step);
    forall op | op in z.log && IsPosting(op)
      ensures exists t :: t in z.txs && z.txs[t].phase.Committed? && z.txs[t].op == op
    {
      if op in s.log {
        var t :| t in s.txs && s.txs[t].phase.Committed? && s.txs[t].op == op;
        assert z.txs[t] == s.txs[t];
      } else {
        assert step.Commit? && z.txs[step.t].op == op;
      }
    }
  }

  lemma {:induction false} RunKeepsNoPhantoms(s: System, steps: seq<Step>, z: System)
    requires NoPhantoms(s) && Runs(s, steps, z)
    ensures NoPhantoms(z)
    decreases |steps|
  {
    if steps != [] {
      StepKeepsNoPhantoms(s, steps[0]);
      RunKeepsNoPhantoms(Next(s, steps[0]), steps[1..], z);
    }
  }

  lemma StepExtendsSerialRun(b: Books, s: System, step: Step)
    requires Protocol(s) && PR.References(s.books.desk) && Enabled(s, step) && SerialRun(b, s.log, s.books)
    ensures SerialRun(b, Next(s, step).log, Next(s, step).books)
  {
    match step
    case Commit(t) =>
      CommitIsApply(s, t);
      SerialAppend(b, s.log, s.books, s.txs[t].op);
    case Environment(op) => SerialAppend(b, s.log, s.books, op);
    case _ =>
  }

  lemma StepKeepsCommittedLogged(s: System, step: Step)
    requires CommittedLogged(s) && Enabled(s, step)
    ensures CommittedLogged(Next(s, step))
  {
  }

  lemma {:induction false} InterleavingIsSerial(b: Books, s: System, steps: seq<Step>, z: System)
    requires Good(s) && SerialRun(b, s.log, s.books) && CommittedLogged(s) && Runs(s, steps, z)
    ensures Good(z) && SerialRun(b, z.log, z.books) && CommittedLogged(z)
    decreases |steps|
  {
    if steps != [] {
      StepKeepsGood(s, steps[0]);
      StepExtendsSerialRun(b, s, steps[0]);
      StepKeepsCommittedLogged(s, steps[0]);
      InterleavingIsSerial(b, Next(s, steps[0]), steps[1..], z);
    }
  }

  lemma {:induction false} SerialRunReaches(b: Books, ops: seq<Op>, c: Books)
    requires SerialRun(b, ops, c)
    ensures Reaches(b, ops, c)
    decreases |ops|
  {
    if ops != [] {
      SerialRunReaches(Apply(b, ops[0]), ops[1..], c);
    }
  }

  /** For every interleaving from valid books: the committed books are those of the
      committed calls run one after the other, each accepted, and they are valid. So running
      balances chain exactly, no update is lost, and an offer has one live trade per
      business; whatever holds on every serial run holds of them. */
  lemma EveryInterleavingIsSerial(b: Books, steps: seq<Step>, z: System)
    requires Inv.Valid(b) && Runs(Start(b), steps, z)
    ensures SerialRun(b, z.log, z.books) && CommittedLogged(z) && NoPhantoms(z)
    ensures Reaches(b, z.log, z.books) && Inv.Valid(z.books)
  {
    InterleavingIsSerial(b, Start(b), steps, z);
    RunKeepsNoPhantoms(Start(b), steps, z);
    SerialRunReaches(b, z.log, z.books);
  }

  lemma RefusedBeforeTheLock(b: Books, op: Op)
    requires IsPosting(op) && Refusal(b, op).Some?
    ensures Verdict(b, op) == Err(Refusal(b, op).value)
  {
  }

  lemma RefusedUnderTheLock(b: Books, op: Op)
    requires IsPosting(op) && Refusal(b, op).None? && LockedRefusal(b, op).Some?
    ensures Verdict(b, op) == Err(LockedRefusal(b, op).value)
  {
  }

  /** What an insert that loses is told, next to what the same call would be told alone:
      only a trade's duplicate differs, because its own check did not see it. */
  predicate ToldAs(op: Op, error: LedgerError, alone: LedgerError) {
    error == alone
    || (op.PostTrade? && alone.Duplicate? && (error == Duplicate(None) || error == NumericOverflow))
  }

  lemma RefusedByTheStore(b: Books, op: Op)
    requires IsPosting(op) && CanInsert(b, op) && Refusal(b, op).None? && Unreversed(b, op)
    requires InsertError(OwnTable(b, op),
               RowFor(b, op, LastBalance(b.entries, BusinessOf(b, op), ContactOf(b, op)))).Some?
    ensures var row := RowFor(b, op, LastBalance(b.entries, BusinessOf(b, op), ContactOf(b, op)));
            Verdict(b, op).Err?
            && ToldAs(op, Surfaced(op, InsertError(OwnTable(b, op), row).value), Verdict(b, op).error)
  {
  }

  lemma LosingInsert(s: System, t: nat)
    requires Protocol(s) && Enabled(s, InsertRow(t)) && Next(s, InsertRow(t)).txs[t].phase.Failed?
    ensures Verdict(s.books, s.txs[t].op).Err?
    ensures ToldAs(s.txs[t].op, Next(s, InsertRow(t)).txs[t].phase.error, Verdict(s.books, s.txs[t].op).error)
  {
    assert TxOk(s.books, s.txs[t]);
    RefusedByTheStore(s.books, s.txs[t].op);
  }

  lemma LosingCheck(s: System, t: nat)
    requires Protocol(s) && Enabled(s, Check(t)) && Next(s, Check(t)).txs[t].phase.Failed?
    ensures Verdict(s.books, s.txs[t].op) == Err(Next(s, Check(t)).txs[t].phase.error)
  {
    assert TxOk(s.books, s.txs[t]);
    RefusedUnderTheLock(s.books, s.txs[t].op);
  }

  lemma LosingBegin(s: System, t: nat, op: Op)
    requires Enabled(s, Begin(t, op)) && Next(s, Begin(t, op)).txs[t].phase.Failed?
    ensures Verdict(s.books, op) == Err(Next(s, Begin(t, op)).txs[t].phase.error)
  {
    RefusedBeforeTheLock(s.books, op);
  }

  /** Only these three steps can lose, and only for the transaction that takes them. */
  lemma WhoLoses(s: System, step: Step, t: nat)
    requires Enabled(s, step) && t in Next(s, step).txs && Next(s, step).txs[t].phase.Failed?
    requires t !in s.txs || !s.txs[t].phase.Failed?
    ensures (step.Begin? || step.Check? || step.InsertRow?) && step.t == t
    ensures Next(s, step).books == s.books && Next(s, step).log == s.log
    ensures Next(s, step).txs[t].op == if step.Begin? then step.op else s.txs[t].op
  {
  }

  /** A transaction that loses leaves the books alone, would have been refused had it run
      alone at that moment, and is told so with the same error. Only a trade that loses at
      the unique indexes may be told less: that it is a duplicate without the entry, or that
      its figures do not fit. */
  lemma LosersAreRefusedSerially(s: System, step: Step, t: nat)
    requires Protocol(s) && Enabled(s, step) && t in Next(s, step).txs && Next(s, step).txs[t].phase.Failed?
    requires t !in s.txs || !s.txs[t].phase.Failed?
    ensures Next(s, step).books == s.books && Next(s, step).log == s.log
    ensures Verdict(s.books, Next(s, step).txs[t].op).Err?
    ensures var op, error := Next(s, step).txs[t].op, Next(s, step).txs[t].phase.error;
            var alone := Verdict(s.books, op).error;
            error == alone
            || (step.InsertRow? && op.PostTrade? && alone.Duplicate?
                && (error == Duplicate(None) || error == NumericOverflow))
  {
    WhoLoses(s, step, t);
    if step.Begin? {
      LosingBegin(s, t, step.op);
    } else if step.Check? {
      LosingCheck(s, t);
    } else {
      LosingInsert(s, t);
    }
  }

  // ----- Nobody waits for ever -----

  function Rank(p: Phase): nat {
    match p
    case Waiting => 0
    case Locked => 1
    case Checked => 2
    case Read(_) => 3
    case Stamped(_) => 4
    case _ => 5
  }

  /** `t` cannot move until `u` has ended: it wants the lock `u` holds, or an index has to
      learn what becomes of `u`'s pending row. */
  ghost predicate WaitsFor(s: System, t: nat, u: nat) {
    && t in s.txs && u in s.txs
    && ((s.txs[t].phase.Waiting? && s.txs[t].contact in s.locks && s.locks[s.txs[t].contact] == u)
        || (ReadyToInsert(s.txs[t]) && CanInsert(s.books, s.txs[t].op) && Blocked(s, t, u)))
  }

  /** Waiting always points at a transaction that is further along, so there is no cycle. */
  lemma WaitingIsAcyclic(s: System, t: nat, u: nat)
    requires Protocol(s) && WaitsFor(s, t, u)
    ensures Active(s.txs[u].phase) && Rank(s.txs[t].phase) < Rank(s.txs[u].phase)
  {
    if !s.txs[t].phase.Waiting? {
      BlockedByFurther(s, t, u);
    }
  }

  lemma BlockedByFurther(s: System, t: nat, u: nat)
    requires Protocol(s) && t in s.txs && u in s.txs && ReadyToInsert(s.txs[t]) && CanInsert(s.books, s.txs[t].op)
               && Blocked(s, t, u)
    ensures Rank(s.txs[t].phase) < Rank(s.txs[u].phase) && Active(s.txs[u].phase)
  {
    var op := s.txs[t].op;
    if op.Reverse? {
      assert RowFor(s.books, op, Previous(s.txs[t].phase)).offer.None?;
    }
  }

  /** While a transaction is active, some transaction can take a real step. */
  lemma {:induction false} SomebodyCanMove(s: System, t: nat) returns (step: Step)
    requires Protocol(s) && t in s.txs && Active(s.txs[t].phase)
    ensures Enabled(s, step) && !step.Crash? && !step.Environment? && !step.Begin?
    decreases 5 - Rank(s.txs[t].phase)
  {
    var tx := s.txs[t];
    assert TxOk(s.books, tx);
    if tx.phase.Waiting? {
      if tx.contact in s.locks {
        var u := s.locks[tx.contact];
        WaitingIsAcyclic(s, t, u);
        step := SomebodyCanMove(s, u);
      } else {
        step := Lock(t);
      }
    } else if tx.phase.Locked? {
      step := Check(t);
    } else if tx.phase.Checked? {
      step := ReadBalance(t);
    } else if tx.phase.Inserted? {
      step := Commit(t);
    } else if !ReadyToInsert(tx) {
      step := WriteStamp(t);
    } else if u :| u in s.txs && Blocked(s, t, u) {
      WaitingIsAcyclic(s, t, u);
      step := SomebodyCanMove(s, u);
    } else {
      step := InsertRow(t);
    }
  }
}
