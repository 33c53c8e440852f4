/** The posting services, step by step over the stored rows. */
module LedgerBook {
  import opened Sequences
  import opened Money
  import opened Ledger
  import CT = Contacts
  import PR = PurchaseRequests
  import Inv = LedgerInvariant

  class Book {
    var entries: seq<Entry>
    const contacts: CT.ContactList
    const desk: PR.OfferDesk

    function View(): Books
      reads this, contacts, desk
    {
      Books(entries, contacts.rows, desk.View())
    }

    ghost predicate Valid()
      reads this, contacts, desk
    {
      Inv.Valid(View())
    }

    constructor (contacts: CT.ContactList, desk: PR.OfferDesk)
      requires contacts.Valid() && desk.Valid()
      ensures Valid() && this.contacts == contacts && this.desk == desk && entries == []
    {
      this.contacts, this.desk, entries := contacts, desk, [];
    }

    /** `objects.create`: the store's checks, then the row. */
    method Insert(row: Entry) returns (err: Option<LedgerError>)
      modifies this`entries
      ensures err == InsertError(old(entries), row)
      ensures entries == if err.None? then old(entries) + [row] else old(entries)
    {
      err := InsertError(entries, row);
      if err.None? {
        entries := entries + [row];
      }
    }

    /** `post_entry`. */
    method PostEntry(p: Posting) returns (r: Result<Entry>)
      requires Valid()
      modifies this`entries
      ensures r == Ledger.PostEntry(old(View()), p)
      ensures View() == Apply(old(View()), Post(p))
      ensures Valid()
    {
      ghost var before := View();
      r := CheckAndPost(p);
      assert View() == Apply(before, Post(p));
      Inv.StepKeepsValid(before, Post(p));
    }

    /** The checks of `post_entry`, in its order, and then the post. */
    method CheckAndPost(p: Posting) returns (r: Result<Entry>)
      modifies this`entries
      ensures r == Ledger.PostEntry(old(View()), p)
      ensures entries == if r.Ok? then old(entries) + [r.value] else old(entries)
    {
      if !RowsExist(View(), p) { return Err(MissingRow); }
      if !p.member.Member? || !p.member.manages { return Err(NotAllowed); }
      if p.member.business != p.business { return Err(WrongBusiness); }
      if contacts.rows[p.contact].business != p.business { return Err(ForeignContact); }
      var direction := Direction(p.kind);
      if direction.None? { return Err(BadKind); }
      var amount := Quantize(p.amount);
      if amount.None? || amount.value <= 0 { return Err(BadAmount); }
      if (p.kind.AdjustDebit? || p.kind.AdjustCredit?) && !p.hasReason { return Err(ReasonRequired); }
      if p.lotOwner.Some? && p.lotOwner.value != p.business { return Err(ForeignLot); }
      if p.offer.Some? && !PartyTo(View(), p.business, p.offer.value) { return Err(ForeignOffer); }
      r := PostLocked(p, amount.value, direction.value);
    }

    /** The part of `post_entry` under the contact lock. */
    method PostLocked(p: Posting, amount: int, direction: int) returns (r: Result<Entry>)
      requires PostRefusal(View(), p).None?
      requires Quantize(p.amount) == Some(amount) && Direction(p.kind) == Some(direction)
      modifies this`entries
      ensures r == Ledger.PostEntry(old(View()), p)
      ensures entries == if r.Ok? then old(entries) + [r.value] else old(entries)
    {
      var previous := LastBalance(entries, p.business, p.contact);
      var delta := amount * direction;
      var balanceAfter := HalfEven(Value(previous) + Value(delta));
      BalanceIsExact(previous, delta);
      var occurredOn := if p.occurredOn.Some? then p.occurredOn.value else p.today;
      var row := Entry(p.id, p.business, p.contact, p.kind, amount, delta, balanceAfter,
                       occurredOn, p.offer, None, None);
      var err := Insert(row);
      return if err.Some? then Err(err.value) else Ok(row);
    }

    /** `post_trade_entry`: the duplicate check under the contact lock, then the normal
        posting path, whose unique violation also reads as a duplicate. */
    method PostTradeEntry(p: Posting) returns (r: Result<Entry>)
      requires Valid()
      modifies this`entries
      ensures r == Ledger.PostTradeEntry(old(View()), p)
      ensures View() == Apply(old(View()), PostTrade(p))
      ensures Valid()
    {
      if !RowsExist(View(), p) { return Err(MissingRow); }
      if !p.member.Member? || !p.member.manages { return Err(NotAllowed); }
      if p.member.business != p.business { return Err(WrongBusiness); }
      if !IsTrade(p.kind) { return Err(BadKind); }
      if contacts.rows[p.contact].business != p.business { return Err(ForeignContact); }
      if p.lotOwner.Some? && p.lotOwner.value != p.business { return Err(ForeignLot); }
      if p.offer.Some? {
        if !PartyTo(View(), p.business, p.offer.value) { return Err(ForeignOffer); }
        if !desk.offers[p.offer.value].status.Accepted? { return Err(OfferNotAccepted); }
        var k := TradeEntryForOffer(entries, p.business, p.offer.value);
        if k < |entries| { return Err(Duplicate(Some(entries[k].id))); }
      }
      r := PostEntry(p);
      if r == Err(IntegrityViolation) {
        r := Err(Duplicate(None));
      }
    }

    /** `reverse_entry`. */
    method ReverseEntry(q: Reversing) returns (r: Result<Entry>)
      requires Valid()
      modifies this`entries
      ensures r == Ledger.ReverseEntry(old(View()), q)
      ensures View() == Apply(old(View()), Reverse(q))
      ensures Valid()
    {
      Inv.StepKeepsValid(View(), Reverse(q));
      var k := IndexOf(entries, q.entry);
      if k == |entries| { return Err(MissingRow); }
      if !q.member.Member? || !q.member.manages { return Err(NotAllowed); }
      if q.member.business != entries[k].business { return Err(WrongBusiness); }
      if entries[k].kind.Reversal? { return Err(IsReversal); }
      r := ReverseLocked(q, k);
    }

    /** The part of `reverse_entry` under the contact lock. The stamp is written before
        the reversal row, and rolled back with it when the row is refused. */
    method ReverseLocked(q: Reversing, k: nat) returns (r: Result<Entry>)
      requires k == IndexOf(entries, q.entry) < |entries| && ReverseRefusal(View(), q).None?
      modifies this`entries
      ensures r == Ledger.ReverseEntry(old(View()), q)
      ensures entries == if r.Ok? then Accepted(old(entries), Reverse(q), r.value) else old(entries)
    {
      if HasReversal(entries, q.entry) { return Err(AlreadyReversed); }
      var savepoint, original := entries, entries[k];
      var previous := LastBalance(entries, original.business, original.contact);
      var delta := -original.delta;
      var balanceAfter := HalfEven(Value(previous) + Value(delta));
      BalanceIsExact(previous, delta);
      if original.reversedAt.None? {
        entries := entries[k := original.(reversedAt := Some(q.now))];
      }
      var row := Entry(q.id, original.business, original.contact, Reversal, original.amount, delta, balanceAfter,
                       q.today, None, Some(original.id), None);
      var err := Insert(row);
      if err.Some? {
        entries := savepoint;
        return Err(err.value);
      }
      return Ok(row);
    }
  }
}
