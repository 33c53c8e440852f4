/** Ledger rows, the queries over them, and what each posting service is specified to
    add. A row's place in the sequence is its place in `created_at` order; ids are the
    fresh UUIDs the services draw. */
module Ledger {
  import opened Sequences
  import opened Money
  import CT = Contacts
  import PR = PurchaseRequests

  datatype Kind = Sale | Purchase | PaymentReceived | PaymentMade | AdjustDebit | AdjustCredit | Reversal

  datatype Entry = Entry(
    id: nat, business: nat, contact: nat, kind: Kind, amount: int, delta: int, balanceAfter: int,
    occurredOn: int, offer: Option<nat>, reverses: Option<nat>, reversedAt: Option<int>)

  /** The rows a posting service can see: contacts and offers are read, entries grow. */
  datatype Books = Books(entries: seq<Entry>, contacts: seq<CT.Contact>, desk: PR.Tables)

  /** The acting member; `manages` is the `ledger.manage` capability. */
  datatype Member = NoMember | Member(business: nat, manages: bool)

  datatype LedgerError =
    | MissingRow | NotAllowed | WrongBusiness | ForeignContact | BadKind | BadAmount | ReasonRequired
    | ForeignLot | ForeignOffer | OfferNotAccepted | Duplicate(existing: Option<nat>)
    | IsReversal | AlreadyReversed | IntegrityViolation | NumericOverflow

  datatype Result<+T> = Ok(value: T) | Err(error: LedgerError)

  /** The arguments of `post_entry` and `post_trade_entry`; `id` is the drawn UUID,
      `today` the local date used when no date is given, `lotOwner` the business owning
      the related lot. */
  datatype Posting = Posting(
    id: nat, business: nat, contact: nat, member: Member, kind: Kind, amount: RawAmount, hasReason: bool,
    occurredOn: Option<int>, today: int, lotOwner: Option<nat>, offer: Option<nat>)

  /** The arguments of `reverse_entry`, with the drawn UUID and the clock readings. */
  datatype Reversing = Reversing(id: nat, entry: nat, member: Member, now: int, today: int)

  /** +1 raises what the contact owes, -1 lowers it; reversals have no direction of their own. */
  function Direction(kind: Kind): Option<int> {
    match kind
    case Sale | PaymentMade | AdjustDebit => Some(1)
    case Purchase | PaymentReceived | AdjustCredit => Some(-1)
    case Reversal => None
  }

  predicate IsTrade(kind: Kind) {
    kind.Sale? || kind.Purchase?
  }

  // ----- Queries -----

  predicate OnAccount(e: Entry, business: nat, contact: nat) {
    e.business == business && e.contact == contact
  }

  /** `_last_balance` and `current_balance`: the running balance of the newest row. */
  function LastBalance(es: seq<Entry>, business: nat, contact: nat): int {
    if es == [] then 0
    else if OnAccount(es[|es| - 1], business, contact) then es[|es| - 1].balanceAfter
    else LastBalance(es[..|es| - 1], business, contact)
  }

  /** The position of the row with this id, or the length when there is none. */
  function IndexOf(es: seq<Entry>, id: nat): (k: nat)
    ensures k <= |es|
    ensures k < |es| ==> es[k].id == id
    ensures forall i :: 0 <= i < k ==> es[i].id != id
  {
    if es == [] then 0
    else
      var k := IndexOf(es[..|es| - 1], id);
      if k < |es| - 1 || es[|es| - 1].id == id then k else k + 1
  }

  /** A row inside the condition of `uniq_trade_entry_per_offer`. */
  predicate Occupies(e: Entry, business: nat, offer: nat) {
    e.business == business && e.offer == Some(offer) && IsTrade(e.kind) && e.reversedAt.None?
  }

  predicate SlotTaken(es: seq<Entry>, business: nat, offer: nat) {
    exists i :: 0 <= i < |es| && Occupies(es[i], business, offer)
  }

  /** `trade_entry_for_offer`: the first live trade recorded for the offer. */
  function TradeEntryForOffer(es: seq<Entry>, business: nat, offer: nat): (k: nat)
    ensures k <= |es|
    ensures k < |es| ==> Occupies(es[k], business, offer)
    ensures k == |es| <==> !SlotTaken(es, business, offer)
  {
    if es == [] then 0
    else
      var n := |es| - 1;
      var k := TradeEntryForOffer(es[..n], business, offer);
      assert forall i :: 0 <= i < n ==> es[i] == es[..n][i];
      if k < n || Occupies(es[n], business, offer) then k else k + 1
  }

  predicate HasReversal(es: seq<Entry>, id: nat) {
    exists i :: 0 <= i < |es| && es[i].reverses == Some(id)
  }

  predicate HasId(es: seq<Entry>, id: nat) {
    exists i :: 0 <= i < |es| && es[i].id == id
  }

  // ----- The store -----

  /** What inserting a row raises: column widths first, then the unique constraints. */
  function InsertError(es: seq<Entry>, e: Entry): Option<LedgerError> {
    if !(e.amount < AMOUNT_LIMIT && -BALANCE_LIMIT < e.balanceAfter < BALANCE_LIMIT) then Some(NumericOverflow)
    else if HasId(es, e.id) then Some(IntegrityViolation)
    else if e.offer.Some? && Occupies(e, e.business, e.offer.value) && SlotTaken(es, e.business, e.offer.value)
      then Some(IntegrityViolation)
    else None
  }

  // ----- post_entry -----

  predicate PartyTo(b: Books, business: nat, offer: nat)
    requires offer < |b.desk.offers|
  {
    var o := b.desk.offers[offer];
    business == o.seller || (o.request < |b.desk.requests| && business == b.desk.requests[o.request].business)
  }

  predicate RowsExist(b: Books, p: Posting) {
    && p.contact < |b.contacts|
    && (p.offer.Some? ==> p.offer.value < |b.desk.offers|)
  }

  /** The checks `post_entry` makes before it takes the contact lock. */
  function PostRefusal(b: Books, p: Posting): Option<LedgerError> {
    if !RowsExist(b, p) then Some(MissingRow)
    else if !p.member.Member? || !p.member.manages then Some(NotAllowed)
    else if p.member.business != p.business then Some(WrongBusiness)
    else if b.contacts[p.contact].business != p.business then Some(ForeignContact)
    else if p.kind.Reversal? then Some(BadKind)
    else if Quantize(p.amount).None? || Quantize(p.amount).value <= 0 then Some(BadAmount)
    else if (p.kind.AdjustDebit? || p.kind.AdjustCredit?) && !p.hasReason then Some(ReasonRequired)
    else if p.lotOwner.Some? && p.lotOwner.value != p.business then Some(ForeignLot)
    else if p.offer.Some? && !PartyTo(b, p.business, p.offer.value) then Some(ForeignOffer)
    else None
  }

  /** The row `post_entry` inserts on top of a previous balance. */
  function PostedRow(p: Posting, previous: int): Entry
    requires Direction(p.kind).Some? && Quantize(p.amount).Some?
  {
    var amount := Quantize(p.amount).value;
    var delta := amount * Direction(p.kind).value;
    Entry(p.id, p.business, p.contact, p.kind, amount, delta, previous + delta,
          if p.occurredOn.Some? then p.occurredOn.value else p.today, p.offer, None, None)
  }

  function PostEntry(b: Books, p: Posting): Result<Entry> {
    if PostRefusal(b, p).Some? then Err(PostRefusal(b, p).value)
    else
      var row := PostedRow(p, LastBalance(b.entries, p.business, p.contact));
      if InsertError(b.entries, row).Some? then Err(InsertError(b.entries, row).value) else Ok(row)
  }

  // ----- post_trade_entry -----

  /** The checks `post_trade_entry` makes before it takes the contact lock. */
  function TradeRefusal(b: Books, p: Posting): Option<LedgerError> {
    if !RowsExist(b, p) then Some(MissingRow)
    else if !p.member.Member? || !p.member.manages then Some(NotAllowed)
    else if p.member.business != p.business then Some(WrongBusiness)
    else if !IsTrade(p.kind) then Some(BadKind)
    else if b.contacts[p.contact].business != p.business then Some(ForeignContact)
    else if p.lotOwner.Some? && p.lotOwner.value != p.business then Some(ForeignLot)
    else if p.offer.Some? && !PartyTo(b, p.business, p.offer.value) then Some(ForeignOffer)
    else if p.offer.Some? && !b.desk.offers[p.offer.value].status.Accepted? then Some(OfferNotAccepted)
    else None
  }

  function PostTradeEntry(b: Books, p: Posting): Result<Entry> {
    if TradeRefusal(b, p).Some? then Err(TradeRefusal(b, p).value)
    else if p.offer.Some? && SlotTaken(b.entries, p.business, p.offer.value) then
      Err(Duplicate(Some(b.entries[TradeEntryForOffer(b.entries, p.business, p.offer.value)].id)))
    else
      match PostEntry(b, p)
      case Err(IntegrityViolation) => Err(Duplicate(None))
      case r => r
  }

  // ----- reverse_entry -----

  /** The row `reverse_entry` inserts for `o` on top of a previous balance. */
  function ReversalRow(r: Reversing, o: Entry, previous: int): Entry {
    Entry(r.id, o.business, o.contact, Reversal, o.amount, -o.delta, previous - o.delta, r.today,
          None, Some(o.id), None)
  }

  function Stamp(es: seq<Entry>, k: nat, now: int): (r: seq<Entry>)
    requires k < |es|
    ensures |r| == |es|
  {
    if es[k].reversedAt.None? then es[k := es[k].(reversedAt := Some(now))] else es
  }

  function ReverseRefusal(b: Books, r: Reversing): Option<LedgerError> {
    var k := IndexOf(b.entries, r.entry);
    if k == |b.entries| then Some(MissingRow)
    else if !r.member.Member? || !r.member.manages then Some(NotAllowed)
    else if r.member.business != b.entries[k].business then Some(WrongBusiness)
    else if b.entries[k].kind.Reversal? then Some(IsReversal)
    else None
  }

  function ReverseEntry(b: Books, r: Reversing): Result<Entry> {
    if ReverseRefusal(b, r).Some? then Err(ReverseRefusal(b, r).value)
    else if HasReversal(b.entries, r.entry) then Err(AlreadyReversed)
    else
      var k := IndexOf(b.entries, r.entry);
      var o := b.entries[k];
      var row := ReversalRow(r, o, LastBalance(b.entries, o.business, o.contact));
      if InsertError(Stamp(b.entries, k, r.now), row).Some? then Err(InsertError(Stamp(b.entries, k, r.now), row).value)
      else Ok(row)
  }

  // ----- Runs -----

  /** One committed service call on the books. Besides the three postings, contacts are
      created, edited, archived and restored, and offers move on their own. */
  datatype Op =
    | Post(p: Posting)
    | PostTrade(p: Posting)
    | Reverse(r: Reversing)
    | ContactCall(contactCall: CT.Call, businesses: set<nat>)
    | OfferCall(offerCall: PR.Call, businesses: set<nat>)

  /** The row an operation posts, when it posts one. */
  function Verdict(b: Books, op: Op): Result<Entry> {
    match op
    case Post(p) => PostEntry(b, p)
    case PostTrade(p) => PostTradeEntry(b, p)
    case Reverse(r) => ReverseEntry(b, r)
    case _ => Err(MissingRow)
  }

  /** The entries once `row` is accepted: a reversal also stamps its original. */
  function Accepted(es: seq<Entry>, op: Op, row: Entry): seq<Entry> {
    if op.Reverse? && IndexOf(es, op.r.entry) < |es| then Stamp(es, IndexOf(es, op.r.entry), op.r.now) + [row]
    else es + [row]
  }

  function Apply(b: Books, op: Op): Books
    requires PR.References(b.desk)
  {
    match op
    case ContactCall(call, businesses) => b.(contacts := CT.Step(b.contacts, call, businesses))
    case OfferCall(call, businesses) => b.(desk := PR.Step(b.desk, call, businesses))
    case _ =>
      if Verdict(b, op).Ok? then b.(entries := Accepted(b.entries, op, Verdict(b, op).value)) else b
  }

  /** The books after a run; every step is one service call. */
  ghost predicate Reaches(b: Books, ops: seq<Op>, c: Books)
    decreases |ops|
  {
    if ops == [] then c == b
    else PR.References(b.desk) && Reaches(Apply(b, ops[0]), ops[1..], c)
  }
}
