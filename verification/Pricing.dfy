/** Which price a viewer is shown for a lot: audience tiers, the one override made for the
    viewer, and the prefetched path that must not change the answer. */
module Pricing {
  import opened Sequences
  import opened Money
  import CT = Contacts

  datatype Audience = OwnerStaff | B2bPartner | B2cPublic | PlatformAdmin
  datatype Unit = PerSqm | PerSlab | InquiryOnly

  datatype LotPrice = LotPrice(lot: nat, tier: string, amount: int, currency: string, unit: Unit)
  datatype ContactPrice = ContactPrice(contact: nat, lot: nat, amount: int, currency: string, unit: Unit)
  datatype PriceView = PriceView(tier: string, amount: Option<int>, currency: string, unit: Unit, inquiry: bool)

  /** The rows prices are resolved from; lot ids index `owners`, contact ids `contacts`. */
  datatype Rows = Rows(
    owners: seq<nat>, contacts: seq<CT.Contact>, activeTiers: set<string>,
    lotPrices: seq<LotPrice>, contactPrices: seq<ContactPrice>)

  const CONTACT_TIER := "contact"

  function AllowedTiers(a: Audience): set<string> {
    match a
    case OwnerStaff | PlatformAdmin => {"b2b", "b2c"}
    case B2bPartner => {"b2b"}
    case B2cPublic => {"b2c"}
  }

  function FallbackOrder(a: Audience): seq<string> {
    match a
    case OwnerStaff | PlatformAdmin => ["b2b", "b2c"]
    case B2bPartner => [CONTACT_TIER, "b2b"]
    case B2cPublic => ["b2c"]
  }

  function ViewOf(tier: string, amount: int, currency: string, unit: Unit): PriceView {
    PriceView(tier, if unit.InquiryOnly? then None else Some(amount), currency, unit, unit.InquiryOnly?)
  }

  // ----- resolve_visible_prices -----

  predicate Visible(db: Rows, p: LotPrice, lot: nat, a: Audience) {
    p.lot == lot && p.tier in AllowedTiers(a) && p.tier in db.activeTiers
  }

  /** `uniq_price_per_lot_tier`. */
  ghost predicate LotPricesUnique(ps: seq<LotPrice>) {
    forall i, j :: 0 <= i < j < |ps| ==> ps[i].lot != ps[j].lot || ps[i].tier != ps[j].tier
  }

  /** A price map shows exactly the visible rows. */
  ghost predicate ShowsExactly(m: map<string, PriceView>, db: Rows, lot: nat, a: Audience) {
    && (forall p :: p in db.lotPrices && Visible(db, p, lot, a) ==>
          p.tier in m && m[p.tier] == ViewOf(p.tier, p.amount, p.currency, p.unit))
    && (forall t :: t in m ==> exists p :: p in db.lotPrices && Visible(db, p, lot, a) && p.tier == t)
  }

  lemma SameRowSameTier(ps: seq<LotPrice>, p: LotPrice, q: LotPrice)
    requires LotPricesUnique(ps) && p in ps && q in ps && p.lot == q.lot && p.tier == q.tier
    ensures p == q
  {
  }

  /** The price map of an audience is determined by the rows, not by their order. */
  lemma ShownMapIsUnique(m: map<string, PriceView>, n: map<string, PriceView>, db: Rows, lot: nat, a: Audience)
    requires LotPricesUnique(db.lotPrices) && ShowsExactly(m, db, lot, a) && ShowsExactly(n, db, lot, a)
    ensures m == n
  {
    forall t | t in m
      ensures t in n && n[t] == m[t]
    {
      var p :| p in db.lotPrices && Visible(db, p, lot, a) && p.tier == t;
    }
    forall t | t in n
      ensures t in m
    {
      var p :| p in db.lotPrices && Visible(db, p, lot, a) && p.tier == t;
    }
  }

  /** A prefetch of the lot's price rows restricted to some tiers, in any order. */
  ghost predicate TierPrefetch(rows: seq<LotPrice>, db: Rows, lot: nat, tiers: set<string>) {
    forall p :: p in rows <==> p in db.lotPrices && p.lot == lot && p.tier in tiers && p.tier in db.activeTiers
  }

  /** Every visible row was fetched. */
  ghost predicate Covers(rows: seq<LotPrice>, db: Rows, lot: nat, a: Audience) {
    forall p :: p in db.lotPrices && Visible(db, p, lot, a) ==> p in rows
  }

  /** The loop of `resolve_visible_prices` over rows of this lot, however they were fetched:
      the map is the right one exactly when no visible row is missing from them. */
  method CollectVisible(db: Rows, lot: nat, a: Audience, rows: seq<LotPrice>) returns (m: map<string, PriceView>)
    requires LotPricesUnique(db.lotPrices)
    requires forall p :: p in rows ==> p in db.lotPrices && p.lot == lot
    ensures ShowsExactly(m, db, lot, a) <==> Covers(rows, db, lot, a)
    ensures forall t :: t in m ==> t in AllowedTiers(a)
  {
    m := map[];
    var i := 0;
    while i < |rows|
      invariant 0 <= i <= |rows|
      invariant forall j :: 0 <= j < i && Visible(db, rows[j], lot, a) ==>
                  rows[j].tier in m
                  && m[rows[j].tier] == ViewOf(rows[j].tier, rows[j].amount, rows[j].currency, rows[j].unit)
      invariant forall t :: t in m ==> exists j :: 0 <= j < i && Visible(db, rows[j], lot, a) && rows[j].tier == t
    {
      var p := rows[i];
      if p.tier in AllowedTiers(a) && p.tier in db.activeTiers {
        forall j | 0 <= j < i && Visible(db, rows[j], lot, a) && rows[j].tier == p.tier
          ensures rows[j] == p
        {
          SameRowSameTier(db.lotPrices, rows[j], p);
        }
        m := m[p.tier := ViewOf(p.tier, p.amount, p.currency, p.unit)];
      }
      i := i + 1;
    }
    MissingRowIsMissed(db, lot, a, rows, m);
  }

  lemma MissingRowIsMissed(db: Rows, lot: nat, a: Audience, rows: seq<LotPrice>, m: map<string, PriceView>)
    requires LotPricesUnique(db.lotPrices) && forall p :: p in rows ==> p in db.lotPrices && p.lot == lot
    requires forall j :: 0 <= j < |rows| && Visible(db, rows[j], lot, a) ==>
               rows[j].tier in m
               && m[rows[j].tier] == ViewOf(rows[j].tier, rows[j].amount, rows[j].currency, rows[j].unit)
    requires forall t :: t in m ==> exists j :: 0 <= j < |rows| && Visible(db, rows[j], lot, a) && rows[j].tier == t
    ensures ShowsExactly(m, db, lot, a) <==> Covers(rows, db, lot, a)
  {
    if ShowsExactly(m, db, lot, a) {
      forall p | p in db.lotPrices && Visible(db, p, lot, a)
        ensures p in rows
      {
        var j :| 0 <= j < |rows| && Visible(db, rows[j], lot, a) && rows[j].tier == p.tier;
        SameRowSameTier(db.lotPrices, rows[j], p);
      }
    }
    forall t | t in m
      ensures exists p :: p in db.lotPrices && Visible(db, p, lot, a) && p.tier == t
    {
      var j :| 0 <= j < |rows| && Visible(db, rows[j], lot, a) && rows[j].tier == t;
      assert rows[j] in db.lotPrices;
    }
  }

  /** A tier prefetch covers an audience exactly when the lot has no visible price on a
      tier the prefetch left out. The marketplace fetches `b2b` only: that always covers
      a partner, and covers staff only for lots without an active retail price. */
  lemma TierPrefetchCovers(rows: seq<LotPrice>, db: Rows, lot: nat, a: Audience, tiers: set<string>)
    requires TierPrefetch(rows, db, lot, tiers)
    ensures Covers(rows, db, lot, a) <==> forall p :: p in db.lotPrices && Visible(db, p, lot, a) ==> p.tier in tiers
    ensures AllowedTiers(a) <= tiers ==> Covers(rows, db, lot, a)
  {
    if Covers(rows, db, lot, a) {
      forall p | p in db.lotPrices && Visible(db, p, lot, a)
        ensures p.tier in tiers
      {
        assert p in rows;
      }
    }
  }

  // ----- The override -----

  /** The override row is legitimate for this viewer. */
  predicate Applies(db: Rows, row: ContactPrice, lot: nat, viewer: nat) {
    && row.lot == lot && lot < |db.owners| && row.contact < |db.contacts|
    && db.contacts[row.contact].linked == Some(viewer)
    && db.contacts[row.contact].business == db.owners[lot]
    && db.contacts[row.contact].active
  }

  /** `uniq_price_per_contact_lot`. */
  ghost predicate ContactPricesUnique(rows: seq<ContactPrice>) {
    forall i, j :: 0 <= i < j < |rows| ==> rows[i].contact != rows[j].contact || rows[i].lot != rows[j].lot
  }

  ghost predicate Constrained(db: Rows) {
    ContactPricesUnique(db.contactPrices) && CT.LinksUnique(db.contacts) && LotPricesUnique(db.lotPrices)
  }

  /** One colleague can never match two overrides: one contact per linked business, one
      override per contact and lot. */
  lemma AtMostOneApplies(db: Rows, lot: nat, viewer: nat, p: ContactPrice, q: ContactPrice)
    requires Constrained(db) && p in db.contactPrices && q in db.contactPrices
    requires Applies(db, p, lot, viewer) && Applies(db, q, lot, viewer)
    ensures p == q
  {
    assert p.contact == q.contact;
  }

  /** The rows a fetch of the viewer's overrides returns for a lot, in any order: the query
      path and the marketplace prefetch for this viewer both are one. */
  ghost predicate ViewerFetch(rows: seq<ContactPrice>, db: Rows, lot: nat, viewer: nat) {
    forall r :: r in rows <==>
      r in db.contactPrices && r.lot == lot && r.contact < |db.contacts|
      && db.contacts[r.contact].linked == Some(viewer) && db.contacts[r.contact].active
  }

  /** The override of a viewer on a lot, as a matter of the rows alone. */
  ghost predicate IsOverride(o: Option<ContactPrice>, db: Rows, lot: nat, viewer: nat) {
    match o
    case Some(r) => r in db.contactPrices && Applies(db, r, lot, viewer)
    case None => forall r :: r in db.contactPrices ==> !Applies(db, r, lot, viewer)
  }

  lemma OverrideIsUnique(db: Rows, lot: nat, viewer: nat, o: Option<ContactPrice>, q: Option<ContactPrice>)
    requires Constrained(db) && IsOverride(o, db, lot, viewer) && IsOverride(q, db, lot, viewer)
    ensures o == q
  {
    if o.Some? && q.Some? {
      AtMostOneApplies(db, lot, viewer, o.value, q.value);
    }
  }

  /** The first-match loop of `_contact_price_row`. Over the viewer's own fetch, whatever
      its order, it finds the viewer's override; over any other rows of the table, such as
      a prefetch made for someone else, it finds that one or nothing. */
  method ContactPriceRow(db: Rows, lot: nat, viewer: nat, rows: seq<ContactPrice>) returns (o: Option<ContactPrice>)
    requires forall r :: r in rows ==> r in db.contactPrices
    ensures ViewerFetch(rows, db, lot, viewer) ==> IsOverride(o, db, lot, viewer)
    ensures o.None? || IsOverride(o, db, lot, viewer)
  {
    for i := 0 to |rows|
      invariant forall j :: 0 <= j < i ==> !Applies(db, rows[j], lot, viewer)
    {
      if Applies(db, rows[i], lot, viewer) {
        return Some(rows[i]);
      }
    }
    return None;
  }

  // ----- resolve_prices_for_viewer and effective_price -----

  function OverrideEntry(o: Option<ContactPrice>): map<string, PriceView> {
    match o
    case None => map[]
    case Some(r) => map[CONTACT_TIER := ViewOf(CONTACT_TIER, r.amount, r.currency, r.unit)]
  }

  /** The tier half of a viewer's price map; staff without the capability see none. */
  ghost predicate TiersFor(tiers: map<string, PriceView>, db: Rows, lot: nat, a: Audience, canView: bool) {
    if a.OwnerStaff? && !canView then tiers == map[] else ShowsExactly(tiers, db, lot, a)
  }

  /** The override half: only partners, and only signed-in ones, can have one. */
  ghost predicate OverrideFor(o: Option<ContactPrice>, db: Rows, lot: nat, a: Audience, viewer: Option<nat>) {
    if a.B2bPartner? && viewer.Some? then IsOverride(o, db, lot, viewer.value) else o.None?
  }

  /** The price map a viewer gets: the audience's tiers, plus the override for partners. */
  ghost predicate IsPriceMap(m: map<string, PriceView>, db: Rows, lot: nat, a: Audience, viewer: Option<nat>,
      canView: bool)
  {
    exists tiers, o ::
      TiersFor(tiers, db, lot, a, canView) && OverrideFor(o, db, lot, a, viewer) && m == tiers + OverrideEntry(o)
  }

  lemma PriceMapIsUnique(m: map<string, PriceView>, n: map<string, PriceView>, db: Rows, lot: nat, a: Audience,
      viewer: Option<nat>, canView: bool)
    requires Constrained(db) && IsPriceMap(m, db, lot, a, viewer, canView) && IsPriceMap(n, db, lot, a, viewer, canView)
    ensures m == n
  {
    var tm, om :|
      TiersFor(tm, db, lot, a, canView) && OverrideFor(om, db, lot, a, viewer) && m == tm + OverrideEntry(om);
    var tn, on :|
      TiersFor(tn, db, lot, a, canView) && OverrideFor(on, db, lot, a, viewer) && n == tn + OverrideEntry(on);
    if !(a.OwnerStaff? && !canView) {
      ShownMapIsUnique(tm, tn, db, lot, a);
    }
    if a.B2bPartner? && viewer.Some? {
      OverrideIsUnique(db, lot, viewer.value, om, on);
    }
  }

  /** `resolve_prices_for_viewer` on rows fetched either way. Since the price map is
      unique, the prefetched path returns what the query path returns whenever the
      prefetch covers the audience's tiers and was made for this viewer. */
  method ResolvePricesForViewer(db: Rows, lot: nat, a: Audience, viewer: Option<nat>, canView: bool,
      prices: seq<LotPrice>, overrides: seq<ContactPrice>)
    returns (m: map<string, PriceView>)
    requires Constrained(db)
    requires forall p :: p in prices ==> p in db.lotPrices && p.lot == lot
    requires forall r :: r in overrides ==> r in db.contactPrices
    ensures Covers(prices, db, lot, a) && (viewer.Some? ==> ViewerFetch(overrides, db, lot, viewer.value)) ==>
              IsPriceMap(m, db, lot, a, viewer, canView)
    ensures !a.B2bPartner? ==> CONTACT_TIER !in m
    ensures forall t :: t in m ==> t in AllowedTiers(a) || t == CONTACT_TIER
  {
    var tiers: map<string, PriceView> := map[];
    if !(a.OwnerStaff? && !canView) {
      tiers := CollectVisible(db, lot, a, prices);
    }
    var o: Option<ContactPrice> := None;
    if a.B2bPartner? && viewer.Some? {
      o := ContactPriceRow(db, lot, viewer.value, overrides);
    }
    m := tiers + OverrideEntry(o);
    assert Covers(prices, db, lot, a) ==> TiersFor(tiers, db, lot, a, canView);
  }

  function EffectivePrice(m: map<string, PriceView>, a: Audience): Option<PriceView> {
    var order := FallbackOrder(a);
    if order[0] in m then Some(m[order[0]])
    else if |order| > 1 && order[1] in m then Some(m[order[1]])
    else None
  }

  /** The override shows up for a partner viewing as the linked business, when one was
      made, and in no other case: never to the public, never to an anonymous viewer, and
      never to another colleague. */
  lemma OverrideShownExactlyToItsPartner(db: Rows, lot: nat, a: Audience, viewer: Option<nat>, canView: bool,
      m: map<string, PriceView>)
    requires IsPriceMap(m, db, lot, a, viewer, canView)
    ensures CONTACT_TIER in m <==>
              a.B2bPartner? && viewer.Some? && exists r :: r in db.contactPrices && Applies(db, r, lot, viewer.value)
  {
    var tiers, o :|
      TiersFor(tiers, db, lot, a, canView) && OverrideFor(o, db, lot, a, viewer) && m == tiers + OverrideEntry(o);
    assert CONTACT_TIER !in AllowedTiers(a) by {
      assert |CONTACT_TIER| != |"b2b"| && |CONTACT_TIER| != |"b2c"|;
    }
    assert CONTACT_TIER in m <==> o.Some?;
  }

  /** A partner with an override is charged the override, whatever the tiers say. */
  lemma PartnerPaysOwnOverride(db: Rows, lot: nat, viewer: nat, m: map<string, PriceView>, r: ContactPrice,
      canView: bool)
    requires Constrained(db) && IsPriceMap(m, db, lot, B2bPartner, Some(viewer), canView)
    requires r in db.contactPrices && Applies(db, r, lot, viewer)
    ensures EffectivePrice(m, B2bPartner) == Some(ViewOf(CONTACT_TIER, r.amount, r.currency, r.unit))
  {
    var tiers, o :| TiersFor(tiers, db, lot, B2bPartner, canView) && OverrideFor(o, db, lot, B2bPartner, Some(viewer))
      && m == tiers + OverrideEntry(o);
    OverrideIsUnique(db, lot, viewer, o, Some(r));
    assert FallbackOrder(B2bPartner)[0] == CONTACT_TIER;
  }

  /** `b2c_price_context` without its labels: what the public catalog prints. */
  datatype PublicPrice =
    | NoPrice
    | AskFor(currency: string, unit: Unit)
    | Shown(amount: int, currency: string, unit: Unit)

  function PublicPriceOf(m: map<string, PriceView>): PublicPrice {
    if "b2c" !in m then NoPrice
    else
      var b2c := m["b2c"];
      if b2c.inquiry || b2c.amount.None? then AskFor(b2c.currency, b2c.unit)
      else Shown(b2c.amount.value, b2c.currency, b2c.unit)
  }

  predicate IsRetailRow(db: Rows, lot: nat, p: LotPrice) {
    p in db.lotPrices && p.lot == lot && p.tier == "b2c" && "b2c" in db.activeTiers
  }

  /** The public is shown the lot's active retail price and nothing else: an amount
      exactly when that row carries one, and never another tier's or an override's. */
  lemma PublicSeesOnlyRetail(db: Rows, lot: nat, m: map<string, PriceView>)
    requires LotPricesUnique(db.lotPrices) && ShowsExactly(m, db, lot, B2cPublic)
    ensures PublicPriceOf(m).NoPrice? <==> forall p :: p in db.lotPrices ==> !IsRetailRow(db, lot, p)
    ensures forall p :: IsRetailRow(db, lot, p) ==>
              PublicPriceOf(m)
              == if p.unit.InquiryOnly? then AskFor(p.currency, p.unit) else Shown(p.amount, p.currency, p.unit)
  {
    forall p | p in db.lotPrices
      ensures IsRetailRow(db, lot, p) <==> Visible(db, p, lot, B2cPublic)
    {
    }
  }

  // ----- Setting and removing prices -----

  datatype PricingError = NotAllowed | ForeignLot | ForeignContact | BadAmount | BadTier | MissingRow
  datatype Member = NoMember | Member(business: nat, editsPrices: bool)

  function FirstMatch<T>(rows: seq<T>, other: T -> bool): (k: nat)
    ensures k <= |rows|
    ensures k < |rows| ==> !other(rows[k])
    ensures forall i :: 0 <= i < k ==> other(rows[i])
  {
    if rows == [] || !other(rows[0]) then 0 else 1 + FirstMatch(rows[1..], other)
  }

  /** `update_or_create`, where `other` holds of the rows with another key. */
  function Upsert<T>(rows: seq<T>, other: T -> bool, row: T): seq<T> {
    var k := FirstMatch(rows, other);
    if k < |rows| then rows[k := row] else rows + [row]
  }

  /** When at most one row has the key, `update_or_create` leaves the rows with other keys
      alone and puts exactly the new row where that one was. */
  lemma UpsertRows<T>(rows: seq<T>, other: T -> bool, row: T, r: T)
    requires forall i, j :: 0 <= i < j < |rows| ==> other(rows[i]) || other(rows[j])
    ensures r in Upsert(rows, other, row) <==> (r in rows && other(r)) || r == row
  {
    var k := FirstMatch(rows, other);
    var after := Upsert(rows, other, row);
    if r in rows && other(r) {
      var i :| 0 <= i < |rows| && rows[i] == r;
      assert after[i] == r;
    }
    assert k < |rows| ==> after[k] == row;
    assert k == |rows| ==> after[|rows|] == row;
  }

  function OtherThan(contact: nat, lot: nat): ContactPrice -> bool {
    (r: ContactPrice) => r.contact != contact || r.lot != lot
  }

  function OtherTier(lot: nat, tier: string): LotPrice -> bool {
    (p: LotPrice) => p.lot != lot || p.tier != tier
  }

  /** The table after an override is set (`Some`) or removed (`None`). */
  function Changed(rows: seq<ContactPrice>, contact: nat, lot: nat, row: Option<ContactPrice>): seq<ContactPrice> {
    var other := OtherThan(contact, lot);
    if row.Some? then Upsert(rows, other, row.value) else Filter(rows, other)
  }

  lemma ChangedRows(rows: seq<ContactPrice>, contact: nat, lot: nat, row: Option<ContactPrice>)
    requires ContactPricesUnique(rows) && (row.Some? ==> row.value.contact == contact && row.value.lot == lot)
    ensures ContactPricesUnique(Changed(rows, contact, lot, row))
    ensures forall r :: r in Changed(rows, contact, lot, row)
              <==> (r in rows && (r.contact != contact || r.lot != lot)) || row == Some(r)
  {
    var other := OtherThan(contact, lot);
    if row.Some? {
      forall r: ContactPrice
        ensures r in Upsert(rows, other, row.value) <==> (r in rows && other(r)) || r == row.value
      {
        UpsertRows(rows, other, row.value, r);
      }
    } else {
      FilterMembers(rows, other);
      FilterKeepsUnique(rows, contact, lot);
    }
  }

  lemma {:induction false} FilterKeepsUnique(rows: seq<ContactPrice>, contact: nat, lot: nat)
    requires ContactPricesUnique(rows)
    ensures ContactPricesUnique(Filter(rows, OtherThan(contact, lot)))
  {
    if rows != [] {
      var n := |rows| - 1;
      FilterKeepsUnique(rows[..n], contact, lot);
      FilterMembers(rows[..n], OtherThan(contact, lot));
      var f := Filter(rows[..n], OtherThan(contact, lot));
      forall i | 0 <= i < |f|
        ensures f[i].contact != rows[n].contact || f[i].lot != rows[n].lot
      {
        assert f[i] in rows[..n];
      }
    }
  }

  function Repriced(ps: seq<LotPrice>, p: LotPrice): seq<LotPrice> {
    Upsert(ps, OtherTier(p.lot, p.tier), p)
  }

  lemma RepricedRows(ps: seq<LotPrice>, p: LotPrice)
    requires LotPricesUnique(ps)
    ensures LotPricesUnique(Repriced(ps, p))
    ensures forall r :: r in Repriced(ps, p) <==> (r in ps && (r.lot != p.lot || r.tier != p.tier)) || r == p
  {
    forall r: LotPrice
      ensures r in Repriced(ps, p) <==> (r in ps && OtherTier(p.lot, p.tier)(r)) || r == p
    {
      UpsertRows(ps, OtherTier(p.lot, p.tier), p, r);
    }
  }

  /** Pricing a lot on one tier changes only what audiences of that tier see of that lot:
      a retail price never reaches a partner's map, nor a partner price the public's. */
  lemma OtherAudiencesKeepTheirPrices(db: Rows, p: LotPrice, lot: nat, m: map<string, PriceView>, a: Audience,
      viewer: Option<nat>, canView: bool)
    requires Constrained(db) && IsPriceMap(m, db, lot, a, viewer, canView)
    requires p.tier !in AllowedTiers(a) || lot != p.lot
    ensures var after := db.(lotPrices := Repriced(db.lotPrices, p));
            Constrained(after) && IsPriceMap(m, after, lot, a, viewer, canView)
  {
    var after := db.(lotPrices := Repriced(db.lotPrices, p));
    RepricedRows(db.lotPrices, p);
    var tiers, o :| TiersFor(tiers, db, lot, a, canView) && OverrideFor(o, db, lot, a, viewer)
      && m == tiers + OverrideEntry(o);
    assert ShowsExactly(tiers, db, lot, a) ==> ShowsExactly(tiers, after, lot, a) by {
      forall q | q in db.lotPrices && Visible(db, q, lot, a)
        ensures q in after.lotPrices
      {
        assert OtherTier(p.lot, p.tier)(q);
      }
      forall q | q in after.lotPrices && Visible(after, q, lot, a)
        ensures q in db.lotPrices
      {
        assert q != p;
      }
    }
    assert TiersFor(tiers, after, lot, a, canView) && OverrideFor(o, after, lot, a, viewer);
  }

  /** Setting or removing one contact's override changes nobody else's price map, signed in
      or anonymous, and not that colleague's on any other lot. */
  lemma OthersKeepTheirPrices(db: Rows, contact: nat, lot: nat, row: Option<ContactPrice>, viewer: Option<nat>,
      other: nat, m: map<string, PriceView>, a: Audience, canView: bool)
    requires Constrained(db) && (row.Some? ==> row.value.contact == contact && row.value.lot == lot)
    requires contact < |db.contacts|
    requires viewer.Some? ==> db.contacts[contact].linked != viewer || other != lot
    requires IsPriceMap(m, db, other, a, viewer, canView)
    ensures var after := db.(contactPrices := Changed(db.contactPrices, contact, lot, row));
            Constrained(after) && IsPriceMap(m, after, other, a, viewer, canView)
  {
    var after := db.(contactPrices := Changed(db.contactPrices, contact, lot, row));
    ChangedRows(db.contactPrices, contact, lot, row);
    var tiers, o :| TiersFor(tiers, db, other, a, canView) && OverrideFor(o, db, other, a, viewer)
      && m == tiers + OverrideEntry(o);
    assert ShowsExactly(tiers, db, other, a) ==> ShowsExactly(tiers, after, other, a);
    assert TiersFor(tiers, after, other, a, canView);
    assert OverrideFor(o, after, other, a, viewer);
  }

  /** `_require_price_edit` and `_check_ownership`. */
  function OwnershipError(owners: seq<nat>, contacts: seq<CT.Contact>, lot: nat, contact: nat,
      member: Member): Option<PricingError>
  {
    if lot >= |owners| || contact >= |contacts| then Some(MissingRow)
    else if !member.Member? || !member.editsPrices then Some(NotAllowed)
    else if member.business != owners[lot] then Some(ForeignLot)
    else if contacts[contact].business != owners[lot] then Some(ForeignContact)
    else None
  }

  /** The cents an override is stored with; a refused or overflowing amount has none. */
  function OverrideCents(amount: RawAmount, unit: Unit): Option<int> {
    if unit.InquiryOnly? then Some(0)
    else match Quantize(amount)
      case None => None
      case Some(cents) => if 0 < cents < AMOUNT_LIMIT then Some(cents) else None
  }

  /** The tiers after `ensure_default_tiers`: missing ones appear, active; a default tier
      that was switched off stays off. */
  function WithDefaults(tiers: map<string, bool>): map<string, bool> {
    map["b2b" := true, "b2c" := true] + tiers
  }

  class PriceBook {
    var tiers: map<string, bool>
    var lotPrices: seq<LotPrice>
    var contactPrices: seq<ContactPrice>
    const owners: seq<nat>
    const contacts: CT.ContactList

    /** The rows prices are resolved from. */
    ghost function Contents(): Rows
      reads this, contacts
    {
      Rows(owners, contacts.rows, (set t | t in tiers && tiers[t]), lotPrices, contactPrices)
    }

    ghost predicate Valid()
      reads this, contacts
    {
      && contacts.Valid() && Constrained(Contents())
      && forall p :: p in lotPrices ==> p.tier in tiers
    }

    constructor (owners: seq<nat>, contacts: CT.ContactList)
      requires contacts.Valid()
      ensures Valid() && this.owners == owners && this.contacts == contacts
      ensures tiers == map[] && lotPrices == [] && contactPrices == []
    {
      this.owners, this.contacts, tiers, lotPrices, contactPrices := owners, contacts, map[], [], [];
    }

    method SetContactPrice(lot: nat, contact: nat, member: Member, amount: RawAmount, currency: string, unit: Unit)
      returns (err: Option<PricingError>)
      requires Valid()
      modifies this`contactPrices
      ensures Valid()
      ensures var refused := OwnershipError(owners, contacts.rows, lot, contact, member);
              var cents := OverrideCents(amount, unit);
              && err == (if refused.Some? then refused else if cents.None? then Some(BadAmount) else None)
              && contactPrices == if err.Some? then old(contactPrices)
                 else Changed(old(contactPrices), contact, lot,
                     Some(ContactPrice(contact, lot, cents.value, currency, unit)))
    {
      err := OwnershipError(owners, contacts.rows, lot, contact, member);
      if err.Some? { return; }
      var cents := 0;
      if !unit.InquiryOnly? {
        var quantized := Quantize(amount);
        if quantized.None? || quantized.value <= 0 || quantized.value >= AMOUNT_LIMIT { return Some(BadAmount); }
        cents := quantized.value;
      }
      var row := ContactPrice(contact, lot, cents, currency, unit);
      ChangedRows(contactPrices, contact, lot, Some(row));
      contactPrices := Upsert(contactPrices, OtherThan(contact, lot), row);
    }

    method RemoveContactPrice(lot: nat, contact: nat, member: Member) returns (err: Option<PricingError>)
      requires Valid()
      modifies this`contactPrices
      ensures Valid() && err == OwnershipError(owners, contacts.rows, lot, contact, member)
      ensures contactPrices == if err.Some? then old(contactPrices) else Changed(old(contactPrices), contact, lot, None)
    {
      err := OwnershipError(owners, contacts.rows, lot, contact, member);
      if err.Some? { return; }
      ChangedRows(contactPrices, contact, lot, None);
      contactPrices := Filter(contactPrices, OtherThan(contact, lot));
    }

    /** `amount` is in cents, `None` when the form left it empty. A refusal rolls the
        default tiers back too. */
    method SetLotPrice(lot: nat, tier: string, amount: Option<int>, currency: string, unit: Unit)
      returns (err: Option<PricingError>)
      requires Valid()
      modifies this`tiers, this`lotPrices
      ensures Valid()
      ensures var cents := if unit.InquiryOnly? then Some(0) else amount;
              && (err.None? <==>
                    (lot < |owners| && tier in {"b2b", "b2c"} && cents.Some? && 0 <= cents.value < AMOUNT_LIMIT))
              && tiers == (if err.Some? then old(tiers) else WithDefaults(old(tiers)))
              && lotPrices == if err.Some? then old(lotPrices)
                 else Repriced(old(lotPrices), LotPrice(lot, tier, cents.value, currency, unit))
    {
      if lot >= |owners| { return Some(MissingRow); }
      if tier !in {"b2b", "b2c"} { return Some(BadTier); }
      var cents := if unit.InquiryOnly? then Some(0) else amount;
      if cents.None? || cents.value < 0 || cents.value >= AMOUNT_LIMIT { return Some(BadAmount); }
      var row := LotPrice(lot, tier, cents.value, currency, unit);
      RepricedRows(lotPrices, row);
      tiers := WithDefaults(tiers);
      lotPrices := Repriced(lotPrices, row);
      return None;
    }
  }
}
