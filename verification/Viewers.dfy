/** What each audience gets to see of a lot, said in tier codes and in the rows stored, and
    who may price it. */
module Viewers {
  import opened Sequences
  import opened Money
  import opened Pricing
  import CT = Contacts

  /** The lot has a price on a tier that is switched on. */
  ghost predicate PricedOn(db: Rows, lot: nat, tier: string) {
    tier in db.activeTiers && exists p :: p in db.lotPrices && p.lot == lot && p.tier == tier
  }

  /** The entry for `tier` is that of the lot's price row. */
  ghost predicate EntryIsRow(m: map<string, PriceView>, db: Rows, lot: nat, tier: string)
    requires tier in m
  {
    forall p :: p in db.lotPrices && p.lot == lot && p.tier == tier ==>
        m[tier] == PriceView(tier, if p.unit == InquiryOnly then None else Some(p.amount), p.currency, p.unit,
                       p.unit == InquiryOnly)
  }

  lemma TierIsShownIff(m: map<string, PriceView>, db: Rows, lot: nat, a: Audience, tier: string)
    requires ShowsExactly(m, db, lot, a)
    ensures tier in m <==> tier in AllowedTiers(a) && PricedOn(db, lot, tier)
    ensures tier in m ==> EntryIsRow(m, db, lot, tier)
  {
    if tier in m {
      var q :| q in db.lotPrices && Visible(db, q, lot, a) && q.tier == tier;
    }
    forall p | p in db.lotPrices && p.lot == lot && p.tier == tier && tier in AllowedTiers(a) && tier in db.activeTiers
      ensures tier in m && m[tier] == ViewOf(p.tier, p.amount, p.currency, p.unit)
    {
      assert Visible(db, p, lot, a);
    }
  }

  lemma TierReachesViewerIff(m: map<string, PriceView>, db: Rows, lot: nat, a: Audience, viewer: Option<nat>,
      canView: bool, tier: string)
    requires IsPriceMap(m, db, lot, a, viewer, canView) && tier != CONTACT_TIER && (a == OwnerStaff ==> canView)
    ensures tier in m <==> tier in AllowedTiers(a) && PricedOn(db, lot, tier)
    ensures tier in m ==> EntryIsRow(m, db, lot, tier)
  {
    var tiers, o :|
      TiersFor(tiers, db, lot, a, canView) && OverrideFor(o, db, lot, a, viewer) && m == tiers + OverrideEntry(o);
    TierIsShownIff(tiers, db, lot, a, tier);
  }

  lemma OnlyAllowedTiers(m: map<string, PriceView>, db: Rows, lot: nat, a: Audience, viewer: Option<nat>, canView: bool)
    requires IsPriceMap(m, db, lot, a, viewer, canView)
    ensures forall t :: t in m ==> t in AllowedTiers(a) || (t == CONTACT_TIER && a == B2bPartner)
    ensures a == OwnerStaff && !canView ==> m == map[]
  {
    var tiers, o :|
      TiersFor(tiers, db, lot, a, canView) && OverrideFor(o, db, lot, a, viewer) && m == tiers + OverrideEntry(o);
  }

  lemma TierCodesDiffer()
    ensures CONTACT_TIER != "b2b" && CONTACT_TIER != "b2c"
  {
    assert |CONTACT_TIER| != |"b2b"| && |CONTACT_TIER| != |"b2c"|;
  }

  /** A partner sees the active partner price, its own override, and nothing else. */
  lemma PartnerSees(m: map<string, PriceView>, db: Rows, lot: nat, viewer: Option<nat>, canView: bool)
    requires IsPriceMap(m, db, lot, B2bPartner, viewer, canView)
    ensures "b2b" in m <==> PricedOn(db, lot, "b2b")
    ensures "b2b" in m ==> EntryIsRow(m, db, lot, "b2b")
    ensures forall t :: t in m ==> t == "b2b" || t == "contact"
  {
    TierCodesDiffer();
    TierReachesViewerIff(m, db, lot, B2bPartner, viewer, canView, "b2b");
    OnlyAllowedTiers(m, db, lot, B2bPartner, viewer, canView);
  }

  /** The public sees the active retail price and nothing else, signed in or not. */
  lemma PublicSees(m: map<string, PriceView>, db: Rows, lot: nat, viewer: Option<nat>, canView: bool)
    requires IsPriceMap(m, db, lot, B2cPublic, viewer, canView)
    ensures "b2c" in m <==> PricedOn(db, lot, "b2c")
    ensures "b2c" in m ==> EntryIsRow(m, db, lot, "b2c")
    ensures forall t :: t in m ==> t == "b2c"
  {
    TierCodesDiffer();
    TierReachesViewerIff(m, db, lot, B2cPublic, viewer, canView, "b2c");
    OnlyAllowedTiers(m, db, lot, B2cPublic, viewer, canView);
  }

  /** Staff who may view prices, and the platform's own, see both tiers and no override;
      other staff see nothing. */
  lemma StaffSee(m: map<string, PriceView>, db: Rows, lot: nat, a: Audience, viewer: Option<nat>, canView: bool)
    requires (a == OwnerStaff || a == PlatformAdmin) && IsPriceMap(m, db, lot, a, viewer, canView)
    ensures var mayView := a == PlatformAdmin || canView;
            && ("b2b" in m <==> mayView && PricedOn(db, lot, "b2b"))
            && ("b2c" in m <==> mayView && PricedOn(db, lot, "b2c"))
    ensures "b2b" in m ==> EntryIsRow(m, db, lot, "b2b")
    ensures "b2c" in m ==> EntryIsRow(m, db, lot, "b2c")
    ensures forall t :: t in m ==> t == "b2b" || t == "b2c"
  {
    OnlyAllowedTiers(m, db, lot, a, viewer, canView);
    if a == PlatformAdmin || canView {
      TierCodesDiffer();
      TierReachesViewerIff(m, db, lot, a, viewer, canView, "b2b");
      TierReachesViewerIff(m, db, lot, a, viewer, canView, "b2c");
    }
  }

  /** An override made for the viewer: by the lot's owner, on an active contact that the
      owner has linked to the viewer's business. */
  predicate MadeFor(db: Rows, r: ContactPrice, lot: nat, viewer: nat) {
    && r.lot == lot && lot < |db.owners| && r.contact < |db.contacts|
    && var c := db.contacts[r.contact];
       c.active && c.business == db.owners[lot] && c.linked == Some(viewer)
  }

  lemma MadeForApplies(db: Rows, r: ContactPrice, lot: nat, viewer: nat)
    ensures MadeFor(db, r, lot, viewer) <==> Applies(db, r, lot, viewer)
  {
  }

  /** A partner pays the override made for it; without one, the active partner price; and
      without that it has to inquire. Retail prices do not matter. */
  lemma PartnerPays(m: map<string, PriceView>, db: Rows, lot: nat, viewer: Option<nat>, canView: bool)
    requires Constrained(db) && IsPriceMap(m, db, lot, B2bPartner, viewer, canView)
    ensures var price := EffectivePrice(m, B2bPartner);
            if exists r :: viewer.Some? && r in db.contactPrices && MadeFor(db, r, lot, viewer.value) then
              forall r :: r in db.contactPrices && MadeFor(db, r, lot, viewer.value) ==>
                  price == Some(PriceView("contact", if r.unit == InquiryOnly then None else Some(r.amount), r.currency,
                                  r.unit, r.unit == InquiryOnly))
            else if PricedOn(db, lot, "b2b") then "b2b" in m && price == Some(m["b2b"])
            else price == None
  {
    PartnerSees(m, db, lot, viewer, canView);
    OverrideShownExactlyToItsPartner(db, lot, B2bPartner, viewer, canView, m);
    if viewer.Some? {
      forall r | r in db.contactPrices
        ensures MadeFor(db, r, lot, viewer.value) <==> Applies(db, r, lot, viewer.value)
      {
        MadeForApplies(db, r, lot, viewer.value);
      }
      forall r | r in db.contactPrices && MadeFor(db, r, lot, viewer.value)
        ensures EffectivePrice(m, B2bPartner) == Some(ViewOf(CONTACT_TIER, r.amount, r.currency, r.unit))
      {
        PartnerPaysOwnOverride(db, lot, viewer.value, m, r, canView);
      }
    }
  }

  /** Staff are shown the partner price before the retail price. */
  lemma StaffPriceIs(m: map<string, PriceView>, db: Rows, lot: nat, a: Audience, viewer: Option<nat>, canView: bool)
    requires (a == OwnerStaff && canView) || a == PlatformAdmin
    requires IsPriceMap(m, db, lot, a, viewer, canView)
    ensures var price := EffectivePrice(m, a);
            if PricedOn(db, lot, "b2b") then "b2b" in m && price == Some(m["b2b"])
            else if PricedOn(db, lot, "b2c") then "b2c" in m && price == Some(m["b2c"])
            else price == None
  {
    StaffSee(m, db, lot, a, viewer, canView);
  }

  lemma PublicPriceIs(m: map<string, PriceView>, db: Rows, lot: nat, viewer: Option<nat>, canView: bool)
    requires IsPriceMap(m, db, lot, B2cPublic, viewer, canView)
    ensures var price := EffectivePrice(m, B2cPublic);
            if PricedOn(db, lot, "b2c") then "b2c" in m && price == Some(m["b2c"]) else price == None
  {
    PublicSees(m, db, lot, viewer, canView);
  }

  /** The marketplace prefetches partner prices only. That is all a partner needs; for
      staff it is enough exactly on lots without an active retail price. */
  lemma MarketplacePrefetchCovers(rows: seq<LotPrice>, db: Rows, lot: nat)
    requires TierPrefetch(rows, db, lot, {"b2b"})
    ensures Covers(rows, db, lot, B2bPartner)
    ensures Covers(rows, db, lot, OwnerStaff) <==> !PricedOn(db, lot, "b2c")
  {
    TierPrefetchCovers(rows, db, lot, B2bPartner, {"b2b"});
    TierPrefetchCovers(rows, db, lot, OwnerStaff, {"b2b"});
    if p :| p in db.lotPrices && p.lot == lot && p.tier == "b2c" && "b2c" in db.activeTiers {
      assert Visible(db, p, lot, OwnerStaff);
    }
  }

  // ----- Who may price -----

  /** A member who edits prices sets and removes overrides on the business's own lots, for
      its own contacts; what the others are told. */
  lemma MayPriceIff(owners: seq<nat>, contacts: seq<CT.Contact>, lot: nat, contact: nat, member: Member)
    ensures var error := OwnershipError(owners, contacts, lot, contact, member);
            if lot >= |owners| || contact >= |contacts| then error == Some(MissingRow)
            else
              && (error.None? <==> member == Member(owners[lot], true) && contacts[contact].business == owners[lot])
              && (error.Some? ==>
                    error.value == if member.NoMember? || !member.editsPrices then NotAllowed
                                   else if member.business != owners[lot] then ForeignLot else ForeignContact)
  {
  }

  /** An override is stored to the nearest cent; only one above half a cent that fits its
      column is, and one for inquiry carries no amount of its own. */
  lemma OverrideIsStoredAs(amount: RawAmount, unit: Unit)
    ensures OverrideCents(amount, unit)
            == if unit == InquiryOnly then Some(0)
               else if amount.Number? && amount.value > 0.005 && HalfEven(amount.value) < 100_000_000_000_000
                 then Some(HalfEven(amount.value))
               else None
  {
    if amount.Number? {
      SmallestAmount(amount.value);
    }
  }

  /** Both default tiers exist afterwards. One that was missing is on; one that was there is
      as it was, on or off, and so is every other tier. */
  lemma DefaultTiersAreEnsured(tiers: map<string, bool>)
    ensures forall t :: t in WithDefaults(tiers) <==> t in tiers || t == "b2b" || t == "b2c"
    ensures forall t :: t in WithDefaults(tiers) ==> WithDefaults(tiers)[t] == if t in tiers then tiers[t] else true
  {
  }
}
