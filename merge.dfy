/**
 * mergeVirtualWithSingleVariant and its driver makeStandAloneFromSingleVariantVirtuals:
 * fold a virtual product that has a single variant into that variant.
 */
module Merge {
  import opened Records
  import opened Store
  import opened Discontinuation
  import opened Duplication

  /** The service's results; every one but Merged is an error result. */
  datatype Outcome = Merged | MoreThanOneVariant | NoValidVariant | TestModeOnly

  /** Every product is stored under its own productId. */
  predicate WellKeyed(c: Catalog) {
    forall id :: id in c.products ==> c.products[id].productId == id
  }

  /** A string value counts for setAllFields only when it is present and not empty. */
  predicate NonEmpty(v: Option<string>) {
    v.Some? && v.value != ""
  }

  function Prefer(virtualValue: Option<string>, variantValue: Option<string>): (r: Option<string>)
    ensures NonEmpty(variantValue) ==> r == variantValue
    ensures !NonEmpty(variantValue) ==> r == virtualValue
  {
    if NonEmpty(variantValue) then variantValue else virtualValue
  }

  /**
   * The virtual's columns overwritten by each column of the variant that is
   * not empty; a column empty in the variant keeps the virtual's value.
   */
  function Overlay(base: Fields, over: Fields): (r: Fields)
    ensures forall k :: k in over && over[k] != "" ==> k in r && r[k] == over[k]
    ensures forall k :: k in base && !(k in over && over[k] != "") ==> k in r && r[k] == base[k]
    ensures forall k :: k in r ==> k in base || (k in over && over[k] != "")
  {
    map k | k in base.Keys + over.Keys && (k in base || over[k] != "") ::
      if k in over && over[k] != "" then over[k] else base[k]
  }

  /**
   * The record stored for the variant: a copy of the virtual with every
   * non-empty value of the variant set over it, marked as not a variant.
   */
  function MergedProduct(virtual: Product, variant: Product): Product {
    Product(
      if variant.productId != "" then variant.productId else virtual.productId,
      Prefer(virtual.isVirtual, variant.isVirtual),
      Some("N"),
      if variant.salesDiscontinuationDate.Some? then variant.salesDiscontinuationDate else virtual.salesDiscontinuationDate,
      Overlay(virtual.fields, variant.fields))
  }

  /** The undated lookup of the virtual's variant associations, filtered at `clock`. */
  function ValidVariantAssocs(c: Catalog, pid: string, clock: int): (r: seq<Row>)
    ensures forall x {:trigger x in r} :: x in r ==> x in c.productAssocs && IsVariantAssoc(x) && Field(x, PRODUCT_ID) == pid && ValidAt(x, clock)
    ensures forall x {:trigger x in c.productAssocs, IsVariantAssoc(x)} ::
      x in c.productAssocs && IsVariantAssoc(x) && Field(x, PRODUCT_ID) == pid && ValidAt(x, clock) ==> x in r
  {
    var r := Filter(c.productAssocs, VariantAssocFrom(pid, clock));
    assert forall x :: VariantAssocFrom(pid, clock)(x) == (IsVariantAssoc(x) && Field(x, PRODUCT_ID) == pid && ValidAt(x, clock));
    r
  }

  /** The product and, when there is a single variant association, the variant exist. */
  predicate CanMerge(c: Catalog, pid: string, clock: int) {
    && pid in c.products
    && (|ValidVariantAssocs(c, pid, clock)| == 1 ==> Field(ValidVariantAssocs(c, pid, clock)[0], PRODUCT_ID_TO) in c.products)
  }

  function NotPk(pk: PrimaryKey): Row -> bool {
    r => Pk(r) != pk
  }

  /** GenericValue.store(): the record with `v`'s primary key takes `v`'s values. */
  function StoreRow(rows: seq<Row>, v: Row): (r: seq<Row>)
    ensures |r| == |rows|
  {
    seq(|rows|, i requires 0 <= i < |rows| => if Pk(rows[i]) == Pk(v) then v else rows[i])
  }

  /** The chosen association is deleted when removeOld, else stored with thruDate = now. */
  function UpdateChosenAssoc(assocs: seq<Row>, a: Row, removeOld: bool, test: bool, now: int): seq<Row> {
    if test then assocs
    else if removeOld then Filter(assocs, NotPk(Pk(a)))
    else StoreRow(assocs, a.(thruDate := Some(now)))
  }

  /** The product table once the merged record is stored under the variant's id. */
  function StoreMerged(c: Catalog, pid: string, vid: string, test: bool): Catalog
    requires pid in c.products && vid in c.products
  {
    var merged := MergedProduct(c.products[pid], c.products[vid]);
    if test then c else c.(products := c.products[merged.productId := merged])
  }

  /** The copies of the memberships (always moved), feature applications and contents. */
  function CopyPlacement(c: Catalog, pid: string, vid: string, removeOld: bool, test: bool, now: int): Catalog {
    c.(categoryMembers := DupRelated(c.categoryMembers, PRODUCT_ID, pid, vid, now, true, test),
       featureAppls := DupRelated(c.featureAppls, PRODUCT_ID, pid, vid, now, removeOld, test),
       contents := DupRelated(c.contents, PRODUCT_ID, pid, vid, now, removeOld, test))
  }

  /** The copies of the prices, good identifications and attributes. */
  function CopyCommercial(c: Catalog, pid: string, vid: string, removeOld: bool, test: bool, now: int): Catalog {
    c.(prices := DupRelated(c.prices, PRODUCT_ID, pid, vid, now, removeOld, test),
       goodIdentifications := DupRelated(c.goodIdentifications, PRODUCT_ID, pid, vid, now, removeOld, test),
       attributes := DupRelated(c.attributes, PRODUCT_ID, pid, vid, now, removeOld, test))
  }

  /** The copies of the associations from the virtual, then of those to it. */
  function CopyAssocs(c: Catalog, pid: string, vid: string, removeOld: bool, test: bool, now: int): Catalog {
    var mainAssocs := DupRelated(c.productAssocs, PRODUCT_ID, pid, vid, now, removeOld, test);
    c.(productAssocs := DupRelated(mainAssocs, PRODUCT_ID_TO, pid, vid, now, removeOld, test))
  }

  /** With removeOld the virtual's keywords and the virtual itself are deleted. */
  function RemoveVirtual(c: Catalog, pid: string, removeOld: bool, test: bool): Catalog {
    if removeOld && !test then
      c.(keywords := Filter(c.keywords, NotRelatedTo(PRODUCT_ID, pid)), products := c.products - {pid})
    else c
  }

  /**
   * The writes of the service once association `a` to the variant has been
   * chosen, in the order the service makes them; in test mode each write is
   * skipped.
   */
  function MergeInto(c: Catalog, pid: string, a: Row, removeOld: bool, test: bool, now: int): Catalog
    requires pid in c.products && Field(a, PRODUCT_ID_TO) in c.products
  {
    var vid := Field(a, PRODUCT_ID_TO);
    var chosen := c.(productAssocs := UpdateChosenAssoc(c.productAssocs, a, removeOld, test, now));
    var stored := StoreMerged(chosen, pid, vid, test);
    var copied := CopyCommercial(CopyPlacement(stored, pid, vid, removeOld, test, now), pid, vid, removeOld, test, now);
    RemoveVirtual(CopyAssocs(copied, pid, vid, removeOld, test, now), pid, removeOld, test)
  }

  /**
   * The service: rejected unless exactly one variant association is in
   * effect; test mode writes nothing and ends in an error result.
   */
  function MergeVirtual(c: Catalog, pid: string, removeOld: bool, test: bool, now: int, clock: int): (m: (Catalog, Outcome))
    requires CanMerge(c, pid, clock)
    ensures m.1 == MoreThanOneVariant <==> |ValidVariantAssocs(c, pid, clock)| > 1
    ensures m.1 == NoValidVariant <==> |ValidVariantAssocs(c, pid, clock)| == 0
    ensures m.1 == Merged <==> |ValidVariantAssocs(c, pid, clock)| == 1 && !test
    ensures test ==> m.1 != Merged && m.0 == c
    ensures m.1 != Merged ==> m.0 == c
  {
    var pa := ValidVariantAssocs(c, pid, clock);
    if |pa| > 1 then (c, MoreThanOneVariant)
    else if |pa| == 0 then (c, NoValidVariant)
    else (MergeInto(c, pid, pa[0], removeOld, test, now), if test then TestModeOnly else Merged)
  }

  /** The variant the service merges into. */
  function VariantOf(c: Catalog, pid: string, clock: int): string
    requires |ValidVariantAssocs(c, pid, clock)| == 1
  {
    Field(ValidVariantAssocs(c, pid, clock)[0], PRODUCT_ID_TO)
  }

  /**
   * On success the variant's record holds each non-empty value of the variant
   * and the virtual's value elsewhere, and is no longer a variant; the
   * virtual's record is deleted exactly when removeOld.
   */
  lemma MergedRecordPrecedence(c: Catalog, pid: string, removeOld: bool, now: int, clock: int)
    requires CanMerge(c, pid, clock) && WellKeyed(c)
    requires |ValidVariantAssocs(c, pid, clock)| == 1
    requires VariantOf(c, pid, clock) != pid && VariantOf(c, pid, clock) != ""
    ensures var after := MergeVirtual(c, pid, removeOld, false, now, clock).0;
      var vid := VariantOf(c, pid, clock);
      var virtual := c.products[pid];
      var variant := c.products[vid];
      && vid in after.products
      && after.products[vid].productId == vid
      && after.products[vid].isVariant == Some("N")
      && after.products[vid].isVirtual == (if NonEmpty(variant.isVirtual) then variant.isVirtual else virtual.isVirtual)
      && after.products[vid].salesDiscontinuationDate ==
           (if variant.salesDiscontinuationDate.Some? then variant.salesDiscontinuationDate else virtual.salesDiscontinuationDate)
      && (forall k :: k in variant.fields && variant.fields[k] != "" ==>
            k in after.products[vid].fields && after.products[vid].fields[k] == variant.fields[k])
      && (forall k :: k in virtual.fields && !(k in variant.fields && variant.fields[k] != "") ==>
            k in after.products[vid].fields && after.products[vid].fields[k] == virtual.fields[k])
      && (pid in after.products <==> !removeOld)
  {
    var pa := ValidVariantAssocs(c, pid, clock);
    var a := pa[0];
    var vid := Field(a, PRODUCT_ID_TO);
    assert vid in c.products && c.products[vid].productId == vid;
    MergeIntoProducts(c, pid, a, removeOld, now);
    var after := MergeVirtual(c, pid, removeOld, false, now, clock).0;
    assert after == MergeInto(c, pid, a, removeOld, false, now);
    var merged := MergedProduct(c.products[pid], c.products[vid]);
    MergedProductFields(c.products[pid], c.products[vid], vid);
    assert vid in after.products && after.products[vid] == merged;
  }

  /** The merged record: the variant's id, no longer a variant, the variant's non-empty values over the virtual's. */
  lemma MergedProductFields(virtual: Product, variant: Product, vid: string)
    requires variant.productId == vid && vid != ""
    ensures var m := MergedProduct(virtual, variant);
      && m.productId == vid
      && m.isVariant == Some("N")
      && m.isVirtual == (if NonEmpty(variant.isVirtual) then variant.isVirtual else virtual.isVirtual)
      && m.salesDiscontinuationDate ==
           (if variant.salesDiscontinuationDate.Some? then variant.salesDiscontinuationDate else virtual.salesDiscontinuationDate)
      && (forall k :: k in variant.fields && variant.fields[k] != "" ==> k in m.fields && m.fields[k] == variant.fields[k])
      && (forall k :: k in virtual.fields && !(k in variant.fields && variant.fields[k] != "") ==>
            k in m.fields && m.fields[k] == virtual.fields[k])
  {
  }

  /** Of the product table only the merged record's store and, with removeOld, the virtual's deletion change it. */
  lemma MergeIntoProducts(c: Catalog, pid: string, a: Row, removeOld: bool, now: int)
    requires pid in c.products && Field(a, PRODUCT_ID_TO) in c.products
    ensures var merged := MergedProduct(c.products[pid], c.products[Field(a, PRODUCT_ID_TO)]);
      var stored := c.products[merged.productId := merged];
      MergeInto(c, pid, a, removeOld, false, now).products == if removeOld then stored - {pid} else stored
  {
  }

  /**
   * On success the chosen association is deleted when removeOld, and stored
   * with thruDate = now otherwise; with removeOld no association from or to
   * the virtual remains.
   */
  lemma ChosenAssocRemovedOrExpired(c: Catalog, pid: string, removeOld: bool, now: int, clock: int)
    requires CanMerge(c, pid, clock) && pid != ""
    requires |ValidVariantAssocs(c, pid, clock)| == 1
    ensures var after := MergeVirtual(c, pid, removeOld, false, now, clock).0;
      var a := ValidVariantAssocs(c, pid, clock)[0];
      && (!removeOld ==> a.(thruDate := Some(now)) in after.productAssocs)
      && (removeOld ==> forall x {:trigger x in after.productAssocs} :: x in after.productAssocs ==>
            !KeyedTo(x, PRODUCT_ID, pid) && !KeyedTo(x, PRODUCT_ID_TO, pid))
      && (removeOld ==> a !in after.productAssocs)
  {
    var pa := ValidVariantAssocs(c, pid, clock);
    var a := pa[0];
    var vid := Field(a, PRODUCT_ID_TO);
    assert a in pa;
    var chosen := UpdateChosenAssoc(c.productAssocs, a, removeOld, false, now);
    var mainAssocs := DupRelated(chosen, PRODUCT_ID, pid, vid, now, removeOld, false);
    var after := DupRelated(mainAssocs, PRODUCT_ID_TO, pid, vid, now, removeOld, false);
    assert MergeVirtual(c, pid, removeOld, false, now, clock).0.productAssocs == after;
    if removeOld {
      DupRelatedKeepsOtherKeys(mainAssocs, PRODUCT_ID_TO, pid, vid, now, true, false, PRODUCT_ID, pid);
      assert KeyedTo(a, PRODUCT_ID, pid);
    } else {
      var i :| 0 <= i < |c.productAssocs| && c.productAssocs[i] == a;
      assert chosen[i] == a.(thruDate := Some(now));
      assert mainAssocs[i] == chosen[i];
      assert after[i] == mainAssocs[i];
    }
  }

  /**
   * Without removeOld the expired association still counts as in effect at
   * `now` (the filter includes the end date), so the copy of the associations
   * from the virtual carries it over: the merged product gets a PRODUCT_VARIANT
   * association from itself to itself.
   */
  lemma ExpiredAssocCopiedToVariant(c: Catalog, pid: string, now: int, clock: int)
    requires CanMerge(c, pid, clock) && pid != ""
    requires |ValidVariantAssocs(c, pid, clock)| == 1
    requires VariantOf(c, pid, clock) != pid
    requires ValidAt(ValidVariantAssocs(c, pid, clock)[0], now)
    ensures var after := MergeVirtual(c, pid, false, false, now, clock).0;
      var a := ValidVariantAssocs(c, pid, clock)[0];
      var vid := VariantOf(c, pid, clock);
      exists x {:trigger x in after.productAssocs} ::
        && x in after.productAssocs
        && x.key == a.key[PRODUCT_ID := vid]
        && IsVariantAssoc(x) && Field(x, PRODUCT_ID) == vid && Field(x, PRODUCT_ID_TO) == vid
  {
    var pa := ValidVariantAssocs(c, pid, clock);
    var a := pa[0];
    var vid := Field(a, PRODUCT_ID_TO);
    assert a in pa;
    MergeIntoAssocs(c, pid, a, false, now);
    var x := ExpiredCopy(c.productAssocs, a, pid, vid, now);
    SelfAssocKey(a, x, pid, vid);
  }

  /** Of the association table only the chosen association's update and the two copies change it. */
  lemma MergeIntoAssocs(c: Catalog, pid: string, a: Row, removeOld: bool, now: int)
    requires pid in c.products && Field(a, PRODUCT_ID_TO) in c.products
    ensures var vid := Field(a, PRODUCT_ID_TO);
      var chosen := UpdateChosenAssoc(c.productAssocs, a, removeOld, false, now);
      MergeInto(c, pid, a, removeOld, false, now).productAssocs ==
        DupRelated(DupRelated(chosen, PRODUCT_ID, pid, vid, now, removeOld, false), PRODUCT_ID_TO, pid, vid, now, removeOld, false)
  {
  }

  /** The association expired at `now` is copied by the pass over the associations from the virtual. */
  lemma ExpiredCopy(assocs: seq<Row>, a: Row, pid: string, vid: string, now: int) returns (x: Row)
    requires a in assocs && KeyedTo(a, PRODUCT_ID, pid) && pid != vid
    requires a.fromDate.None? || a.fromDate.value <= now
    ensures var chosen := UpdateChosenAssoc(assocs, a, false, false, now);
      x in DupRelated(DupRelated(chosen, PRODUCT_ID, pid, vid, now, false, false), PRODUCT_ID_TO, pid, vid, now, false, false)
    ensures x.key == a.key[PRODUCT_ID := vid]
  {
    var expired := a.(thruDate := Some(now));
    var chosen := UpdateChosenAssoc(assocs, a, false, false, now);
    var i :| 0 <= i < |assocs| && assocs[i] == a;
    assert chosen[i] == expired;
    DupRelatedCarriesOver(chosen, PRODUCT_ID, pid, vid, now, false, expired);
    var mainAssocs := DupRelated(chosen, PRODUCT_ID, pid, vid, now, false, false);
    x :| x in mainAssocs && x.key == expired.key[PRODUCT_ID := vid];
  }

  /** A variant association re-keyed from the virtual to its own variant leads from the variant to itself. */
  lemma SelfAssocKey(a: Row, x: Row, pid: string, vid: string)
    requires IsVariantAssoc(a) && Field(a, PRODUCT_ID_TO) == vid
    requires x.key == a.key[PRODUCT_ID := vid]
    ensures IsVariantAssoc(x) && Field(x, PRODUCT_ID) == vid && Field(x, PRODUCT_ID_TO) == vid
  {
  }


  /**
   * On success the virtual leaves every category, and for each of its current
   * memberships the variant has one in the same category that is in effect
   * now or starts now; with removeOld its keywords are gone too.
   */
  lemma VirtualMembershipsMoved(c: Catalog, pid: string, removeOld: bool, now: int, clock: int)
    requires CanMerge(c, pid, clock)
    requires |ValidVariantAssocs(c, pid, clock)| == 1
    requires VariantOf(c, pid, clock) != pid
    ensures var after := MergeVirtual(c, pid, removeOld, false, now, clock).0;
      var vid := VariantOf(c, pid, clock);
      && (forall x {:trigger x in after.categoryMembers} :: x in after.categoryMembers ==> !KeyedTo(x, PRODUCT_ID, pid))
      && (forall m {:trigger m in c.categoryMembers} ::
            m in c.categoryMembers && KeyedTo(m, PRODUCT_ID, pid) && ValidAt(m, now) ==>
            exists x {:trigger x in after.categoryMembers} ::
              x in after.categoryMembers && x.key == m.key[PRODUCT_ID := vid] &&
              (m.fromDate.Some? ==> ValidAt(x, now) || x.fromDate == Some(now)))
      && (removeOld ==> forall x {:trigger x in after.keywords} :: x in after.keywords ==> !KeyedTo(x, PRODUCT_ID, pid))
  {
    var vid := VariantOf(c, pid, clock);
    var after := DupRelated(c.categoryMembers, PRODUCT_ID, pid, vid, now, true, false);
    assert MergeVirtual(c, pid, removeOld, false, now, clock).0.categoryMembers == after;
    forall m | m in c.categoryMembers && KeyedTo(m, PRODUCT_ID, pid) && ValidAt(m, now)
      ensures exists x {:trigger x in after} :: x in after && x.key == m.key[PRODUCT_ID := vid] &&
                (m.fromDate.Some? ==> ValidAt(x, now) || x.fromDate == Some(now))
    {
      DupRelatedCarriesOver(c.categoryMembers, PRODUCT_ID, pid, vid, now, true, m);
    }
  }

  /** The service (ProductUtilServices.mergeVirtualWithSingleVariant). */
  method MergeVirtualWithSingleVariant(store: ProductStore, pid: string, removeOld: bool, test: bool,
                                       now: int, clock: int) returns (outcome: Outcome)
    requires CanMerge(store.State(), pid, clock)
    modifies store
    ensures (store.State(), outcome) == MergeVirtual(old(store.State()), pid, removeOld, test, now, clock)
  {
    var paList := Filter(store.productAssocs, VariantAssocFrom(pid, clock));
    if |paList| > 1 {
      return MoreThanOneVariant;
    }
    if |paList| == 0 {
      return NoValidVariant;
    }
    ApplyMerge(store, pid, paList[0], removeOld, test, now);
    outcome := if test then TestModeOnly else Merged;
  }

  /** The writes of the service once the association to the variant is chosen. */
  method ApplyMerge(store: ProductStore, pid: string, productAssoc: Row, removeOld: bool, test: bool, now: int)
    requires pid in store.products && Field(productAssoc, PRODUCT_ID_TO) in store.products
    modifies store
    ensures store.State() == MergeInto(old(store.State()), pid, productAssoc, removeOld, test, now)
  {
    UpdateChosenAssocRow(store, productAssoc, removeOld, test, now);
    var variantId := Field(productAssoc, PRODUCT_ID_TO);
    StoreMergedProduct(store, pid, variantId, test);
    CopyPlacementTables(store, pid, variantId, removeOld, test, now);
    CopyCommercialTables(store, pid, variantId, removeOld, test, now);
    CopyAssocTable(store, pid, variantId, removeOld, test, now);
    RemoveVirtualProduct(store, pid, removeOld, test);
  }

  /** The chosen association: deleted when removeOld, else stored with thruDate = now. */
  method UpdateChosenAssocRow(store: ProductStore, productAssoc: Row, removeOld: bool, test: bool, now: int)
    modifies store
    ensures store.State() == old(store.State()).(productAssocs := UpdateChosenAssoc(old(store.productAssocs), productAssoc, removeOld, test, now))
  {
    if removeOld {
      // removed before the copies so it is not copied over
      if !test {
        store.productAssocs := Filter(store.productAssocs, NotPk(Pk(productAssoc)));
      }
    } else {
      // kept, but expired so the next run passes it by
      if !test {
        store.productAssocs := StoreRow(store.productAssocs, productAssoc.(thruDate := Some(now)));
      }
    }
  }

  /** The virtual's record, overlaid with the variant's, stored under the variant's id. */
  method StoreMergedProduct(store: ProductStore, pid: string, variantId: string, test: bool)
    requires pid in store.products && variantId in store.products
    modifies store
    ensures store.State() == StoreMerged(old(store.State()), pid, variantId, test)
  {
    var merged := MergedProduct(store.products[pid], store.products[variantId]);
    if !test {
      store.products := store.products[merged.productId := merged];
    }
  }

  /** The copies of the memberships, feature applications and contents. */
  method CopyPlacementTables(store: ProductStore, pid: string, vid: string, removeOld: bool, test: bool, now: int)
    modifies store
    ensures store.State() == CopyPlacement(old(store.State()), pid, vid, removeOld, test, now)
  {
    ghost var c0 := store.State();
    assert c0.featureAppls == store.featureAppls && c0.contents == store.contents;
    var appls := DuplicateRelated(store.featureAppls, PRODUCT_ID, pid, vid, now, removeOld, test);
    var contents := DuplicateRelated(store.contents, PRODUCT_ID, pid, vid, now, removeOld, test);
    MoveMemberships(store, pid, vid, test, now);
    store.featureAppls, store.contents := appls, contents;
  }

  /** The virtual always leaves its categories: its memberships are copied, then removed. */
  method MoveMemberships(store: ProductStore, pid: string, vid: string, test: bool, now: int)
    modifies store`categoryMembers
    ensures store.categoryMembers == DupRelated(old(store.categoryMembers), PRODUCT_ID, pid, vid, now, true, test)
  {
    store.categoryMembers := DuplicateRelated(store.categoryMembers, PRODUCT_ID, pid, vid, now, true, test);
  }

  /** The copies of the prices, good identifications and attributes. */
  method CopyCommercialTables(store: ProductStore, pid: string, vid: string, removeOld: bool, test: bool, now: int)
    modifies store
    ensures store.State() == CopyCommercial(old(store.State()), pid, vid, removeOld, test, now)
  {
    var prices := DuplicateRelated(store.prices, PRODUCT_ID, pid, vid, now, removeOld, test);
    var ids := DuplicateRelated(store.goodIdentifications, PRODUCT_ID, pid, vid, now, removeOld, test);
    var attributes := DuplicateRelated(store.attributes, PRODUCT_ID, pid, vid, now, removeOld, test);
    store.prices, store.goodIdentifications, store.attributes := prices, ids, attributes;
  }

  /** The copies of the virtual's associations, in both directions. */
  method CopyAssocTable(store: ProductStore, pid: string, vid: string, removeOld: bool, test: bool, now: int)
    modifies store
    ensures store.State() == CopyAssocs(old(store.State()), pid, vid, removeOld, test, now)
  {
    store.productAssocs := DuplicateRelated(store.productAssocs, PRODUCT_ID, pid, vid, now, removeOld, test);
    store.productAssocs := DuplicateRelated(store.productAssocs, PRODUCT_ID_TO, pid, vid, now, removeOld, test);
  }

  /** With removeOld: the virtual's keywords, then the virtual. */
  method RemoveVirtualProduct(store: ProductStore, pid: string, removeOld: bool, test: bool)
    modifies store
    ensures store.State() == RemoveVirtual(old(store.State()), pid, removeOld, test)
  {
    if removeOld && !test {
      store.keywords := Filter(store.keywords, NotRelatedTo(PRODUCT_ID, pid));
      store.products := store.products - {pid};
    }
  }

  // makeStandAloneFromSingleVariantVirtuals

  /** The distinct variants a product's PRODUCT_VARIANT associations point to; `dated` keeps those in effect at `now`. */
  function VariantTargets(c: Catalog, pid: string, now: int, dated: bool): set<string> {
    set a | a in c.productAssocs && IsVariantAssoc(a) && Field(a, PRODUCT_ID) == pid && (!dated || ValidAt(a, now))
      :: Field(a, PRODUCT_ID_TO)
  }

  /**
   * A row of the grouped query: a product whose discontinuation date is null
   * or after `now`, with exactly one distinct variant.
   */
  predicate IsCandidate(c: Catalog, pid: string, now: int, dated: bool) {
    && pid in c.products
    && (c.products[pid].salesDiscontinuationDate.None? || c.products[pid].salesDiscontinuationDate.value > now)
    && |VariantTargets(c, pid, now, dated)| == 1
  }

  /** The query's result, in the order `order` gives; the query itself fixes no order. */
  function Candidates(c: Catalog, order: seq<string>, now: int, dated: bool): (r: seq<string>)
    ensures forall id {:trigger id in r} :: id in r ==> id in order && IsCandidate(c, id, now, dated)
    ensures forall id {:trigger id in order} :: id in order && IsCandidate(c, id, now, dated) ==> id in r
    decreases |order|
  {
    if order == [] then []
    else
      var last := order[|order| - 1];
      assert forall id {:trigger id in order} :: id in order ==> id in order[..|order| - 1] || id == last;
      Candidates(c, order[..|order| - 1], now, dated) + (if IsCandidate(c, last, now, dated) then [last] else [])
  }

  /** The grouped query lists each product once: distinct ids in `order` give distinct candidates. */
  lemma {:induction false} CandidatesDistinct(c: Catalog, order: seq<string>, now: int, dated: bool)
    requires forall i, j :: 0 <= i < j < |order| ==> order[i] != order[j]
    ensures var r := Candidates(c, order, now, dated);
      forall i, j :: 0 <= i < j < |r| ==> r[i] != r[j]
    decreases |order|
  {
    if order != [] {
      var init, last := order[..|order| - 1], order[|order| - 1];
      assert forall i, j :: 0 <= i < j < |init| ==> init[i] != init[j] by {
        forall i, j | 0 <= i < j < |init| ensures init[i] != init[j] {
          assert init[i] == order[i] && init[j] == order[j];
        }
      }
      CandidatesDistinct(c, init, now, dated);
      assert last !in init by {
        forall k | 0 <= k < |init| ensures init[k] != last {
          assert init[k] == order[k];
        }
      }
      assert last !in Candidates(c, init, now, dated);
    }
  }

  /** Where a pass stands: the store, and whether an exception ended it. */
  datatype Run = Run(state: Catalog, aborted: bool)

  /**
   * One candidate: re-checked at `clock` and skipped unless exactly one
   * variant association is in effect, then merged; a missing product or
   * variant throws and ends the pass. A merge it makes always succeeds.
   */
  function StandAloneStep(c: Catalog, pid: string, removeOld: bool, now: int, clock: int): (r: Run)
    ensures r.aborted <==> |ValidVariantAssocs(c, pid, clock)| == 1 && !CanMerge(c, pid, clock)
    ensures r.aborted || |ValidVariantAssocs(c, pid, clock)| != 1 ==> r.state == c
    ensures !r.aborted && |ValidVariantAssocs(c, pid, clock)| == 1 ==>
      CanMerge(c, pid, clock) && MergeVirtual(c, pid, removeOld, false, now, clock) == (r.state, Merged)
  {
    if |ValidVariantAssocs(c, pid, clock)| != 1 then Run(c, false)
    else if !CanMerge(c, pid, clock) then Run(c, true)
    else Run(MergeVirtual(c, pid, removeOld, false, now, clock).0, false)
  }

  /** One loop of the driver over its candidates, in order, stopping at the first exception. */
  function StandAloneRun(c: Catalog, cands: seq<string>, removeOld: bool, now: int, clock: int): Run
    decreases |cands|
  {
    if cands == [] then Run(c, false)
    else
      var prev := StandAloneRun(c, cands[..|cands| - 1], removeOld, now, clock);
      if prev.aborted then prev else StandAloneStep(prev.state, cands[|cands| - 1], removeOld, now, clock)
  }

  /**
   * The driver: the virtuals with one variant at all are merged with
   * removeOld, then the query is run again with the date conditions and those
   * with one valid variant are merged keeping the virtual.
   */
  function MakeStandAlone(c: Catalog, order: seq<string>, now: int, clock: int): Run
    requires forall id :: id in c.products ==> id in order
    requires forall i, j :: 0 <= i < j < |order| ==> order[i] != order[j]
  {
    var first := StandAloneRun(c, Candidates(c, order, now, false), true, now, clock);
    if first.aborted then first
    else StandAloneRun(first.state, Candidates(first.state, order, now, true), false, now, clock)
  }

  /** Once a pass has stopped, the candidates after it change nothing. */
  lemma {:induction false} AbortedRunStays(c: Catalog, cands: seq<string>, i: nat, removeOld: bool, now: int, clock: int)
    requires i <= |cands|
    requires StandAloneRun(c, cands[..i], removeOld, now, clock).aborted
    ensures StandAloneRun(c, cands, removeOld, now, clock) == StandAloneRun(c, cands[..i], removeOld, now, clock)
    decreases |cands| - i
  {
    if i < |cands| {
      assert cands[..i + 1][..i] == cands[..i];
      AbortedRunStays(c, cands, i + 1, removeOld, now, clock);
    } else {
      assert cands[..i] == cands;
    }
  }

  /** A pass over one more candidate is one more step, unless the pass has stopped. */
  lemma StandAloneRunSnoc(c: Catalog, cands: seq<string>, i: nat, removeOld: bool, now: int, clock: int)
    requires i < |cands|
    ensures var prev := StandAloneRun(c, cands[..i], removeOld, now, clock);
      StandAloneRun(c, cands[..i + 1], removeOld, now, clock) ==
        if prev.aborted then prev else StandAloneStep(prev.state, cands[i], removeOld, now, clock)
  {
    assert cands[..i + 1][..i] == cands[..i];
  }

  /** The service (ProductUtilServices.makeStandAloneFromSingleVariantVirtuals). */
  method MakeStandAloneFromSingleVariantVirtuals(store: ProductStore, order: seq<string>, now: int, clock: int)
    returns (ok: bool)
    requires forall id :: id in store.products ==> id in order
    requires forall i, j :: 0 <= i < j < |order| ==> order[i] != order[j]
    modifies store
    ensures Run(store.State(), !ok) == MakeStandAlone(old(store.State()), order, now, clock)
  {
    var valueList := Candidates(store.State(), order, now, false);
    ok := MergeCandidates(store, valueList, true, now, clock);
    if !ok {
      return;
    }
    var valueMultiList := Candidates(store.State(), order, now, true);
    ok := MergeCandidates(store, valueMultiList, false, now, clock);
  }

  /** One loop of the driver. */
  method MergeCandidates(store: ProductStore, cands: seq<string>, removeOld: bool, now: int, clock: int)
    returns (ok: bool)
    modifies store
    ensures Run(store.State(), !ok) == StandAloneRun(old(store.State()), cands, removeOld, now, clock)
  {
    ghost var c0 := store.State();
    var i := 0;
    while i < |cands|
      invariant 0 <= i <= |cands|
      invariant !StandAloneRun(c0, cands[..i], removeOld, now, clock).aborted
      invariant StandAloneRun(c0, cands[..i], removeOld, now, clock).state == store.State()
    {
      StandAloneRunSnoc(c0, cands, i, removeOld, now, clock);
      var merged := MergeCandidate(store, cands[i], removeOld, now, clock);
      if !merged {
        AbortedRunStays(c0, cands, i + 1, removeOld, now, clock);
        return false;
      }
      i := i + 1;
    }
    assert cands[..i] == cands;
    return true;
  }

  /** One iteration of the driver's loop: the re-check at `clock`, then the merge. */
  method MergeCandidate(store: ProductStore, productId: string, removeOld: bool, now: int, clock: int)
    returns (ok: bool)
    modifies store
    ensures Run(store.State(), !ok) == StandAloneStep(old(store.State()), productId, removeOld, now, clock)
  {
    var paList := Filter(store.productAssocs, VariantAssocFrom(productId, clock));
    if |paList| == 1 {
      if productId !in store.products || Field(paList[0], PRODUCT_ID_TO) !in store.products {
        // the merge dereferences a missing record and throws
        return false;
      }
      var _ := MergeVirtualWithSingleVariant(store, productId, removeOld, false, now, clock);
    }
    return true;
  }
}
