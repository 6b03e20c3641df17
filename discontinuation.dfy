/**
 * discVirtualsWithDiscVariants: expire the variant associations of sales
 * discontinued variants, then discontinue the virtuals left without a valid
 * variant association.
 */
module Discontinuation {
  import opened Records
  import opened Store

  predicate IsVariantAssoc(r: Row) {
    Field(r, ASSOC_TYPE_ID) == PRODUCT_VARIANT
  }

  /** Sales discontinued as of `now`: the date is set and not after `now`. */
  predicate IsDiscontinued(p: Product, now: int) {
    p.salesDiscontinuationDate.Some? && p.salesDiscontinuationDate.value <= now
  }

  /** The selector of the first loop: a variant that is discontinued. */
  predicate IsDiscontinuedVariant(p: Product, now: int) {
    p.isVariant == Some("Y") && IsDiscontinued(p, now)
  }

  /** The selector of the second loop: a virtual whose date is null or not before `now`. */
  predicate IsOpenVirtual(p: Product, now: int) {
    p.isVirtual == Some("Y") && (p.salesDiscontinuationDate.None? || p.salesDiscontinuationDate.value >= now)
  }

  /** A PRODUCT_VARIANT association to `variantId` in effect at `clock`. */
  function VariantAssocTo(variantId: string, clock: int): Row -> bool {
    r => IsVariantAssoc(r) && Field(r, PRODUCT_ID_TO) == variantId && ValidAt(r, clock)
  }

  /** A PRODUCT_VARIANT association from `virtualId` in effect at `clock`. */
  function VariantAssocFrom(virtualId: string, clock: int): Row -> bool {
    r => IsVariantAssoc(r) && Field(r, PRODUCT_ID) == virtualId && ValidAt(r, clock)
  }

  /**
   * ProductWorker.getVariantVirtualId, whose code is not part of this model,
   * taken as: the productId of the first PRODUCT_VARIANT association to the
   * variant that is in effect at `clock`, or null when there is none.
   */
  function VariantVirtualId(assocs: seq<Row>, variantId: string, clock: int): (r: Option<string>)
    ensures r.Some? <==> exists x :: x in assocs && VariantAssocTo(variantId, clock)(x)
    ensures r.Some? ==> exists x :: x in assocs && VariantAssocTo(variantId, clock)(x) && Field(x, PRODUCT_ID) == r.value
  {
    var l := Filter(assocs, VariantAssocTo(variantId, clock));
    FilterEmpty(assocs, VariantAssocTo(variantId, clock));
    if l == [] then None else assert l[0] in l; Some(Field(l[0], PRODUCT_ID))
  }

  function DiscontinuedVariants(c: Catalog, now: int): set<string> {
    set v | v in c.products && IsDiscontinuedVariant(c.products[v], now)
  }

  function OpenVirtuals(c: Catalog, now: int): set<string> {
    set v | v in c.products && IsOpenVirtual(c.products[v], now)
  }

  /** The virtual whose associations to `v` the first loop expires, if any. */
  function VirtualToExpire(c: Catalog, v: string, now: int, clock: int): Option<string> {
    if v in c.products && IsDiscontinuedVariant(c.products[v], now) then
      var w := VariantVirtualId(c.productAssocs, v, clock);
      if w.Some? && w.value in c.products then w else None
    else None
  }

  /** Row `r` of `c` is expired once the variants in `done` are processed. */
  predicate ExpiresIn(c: Catalog, r: Row, done: set<string>, now: int, clock: int) {
    && IsVariantAssoc(r) && ValidAt(r, clock)
    && Field(r, PRODUCT_ID_TO) in done
    && VirtualToExpire(c, Field(r, PRODUCT_ID_TO), now, clock) == Some(Field(r, PRODUCT_ID))
  }

  /** The association table once the variants in `done` are processed. */
  function ExpireFor(c: Catalog, done: set<string>, now: int, clock: int): (r: seq<Row>)
    ensures |r| == |c.productAssocs|
  {
    seq(|c.productAssocs|, i requires 0 <= i < |c.productAssocs| =>
      var r := c.productAssocs[i];
      if ExpiresIn(c, r, done, now, clock) then r.(thruDate := Some(now)) else r)
  }

  /** One step of the first loop: expire the in-effect associations virtual -> variant. */
  function ExpireAssocs(assocs: seq<Row>, virtualId: string, variantId: string, now: int, clock: int): (r: seq<Row>)
    ensures |r| == |assocs|
  {
    seq(|assocs|, i requires 0 <= i < |assocs| =>
      var r := assocs[i];
      if VariantAssocTo(variantId, clock)(r) && Field(r, PRODUCT_ID) == virtualId
      then r.(thruDate := Some(now)) else r)
  }

  /** The product table once the open virtuals in `done` are processed. */
  function DiscontinueFor(c: Catalog, done: set<string>, now: int, clock: int): map<string, Product> {
    map id | id in c.products ::
      if id in done && Filter(c.productAssocs, VariantAssocFrom(id, clock)) == []
      then c.products[id].(salesDiscontinuationDate := Some(now))
      else c.products[id]
  }

  /** The whole pass: the first loop, then the second one on its result. */
  function ExpireAndDiscontinue(c: Catalog, now: int, clock: int): Catalog {
    var c1 := c.(productAssocs := ExpireFor(c, DiscontinuedVariants(c, now), now, clock));
    c1.(products := DiscontinueFor(c1, OpenVirtuals(c1, now), now, clock))
  }

  /** Expiring other variants' associations does not move the virtual found for `v`. */
  lemma VirtualIdUnaffected(c: Catalog, done: set<string>, v: string, now: int, clock: int)
    requires v !in done
    ensures VariantVirtualId(ExpireFor(c, done, now, clock), v, clock) == VariantVirtualId(c.productAssocs, v, clock)
  {
    var s := ExpireFor(c, done, now, clock);
    FilterPointwise(s, c.productAssocs, VariantAssocTo(v, clock));
  }

  lemma ExpireForNothing(c: Catalog, now: int, clock: int)
    ensures ExpireFor(c, {}, now, clock) == c.productAssocs
  {
  }

  lemma ExpireStep(c: Catalog, done: set<string>, v: string, now: int, clock: int)
    requires v !in done
    ensures VirtualToExpire(c, v, now, clock).Some? ==>
      ExpireAssocs(ExpireFor(c, done, now, clock), VirtualToExpire(c, v, now, clock).value, v, now, clock)
        == ExpireFor(c, done + {v}, now, clock)
    ensures VirtualToExpire(c, v, now, clock).None? ==>
      ExpireFor(c, done, now, clock) == ExpireFor(c, done + {v}, now, clock)
  {
    var s := ExpireFor(c, done, now, clock);
    var t := ExpireFor(c, done + {v}, now, clock);
    var w := VirtualToExpire(c, v, now, clock);
    if w.Some? {
      var u := ExpireAssocs(s, w.value, v, now, clock);
      forall i | 0 <= i < |t| ensures u[i] == t[i] {
      }
    } else {
      forall i | 0 <= i < |t| ensures s[i] == t[i] {
      }
    }
  }

  lemma DiscontinueForNothing(c: Catalog, now: int, clock: int)
    ensures DiscontinueFor(c, {}, now, clock) == c.products
  {
  }

  lemma DiscontinueStep(c: Catalog, done: set<string>, id: string, now: int, clock: int)
    requires id in c.products
    ensures Filter(c.productAssocs, VariantAssocFrom(id, clock)) == [] ==>
      DiscontinueFor(c, done + {id}, now, clock)
        == DiscontinueFor(c, done, now, clock)[id := c.products[id].(salesDiscontinuationDate := Some(now))]
    ensures Filter(c.productAssocs, VariantAssocFrom(id, clock)) != [] ==>
      DiscontinueFor(c, done + {id}, now, clock) == DiscontinueFor(c, done, now, clock)
  {
  }

  /** The service (ProductUtilServices.discVirtualsWithDiscVariants). */
  method DiscVirtualsWithDiscVariants(store: ProductStore, now: int, clock: int)
    modifies store
    ensures store.State() == ExpireAndDiscontinue(old(store.State()), now, clock)
  {
    ExpireDiscontinuedVariantAssocs(store, now, clock);
    DiscontinueOrphanVirtuals(store, now, clock);
  }

  /** The first loop: every discontinued variant, its virtual's associations to it. */
  method ExpireDiscontinuedVariantAssocs(store: ProductStore, now: int, clock: int)
    modifies store`productAssocs
    ensures store.State() == old(store.State()).(productAssocs := ExpireFor(old(store.State()), DiscontinuedVariants(old(store.State()), now), now, clock))
  {
    ghost var c0 := store.State();
    var todo := DiscontinuedVariants(store.State(), now);
    ghost var done: set<string> := {};
    ExpireForNothing(c0, now, clock);
    while todo != {}
      invariant todo !! done && todo + done == DiscontinuedVariants(c0, now)
      invariant store.productAssocs == ExpireFor(c0, done, now, clock)
      decreases |todo|
    {
      var v :| v in todo;
      ExpireVariantAssocs(store, v, now, clock, c0, done);
      todo, done := todo - {v}, done + {v};
    }
  }

  /** One iteration of the first loop, for discontinued variant `v` (the source's :82-99). */
  method ExpireVariantAssocs(store: ProductStore, v: string, now: int, clock: int, ghost c0: Catalog, ghost done: set<string>)
    requires v !in done && v in DiscontinuedVariants(c0, now)
    requires store.products == c0.products
    requires store.productAssocs == ExpireFor(c0, done, now, clock)
    modifies store`productAssocs
    ensures store.productAssocs == ExpireFor(c0, done + {v}, now, clock)
  {
    var virtualId := VariantVirtualId(store.productAssocs, v, clock);
    VirtualIdUnaffected(c0, done, v, now, clock);
    ExpireStep(c0, done, v, now, clock);
    if virtualId.Some? && virtualId.value in store.products {
      store.productAssocs := ExpireAssocs(store.productAssocs, virtualId.value, v, now, clock);
    }
  }

  /** The second loop: every open virtual without an association in effect is discontinued. */
  method DiscontinueOrphanVirtuals(store: ProductStore, now: int, clock: int)
    modifies store`products
    ensures store.State() == old(store.State()).(products := DiscontinueFor(old(store.State()), OpenVirtuals(old(store.State()), now), now, clock))
  {
    ghost var c1 := store.State();
    DiscontinueOpenVirtuals(store, now, clock, c1);
  }

  /** The loop of the second pass over the open virtuals of `c1`. */
  method DiscontinueOpenVirtuals(store: ProductStore, now: int, clock: int, ghost c1: Catalog)
    requires store.State() == c1
    modifies store`products
    ensures store.products == DiscontinueFor(c1, OpenVirtuals(c1, now), now, clock)
  {
    var open := OpenVirtuals(store.State(), now);
    ghost var done: set<string> := {};
    DiscontinueForNothing(c1, now, clock);
    while open != {}
      invariant open !! done && open + done == OpenVirtuals(c1, now)
      invariant store.products == DiscontinueFor(c1, done, now, clock)
      decreases |open|
    {
      var id :| id in open;
      DiscontinueIfOrphan(store, id, now, clock, c1, done);
      open, done := open - {id}, done + {id};
    }
  }

  /** One iteration of the second loop, for open virtual `id` (the source's :112-117). */
  method DiscontinueIfOrphan(store: ProductStore, id: string, now: int, clock: int, ghost c1: Catalog, ghost done: set<string>)
    requires id in c1.products
    requires store.productAssocs == c1.productAssocs
    requires store.products == DiscontinueFor(c1, done, now, clock)
    modifies store`products
    ensures store.products == DiscontinueFor(c1, done + {id}, now, clock)
  {
    var passocList := Filter(store.productAssocs, VariantAssocFrom(id, clock));
    DiscontinueStep(c1, done, id, now, clock);
    if |passocList| == 0 {
      store.products := store.products[id := store.products[id].(salesDiscontinuationDate := Some(now))];
    }
  }

  /**
   * First loop: every PRODUCT_VARIANT association in effect from an existing
   * virtual to a discontinued variant whose virtual it is ends with
   * thruDate = now; every other association is left as it was.
   */
  lemma VariantAssocsOfDiscontinuedVariantsExpired(c: Catalog, now: int, clock: int)
    ensures var after := ExpireAndDiscontinue(c, now, clock).productAssocs;
      && |after| == |c.productAssocs|
      && forall i :: 0 <= i < |c.productAssocs| ==>
           var r := c.productAssocs[i];
           var v := Field(r, PRODUCT_ID_TO);
           var w := Field(r, PRODUCT_ID);
           after[i] == if && IsVariantAssoc(r) && ValidAt(r, clock)
                          && v in c.products && IsDiscontinuedVariant(c.products[v], now)
                          && w in c.products && VariantVirtualId(c.productAssocs, v, clock) == Some(w)
                       then r.(thruDate := Some(now)) else r
  {
  }

  /**
   * Second loop: among the open virtuals exactly those left without a variant
   * association in effect get salesDiscontinuationDate = now; no other product
   * changes and none is added or removed.
   */
  lemma OrphanVirtualsDiscontinued(c: Catalog, now: int, clock: int)
    ensures var after := ExpireAndDiscontinue(c, now, clock);
      && after.products.Keys == c.products.Keys
      && forall id :: id in c.products ==>
           after.products[id] ==
             if IsOpenVirtual(c.products[id], now) && Filter(after.productAssocs, VariantAssocFrom(id, clock)) == []
             then c.products[id].(salesDiscontinuationDate := Some(now))
             else c.products[id]
  {
  }

  /**
   * The two loops in one run: a virtual all of whose variant associations in
   * effect lead to discontinued variants it is the virtual of is itself
   * discontinued, provided the date filter reads the clock after `now`.
   */
  lemma {:induction false} CascadeDiscontinuesVirtual(c: Catalog, now: int, clock: int, virtualId: string)
    requires now < clock
    requires virtualId in c.products && IsOpenVirtual(c.products[virtualId], now)
    requires forall r :: r in c.productAssocs && VariantAssocFrom(virtualId, clock)(r) ==>
      && Field(r, PRODUCT_ID_TO) in c.products
      && IsDiscontinuedVariant(c.products[Field(r, PRODUCT_ID_TO)], now)
      && VariantVirtualId(c.productAssocs, Field(r, PRODUCT_ID_TO), clock) == Some(virtualId)
    ensures ExpireAndDiscontinue(c, now, clock).products[virtualId].salesDiscontinuationDate == Some(now)
  {
    var expired := ExpireFor(c, DiscontinuedVariants(c, now), now, clock);
    forall x | x in expired ensures !VariantAssocFrom(virtualId, clock)(x) {
      var i :| 0 <= i < |expired| && expired[i] == x;
      var r := c.productAssocs[i];
      assert r in c.productAssocs;
    }
    FilterEmpty(expired, VariantAssocFrom(virtualId, clock));
  }
}
