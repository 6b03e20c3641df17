/**
 * removeCategoryMembersOfDiscProducts and removeDuplicateOpenEndedCategoryMembers:
 * the two passes that delete ProductCategoryMember records.
 */
module CategoryCleanup {
  import opened Records
  import opened Store
  import Discontinuation

  // ---------------------------------------------------------------------------
  // Category memberships of discontinued products

  /** The products the pass selects: discontinuation date set and not after `now`. */
  function DiscontinuedProducts(c: Catalog, now: int): set<string> {
    set id | id in c.products && Discontinuation.IsDiscontinued(c.products[id], now)
  }

  /** A membership of none of the products in `ids`. */
  function NotOfProducts(ids: set<string>): Row -> bool {
    r => Field(r, PRODUCT_ID) !in ids
  }

  /** A membership of product `id`. */
  function OfProduct(id: string): Row -> bool {
    r => Field(r, PRODUCT_ID) == id
  }

  /** The membership table the pass leaves: every record of a discontinued product deleted. */
  function WithoutDiscontinuedMembers(c: Catalog, now: int): seq<Row> {
    Filter(c.categoryMembers, NotOfProducts(DiscontinuedProducts(c, now)))
  }

  /** The service (ProductUtilServices.removeCategoryMembersOfDiscProducts). */
  method RemoveCategoryMembersOfDiscProducts(store: ProductStore, now: int)
    modifies store`categoryMembers
    ensures store.State() == old(store.State()).(categoryMembers := WithoutDiscontinuedMembers(old(store.State()), now))
  {
    ghost var c0 := store.State();
    RemoveMembersOfAll(store, now, c0);
  }

  /** The loop over the discontinued products of `c0`. */
  method RemoveMembersOfAll(store: ProductStore, now: int, ghost c0: Catalog)
    requires store.State() == c0
    modifies store`categoryMembers
    ensures store.categoryMembers == WithoutDiscontinuedMembers(c0, now)
  {
    var todo := DiscontinuedProducts(store.State(), now);
    ghost var done: set<string> := {};
    FilterAll(c0.categoryMembers, NotOfProducts(done));
    while todo != {}
      invariant todo !! done && todo + done == DiscontinuedProducts(c0, now)
      invariant store.categoryMembers == Filter(c0.categoryMembers, NotOfProducts(done))
      decreases |todo|
    {
      var id :| id in todo;
      RemoveMembersOf(store, id, c0.categoryMembers, done);
      todo, done := todo - {id}, done + {id};
    }
  }

  /** One iteration: every membership of `id`, whatever its dates, is removed. */
  method RemoveMembersOf(store: ProductStore, id: string, ghost m0: seq<Row>, ghost done: set<string>)
    requires store.categoryMembers == Filter(m0, NotOfProducts(done))
    modifies store`categoryMembers
    ensures store.categoryMembers == Filter(m0, NotOfProducts(done + {id}))
  {
    store.categoryMembers := Filter(store.categoryMembers, NotOfProducts({id}));
    FilterFilter(m0, NotOfProducts(done), NotOfProducts({id}), NotOfProducts(done + {id}));
  }

  /**
   * No membership of any kind remains for a discontinued product, and the
   * memberships of every other product are exactly as they were, in order.
   */
  lemma {:induction false} DiscontinuedMembersRemoved(c: Catalog, now: int)
    ensures forall r :: r in WithoutDiscontinuedMembers(c, now) ==>
      !(Field(r, PRODUCT_ID) in c.products && Discontinuation.IsDiscontinued(c.products[Field(r, PRODUCT_ID)], now))
    ensures forall id :: id !in DiscontinuedProducts(c, now) ==>
      Filter(WithoutDiscontinuedMembers(c, now), OfProduct(id)) == Filter(c.categoryMembers, OfProduct(id))
  {
    var gone := DiscontinuedProducts(c, now);
    forall id | id !in gone
      ensures Filter(WithoutDiscontinuedMembers(c, now), OfProduct(id)) == Filter(c.categoryMembers, OfProduct(id))
    {
      FilterStronger(c.categoryMembers, OfProduct(id), NotOfProducts(gone));
    }
  }

  /** Running the pass a second time deletes nothing more. */
  lemma {:induction false} RemoveDiscontinuedMembersIdempotent(c: Catalog, now: int)
    ensures WithoutDiscontinuedMembers(c.(categoryMembers := WithoutDiscontinuedMembers(c, now)), now)
         == WithoutDiscontinuedMembers(c, now)
  {
    var p := NotOfProducts(DiscontinuedProducts(c, now));
    FilterStronger(c.categoryMembers, p, p);
  }

  // ---------------------------------------------------------------------------
  // Duplicate open-ended memberships

  /** A (productId, productCategoryId) pair. */
  type MemberPair = (string, string)

  function PairOf(r: Row): MemberPair {
    (Field(r, PRODUCT_ID), Field(r, CATEGORY_ID))
  }

  /** The condition of the grouped query: started strictly before `now`, no end. */
  predicate OpenEnded(r: Row, now: int) {
    r.fromDate.Some? && r.fromDate.value < now && r.thruDate.None?
  }

  function OfPair(pair: MemberPair): Row -> bool {
    r => PairOf(r) == pair
  }

  function OpenOfPair(pair: MemberPair, now: int): Row -> bool {
    r => PairOf(r) == pair && OpenEnded(r, now)
  }

  /** The pairs the grouped query returns: more than one open-ended membership. */
  function DuplicatedPairs(rows: seq<Row>, now: int): set<MemberPair> {
    set r | r in rows && OpenEnded(r, now) && |Filter(rows, OpenOfPair(PairOf(r), now))| > 1 :: PairOf(r)
  }

  /**
   * Keep, of each pair in `flagged`, only its first record in table order;
   * `seen` holds the pairs met earlier in the table.
   */
  function KeepFirst(rows: seq<Row>, flagged: set<MemberPair>, seen: set<MemberPair>): seq<Row> {
    if rows == [] then []
    else
      var pair := PairOf(rows[0]);
      (if pair in flagged && pair in seen then [] else [rows[0]])
        + KeepFirst(rows[1..], flagged, seen + {pair})
  }

  /** At most the first element of a list. */
  function Take1(l: seq<Row>): (r: seq<Row>)
    ensures |r| <= 1
  {
    if l == [] then [] else [l[0]]
  }

  lemma {:induction false} KeepFirstNothing(rows: seq<Row>, seen: set<MemberPair>)
    ensures KeepFirst(rows, {}, seen) == rows
    decreases |rows|
  {
    if rows != [] {
      KeepFirstNothing(rows[1..], seen + {PairOf(rows[0])});
    }
  }

  /** Deduplicating one more pair after the others is deduplicating them all at once. */
  lemma {:induction false} KeepFirstCompose(rows: seq<Row>, done: set<MemberPair>, pair: MemberPair,
                                             seen1: set<MemberPair>, seen2: set<MemberPair>)
    requires pair !in done
    requires pair in seen1 <==> pair in seen2
    ensures KeepFirst(KeepFirst(rows, done, seen1), {pair}, seen2) == KeepFirst(rows, done + {pair}, seen1)
    decreases |rows|
  {
    if rows != [] {
      var q := PairOf(rows[0]);
      var rest := KeepFirst(rows[1..], done, seen1 + {q});
      if q in done && q in seen1 {
        assert KeepFirst(rows, done, seen1) == rest;
        assert KeepFirst(rows, done + {pair}, seen1) == KeepFirst(rows[1..], done + {pair}, seen1 + {q});
        KeepFirstCompose(rows[1..], done, pair, seen1 + {q}, seen2);
      } else {
        assert KeepFirst(rows, done, seen1) == [rows[0]] + rest;
        KeepFirstCompose(rows[1..], done, pair, seen1 + {q}, seen2 + {q});
      }
    }
  }

  /** A pair with at most one record (none if already seen) loses nothing. */
  lemma {:induction false} KeepFirstUnneeded(rows: seq<Row>, pair: MemberPair, seen: set<MemberPair>)
    requires |Filter(rows, OfPair(pair))| <= (if pair in seen then 0 else 1)
    ensures KeepFirst(rows, {pair}, seen) == rows
    decreases |rows|
  {
    if rows != [] {
      FilterCons(rows[0], rows[1..], OfPair(pair));
      assert rows == [rows[0]] + rows[1..];
      KeepFirstUnneeded(rows[1..], pair, seen + {PairOf(rows[0])});
    }
  }

  /** What deduplication leaves of each pair: its first record, or all of an unflagged pair. */
  lemma {:induction false} KeepFirstOfPair(rows: seq<Row>, flagged: set<MemberPair>, seen: set<MemberPair>, q: MemberPair)
    ensures Filter(KeepFirst(rows, flagged, seen), OfPair(q)) ==
      if q !in flagged then Filter(rows, OfPair(q))
      else if q in seen then []
      else Take1(Filter(rows, OfPair(q)))
    decreases |rows|
  {
    if rows != [] {
      var x := rows[0];
      var pair := PairOf(x);
      var rest := KeepFirst(rows[1..], flagged, seen + {pair});
      assert rows == [x] + rows[1..];
      FilterCons(x, rows[1..], OfPair(q));
      KeepFirstOfPair(rows[1..], flagged, seen + {pair}, q);
      if pair in flagged && pair in seen {
        assert KeepFirst(rows, flagged, seen) == rest;
      } else {
        assert KeepFirst(rows, flagged, seen) == [x] + rest;
        FilterCons(x, rest, OfPair(q));
      }
    }
  }

  /** The membership table the pass leaves. */
  function WithoutDuplicateMembers(rows: seq<Row>, now: int): seq<Row> {
    KeepFirst(rows, DuplicatedPairs(rows, now), {})
  }

  /** The service (ProductUtilServices.removeDuplicateOpenEndedCategoryMembers). */
  method RemoveDuplicateOpenEndedCategoryMembers(store: ProductStore, now: int)
    modifies store`categoryMembers
    ensures store.categoryMembers == WithoutDuplicateMembers(old(store.categoryMembers), now)
  {
    ghost var m0 := store.categoryMembers;
    var flagged := DuplicatedPairs(store.categoryMembers, now);
    ghost var all := flagged;
    ghost var done: set<MemberPair> := {};
    KeepFirstNothing(m0, {});
    while flagged != {}
      invariant flagged !! done && flagged + done == all
      invariant store.categoryMembers == KeepFirst(m0, done, {})
      decreases flagged
    {
      var pair :| pair in flagged;
      done := RemoveAllButFirst(store, pair, m0, done);
      flagged := flagged - {pair};
    }
  }

  /** One iteration of the pass, for one flagged pair (the source's :200-206). */
  method RemoveAllButFirst(store: ProductStore, pair: MemberPair, ghost m0: seq<Row>, ghost done: set<MemberPair>)
    returns (ghost done': set<MemberPair>)
    requires pair !in done
    requires store.categoryMembers == KeepFirst(m0, done, {})
    modifies store`categoryMembers
    ensures done' == done + {pair}
    ensures store.categoryMembers == KeepFirst(m0, done', {})
  {
    done' := done + {pair};
    // the undated lookup of every record of the pair, in table order
    var list := Filter(store.categoryMembers, OfPair(pair));
    KeepFirstCompose(m0, done, pair, {}, {});
    if |list| > 1 {
      // all but the first are removed
      store.categoryMembers := KeepFirst(store.categoryMembers, {pair}, {});
    } else {
      KeepFirstUnneeded(store.categoryMembers, pair, {});
    }
  }

  /** A flagged pair had more than one record to begin with. */
  lemma DuplicatedPairHasRecords(rows: seq<Row>, now: int, q: MemberPair)
    requires q in DuplicatedPairs(rows, now)
    ensures |Filter(rows, OfPair(q))| > 1
  {
    var r :| r in rows && OpenEnded(r, now) && |Filter(rows, OpenOfPair(PairOf(r), now))| > 1 && PairOf(r) == q;
    FilterStronger(rows, OpenOfPair(q, now), OfPair(q));
  }

  /**
   * Each flagged pair keeps exactly one record, the first the lookup returned;
   * the records of every other pair are untouched.
   */
  lemma DuplicatesReducedToFirst(rows: seq<Row>, now: int)
    ensures forall q :: q in DuplicatedPairs(rows, now) ==>
      |Filter(rows, OfPair(q))| > 1 &&
      Filter(WithoutDuplicateMembers(rows, now), OfPair(q)) == [Filter(rows, OfPair(q))[0]]
    ensures forall q :: q !in DuplicatedPairs(rows, now) ==>
      Filter(WithoutDuplicateMembers(rows, now), OfPair(q)) == Filter(rows, OfPair(q))
  {
    forall q
      ensures q in DuplicatedPairs(rows, now) ==>
        |Filter(rows, OfPair(q))| > 1 &&
        Filter(WithoutDuplicateMembers(rows, now), OfPair(q)) == [Filter(rows, OfPair(q))[0]]
      ensures q !in DuplicatedPairs(rows, now) ==>
        Filter(WithoutDuplicateMembers(rows, now), OfPair(q)) == Filter(rows, OfPair(q))
    {
      KeepFirstOfPair(rows, DuplicatedPairs(rows, now), {}, q);
      if q in DuplicatedPairs(rows, now) {
        DuplicatedPairHasRecords(rows, now, q);
      }
    }
  }

  /** Afterwards no (product, category) pair has more than one open-ended membership. */
  lemma AtMostOneOpenEndedMember(rows: seq<Row>, now: int, q: MemberPair)
    ensures |Filter(WithoutDuplicateMembers(rows, now), OpenOfPair(q, now))| <= 1
  {
    var after := WithoutDuplicateMembers(rows, now);
    DuplicatesReducedToFirst(rows, now);
    FilterStronger(after, OpenOfPair(q, now), OfPair(q));
    if q in DuplicatedPairs(rows, now) {
      assert |Filter(after, OfPair(q))| == 1;
    } else {
      FilterStronger(rows, OpenOfPair(q, now), OfPair(q));
      var open := Filter(rows, OpenOfPair(q, now));
      if |open| > 1 {
        assert open[0] in open;
      }
    }
  }
}
