/**
 * The feature-group synchronizer (ProductUtilServices.attachProductFeaturesToCategory):
 * for each category, bottom-up over the rollup tree, one feature group per
 * feature type of the features its member products carry, linked to the
 * category, holding exactly those features, with the groups of the
 * sub-categories linked to the category as well.
 */
module FeatureGroups {
  import opened Records
  import opened Store

  /** The longest productFeatureGroupId the store accepts. */
  const MAX_GROUP_ID_LENGTH := 20

  /**
   * The id of the group for feature type `t` in category `cid`:
   * `cid + "_" + t`, cut to its first 20 characters.
   */
  function GroupId(cid: string, t: string): (gid: string)
    ensures |gid| == if |cid| + 1 + |t| > MAX_GROUP_ID_LENGTH then MAX_GROUP_ID_LENGTH else |cid| + 1 + |t|
    ensures gid <= cid + "_" + t
  {
    var full := cid + "_" + t;
    if |full| > MAX_GROUP_ID_LENGTH then full[..MAX_GROUP_ID_LENGTH] else full
  }

  /** Ids short enough to escape the cut name one group per feature type. */
  lemma GroupIdInjective(cid: string, t: string, u: string)
    requires |cid| + 1 + |t| <= MAX_GROUP_ID_LENGTH && |cid| + 1 + |u| <= MAX_GROUP_ID_LENGTH
    requires GroupId(cid, t) == GroupId(cid, u)
    ensures t == u
  {
    assert t == (cid + "_" + t)[|cid| + 1..];
    assert u == (cid + "_" + u)[|cid| + 1..];
  }

  /** Past 20 characters the cut makes two feature types share one group. */
  lemma GroupIdCollides()
    ensures GroupId("SUMMER_COLLECTION", "COLOR") == GroupId("SUMMER_COLLECTION", "COLOUR")
    ensures "COLOR" != "COLOUR"
  {
    assert ("SUMMER_COLLECTION" + "_" + "COLOR")[..20] == "SUMMER_COLLECTION_CO";
    assert ("SUMMER_COLLECTION" + "_" + "COLOUR")[..20] == "SUMMER_COLLECTION_CO";
  }

  /** The description of a group the pass creates. */
  function Description(cid: string, t: string): string {
    "Feature Group for type [" + t + "] features in category [" + cid + "]"
  }

  /**
   * The feature-type filter: a non-empty toInclude set lists the admitted types,
   * an empty one admits all; the toExclude set is subtracted after.
   */
  predicate Admitted(t: string, toInclude: set<string>, toExclude: set<string>) {
    (toInclude == {} || t in toInclude) && t !in toExclude
  }

  /**
   * SQL LIKE without an escape character: `%` matches any run of characters,
   * `_` any one character, every other character itself.
   */
  predicate Like(s: string, pattern: string)
    decreases |s| + |pattern|
  {
    if pattern == [] then s == []
    else if pattern[0] == '%' then Like(s, pattern[1..]) || (s != [] && Like(s[1..], pattern))
    else s != [] && (pattern[0] == '_' || pattern[0] == s[0]) && Like(s[1..], pattern[1..])
  }

  /** `%` matches every string. */
  lemma {:induction false} LikeAnything(s: string)
    ensures Like(s, "%")
    decreases |s|
  {
    if s != [] {
      LikeAnything(s[1..]);
    }
  }

  /** Every group named after the category matches the pattern the stale cleanup uses. */
  lemma {:induction false} GroupIdMatchesPattern(cid: string, t: string)
    requires |cid| + 1 < MAX_GROUP_ID_LENGTH && t != []
    ensures Like(GroupId(cid, t), CategoryPattern(cid))
  {
    var gid := GroupId(cid, t);
    assert gid[..|cid|] == cid && gid[|cid|] == '_' by {
      assert gid <= cid + "_" + t;
    }
    LikePrefix(gid, cid);
  }

  /** A string starting with `cid`, a character and then anything matches `cid_%`. */
  lemma {:induction false} LikeWord(s: string, cid: string)
    requires |s| > |cid| && s[..|cid|] == cid
    ensures Like(s, cid + "_%")
    decreases |cid|
  {
    if cid == [] {
      assert s[1..] == s[1..];
      LikeAnything(s[1..]);
      assert (cid + "_%")[1..] == "%";
    } else {
      assert s[1..][..|cid| - 1] == cid[1..];
      LikeWord(s[1..], cid[1..]);
      assert (cid + "_%")[1..] == cid[1..] + "_%";
    }
  }

  lemma LikePrefix(s: string, cid: string)
    requires |s| > |cid| && s[..|cid|] == cid
    ensures Like(s, CategoryPattern(cid))
  {
    LikeWord(s, cid);
    assert CategoryPattern(cid)[1..] == cid + "_%";
  }

  /** The pattern `%cid_%` the stale cleanup matches group ids against. */
  function CategoryPattern(cid: string): string {
    "%" + cid + "_%"
  }

  // The feature index: feature ids by feature type, both in insertion order.

  datatype FeatureIndex = FeatureIndex(types: seq<string>, byType: map<string, seq<string>>)

  const NoFeatures := FeatureIndex([], map[])

  predicate Distinct(s: seq<string>) {
    forall i, j :: 0 <= i < j < |s| ==> s[i] != s[j]
  }

  /** The index records feature `fid` under type `t`. */
  predicate Has(ix: FeatureIndex, t: string, fid: string) {
    t in ix.byType && fid in ix.byType[t]
  }

  /** Every type listed once, and each with a non-empty list of distinct features. */
  ghost predicate IndexOk(ix: FeatureIndex) {
    && Distinct(ix.types)
    && (forall t :: t in ix.byType <==> t in ix.types)
    && (forall t :: t in ix.byType ==> ix.byType[t] != [] && Distinct(ix.byType[t]))
  }

  /** Adds feature `fid` to the set of type `t`, creating the set the first time. */
  function AddFeature(ix: FeatureIndex, t: string, fid: string): (r: FeatureIndex)
    ensures ix.types <= r.types
    ensures forall u, f {:trigger Has(r, u, f)} :: Has(r, u, f) <==> Has(ix, u, f) || (u == t && f == fid)
  {
    if t !in ix.byType then FeatureIndex(ix.types + [t], ix.byType[t := [fid]])
    else if fid in ix.byType[t] then ix
    else ix.(byType := ix.byType[t := ix.byType[t] + [fid]])
  }

  lemma AddFeatureOk(ix: FeatureIndex, t: string, fid: string)
    requires IndexOk(ix)
    ensures IndexOk(AddFeature(ix, t, fid))
  {
  }

  /** The ProductFeatureAndAppl rows of product `pid` in effect at `now`. */
  function ApplOf(features: map<string, string>, pid: string, now: int): Row -> bool {
    (a: Row) => KeyedTo(a, PRODUCT_ID, pid) && ValidAt(a, now) && Field(a, FEATURE_ID) in features
  }

  /** Application `a` brings feature `fid` of admitted type `t`. */
  predicate Contributes(a: Row, features: map<string, string>, toInclude: set<string>, toExclude: set<string>,
                        t: string, fid: string) {
    Field(a, FEATURE_ID) == fid && fid in features && features[fid] == t && Admitted(t, toInclude, toExclude)
  }

  /** The inner loop: one product's feature applications, skipping those of a filtered type. */
  function IndexAppls(ix: FeatureIndex, appls: seq<Row>, features: map<string, string>,
                      toInclude: set<string>, toExclude: set<string>): (r: FeatureIndex)
    ensures ix.types <= r.types
    decreases |appls|
  {
    if appls == [] then ix
    else
      var prev := IndexAppls(ix, appls[..|appls| - 1], features, toInclude, toExclude);
      var fid := Field(appls[|appls| - 1], FEATURE_ID);
      if fid in features && Admitted(features[fid], toInclude, toExclude) then AddFeature(prev, features[fid], fid)
      else prev
  }

  /** After the inner loop the index holds what it held, plus the admitted features of the applications. */
  lemma {:induction false} IndexApplsHas(ix: FeatureIndex, appls: seq<Row>, features: map<string, string>,
                                         toInclude: set<string>, toExclude: set<string>, t: string, fid: string)
    ensures Has(IndexAppls(ix, appls, features, toInclude, toExclude), t, fid) <==>
      Has(ix, t, fid) || exists a {:trigger a in appls} :: a in appls && Contributes(a, features, toInclude, toExclude, t, fid)
    decreases |appls|
  {
    if appls != [] {
      var init := appls[..|appls| - 1];
      var a := appls[|appls| - 1];
      var prev := IndexAppls(ix, init, features, toInclude, toExclude);
      IndexApplsHas(ix, init, features, toInclude, toExclude, t, fid);
      if exists x {:trigger x in appls} :: x in appls && Contributes(x, features, toInclude, toExclude, t, fid) {
        var x :| x in appls && Contributes(x, features, toInclude, toExclude, t, fid);
        assert x in init || x == a;
      }
      if exists x {:trigger x in init} :: x in init && Contributes(x, features, toInclude, toExclude, t, fid) {
        var x :| x in init && Contributes(x, features, toInclude, toExclude, t, fid);
        assert x in appls;
      }
      assert a in appls;
      var f := Field(a, FEATURE_ID);
      if f in features && Admitted(features[f], toInclude, toExclude) {
        assert IndexAppls(ix, appls, features, toInclude, toExclude) == AddFeature(prev, features[f], f);
        assert Contributes(a, features, toInclude, toExclude, t, fid) <==> t == features[f] && fid == f;
      } else {
        assert IndexAppls(ix, appls, features, toInclude, toExclude) == prev;
        assert !Contributes(a, features, toInclude, toExclude, t, fid);
      }
    }
  }

  /** The category member `m` names the product application `a` belongs to, and `a` is in effect. */
  predicate Feeds(m: Row, a: Row, now: int) {
    KeyedTo(a, PRODUCT_ID, Field(m, PRODUCT_ID)) && ValidAt(a, now)
  }

  /** Some application of member `m`'s product in effect at `now` brings feature `fid` of admitted type `t`. */
  predicate ProductBrings(c: Catalog, m: Row, toInclude: set<string>, toExclude: set<string>, now: int,
                          t: string, fid: string) {
    exists a {:trigger a in c.featureAppls} ::
      a in c.featureAppls && Feeds(m, a, now) && Contributes(a, c.features, toInclude, toExclude, t, fid)
  }

  /** The applications the inner loop visits are those of the member's product. */
  lemma ApplsOfMember(c: Catalog, m: Row, appls: seq<Row>, toInclude: set<string>, toExclude: set<string>, now: int,
                      t: string, fid: string)
    requires appls == Filter(c.featureAppls, ApplOf(c.features, Field(m, PRODUCT_ID), now))
    ensures ProductBrings(c, m, toInclude, toExclude, now, t, fid) <==>
      exists a {:trigger a in appls} :: a in appls && Contributes(a, c.features, toInclude, toExclude, t, fid)
  {
    var p := ApplOf(c.features, Field(m, PRODUCT_ID), now);
    if ProductBrings(c, m, toInclude, toExclude, now, t, fid) {
      var a :| a in c.featureAppls && Feeds(m, a, now) && Contributes(a, c.features, toInclude, toExclude, t, fid);
      assert p(a);
      assert a in appls;
    }
    if exists a {:trigger a in appls} :: a in appls && Contributes(a, c.features, toInclude, toExclude, t, fid) {
      var a :| a in appls && Contributes(a, c.features, toInclude, toExclude, t, fid);
      assert a in c.featureAppls && p(a);
      assert Feeds(m, a, now);
    }
  }

  /** The outer loop: the members' products, in order. */
  function IndexMembers(ix: FeatureIndex, members: seq<Row>, c: Catalog,
                        toInclude: set<string>, toExclude: set<string>, now: int): (r: FeatureIndex)
    ensures ix.types <= r.types
    decreases |members|
  {
    if members == [] then ix
    else
      var m := members[|members| - 1];
      var appls := Filter(c.featureAppls, ApplOf(c.features, Field(m, PRODUCT_ID), now));
      IndexAppls(IndexMembers(ix, members[..|members| - 1], c, toInclude, toExclude, now), appls, c.features, toInclude, toExclude)
  }

  /** After the outer loop the index holds what it held, plus what the members' products bring. */
  lemma {:induction false} IndexMembersHas(ix: FeatureIndex, members: seq<Row>, c: Catalog,
                                           toInclude: set<string>, toExclude: set<string>, now: int, t: string, fid: string)
    ensures Has(IndexMembers(ix, members, c, toInclude, toExclude, now), t, fid) <==>
      Has(ix, t, fid) ||
      exists m {:trigger m in members} :: m in members && ProductBrings(c, m, toInclude, toExclude, now, t, fid)
    decreases |members|
  {
    if members != [] {
      var init := members[..|members| - 1];
      var m := members[|members| - 1];
      var appls := Filter(c.featureAppls, ApplOf(c.features, Field(m, PRODUCT_ID), now));
      var prev := IndexMembers(ix, init, c, toInclude, toExclude, now);
      assert IndexMembers(ix, members, c, toInclude, toExclude, now) == IndexAppls(prev, appls, c.features, toInclude, toExclude);
      IndexMembersHas(ix, init, c, toInclude, toExclude, now, t, fid);
      IndexApplsHas(prev, appls, c.features, toInclude, toExclude, t, fid);
      ApplsOfMember(c, m, appls, toInclude, toExclude, now, t, fid);
      if exists x {:trigger x in members} :: x in members && ProductBrings(c, x, toInclude, toExclude, now, t, fid) {
        var x :| x in members && ProductBrings(c, x, toInclude, toExclude, now, t, fid);
        assert x in init || x == m;
      }
      if exists x {:trigger x in init} :: x in init && ProductBrings(c, x, toInclude, toExclude, now, t, fid) {
        var x :| x in init && ProductBrings(c, x, toInclude, toExclude, now, t, fid);
        assert x in members;
      }
      assert m in members;
    }
  }

  function MemberOf(cid: string): Row -> bool {
    (x: Row) => KeyedTo(x, CATEGORY_ID, cid)
  }

  /**
   * The index the pass builds for category `cid`: the features, applied in
   * effect at `now` to a product that is a member of the category (of any
   * date), whose type the filter admits, by type. A type is present only with
   * at least one feature.
   */
  function CategoryIndex(c: Catalog, cid: string, toInclude: set<string>, toExclude: set<string>, now: int)
    : (r: FeatureIndex)
  {
    IndexMembers(NoFeatures, Filter(c.categoryMembers, MemberOf(cid)), c, toInclude, toExclude, now)
  }

  /**
   * The index holds feature `fid` under type `t` exactly when a member of the
   * category has a product with an application of `fid` in effect at `now`,
   * and the filter admits `t`.
   */
  lemma CategoryIndexHas(c: Catalog, cid: string, toInclude: set<string>, toExclude: set<string>, now: int,
                         t: string, fid: string)
    ensures Has(CategoryIndex(c, cid, toInclude, toExclude, now), t, fid) <==>
      exists m {:trigger m in c.categoryMembers} ::
        m in c.categoryMembers && KeyedTo(m, CATEGORY_ID, cid) && ProductBrings(c, m, toInclude, toExclude, now, t, fid)
  {
    var members := Filter(c.categoryMembers, MemberOf(cid));
    assert forall x {:trigger x in c.categoryMembers} :: MemberOf(cid)(x) == KeyedTo(x, CATEGORY_ID, cid);
    IndexMembersHas(NoFeatures, members, c, toInclude, toExclude, now, t, fid);
  }

  lemma {:induction false} IndexApplsOk(ix: FeatureIndex, appls: seq<Row>, features: map<string, string>,
                                        toInclude: set<string>, toExclude: set<string>)
    requires IndexOk(ix)
    ensures IndexOk(IndexAppls(ix, appls, features, toInclude, toExclude))
    decreases |appls|
  {
    if appls != [] {
      var prev := IndexAppls(ix, appls[..|appls| - 1], features, toInclude, toExclude);
      IndexApplsOk(ix, appls[..|appls| - 1], features, toInclude, toExclude);
      var fid := Field(appls[|appls| - 1], FEATURE_ID);
      if fid in features && Admitted(features[fid], toInclude, toExclude) {
        AddFeatureOk(prev, features[fid], fid);
      }
    }
  }

  lemma {:induction false} IndexMembersOk(ix: FeatureIndex, members: seq<Row>, c: Catalog,
                                          toInclude: set<string>, toExclude: set<string>, now: int)
    requires IndexOk(ix)
    ensures IndexOk(IndexMembers(ix, members, c, toInclude, toExclude, now))
    decreases |members|
  {
    if members != [] {
      var m := members[|members| - 1];
      var appls := Filter(c.featureAppls, ApplOf(c.features, Field(m, PRODUCT_ID), now));
      IndexMembersOk(ix, members[..|members| - 1], c, toInclude, toExclude, now);
      IndexApplsOk(IndexMembers(ix, members[..|members| - 1], c, toInclude, toExclude, now), appls,
                   c.features, toInclude, toExclude);
    }
  }

  /** Each type appears once in the category's index, with at least one feature, each feature once. */
  lemma CategoryIndexOk(c: Catalog, cid: string, toInclude: set<string>, toExclude: set<string>, now: int)
    ensures IndexOk(CategoryIndex(c, cid, toInclude, toExclude, now))
  {
    IndexMembersOk(NoFeatures, Filter(c.categoryMembers, MemberOf(cid)), c, toInclude, toExclude, now);
  }

  // Per feature type: the group, its link to the category, its feature links.

  /** The ProductFeatureCatGrpAppl record the pass creates. */
  function CategoryLink(gid: string, cid: string, now: int): Row {
    Row(map[FEATURE_GROUP_ID := gid, CATEGORY_ID := cid], Some(now), None, map[])
  }

  /** The ProductFeatureGroupAppl record the pass creates. */
  function FeatureLink(gid: string, fid: string, now: int): Row {
    Row(map[FEATURE_GROUP_ID := gid, FEATURE_ID := fid], Some(now), None, map[])
  }

  predicate LinksTo(r: Row, gid: string, cid: string) {
    KeyedTo(r, FEATURE_GROUP_ID, gid) && KeyedTo(r, CATEGORY_ID, cid)
  }

  /** Some link, of any date, between group `gid` and category `cid`. */
  predicate HasCategoryLink(links: seq<Row>, gid: string, cid: string) {
    exists x {:trigger x in links} :: x in links && LinksTo(x, gid, cid)
  }

  /**
   * Makes sure the group exists and is linked to the category: a missing
   * group is created with its link; an existing one gets a link only when it
   * has none to this category.
   */
  function EnsureGroup(g: GroupTables, cid: string, t: string, now: int): (r: GroupTables)
    ensures GroupId(cid, t) in r.featureGroups
    ensures HasCategoryLink(r.categoryLinks, GroupId(cid, t), cid)
    ensures r.featureLinks == g.featureLinks
    ensures r.featureGroups.Keys == g.featureGroups.Keys + {GroupId(cid, t)}
    ensures forall k {:trigger k in g.featureGroups} :: k in g.featureGroups ==> r.featureGroups[k] == g.featureGroups[k]
    ensures r.categoryLinks == g.categoryLinks || r.categoryLinks == g.categoryLinks + [CategoryLink(GroupId(cid, t), cid, now)]
    ensures GroupId(cid, t) in g.featureGroups && HasCategoryLink(g.categoryLinks, GroupId(cid, t), cid) ==>
      r.categoryLinks == g.categoryLinks
  {
    var gid := GroupId(cid, t);
    var link := CategoryLink(gid, cid, now);
    assert LinksTo(link, gid, cid) && link in g.categoryLinks + [link];
    if gid !in g.featureGroups then
      g.(featureGroups := g.featureGroups[gid := Description(cid, t)], categoryLinks := g.categoryLinks + [link])
    else if !HasCategoryLink(g.categoryLinks, gid, cid) then
      g.(categoryLinks := g.categoryLinks + [link])
    else g
  }

  /** A link from group `gid` to feature `fid` in effect at `now`. */
  predicate HasFeatureLink(links: seq<Row>, gid: string, fid: string, now: int) {
    exists x {:trigger x in links} ::
      x in links && KeyedTo(x, FEATURE_GROUP_ID, gid) && KeyedTo(x, FEATURE_ID, fid) && ValidAt(x, now)
  }

  /** The feature loop: a link from `now` on for each feature without one in effect. */
  function LinkFeatures(links: seq<Row>, gid: string, fids: seq<string>, now: int): (r: seq<Row>)
    ensures links <= r
    ensures forall fid {:trigger fid in fids} :: fid in fids ==> HasFeatureLink(r, gid, fid, now)
    ensures forall x {:trigger x in r} :: x in r ==>
      x in links || (FEATURE_ID in x.key && x.key[FEATURE_ID] in fids && x == FeatureLink(gid, x.key[FEATURE_ID], now))
    decreases |fids|
  {
    if fids == [] then links
    else
      var init := fids[..|fids| - 1];
      var fid := fids[|fids| - 1];
      assert forall f {:trigger f in fids} :: f in fids ==> f in init || f == fid;
      assert forall f {:trigger f in init} :: f in init ==> f in fids;
      var prev := LinkFeatures(links, gid, init, now);
      if HasFeatureLink(prev, gid, fid, now) then prev
      else
        var link := FeatureLink(gid, fid, now);
        assert link in prev + [link];
        assert forall x {:trigger x in prev} :: x in prev ==> x in prev + [link];
        prev + [link]
  }

  /** Whether a record survives the deletion of group `gid`'s links in effect to features outside `fids`. */
  function KeptFor(gid: string, fids: seq<string>, now: int): Row -> bool {
    (x: Row) => !(KeyedTo(x, FEATURE_GROUP_ID, gid) && ValidAt(x, now) && FEATURE_ID in x.key && x.key[FEATURE_ID] !in fids)
  }

  /** The features group `gid` holds at `now`. */
  function GroupFeatures(links: seq<Row>, gid: string, now: int): set<string> {
    set x | x in links && KeyedTo(x, FEATURE_GROUP_ID, gid) && ValidAt(x, now) && FEATURE_ID in x.key :: x.key[FEATURE_ID]
  }

  /**
   * One feature type: the group `cid_t`, its category link, a link to each of
   * `fids`, and no link in effect to any other feature. The other groups'
   * feature links are not touched.
   */
  function ReconcileType(g: GroupTables, cid: string, t: string, fids: seq<string>, now: int): (r: GroupTables)
    ensures GroupId(cid, t) in r.featureGroups && HasCategoryLink(r.categoryLinks, GroupId(cid, t), cid)
    ensures g.featureGroups.Keys <= r.featureGroups.Keys && g.categoryLinks <= r.categoryLinks
    ensures GroupFeatures(r.featureLinks, GroupId(cid, t), now) == set f | f in fids
    ensures forall x {:trigger x in g.featureLinks} :: x in g.featureLinks && !KeyedTo(x, FEATURE_GROUP_ID, GroupId(cid, t)) ==>
      x in r.featureLinks
    ensures forall x {:trigger x in r.featureLinks} :: x in r.featureLinks && !KeyedTo(x, FEATURE_GROUP_ID, GroupId(cid, t)) ==>
      x in g.featureLinks
  {
    var gid := GroupId(cid, t);
    var e := EnsureGroup(g, cid, t, now);
    var linked := LinkFeatures(e.featureLinks, gid, fids, now);
    var kept := Filter(linked, KeptFor(gid, fids, now));
    assert forall x {:trigger x in linked} ::
      KeptFor(gid, fids, now)(x) == !(KeyedTo(x, FEATURE_GROUP_ID, gid) && ValidAt(x, now) && FEATURE_ID in x.key && x.key[FEATURE_ID] !in fids);
    assert forall x {:trigger x in e.featureLinks} :: x in e.featureLinks ==> x in linked;
    ReconciledFeatures(linked, kept, gid, fids, now);
    e.(featureLinks := kept)
  }

  /** Once every feature has a link in effect, the deletion leaves the group holding exactly `fids`. */
  lemma ReconciledFeatures(linked: seq<Row>, kept: seq<Row>, gid: string, fids: seq<string>, now: int)
    requires forall fid {:trigger fid in fids} :: fid in fids ==> HasFeatureLink(linked, gid, fid, now)
    requires kept == Filter(linked, KeptFor(gid, fids, now))
    ensures GroupFeatures(kept, gid, now) == set f | f in fids
  {
    var p := KeptFor(gid, fids, now);
    forall fid | fid in GroupFeatures(kept, gid, now)
      ensures fid in fids
    {
      var x :| x in kept && KeyedTo(x, FEATURE_GROUP_ID, gid) && ValidAt(x, now) && FEATURE_ID in x.key && x.key[FEATURE_ID] == fid;
      assert p(x);
    }
    forall fid | fid in fids
      ensures fid in GroupFeatures(kept, gid, now)
    {
      var x :| x in linked && KeyedTo(x, FEATURE_GROUP_ID, gid) && KeyedTo(x, FEATURE_ID, fid) && ValidAt(x, now);
      assert p(x);
      assert x in kept;
    }
  }

  /** Two link tables that agree off group `other` give group `gid` the same features. */
  lemma GroupFeaturesElsewhere(a: seq<Row>, b: seq<Row>, gid: string, other: string, now: int)
    requires gid != other
    requires forall x {:trigger x in a} :: x in a && !KeyedTo(x, FEATURE_GROUP_ID, other) ==> x in b
    requires forall x {:trigger x in b} :: x in b && !KeyedTo(x, FEATURE_GROUP_ID, other) ==> x in a
    ensures GroupFeatures(a, gid, now) == GroupFeatures(b, gid, now)
  {
    forall f | f in GroupFeatures(a, gid, now)
      ensures f in GroupFeatures(b, gid, now)
    {
      var x :| x in a && KeyedTo(x, FEATURE_GROUP_ID, gid) && ValidAt(x, now) && FEATURE_ID in x.key && x.key[FEATURE_ID] == f;
      assert x in b;
    }
    forall f | f in GroupFeatures(b, gid, now)
      ensures f in GroupFeatures(a, gid, now)
    {
      var x :| x in b && KeyedTo(x, FEATURE_GROUP_ID, gid) && ValidAt(x, now) && FEATURE_ID in x.key && x.key[FEATURE_ID] == f;
      assert x in a;
    }
  }

  /** No later type of `types` shares the group id of `types[i]`. */
  predicate LastOfItsGroup(cid: string, types: seq<string>, i: int)
    requires 0 <= i < |types|
  {
    forall j :: i < j < |types| ==> GroupId(cid, types[j]) != GroupId(cid, types[i])
  }

  /** The loop over the index's types, in insertion order. */
  function ReconcileAll(g: GroupTables, cid: string, ix: FeatureIndex, types: seq<string>, now: int): (r: GroupTables)
    requires forall k :: 0 <= k < |types| ==> types[k] in ix.byType
    ensures g.featureGroups.Keys <= r.featureGroups.Keys && g.categoryLinks <= r.categoryLinks
    ensures forall t {:trigger t in types} :: t in types ==> GroupId(cid, t) in r.featureGroups
    decreases |types|
  {
    if types == [] then g
    else
      var init := types[..|types| - 1];
      var t := types[|types| - 1];
      assert forall u {:trigger u in types} :: u in types ==> u in init || u == t;
      ReconcileType(ReconcileAll(g, cid, ix, init, now), cid, t, ix.byType[t], now)
  }

  /**
   * Each group ends up holding the features of the last type of `types` named
   * after it: exactly its features when no truncation collision occurs.
   */
  lemma {:induction false} ReconcileAllFeatures(g: GroupTables, cid: string, ix: FeatureIndex, types: seq<string>, now: int,
                                                i: nat)
    requires forall k :: 0 <= k < |types| ==> types[k] in ix.byType
    requires i < |types| && LastOfItsGroup(cid, types, i)
    ensures GroupFeatures(ReconcileAll(g, cid, ix, types, now).featureLinks, GroupId(cid, types[i]), now)
         == set f | f in ix.byType[types[i]]
    decreases |types|
  {
    var init := types[..|types| - 1];
    var t := types[|types| - 1];
    var prev := ReconcileAll(g, cid, ix, init, now);
    if i < |types| - 1 {
      assert init[i] == types[i];
      assert LastOfItsGroup(cid, init, i);
      ReconcileAllFeatures(g, cid, ix, init, now, i);
      GroupFeaturesElsewhere(prev.featureLinks, ReconcileType(prev, cid, t, ix.byType[t], now).featureLinks,
                             GroupId(cid, types[i]), GroupId(cid, t), now);
    }
  }

  // The stale-type cleanup.

  /**
   * A row of the ProductFeatureGroupAndAppl view the cleanup selects: a link of
   * an existing group whose id matches `%cid_%`, to a feature whose type is not
   * among the types derived this pass.
   */
  predicate StaleLink(x: Row, g: GroupTables, features: map<string, string>, cid: string, types: seq<string>) {
    && FEATURE_GROUP_ID in x.key && x.key[FEATURE_GROUP_ID] in g.featureGroups
    && Like(x.key[FEATURE_GROUP_ID], CategoryPattern(cid))
    && FEATURE_ID in x.key && x.key[FEATURE_ID] in features && features[x.key[FEATURE_ID]] !in types
  }

  /** The distinct group ids the view query returns. */
  function StaleGroups(g: GroupTables, features: map<string, string>, cid: string, types: seq<string>): set<string> {
    set x | x in g.featureLinks && StaleLink(x, g, features, cid, types) :: x.key[FEATURE_GROUP_ID]
  }

  /** The record does not belong to any group of `gids`. */
  function OutsideGroups(gids: set<string>): Row -> bool {
    (x: Row) => !(FEATURE_GROUP_ID in x.key && x.key[FEATURE_GROUP_ID] in gids)
  }

  /** The group has a feature link or a category link of any date. */
  predicate GroupLinked(g: GroupTables, gid: string) {
    || (exists x {:trigger x in g.featureLinks} :: x in g.featureLinks && KeyedTo(x, FEATURE_GROUP_ID, gid))
    || (exists x {:trigger x in g.categoryLinks} :: x in g.categoryLinks && KeyedTo(x, FEATURE_GROUP_ID, gid))
  }

  /**
   * When the pass derived some type, every stale group loses all its feature
   * and category links, of any category and any date, but keeps its record;
   * nothing else changes.
   */
  function RemoveStale(g: GroupTables, features: map<string, string>, cid: string, types: seq<string>): (r: GroupTables)
    ensures r.featureGroups == g.featureGroups
    ensures types != [] ==> forall gid {:trigger gid in StaleGroups(g, features, cid, types)} ::
      gid in StaleGroups(g, features, cid, types) ==> gid in r.featureGroups && !GroupLinked(r, gid)
    ensures forall x {:trigger x in r.featureLinks} :: x in r.featureLinks ==> x in g.featureLinks
    ensures forall x {:trigger x in r.categoryLinks} :: x in r.categoryLinks ==> x in g.categoryLinks
    ensures forall x {:trigger x in g.featureLinks} ::
      x in g.featureLinks && (types == [] || OutsideGroups(StaleGroups(g, features, cid, types))(x)) ==> x in r.featureLinks
    ensures forall x {:trigger x in g.categoryLinks} ::
      x in g.categoryLinks && (types == [] || OutsideGroups(StaleGroups(g, features, cid, types))(x)) ==> x in r.categoryLinks
  {
    if types == [] then g
    else
      var stale := StaleGroups(g, features, cid, types);
      var p := OutsideGroups(stale);
      assert forall x {:trigger x in g.featureLinks} :: p(x) == !(FEATURE_GROUP_ID in x.key && x.key[FEATURE_GROUP_ID] in stale);
      assert forall x {:trigger x in g.categoryLinks} :: p(x) == !(FEATURE_GROUP_ID in x.key && x.key[FEATURE_GROUP_ID] in stale);
      g.(featureLinks := Filter(g.featureLinks, p), categoryLinks := Filter(g.categoryLinks, p))
  }

  // Propagation of the sub-categories' groups.

  /** The category links of category `sub` in effect at `now`. */
  function CurrentLinkOf(sub: string, now: int): Row -> bool {
    (x: Row) => KeyedTo(x, CATEGORY_ID, sub) && ValidAt(x, now)
  }

  /** Group `gid` is linked to category `cid` by a record in effect at `now`. */
  predicate HasCurrentLink(links: seq<Row>, gid: string, cid: string, now: int) {
    exists y {:trigger y in links} :: y in links && LinksTo(y, gid, cid) && ValidAt(y, now)
  }

  /** A record the propagation creates: a link of category `cid` from `now` on. */
  predicate NewLinkOf(x: Row, cid: string, now: int) {
    FEATURE_GROUP_ID in x.key && x == CategoryLink(x.key[FEATURE_GROUP_ID], cid, now)
  }

  /** One sub-category: a link from `now` on for each of its groups `cid` lacks a current link to. */
  function LinkUp(links: seq<Row>, cid: string, childLinks: seq<Row>, now: int): (r: seq<Row>)
    ensures links <= r
    ensures forall x {:trigger x in childLinks} :: x in childLinks ==> HasCurrentLink(r, Field(x, FEATURE_GROUP_ID), cid, now)
    ensures forall x {:trigger x in r} :: x in r ==> x in links || NewLinkOf(x, cid, now)
    decreases |childLinks|
  {
    if childLinks == [] then links
    else
      var init := childLinks[..|childLinks| - 1];
      var x := childLinks[|childLinks| - 1];
      assert forall y {:trigger y in childLinks} :: y in childLinks ==> y in init || y == x;
      var prev := LinkUp(links, cid, init, now);
      var gid := Field(x, FEATURE_GROUP_ID);
      if HasCurrentLink(prev, gid, cid, now) then prev
      else
        var link := CategoryLink(gid, cid, now);
        assert link in prev + [link] && LinksTo(link, gid, cid);
        assert forall y {:trigger y in prev} :: y in prev ==> y in prev + [link];
        prev + [link]
  }

  /**
   * The loop over the sub-categories: afterwards each group linked in effect to
   * one of them is linked in effect to `cid` as well.
   */
  function Propagate(links: seq<Row>, cid: string, subs: seq<string>, now: int): (r: seq<Row>)
    ensures links <= r
    ensures forall x {:trigger x in r} :: x in r ==> x in links || NewLinkOf(x, cid, now)
    ensures forall x {:trigger x in r} ::
      x in r && ValidAt(x, now) && CATEGORY_ID in x.key && x.key[CATEGORY_ID] in subs ==>
      HasCurrentLink(r, Field(x, FEATURE_GROUP_ID), cid, now)
    decreases |subs|
  {
    if subs == [] then links
    else
      var prev := Propagate(links, cid, subs[..|subs| - 1], now);
      var sub := subs[|subs| - 1];
      var childLinks := Filter(prev, CurrentLinkOf(sub, now));
      assert forall x {:trigger x in prev} :: CurrentLinkOf(sub, now)(x) == (KeyedTo(x, CATEGORY_ID, sub) && ValidAt(x, now));
      var r := LinkUp(prev, cid, childLinks, now);
      PropagateStep(links, prev, r, cid, subs, childLinks, now);
      r
  }

  lemma PropagateStep(links: seq<Row>, prev: seq<Row>, r: seq<Row>, cid: string, subs: seq<string>, childLinks: seq<Row>, now: int)
    requires subs != []
    requires forall x {:trigger x in prev} ::
      x in prev && ValidAt(x, now) && CATEGORY_ID in x.key && x.key[CATEGORY_ID] in subs[..|subs| - 1] ==>
      HasCurrentLink(prev, Field(x, FEATURE_GROUP_ID), cid, now)
    requires prev <= r
    requires forall x {:trigger x in prev} ::
      x in prev && KeyedTo(x, CATEGORY_ID, subs[|subs| - 1]) && ValidAt(x, now) ==> x in childLinks
    requires forall x {:trigger x in childLinks} :: x in childLinks ==> HasCurrentLink(r, Field(x, FEATURE_GROUP_ID), cid, now)
    requires forall x {:trigger x in r} :: x in r ==> x in prev || NewLinkOf(x, cid, now)
    ensures forall x {:trigger x in r} ::
      x in r && ValidAt(x, now) && CATEGORY_ID in x.key && x.key[CATEGORY_ID] in subs ==>
      HasCurrentLink(r, Field(x, FEATURE_GROUP_ID), cid, now)
  {
    forall x | x in r && ValidAt(x, now) && CATEGORY_ID in x.key && x.key[CATEGORY_ID] in subs
      ensures HasCurrentLink(r, Field(x, FEATURE_GROUP_ID), cid, now)
    {
      if x !in prev {
        assert LinksTo(x, Field(x, FEATURE_GROUP_ID), cid);
      } else if x.key[CATEGORY_ID] == subs[|subs| - 1] {
        assert x in childLinks;
      } else {
        assert x.key[CATEGORY_ID] in subs[..|subs| - 1];
        var y :| y in prev && LinksTo(y, Field(x, FEATURE_GROUP_ID), cid) && ValidAt(y, now);
        assert y in r;
      }
    }
  }

  // The walk over the rollup tree.

  function ChildOf(cid: string): Row -> bool {
    (x: Row) => KeyedTo(x, PARENT_CATEGORY_ID, cid)
  }

  /** The productCategoryId of each rollup record, in order. */
  function ChildIds(rows: seq<Row>): (r: seq<string>)
    ensures |r| == |rows|
    ensures forall i :: 0 <= i < |rows| ==> r[i] == Field(rows[i], CATEGORY_ID)
    decreases |rows|
  {
    if rows == [] then [] else ChildIds(rows[..|rows| - 1]) + [Field(rows[|rows| - 1], CATEGORY_ID)]
  }

  /** The direct sub-categories of `cid`: its ProductCategoryRollup records of any date, in order. */
  function SubCategories(rollups: seq<Row>, cid: string): seq<string> {
    ChildIds(Filter(rollups, ChildOf(cid)))
  }

  /**
   * The rollup relation is acyclic, witnessed by a rank that every child has
   * below its parent. The pass itself has no guard against a cycle.
   */
  ghost predicate Ranked(rollups: seq<Row>, rank: map<string, nat>) {
    forall x {:trigger x in rollups} :: x in rollups && PARENT_CATEGORY_ID in x.key ==>
      && Field(x, CATEGORY_ID) in rank && x.key[PARENT_CATEGORY_ID] in rank
      && rank[Field(x, CATEGORY_ID)] < rank[x.key[PARENT_CATEGORY_ID]]
  }

  /** The recursion's measure: a category without a rank has no sub-category. */
  ghost function Height(rank: map<string, nat>, cid: string): nat {
    if cid in rank then rank[cid] + 1 else 0
  }

  /** Every sub-category is below its parent. */
  lemma SubCategoriesBelow(rollups: seq<Row>, rank: map<string, nat>, cid: string)
    requires Ranked(rollups, rank)
    ensures forall k :: 0 <= k < |SubCategories(rollups, cid)| ==> Height(rank, SubCategories(rollups, cid)[k]) < Height(rank, cid)
  {
    var rows := Filter(rollups, ChildOf(cid));
    forall k | 0 <= k < |SubCategories(rollups, cid)|
      ensures Height(rank, SubCategories(rollups, cid)[k]) < Height(rank, cid)
    {
      var x := rows[k];
      assert x in rows;
      assert ChildOf(cid)(x);
    }
  }

  /**
   * One call of the recursive worker: the sub-categories first when
   * `doSubCategories`, then the index of this category's features, a group
   * per type, the stale cleanup, and the links of the sub-categories' groups.
   */
  function Attach(c: Catalog, cid: string, toInclude: set<string>, toExclude: set<string>, doSubCategories: bool,
                  now: int, ghost rank: map<string, nat>): (r: Catalog)
    requires Ranked(c.rollups, rank)
    ensures r == c.(groups := r.groups)
    ensures c.groups.featureGroups.Keys <= r.groups.featureGroups.Keys
    ensures forall k :: 0 <= k < |CategoryIndex(c, cid, toInclude, toExclude, now).types| ==>
      GroupId(cid, CategoryIndex(c, cid, toInclude, toExclude, now).types[k]) in r.groups.featureGroups
    ensures forall x {:trigger x in r.groups.categoryLinks} ::
      x in r.groups.categoryLinks && ValidAt(x, now) && CATEGORY_ID in x.key && x.key[CATEGORY_ID] in SubCategories(c.rollups, cid) ==>
      HasCurrentLink(r.groups.categoryLinks, Field(x, FEATURE_GROUP_ID), cid, now)
    decreases Height(rank, cid) + 1, 0
  {
    var subs := SubCategories(c.rollups, cid);
    SubCategoriesBelow(c.rollups, rank, cid);
    var c1 := if doSubCategories then AttachSubs(c, subs, Height(rank, cid), toInclude, toExclude, now, rank) else c;
    c1.(groups := SyncCategory(c1.groups, c, cid, subs, toInclude, toExclude, now))
  }

  /**
   * The category's own work once its sub-categories are done: a group per
   * type of its index, the stale cleanup, and the links of the sub-categories'
   * groups. `c` supplies the tables the pass only reads.
   */
  function SyncCategory(g: GroupTables, c: Catalog, cid: string, subs: seq<string>, toInclude: set<string>,
                        toExclude: set<string>, now: int): (r: GroupTables)
    ensures g.featureGroups.Keys <= r.featureGroups.Keys
    ensures forall k :: 0 <= k < |CategoryIndex(c, cid, toInclude, toExclude, now).types| ==>
      GroupId(cid, CategoryIndex(c, cid, toInclude, toExclude, now).types[k]) in r.featureGroups
    ensures forall x {:trigger x in r.categoryLinks} ::
      x in r.categoryLinks && ValidAt(x, now) && CATEGORY_ID in x.key && x.key[CATEGORY_ID] in subs ==>
      HasCurrentLink(r.categoryLinks, Field(x, FEATURE_GROUP_ID), cid, now)
  {
    var ix := CategoryIndex(c, cid, toInclude, toExclude, now);
    CategoryIndexOk(c, cid, toInclude, toExclude, now);
    var g2 := ReconcileAll(g, cid, ix, ix.types, now);
    var g3 := RemoveStale(g2, c.features, cid, ix.types);
    g3.(categoryLinks := Propagate(g3.categoryLinks, cid, subs, now))
  }

  /** The recursive calls on the sub-categories, in order, each with doSubCategories set. */
  function AttachSubs(c: Catalog, subs: seq<string>, ghost bound: nat, toInclude: set<string>, toExclude: set<string>,
                      now: int, ghost rank: map<string, nat>): (r: Catalog)
    requires Ranked(c.rollups, rank)
    requires forall k :: 0 <= k < |subs| ==> Height(rank, subs[k]) < bound
    ensures r == c.(groups := r.groups)
    ensures c.groups.featureGroups.Keys <= r.groups.featureGroups.Keys
    decreases bound, |subs|
  {
    if subs == [] then c
    else
      var prev := AttachSubs(c, subs[..|subs| - 1], bound, toInclude, toExclude, now, rank);
      Attach(prev, subs[|subs| - 1], toInclude, toExclude, true, now, rank)
  }

  /** Walking one more sub-category is one more call of the worker on the state so far. */
  lemma AttachSubsSnoc(c: Catalog, subs: seq<string>, i: nat, bound: nat, toInclude: set<string>, toExclude: set<string>,
                       now: int, rank: map<string, nat>)
    requires Ranked(c.rollups, rank)
    requires forall k :: 0 <= k < |subs| ==> Height(rank, subs[k]) < bound
    requires i < |subs|
    ensures AttachSubs(c, subs[..i + 1], bound, toInclude, toExclude, now, rank)
         == Attach(AttachSubs(c, subs[..i], bound, toInclude, toExclude, now, rank), subs[i], toInclude, toExclude, true, now, rank)
  {
    assert subs[..i + 1][..i] == subs[..i];
  }

  /** The service's flag: sub-categories are walked unless the parameter is "N". */
  function DoSubCategories(param: Option<string>): (b: bool)
    ensures b <==> param != Some("N")
  {
    !(param.Some? && param.value == "N")
  }

  // The service and its worker.

  /** The service (ProductUtilServices.attachProductFeaturesToCategory with a context). */
  method AttachProductFeaturesToCategoryService(store: ProductStore, cid: string, doSubCategoriesParam: Option<string>,
                                                toInclude: set<string>, toExclude: set<string>, now: int,
                                                ghost rank: map<string, nat>)
    requires Ranked(store.rollups, rank)
    modifies store
    ensures store.State() == Attach(old(store.State()), cid, toInclude, toExclude, DoSubCategories(doSubCategoriesParam), now, rank)
  {
    var doSubCategories := DoSubCategories(doSubCategoriesParam);
    AttachProductFeaturesToCategory(store, cid, toInclude, toExclude, doSubCategories, now, rank);
  }

  /** The recursive worker. */
  method AttachProductFeaturesToCategory(store: ProductStore, cid: string, toInclude: set<string>, toExclude: set<string>,
                                         doSubCategories: bool, now: int, ghost rank: map<string, nat>)
    requires Ranked(store.rollups, rank)
    modifies store
    ensures store.State() == Attach(old(store.State()), cid, toInclude, toExclude, doSubCategories, now, rank)
    decreases Height(rank, cid) + 1, 0
  {
    ghost var c0 := store.State();
    var subCategoryList := SubCategories(store.rollups, cid);
    SubCategoriesBelow(store.rollups, rank, cid);
    if doSubCategories {
      AttachSubCategories(store, subCategoryList, Height(rank, cid), toInclude, toExclude, now, rank);
    }
    SyncCategoryGroups(store, cid, subCategoryList, toInclude, toExclude, now, c0);
  }

  /** The loop over the sub-categories, recursing into each. */
  method AttachSubCategories(store: ProductStore, subs: seq<string>, ghost bound: nat, toInclude: set<string>,
                             toExclude: set<string>, now: int, ghost rank: map<string, nat>)
    requires Ranked(store.rollups, rank)
    requires forall k :: 0 <= k < |subs| ==> Height(rank, subs[k]) < bound
    modifies store
    ensures store.State() == AttachSubs(old(store.State()), subs, bound, toInclude, toExclude, now, rank)
    decreases bound, |subs|
  {
    ghost var c0 := store.State();
    for i := 0 to |subs|
      invariant store.rollups == c0.rollups
      invariant store.State() == AttachSubs(c0, subs[..i], bound, toInclude, toExclude, now, rank)
    {
      AttachSubsSnoc(c0, subs, i, bound, toInclude, toExclude, now, rank);
      AttachProductFeaturesToCategory(store, subs[i], toInclude, toExclude, true, now, rank);
    }
    assert subs[..|subs|] == subs;
  }

  /** The category's own work once its sub-categories are done. */
  method SyncCategoryGroups(store: ProductStore, cid: string, subs: seq<string>, toInclude: set<string>,
                            toExclude: set<string>, now: int, ghost c: Catalog)
    requires store.categoryMembers == c.categoryMembers && store.featureAppls == c.featureAppls && store.features == c.features
    modifies store
    ensures store.State() == old(store.State()).(groups := SyncCategory(old(store.Groups()), c, cid, subs, toInclude, toExclude, now))
  {
    var index := BuildIndex(store, cid, toInclude, toExclude, now, c);
    CategoryIndexOk(c, cid, toInclude, toExclude, now);
    ReconcileTypes(store, cid, index, now);
    RemoveStaleGroups(store, cid, index.types);
    LinkSubCategoryGroups(store, cid, subs, now);
  }

  /** The features of the category's products, by type. */
  method BuildIndex(store: ProductStore, cid: string, toInclude: set<string>, toExclude: set<string>, now: int,
                    ghost c: Catalog) returns (index: FeatureIndex)
    requires store.categoryMembers == c.categoryMembers && store.featureAppls == c.featureAppls && store.features == c.features
    ensures index == CategoryIndex(c, cid, toInclude, toExclude, now)
  {
    var productCategoryMemberList := Filter(store.categoryMembers, MemberOf(cid));
    index := NoFeatures;
    for i := 0 to |productCategoryMemberList|
      invariant index == IndexMembers(NoFeatures, productCategoryMemberList[..i], c, toInclude, toExclude, now)
    {
      assert productCategoryMemberList[..i + 1][..i] == productCategoryMemberList[..i];
      var productId := Field(productCategoryMemberList[i], PRODUCT_ID);
      var productFeatureAndAppls := Filter(store.featureAppls, ApplOf(store.features, productId, now));
      index := IndexProductFeatures(index, productFeatureAndAppls, store.features, toInclude, toExclude);
    }
    assert productCategoryMemberList[..|productCategoryMemberList|] == productCategoryMemberList;
  }

  /** One product's feature applications (rows of the ProductFeatureAndAppl view). */
  method IndexProductFeatures(index0: FeatureIndex, appls: seq<Row>, features: map<string, string>,
                              toInclude: set<string>, toExclude: set<string>) returns (index: FeatureIndex)
    requires forall a {:trigger a in appls} :: a in appls ==> Field(a, FEATURE_ID) in features
    ensures index == IndexAppls(index0, appls, features, toInclude, toExclude)
  {
    index := index0;
    for j := 0 to |appls|
      invariant index == IndexAppls(index0, appls[..j], features, toInclude, toExclude)
    {
      assert appls[..j + 1][..j] == appls[..j];
      assert appls[j] in appls;
      var productFeatureId := Field(appls[j], FEATURE_ID);
      var productFeatureTypeId := features[productFeatureId];
      if toInclude != {} && productFeatureTypeId !in toInclude {
        continue;
      }
      if productFeatureTypeId in toExclude {
        continue;
      }
      index := AddFeature(index, productFeatureTypeId, productFeatureId);
    }
    assert appls[..|appls|] == appls;
  }

  /** The loop over the index's entries. */
  method ReconcileTypes(store: ProductStore, cid: string, index: FeatureIndex, now: int)
    requires forall k :: 0 <= k < |index.types| ==> index.types[k] in index.byType
    modifies store
    ensures store.State() == old(store.State()).(groups := ReconcileAll(old(store.Groups()), cid, index, index.types, now))
  {
    ghost var c0 := store.State();
    var types := index.types;
    for i := 0 to |types|
      invariant store.State() == c0.(groups := ReconcileAll(c0.groups, cid, index, types[..i], now))
    {
      assert types[..i + 1][..i] == types[..i];
      ReconcileFeatureType(store, cid, types[i], index.byType[types[i]], now);
    }
    assert types[..|types|] == types;
  }

  /** One entry: the group and its category link, then its feature links. */
  method ReconcileFeatureType(store: ProductStore, cid: string, t: string, fids: seq<string>, now: int)
    modifies store
    ensures store.State() == old(store.State()).(groups := ReconcileType(old(store.Groups()), cid, t, fids, now))
  {
    EnsureFeatureGroup(store, cid, t, now);
    var productFeatureGroupId := GroupId(cid, t);
    LinkGroupFeatures(store, productFeatureGroupId, fids, now);
    store.featureLinks := Filter(store.featureLinks, KeptFor(productFeatureGroupId, fids, now));
  }

  function CategoryLinkOf(gid: string, cid: string): Row -> bool {
    (x: Row) => LinksTo(x, gid, cid)
  }

  /** Creates the group and its link when missing, or the link alone when the group has none to this category. */
  method EnsureFeatureGroup(store: ProductStore, cid: string, t: string, now: int)
    modifies store
    ensures store.State() == old(store.State()).(groups := EnsureGroup(old(store.Groups()), cid, t, now))
  {
    var productFeatureGroupId := GroupId(cid, t);
    if productFeatureGroupId !in store.featureGroups {
      store.featureGroups := store.featureGroups[productFeatureGroupId := Description(cid, t)];
      store.categoryLinks := store.categoryLinks + [CategoryLink(productFeatureGroupId, cid, now)];
    } else {
      var gvs := Filter(store.categoryLinks, CategoryLinkOf(productFeatureGroupId, cid));
      assert forall x {:trigger x in store.categoryLinks} ::
        CategoryLinkOf(productFeatureGroupId, cid)(x) == LinksTo(x, productFeatureGroupId, cid);
      if gvs == [] {
        store.categoryLinks := store.categoryLinks + [CategoryLink(productFeatureGroupId, cid, now)];
      } else {
        assert gvs[0] in gvs;
      }
    }
  }

  function CurrentFeatureLink(gid: string, fid: string, now: int): Row -> bool {
    (x: Row) => KeyedTo(x, FEATURE_GROUP_ID, gid) && KeyedTo(x, FEATURE_ID, fid) && ValidAt(x, now)
  }

  /** The feature loop: a link for each feature the count finds without one in effect. */
  method LinkGroupFeatures(store: ProductStore, gid: string, fids: seq<string>, now: int)
    modifies store
    ensures store.State() == old(store.State()).(groups := old(store.Groups()).(featureLinks := LinkFeatures(old(store.featureLinks), gid, fids, now)))
  {
    ghost var c0 := store.State();
    for j := 0 to |fids|
      invariant store.State() == c0.(groups := c0.groups.(featureLinks := LinkFeatures(c0.groups.featureLinks, gid, fids[..j], now)))
    {
      assert fids[..j + 1][..j] == fids[..j];
      var existing := Filter(store.featureLinks, CurrentFeatureLink(gid, fids[j], now));
      assert forall x {:trigger x in store.featureLinks} ::
        CurrentFeatureLink(gid, fids[j], now)(x) == (KeyedTo(x, FEATURE_GROUP_ID, gid) && KeyedTo(x, FEATURE_ID, fids[j]) && ValidAt(x, now));
      if |existing| == 0 {
        store.featureLinks := store.featureLinks + [FeatureLink(gid, fids[j], now)];
      } else {
        assert existing[0] in existing;
      }
    }
    assert fids[..|fids|] == fids;
  }

  /** The stale cleanup, one group of the view query's result at a time. */
  method RemoveStaleGroups(store: ProductStore, cid: string, types: seq<string>)
    modifies store
    ensures store.State() == old(store.State()).(groups := RemoveStale(old(store.Groups()), old(store.features), cid, types))
  {
    if types == [] {
      return;
    }
    ghost var c0 := store.State();
    var groups := StaleGroups(store.Groups(), store.features, cid, types);
    var remaining := groups;
    ghost var done: set<string> := {};
    OutsideNoGroups(c0.groups.featureLinks);
    OutsideNoGroups(c0.groups.categoryLinks);
    while remaining != {}
      invariant remaining !! done && remaining + done == groups
      invariant store.State() == c0.(groups := c0.groups.(featureLinks := Filter(c0.groups.featureLinks, OutsideGroups(done)),
                                                          categoryLinks := Filter(c0.groups.categoryLinks, OutsideGroups(done))))
      decreases remaining
    {
      var groupid :| groupid in remaining;
      RemoveGroupLinks(store, groupid);
      OutsideOneMore(c0.groups.featureLinks, done, groupid);
      OutsideOneMore(c0.groups.categoryLinks, done, groupid);
      done := done + {groupid};
      remaining := remaining - {groupid};
    }
  }

  /** Deletes every feature link and every category link of one group. */
  method RemoveGroupLinks(store: ProductStore, gid: string)
    modifies store
    ensures store.State() == old(store.State()).(groups := old(store.Groups()).(
      featureLinks := Filter(old(store.featureLinks), OutsideGroups({gid})),
      categoryLinks := Filter(old(store.categoryLinks), OutsideGroups({gid}))))
  {
    store.featureLinks := Filter(store.featureLinks, OutsideGroups({gid}));
    store.categoryLinks := Filter(store.categoryLinks, OutsideGroups({gid}));
  }

  lemma OutsideNoGroups(rows: seq<Row>)
    ensures Filter(rows, OutsideGroups({})) == rows
  {
    FilterAll(rows, OutsideGroups({}));
  }

  /** Deleting one more group's links after those of `done` is deleting the links of both. */
  lemma OutsideOneMore(rows: seq<Row>, done: set<string>, gid: string)
    ensures Filter(Filter(rows, OutsideGroups(done)), OutsideGroups({gid})) == Filter(rows, OutsideGroups(done + {gid}))
  {
    assert forall x :: OutsideGroups(done + {gid})(x) == (OutsideGroups(done)(x) && OutsideGroups({gid})(x));
    FilterFilter(rows, OutsideGroups(done), OutsideGroups({gid}), OutsideGroups(done + {gid}));
  }

  /** The loop over the sub-categories, copying up their groups' current links. */
  method LinkSubCategoryGroups(store: ProductStore, cid: string, subs: seq<string>, now: int)
    modifies store
    ensures store.State() == old(store.State()).(groups := old(store.Groups()).(categoryLinks := Propagate(old(store.categoryLinks), cid, subs, now)))
  {
    ghost var c0 := store.State();
    for i := 0 to |subs|
      invariant store.State() == c0.(groups := c0.groups.(categoryLinks := Propagate(c0.groups.categoryLinks, cid, subs[..i], now)))
    {
      assert subs[..i + 1][..i] == subs[..i];
      var productFeatureCatGrpAppls := Filter(store.categoryLinks, CurrentLinkOf(subs[i], now));
      LinkGroupsUp(store, cid, productFeatureCatGrpAppls, now);
    }
    assert subs[..|subs|] == subs;
  }

  function CurrentLinkTo(gid: string, cid: string, now: int): Row -> bool {
    (x: Row) => LinksTo(x, gid, cid) && ValidAt(x, now)
  }

  /** One sub-category's links: a link for each group the count finds without a current link to `cid`. */
  method LinkGroupsUp(store: ProductStore, cid: string, childLinks: seq<Row>, now: int)
    modifies store
    ensures store.State() == old(store.State()).(groups := old(store.Groups()).(categoryLinks := LinkUp(old(store.categoryLinks), cid, childLinks, now)))
  {
    ghost var c0 := store.State();
    for j := 0 to |childLinks|
      invariant store.State() == c0.(groups := c0.groups.(categoryLinks := LinkUp(c0.groups.categoryLinks, cid, childLinks[..j], now)))
    {
      assert childLinks[..j + 1][..j] == childLinks[..j];
      var productFeatureGroupId := Field(childLinks[j], FEATURE_GROUP_ID);
      var existing := Filter(store.categoryLinks, CurrentLinkTo(productFeatureGroupId, cid, now));
      assert forall x {:trigger x in store.categoryLinks} ::
        CurrentLinkTo(productFeatureGroupId, cid, now)(x) == (LinksTo(x, productFeatureGroupId, cid) && ValidAt(x, now));
      if |existing| == 0 {
        store.categoryLinks := store.categoryLinks + [CategoryLink(productFeatureGroupId, cid, now)];
      } else {
        assert existing[0] in existing;
      }
    }
    assert childLinks[..|childLinks|] == childLinks;
  }
}
