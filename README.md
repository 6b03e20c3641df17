# Product maintenance services of the OFBiz catalog

A model of the batch maintenance services of OFBiz's `ProductUtilServices`:

- the **discontinuation cascade** (`discVirtualsWithDiscVariants`). It expires the variant
  associations of discontinued variants, then discontinues each open virtual left without a
  variant association in effect;
- the two **category-membership cleanups** (`removeCategoryMembersOfDiscProducts` and
  `removeDuplicateOpenEndedCategoryMembers`);
- the **merge engine**. `mergeVirtualWithSingleVariant` folds a virtual product into its only
  variant, and `duplicateRelated` copies one relation of the product. The driver
  `makeStandAloneFromSingleVariantVirtuals` picks the candidates and runs the merge on each;
- the **feature-group synchronizer** (`attachProductFeaturesToCategory`): the service wrapper and
  its recursive worker over the category tree.

The entity store is a value, `Store.Catalog`: one field per table the services touch. Each
time-scoped table is a sequence of `Records.Row`, whose sequence order is the store's own
order, which is what "the first record" of a lookup means. The products are a map from id
to `Store.Product`. `Store.ProductStore` is a class with one mutable field per table; each
service is a method on it. Each method's `ensures` equates the new state with a
specification function of the old state, and lemmas prove the properties about those
functions. Loops in the source are `while`/`for` loops over the store, with invariants tying
the tables so far to a prefix of the specification.

The current time `now` is a parameter. `EntityUtil.filterByDate(list)` without a moment reads
the clock again; that second reading is a separate parameter `clock`. The date filter
`Records.ValidAt` is inclusive at both ends, like the inline conditions of the queries
(ProductUtilServices.java:680-684). A record whose thruDate is `now` therefore still
counts as in effect at `now`: an association the services expire at `now` is still seen by a
later filter at that same moment.

Two steps of the synchronizer are worth spelling out, since their lines are tab-indented in
the source text:

- an existing group gets a link to the category when an undated lookup of its links to that
  category finds none (ProductUtilServices.java:738-742); `FeatureGroups.EnsureGroup` does
  this;
- each group the stale-type query returns loses all its feature links and all its category
  links, by group id, but keeps its record (ProductUtilServices.java:790-798);
  `FeatureGroups.RemoveStale` does this.

## Model

| member | source | states |
|---|---|---|
| Records.FilterByDate | ProductUtilServices.java:88 | the records kept are exactly those of the list in effect at the moment, inclusive at both ends |
| Discontinuation.VariantVirtualId | ProductUtilServices.java:82 | a virtual id is found exactly when some PRODUCT_VARIANT association to the variant is in effect, and it is the productId of such an association |
| Discontinuation.DiscVirtualsWithDiscVariants | ProductUtilServices.java:66-133 | the store afterwards is the first loop's expiry followed by the second loop's discontinuation, and nothing else changes |
| Discontinuation.ExpireDiscontinuedVariantAssocs | ProductUtilServices.java:73-101 | the first loop changes only the association table, and leaves it as the expiry of every discontinued variant's associations |
| Discontinuation.ExpireVariantAssocs | ProductUtilServices.java:82-95 | one variant of the first loop: its associations from its virtual end at now; a missing virtual skips it |
| Discontinuation.DiscontinueOrphanVirtuals | ProductUtilServices.java:103-123 | the second loop changes only the product table, discontinuing the open virtuals without a variant association in effect |
| Discontinuation.DiscontinueIfOrphan | ProductUtilServices.java:112-117 | one open virtual of the second loop is discontinued exactly when it has no variant association in effect |
| Discontinuation.VariantAssocsOfDiscontinuedVariantsExpired | ProductUtilServices.java:73-101 | each association in effect from an existing virtual to a discontinued variant whose virtual it is gets thruDate = now; every other association is unchanged and the table keeps its length |
| Discontinuation.OrphanVirtualsDiscontinued | ProductUtilServices.java:103-123 | among the open virtuals, exactly those left without a variant association in effect get salesDiscontinuationDate = now; no other product changes, none is added or removed |
| Discontinuation.CascadeDiscontinuesVirtual | ProductUtilServices.java:73-123 | when the second loop's date filter reads the clock after now, an open virtual all of whose variant associations lead to discontinued variants it is the virtual of is itself discontinued by the same run |
| CategoryCleanup.RemoveCategoryMembersOfDiscProducts | ProductUtilServices.java:136-174 | the service changes only the membership table and deletes every membership of a discontinued product |
| CategoryCleanup.RemoveMembersOf | ProductUtilServices.java:151-157 | one discontinued product: all its memberships, of any date, are removed |
| CategoryCleanup.DiscontinuedMembersRemoved | ProductUtilServices.java:143-157 | no membership of a discontinued product remains, and every other product's memberships are the same records in the same order |
| CategoryCleanup.RemoveDiscontinuedMembersIdempotent | ProductUtilServices.java:143-157 | running the cleanup again deletes nothing more |
| CategoryCleanup.RemoveDuplicateOpenEndedCategoryMembers | ProductUtilServices.java:176-223 | the membership table afterwards keeps, of each flagged pair, only its first record |
| CategoryCleanup.RemoveAllButFirst | ProductUtilServices.java:200-206 | one flagged pair: removing all but its first record composes with the pairs already done |
| CategoryCleanup.KeepFirstOfPair | ProductUtilServices.java:200-206 | what deduplication leaves of each pair: its first record if flagged, all of its records otherwise |
| CategoryCleanup.DuplicatedPairHasRecords | ProductUtilServices.java:183-196 | a pair the grouped query flags has more than one membership record |
| CategoryCleanup.DuplicatesReducedToFirst | ProductUtilServices.java:191-206 | each flagged pair keeps exactly one record, the first of its lookup, and the records of every unflagged pair are untouched |
| CategoryCleanup.AtMostOneOpenEndedMember | ProductUtilServices.java:176-223 | afterwards no (product, category) pair has more than one open-ended membership |
| Duplication.RelatedList | ProductUtilServices.java:449 | the related records are exactly those keyed to the source product and in effect at now |
| Duplication.CloneTo | ProductUtilServices.java:451-460 | a clone is keyed to the target, keeps the other key fields, data and thruDate, and starts at now when the entity has a fromDate |
| Duplication.DupFold | ProductUtilServices.java:450-478 | the loop only appends, at most one row per related record, each a clone of one of them that passed both checks against the rows before it |
| Duplication.DupRelated | ProductUtilServices.java:448-486 | test mode changes nothing; with removeOld no row keyed to the source remains; without it every row is kept; rows keyed to other products are always kept |
| Duplication.DuplicateRelated | ProductUtilServices.java:448-486 | the method returns the table DupRelated describes |
| Duplication.DupRelatedKeepsOthers | ProductUtilServices.java:479-485 | the rows not keyed to the source are the same records in the same order |
| Duplication.DupFoldCovers | ProductUtilServices.java:450-478 | afterwards each related record's clone, or a current record with its key, is in the table |
| Duplication.DupRelatedKeepsOtherKeys | ProductUtilServices.java:448-486 | a key value absent from the table is still absent after the copy |
| Duplication.DupRelatedCarriesOver | ProductUtilServices.java:448-486 | every current record of the source has a counterpart keyed to the target that is in effect now or starts now |
| Merge.Overlay | ProductUtilServices.java:394 | the merged fields are the variant's non-empty ones over the virtual's |
| Merge.ValidVariantAssocs | ProductUtilServices.java:353 | exactly the virtual's PRODUCT_VARIANT associations in effect at the clock |
| Merge.MergeVirtual | ProductUtilServices.java:333-446 | more than one or no valid variant association are reported and change nothing; test mode never writes and never reports success; success exactly with one association outside test mode |
| Merge.MergedRecordPrecedence | ProductUtilServices.java:386-400 | the product under the variant's id takes the variant's non-empty values and the virtual's otherwise, has isVariant = "N", and the virtual survives exactly when not removeOld |
| Merge.ChosenAssocRemovedOrExpired | ProductUtilServices.java:368-384 | the chosen association is deleted with removeOld and stored with thruDate = now otherwise; with removeOld no association from or to the virtual remains |
| Merge.ExpiredAssocCopiedToVariant | ProductUtilServices.java:368-422 | without removeOld, an association in effect at now that the merge expires at now is still copied by the pass over the associations from the virtual, so the merged product gets a PRODUCT_VARIANT association from itself to itself |
| Merge.VirtualMembershipsMoved | ProductUtilServices.java:402-431 | the virtual leaves every category, each current membership has a counterpart for the variant, and with removeOld its keywords are gone |
| Merge.MergeVirtualWithSingleVariant | ProductUtilServices.java:333-446 | the service leaves the store and outcome MergeVirtual describes |
| Merge.ApplyMerge | ProductUtilServices.java:368-432 | the writes of a successful merge, in the source's order |
| Merge.UpdateChosenAssocRow | ProductUtilServices.java:368-384 | the chosen association is deleted or expired, unless in test mode |
| Merge.StoreMergedProduct | ProductUtilServices.java:386-400 | the merged record is stored under the variant's id, unless in test mode |
| Merge.CopyPlacementTables | ProductUtilServices.java:402-410 | category memberships (always removing the virtual's), feature applications and content copied to the variant |
| Merge.MoveMemberships | ProductUtilServices.java:402-403 | the virtual's memberships are copied to the variant and all of the virtual's are removed |
| Merge.CopyCommercialTables | ProductUtilServices.java:411-419 | prices, good identifications and attributes copied to the variant |
| Merge.CopyAssocTable | ProductUtilServices.java:420-422 | the associations from and to the virtual copied to the variant |
| Merge.RemoveVirtualProduct | ProductUtilServices.java:424-432 | with removeOld, the virtual and its keywords are deleted, unless in test mode |
| Merge.Candidates | ProductUtilServices.java:235-260 | a product is a candidate exactly when it is listed, exists, has no discontinuation date or one after now and has one variant (a valid one in the second pass) |
| Merge.CandidatesDistinct | ProductUtilServices.java:241-255 | the grouped query gives each productId once: when the listed ids are distinct, so are the candidates |
| Merge.AbortedRunStays | ProductUtilServices.java:262-315 | once the batch has aborted, later candidates change nothing |
| Merge.MakeStandAloneFromSingleVariantVirtuals | ProductUtilServices.java:225-331 | given the ids of all products, each listed once: the first pass merges with removeOld; unless it aborted, the second pass merges the dated candidates of the new state without removeOld |
| Merge.MergeCandidates | ProductUtilServices.java:262-315 | one pass of the driver over its candidates, as the fold of StandAloneStep with abort |
| Merge.MergeCandidate | ProductUtilServices.java:263-282 | one candidate of the driver: the re-check of its variant associations, then the merge or the abort StandAloneStep describes |
| FeatureGroups.GroupId | ProductUtilServices.java:716-721 | the group id is a prefix of cid + "_" + type of length min(20, its length) |
| FeatureGroups.GroupIdInjective | ProductUtilServices.java:716-721 | without truncation, distinct types get distinct group ids |
| FeatureGroups.GroupIdCollides | ProductUtilServices.java:716-721 | past 20 characters two types can share a group id |
| FeatureGroups.GroupIdMatchesPattern | ProductUtilServices.java:783 | an untruncated group id of the category matches the stale-query pattern |
| FeatureGroups.LikePrefix | ProductUtilServices.java:783 | LIKE "%cid_%" holds of an id that starts with cid followed by at least one character |
| FeatureGroups.AddFeature | ProductUtilServices.java:700-707 | adding a feature extends the type list only for a new type and adds exactly that feature under its type |
| FeatureGroups.IndexApplsHas | ProductUtilServices.java:689-708 | the index holds a feature under a type exactly when it held it before or an application in effect brings it and its type passes the include/exclude test |
| FeatureGroups.IndexMembersHas | ProductUtilServices.java:676-710 | the same over every member's applications |
| FeatureGroups.CategoryIndexHas | ProductUtilServices.java:672-710 | the index holds feature fid under type t exactly when a member of the category has a product with an application of fid in effect and t is admitted |
| FeatureGroups.CategoryIndexOk | ProductUtilServices.java:672-710 | the index lists each type once and has an entry for each listed type |
| FeatureGroups.EnsureGroup | ProductUtilServices.java:722-743 | the group exists and is linked to the category afterwards; a new group gets a link; an existing linked group changes nothing; other groups are kept |
| FeatureGroups.LinkFeatures | ProductUtilServices.java:747-762 | every feature of the set has a link in effect; only new links are appended |
| FeatureGroups.ReconcileType | ProductUtilServices.java:712-772 | the features linked in effect to the group are exactly the derived set; other groups' links are untouched |
| FeatureGroups.ReconcileAllFeatures | ProductUtilServices.java:712-773 | after all types, each group holds exactly the features of the last type named after it |
| FeatureGroups.RemoveStale | ProductUtilServices.java:777-800 | when some type was derived, each stale group keeps its record and loses every link; no other link changes; nothing happens when no type was derived |
| FeatureGroups.Propagate | ProductUtilServices.java:804-830 | every link in effect of a sub-category has a link in effect to the parent afterwards; only new links to the parent are appended |
| FeatureGroups.SubCategoriesBelow | ProductUtilServices.java:663 | every direct sub-category of an acyclic tree lies below its parent |
| FeatureGroups.Attach | ProductUtilServices.java:656-831 | only the group tables change; no group disappears; each derived type has its group; the sub-categories' links are propagated to the category |
| FeatureGroups.SyncCategory | ProductUtilServices.java:672-830 | the category's own work after its sub-categories: groups per type, stale cleanup, propagation |
| FeatureGroups.AttachProductFeaturesToCategoryService | ProductUtilServices.java:614-651 | the service runs the worker with the flag's default |
| FeatureGroups.AttachProductFeaturesToCategory | ProductUtilServices.java:656-831 | the worker leaves the store Attach describes |
| FeatureGroups.AttachSubCategories | ProductUtilServices.java:665-671 | the recursive calls on the sub-categories, in order |
| FeatureGroups.SyncCategoryGroups | ProductUtilServices.java:672-830 | the category's own work on the store |
| FeatureGroups.IndexProductFeatures | ProductUtilServices.java:689-708 | the loop over one product's applications builds the index IndexAppls describes |
| FeatureGroups.RemoveStaleGroups | ProductUtilServices.java:777-800 | the stale cleanup on the store |
| FeatureGroups.LinkGroupsUp | ProductUtilServices.java:812-829 | the links of one sub-category are linked up to the parent |

## Left out

- Logging, the every-500 and every-100 progress counters, localized messages and the service
  result maps. Outcomes are `Merge.Outcome`, and the driver's abort is a boolean.
- The service dispatcher (`dispatcher.runSync`). The driver calls the merge method directly.
- Cursor handling and the dynamic-view queries. Their results are functions over the tables:
  `Merge.Candidates`, `CategoryCleanup.DuplicatedPairs`, `CategoryCleanup.DiscontinuedProducts`,
  `FeatureGroups.StaleGroups`.
- `setAllProductImageNames`, `clearAllVirtualProductImageNames` and the empty stubs
  `removeAllFeatureGroupsForCategory` and `getFeatureGroupsForCategory`. The first two are
  string templating through property lookups; the stubs do nothing.
- Reading the include and exclude property strings. The two sets are parameters.
- Store failures other than the driver's: creating a record whose primary key exists is
  modelled as an append, and transaction rollback is not modelled. When a candidate or its
  variant is missing, the merge would throw inside the dispatcher. The driver then aborts the
  batch and keeps the earlier merges in the state.
- Foreign helpers are taken as the table operations their names describe; their code is not
  part of this model:
  - `ProductWorker.getVariantVirtualId`: `Discontinuation.VariantVirtualId`;
  - `getRelated` and `removeRelated`: filters by the product key field;
  - `setAllFields(variant, false, ...)`: `Merge.Overlay`, where a non-empty variant value wins;
  - the ProductFeatureGroupAndAppl view: the group links of existing groups joined to their
    features.
- Merge.MergeVirtual: requires the virtual and its variant to exist. The source dereferences
  them without a check.
- Merge.MergedRecordPrecedence: assumes a well-keyed product table and a variant id that
  differs from the virtual's and is not empty.
- Merge.ChosenAssocRemovedOrExpired: assumes a non-empty virtual id.
- Merge.ChosenAssocRemovedOrExpired: expiring the chosen association does not keep it out of
  the copy. With the end-inclusive filter the expired association is still in effect at now,
  so without removeOld it is copied as an association from the variant to itself
  (`Merge.ExpiredAssocCopiedToVariant`).
- Discontinuation.CascadeDiscontinuesVirtual: assumes the second loop reads the clock after
  now. When the clock equals now, the just-expired associations are still in effect and the
  virtual is not discontinued.
- Merge.MakeStandAloneFromSingleVariantVirtuals: all merges of a run share the driver's `now`
  and one `clock` reading. In the source each merge reads its own current time, which stamps
  its expiry and its copies, and each undated filter reads the clock again. That the
  driver's re-check and the merge's own check agree (so a merge the driver starts always
  succeeds) relies on this shared reading.
- FeatureGroups.Attach: assumes an acyclic rollup tree, given by a rank. The source has no
  cycle guard and would recurse forever on a cycle.
- FeatureGroups.Like: SQL LIKE with `%` and `_` and no escape character.
- FeatureGroups.ReconcileAllFeatures: states exact contents only for the last type of each
  group id. Types that collide after truncation overwrite one another.
- The iteration order of Javolution's FastMap and FastSet is taken to be insertion order.
- Idempotence of the discontinuation cascade and of the synchronizer is not proved. It is
  proved for `removeCategoryMembersOfDiscProducts`.
