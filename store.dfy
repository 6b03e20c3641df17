/** The entities the reconciliation passes read and write, and the store holding them. */
module Store {
  import opened Records

  // Field names of the relation keys.
  const PRODUCT_ID := "productId"
  const PRODUCT_ID_TO := "productIdTo"
  const ASSOC_TYPE_ID := "productAssocTypeId"
  const CATEGORY_ID := "productCategoryId"
  const PARENT_CATEGORY_ID := "parentProductCategoryId"
  const FEATURE_ID := "productFeatureId"
  const FEATURE_GROUP_ID := "productFeatureGroupId"

  /** The association type linking a virtual product to one of its variants. */
  const PRODUCT_VARIANT := "PRODUCT_VARIANT"

  /**
   * A Product record. The flags and the discontinuation date are the columns
   * the passes decide on; `fields` holds every other column (internalName,
   * image URLs, ...), absent when null.
   */
  datatype Product = Product(
    productId: string,
    isVirtual: Option<string>,
    isVariant: Option<string>,
    salesDiscontinuationDate: Option<int>,
    fields: Fields)

  /** The tables the feature-group synchronizer owns. */
  datatype GroupTables = GroupTables(
    featureGroups: map<string, string>,  // ProductFeatureGroup: id -> description
    categoryLinks: seq<Row>,             // ProductFeatureCatGrpAppl
    featureLinks: seq<Row>)              // ProductFeatureGroupAppl

  /** A snapshot of every table of the store. */
  datatype Catalog = Catalog(
    products: map<string, Product>,      // Product, by productId
    productAssocs: seq<Row>,             // ProductAssoc
    categoryMembers: seq<Row>,           // ProductCategoryMember
    featureAppls: seq<Row>,              // ProductFeatureAppl
    contents: seq<Row>,                  // ProductContent
    prices: seq<Row>,                    // ProductPrice
    goodIdentifications: seq<Row>,       // GoodIdentification
    attributes: seq<Row>,                // ProductAttribute
    keywords: seq<Row>,                  // ProductKeyword
    features: map<string, string>,       // ProductFeature: id -> productFeatureTypeId
    rollups: seq<Row>,                   // ProductCategoryRollup
    groups: GroupTables)

  /** The entity store: one field per table, updated in place by the passes. */
  class ProductStore {
    var products: map<string, Product>
    var productAssocs: seq<Row>
    var categoryMembers: seq<Row>
    var featureAppls: seq<Row>
    var contents: seq<Row>
    var prices: seq<Row>
    var goodIdentifications: seq<Row>
    var attributes: seq<Row>
    var keywords: seq<Row>
    var features: map<string, string>
    var rollups: seq<Row>
    var featureGroups: map<string, string>
    var categoryLinks: seq<Row>
    var featureLinks: seq<Row>

    constructor (c: Catalog)
      ensures State() == c
    {
      products, productAssocs, categoryMembers, featureAppls := c.products, c.productAssocs, c.categoryMembers, c.featureAppls;
      contents, prices, goodIdentifications, attributes := c.contents, c.prices, c.goodIdentifications, c.attributes;
      keywords, features, rollups := c.keywords, c.features, c.rollups;
      featureGroups, categoryLinks, featureLinks := c.groups.featureGroups, c.groups.categoryLinks, c.groups.featureLinks;
    }

    /** The synchronizer's tables as one value. */
    function Groups(): GroupTables
      reads this
    {
      GroupTables(featureGroups, categoryLinks, featureLinks)
    }

    /** Every table as one value. */
    function State(): Catalog
      reads this
    {
      Catalog(products, productAssocs, categoryMembers, featureAppls, contents, prices,
              goodIdentifications, attributes, keywords, features, rollups, Groups())
    }
  }
}
