/**
 * What the controller does at the boundary between request bodies, stored
 * rows and responses: the integer encoding of `status` and `featured`, the
 * blank-image rule, the output record, and the grouping of joined tag rows
 * by product that the listing performs with `reduce`.
 */
module Format {
  import opened Text
  import opened Tables

  /** The image URL shown for a product that has none. */
  const Placeholder: string := "https://placehold.co/600x400/e2e8f0/64748b?text=No+Image"

  /** `status === "active" ? 1 : 0` */
  function StoredStatus(status: JsValue): int {
    if status == Str("active") then 1 else 0
  }

  /** `status === 1 ? "active" : "inactive"` */
  function StatusLabel(stored: int): string {
    if stored == 1 then "active" else "inactive"
  }

  /** `featured ? 1 : 0` */
  function StoredFeatured(featured: JsValue): int {
    if Truthy(featured) then 1 else 0
  }

  /** `featured === 1` */
  function FeaturedFlag(stored: int): bool {
    stored == 1
  }

  /** `image?.trim() || null`: an absent or blank image is stored as null. */
  function StoredImage(image: Option<string>): Option<string> {
    match image
    case None => None
    case Some(s) => if Trim(s) == [] then None else Some(Trim(s))
  }

  /** `image || placeholder` */
  function ImageUrl(stored: Option<string>): string {
    match stored
    case None => Placeholder
    case Some(s) => if s == [] then Placeholder else s
  }

  /** `businessId || null` */
  function StoredBusinessId(businessId: JsValue): Option<JsValue> {
    if Truthy(businessId) then Some(businessId) else None
  }

  /** A product is stored as active exactly when the body says `"active"`, and is shown as active exactly then. */
  lemma StatusRoundTrip(status: JsValue)
    ensures StoredStatus(status) == 0 || StoredStatus(status) == 1
    ensures StoredStatus(status) == 1 <==> status == Str("active")
    ensures StatusLabel(StoredStatus(status)) == (if status == Str("active") then "active" else "inactive")
  {
  }

  /** The label is `"active"` exactly for the stored value 1. */
  lemma StatusLabelIff(stored: int)
    ensures StatusLabel(stored) == "active" <==> stored == 1
    ensures StatusLabel(stored) == "active" || StatusLabel(stored) == "inactive"
  {
    assert "active" != "inactive" by { assert "active"[0] != "inactive"[0]; }
  }

  /** `featured` is stored as 1 exactly when truthy, and shown as `true` exactly then. */
  lemma FeaturedRoundTrip(featured: JsValue)
    ensures StoredFeatured(featured) == 0 || StoredFeatured(featured) == 1
    ensures FeaturedFlag(StoredFeatured(featured)) == Truthy(featured)
  {
  }

  /** A falsy business id is stored as null; any other is stored as given. */
  lemma BusinessIdStored(businessId: JsValue)
    ensures StoredBusinessId(businessId).None? <==> !Truthy(businessId)
    ensures StoredBusinessId(businessId).Some? ==> StoredBusinessId(businessId).value == businessId
    ensures StoredBusinessId(Num(0)).None? && StoredBusinessId(Str("")).None? && StoredBusinessId(Bool(false)).None?
  {
  }

  /** A missing or blank image is stored as null and shown as the placeholder; any other is trimmed. */
  lemma {:induction false} ImageRoundTrip(image: Option<string>)
    ensures StoredImage(image).None? <==> image.None? || (forall i :: 0 <= i < |image.value| ==> IsSpace(image.value[i]))
    ensures ImageUrl(StoredImage(image)) == (if StoredImage(image).None? then Placeholder else Trim(image.value))
  {
    if image.Some? {
      TrimEmptyIffBlank(image.value);
    }
  }

  /** The product record of a response. */
  datatype ProductView = ProductView(
    id: nat,
    name: string,
    description: string,
    category: string,
    image: string,
    status: string,
    featured: bool,
    slug: string,
    businessId: Option<JsValue>,
    tags: seq<Tag>)

  /** `{...product, status, featured, image, tags}` */
  function FormatProduct(row: ProductRow, tags: seq<Tag>): ProductView {
    ProductView(row.id, row.name, row.description, row.category, ImageUrl(row.image),
                StatusLabel(row.status), FeaturedFlag(row.featured), row.slug, row.businessId, tags)
  }

  /**
   * `productTags.reduce((acc, tag) => { (acc[tag.productId] ||= []).push(tag); return acc }, {})`:
   * folds the joined rows from the first to the last.
   */
  function GroupByProduct(rows: seq<JoinedTag>): map<nat, seq<Tag>> {
    if rows == [] then map[]
    else
      var acc := GroupByProduct(rows[..|rows| - 1]);
      var last := rows[|rows| - 1];
      acc[last.productId := TagsOfProduct(acc, last.productId) + [last.tag]]
  }

  /** `tagsByProduct[id] || []` */
  function TagsOfProduct(groups: map<nat, seq<Tag>>, productId: nat): seq<Tag> {
    if productId in groups then groups[productId] else []
  }

  /** The tags of the joined rows that carry `productId`, in order. */
  function TagsFor(rows: seq<JoinedTag>, productId: nat): seq<Tag> {
    if rows == [] then []
    else (if rows[0].productId == productId then [rows[0].tag] else []) + TagsFor(rows[1..], productId)
  }

  lemma {:induction false} TagsForSnoc(rows: seq<JoinedTag>, row: JoinedTag, productId: nat)
    ensures TagsFor(rows + [row], productId)
         == TagsFor(rows, productId) + (if row.productId == productId then [row.tag] else [])
  {
    TagsForAppend(rows, [row], productId);
    assert [row][1..] == [];
  }

  lemma {:induction false} TagsForAppend(a: seq<JoinedTag>, b: seq<JoinedTag>, productId: nat)
    ensures TagsFor(a + b, productId) == TagsFor(a, productId) + TagsFor(b, productId)
  {
    if a == [] {
      assert a + b == b;
      assert TagsFor(a, productId) + TagsFor(b, productId) == TagsFor(b, productId);
    } else {
      assert (a + b)[0] == a[0] && (a + b)[1..] == a[1..] + b;
      TagsForAppend(a[1..], b, productId);
      var h := if a[0].productId == productId then [a[0].tag] else [];
      var t0, t1 := TagsFor(a[1..], productId), TagsFor(b, productId);
      assert TagsFor(a + b, productId) == h + (t0 + t1);
      assert h + (t0 + t1) == (h + t0) + t1;
      assert TagsFor(a, productId) == h + t0;
    }
  }

  /**
   * The grouping gives each product exactly the tags of the joined rows
   * that carry its id, in query order, and `[]` when there are none; a
   * product has an entry exactly when some row carries its id.
   */
  lemma {:induction false} GroupByProductCorrect(rows: seq<JoinedTag>, productId: nat)
    ensures TagsOfProduct(GroupByProduct(rows), productId) == TagsFor(rows, productId)
    ensures productId in GroupByProduct(rows) <==> TagsFor(rows, productId) != []
  {
    if rows != [] {
      var init, last := rows[..|rows| - 1], rows[|rows| - 1];
      assert rows == init + [last];
      GroupByProductCorrect(init, productId);
      GroupByProductCorrect(init, last.productId);
      TagsForSnoc(init, last, productId);
    }
  }

  /** The joined rows of the listing, restricted to one listed product, are that product's own join. */
  lemma {:induction false} JoinAllFor(links: seq<LinkRow>, tags: seq<TagRow>, productIds: set<nat>, productId: nat)
    ensures productId in productIds ==> TagsFor(JoinAll(links, tags, productIds), productId) == JoinTags(links, tags, productId)
    ensures productId !in productIds ==> TagsFor(JoinAll(links, tags, productIds), productId) == []
  {
    if links != [] {
      var l := links[0];
      var head := if l.productId in productIds then Joined(l.productId, TagsWithId(tags, l.tagId)) else [];
      TagsForAppend(head, JoinAll(links[1..], tags, productIds), productId);
      JoinAllFor(links[1..], tags, productIds, productId);
      TagsForJoined(l.productId, TagsWithId(tags, l.tagId), productId);
    }
  }

  lemma {:induction false} TagsForJoined(carried: nat, tags: seq<Tag>, productId: nat)
    ensures TagsFor(Joined(carried, tags), productId) == if carried == productId then tags else []
  {
    if tags != [] {
      JoinedCons(carried, tags);
      TagsForJoined(carried, tags[1..], productId);
      assert tags == [tags[0]] + tags[1..];
    }
  }

  /**
   * The listing's tags for one product: grouping the joined rows of all the
   * listed products gives each of them the same tags as its own join.
   */
  lemma {:induction false} ListedTags(links: seq<LinkRow>, tags: seq<TagRow>, productIds: set<nat>, productId: nat)
    requires productId in productIds
    ensures TagsOfProduct(GroupByProduct(JoinAll(links, tags, productIds)), productId) == JoinTags(links, tags, productId)
  {
    GroupByProductCorrect(JoinAll(links, tags, productIds), productId);
    JoinAllFor(links, tags, productIds, productId);
  }

  /**
   * The listing's response: `productIds`, the joined rows for them, the
   * `reduce` grouping, and one formatted record per listed row.
   */
  function Listing(listed: seq<ProductRow>, links: seq<LinkRow>, tags: seq<TagRow>): seq<ProductView> {
    var productIds := set k | 0 <= k < |listed| :: listed[k].id;
    var joined := if |listed| > 0 then JoinAll(links, tags, productIds) else [];
    var groups := GroupByProduct(joined);
    seq(|listed|, k requires 0 <= k < |listed| => FormatProduct(listed[k], TagsOfProduct(groups, listed[k].id)))
  }

  /** One record per listed row, in order, each carrying exactly that product's own joined tags. */
  lemma ListingCorrect(listed: seq<ProductRow>, links: seq<LinkRow>, tags: seq<TagRow>)
    ensures |Listing(listed, links, tags)| == |listed|
    ensures forall k :: 0 <= k < |listed| ==>
      Listing(listed, links, tags)[k] == FormatProduct(listed[k], JoinTags(links, tags, listed[k].id))
  {
    var productIds := set k | 0 <= k < |listed| :: listed[k].id;
    forall k | 0 <= k < |listed|
      ensures Listing(listed, links, tags)[k] == FormatProduct(listed[k], JoinTags(links, tags, listed[k].id))
    {
      ListedTags(links, tags, productIds, listed[k].id);
    }
  }

  /** Every product of the owner shows up in the listing, with its own tags. */
  lemma ListingComplete(rows: seq<ProductRow>, links: seq<LinkRow>, tags: seq<TagRow>, owner: int)
    ensures forall i :: 0 <= i < |rows| && rows[i].owner == owner ==>
      FormatProduct(rows[i], JoinTags(links, tags, rows[i].id)) in Listing(NewestFirst(OwnerProducts(rows, owner)), links, tags)
  {
    var listed := NewestFirst(OwnerProducts(rows, owner));
    NewestFirstComplete(rows, owner);
    ListingCorrect(listed, links, tags);
    forall i | 0 <= i < |rows| && rows[i].owner == owner
      ensures FormatProduct(rows[i], JoinTags(links, tags, rows[i].id)) in Listing(listed, links, tags)
    {
      var k :| 0 <= k < |listed| && listed[k] == rows[i];
      assert Listing(listed, links, tags)[k] == FormatProduct(rows[i], JoinTags(links, tags, rows[i].id));
    }
  }
}
