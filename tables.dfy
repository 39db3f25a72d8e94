/**
 * The three tables the products controller works on, as in-memory rows in
 * insertion order, and the queries it issues against them.  Ids come from
 * per-table counters, so rows are stored in ascending id order.
 */
module Tables {
  import opened Slugs

  datatype Option<T> = None | Some(value: T)

  /**
   * A JSON value as it arrives in a request body, for the fields the
   * controller only compares or tests for truthiness.
   */
  datatype JsValue = Undefined | Null | Bool(b: bool) | Num(n: int) | Str(s: string)

  /** JavaScript truthiness. */
  predicate Truthy(v: JsValue) {
    match v
    case Undefined => false
    case Null => false
    case Bool(b) => b
    case Num(n) => n != 0
    case Str(s) => s != []
  }

  /** A row of `products`; `status` and `featured` are the stored integers 0/1. */
  datatype ProductRow = ProductRow(
    id: nat,
    name: string,
    description: string,
    category: string,
    image: Option<string>,
    status: int,
    featured: int,
    slug: string,
    businessId: Option<JsValue>,
    owner: int)

  /** A row of `tags`. */
  datatype TagRow = TagRow(id: nat, name: string, slug: string, owner: int)

  /** A row of `product_tags`. */
  datatype LinkRow = LinkRow(productId: nat, tagId: nat)

  /** The `Tag` record the controller hands out: `{id, name, slug}`. */
  datatype Tag = Tag(id: nat, name: string, slug: string)

  /** A row of the join of `product_tags` with `tags`, still carrying the product id. */
  datatype JoinedTag = JoinedTag(productId: nat, tag: Tag)

  function AsTag(row: TagRow): Tag {
    Tag(row.id, row.name, row.slug)
  }

  // ---------------------------------------------------------------------
  // tags

  /** `db("tags").where("t_name", name).where("t_user_id", owner).first()` */
  function FindTag(rows: seq<TagRow>, name: string, owner: int): (r: Option<TagRow>)
    ensures r.Some? ==> r.value in rows && r.value.name == name && r.value.owner == owner
    ensures r.None? <==> forall i :: 0 <= i < |rows| ==> !(rows[i].name == name && rows[i].owner == owner)
  {
    if rows == [] then None
    else if rows[0].name == name && rows[0].owner == owner then Some(rows[0])
    else FindTag(rows[1..], name, owner)
  }

  /** Appending rows does not change what `first()` finds, and what it finds among the new rows when the old ones had nothing. */
  lemma {:induction false} FindTagAppend(rows: seq<TagRow>, extra: seq<TagRow>, name: string, owner: int)
    ensures FindTag(rows, name, owner).Some? ==> FindTag(rows + extra, name, owner) == FindTag(rows, name, owner)
    ensures FindTag(rows, name, owner).None? ==> FindTag(rows + extra, name, owner) == FindTag(extra, name, owner)
  {
    if rows != [] {
      assert (rows + extra)[0] == rows[0] && (rows + extra)[1..] == rows[1..] + extra;
      FindTagAppend(rows[1..], extra, name, owner);
    } else {
      assert rows + extra == extra;
    }
  }

  /** The tag rows with a given id, as the join `ON pt_tag_id = t_id` matches them. */
  function TagsWithId(rows: seq<TagRow>, id: nat): (r: seq<Tag>)
    ensures forall k :: 0 <= k < |r| ==> r[k].id == id
  {
    if rows == [] then []
    else (if rows[0].id == id then [AsTag(rows[0])] else []) + TagsWithId(rows[1..], id)
  }

  /** Tag ids are handed out by a counter: ascending, below the counter. */
  predicate TagIdsBelow(rows: seq<TagRow>, next: nat) {
    (forall i, j :: 0 <= i < j < |rows| ==> rows[i].id < rows[j].id)
    && (forall i :: 0 <= i < |rows| ==> rows[i].id < next)
  }

  /** No owner has two tags of the same name. */
  predicate TagNamesUnique(rows: seq<TagRow>) {
    forall i, j :: 0 <= i < j < |rows| && rows[i].owner == rows[j].owner ==> rows[i].name != rows[j].name
  }

  /** Every tag's slug is the one derived from its name. */
  predicate TagSlugsDerived(rows: seq<TagRow>) {
    forall i :: 0 <= i < |rows| ==> rows[i].slug == TagSlug(rows[i].name)
  }

  predicate TagsOk(rows: seq<TagRow>, next: nat) {
    TagIdsBelow(rows, next) && TagNamesUnique(rows)
  }

  /** With unique ids, the join finds exactly the row with that id. */
  lemma {:induction false} TagsWithIdUnique(rows: seq<TagRow>, next: nat, k: nat)
    requires TagIdsBelow(rows, next) && k < |rows|
    ensures TagsWithId(rows, rows[k].id) == [AsTag(rows[k])]
  {
    var rest := rows[1..];
    assert TagIdsBelow(rest, next) by {
      assert forall i :: 0 <= i < |rest| ==> rest[i] == rows[i + 1];
    }
    if k == 0 {
      assert TagsWithId(rest, rows[0].id) == [] by {
        TagsWithIdAbsent(rest, rows[0].id);
      }
    } else {
      TagsWithIdUnique(rest, next, k - 1);
    }
  }

  lemma {:induction false} TagsWithIdAbsent(rows: seq<TagRow>, id: nat)
    requires forall i :: 0 <= i < |rows| ==> rows[i].id > id
    ensures TagsWithId(rows, id) == []
  {
    if rows != [] {
      TagsWithIdAbsent(rows[1..], id);
    }
  }

  /** Appending a row whose id is not yet used keeps the join on old ids. */
  lemma {:induction false} TagsWithIdAppend(rows: seq<TagRow>, extra: seq<TagRow>, id: nat)
    ensures TagsWithId(rows + extra, id) == TagsWithId(rows, id) + TagsWithId(extra, id)
  {
    if rows != [] {
      assert (rows + extra)[0] == rows[0] && (rows + extra)[1..] == rows[1..] + extra;
      TagsWithIdAppend(rows[1..], extra, id);
      var h := if rows[0].id == id then [AsTag(rows[0])] else [];
      var t0, t1 := TagsWithId(rows[1..], id), TagsWithId(extra, id);
      assert TagsWithId(rows + extra, id) == h + (t0 + t1);
      assert h + (t0 + t1) == (h + t0) + t1;
      assert TagsWithId(rows, id) == h + t0;
    } else {
      assert rows + extra == extra;
      assert TagsWithId(rows, id) + TagsWithId(extra, id) == TagsWithId(extra, id);
    }
  }

  /** The rows of one owner, in table order. */
  function OwnerTags(rows: seq<TagRow>, owner: int): (r: seq<TagRow>)
    ensures forall k :: 0 <= k < |r| ==> r[k].owner == owner
  {
    if rows == [] then []
    else (if rows[0].owner == owner then [rows[0]] else []) + OwnerTags(rows[1..], owner)
  }

  /** The owner filter keeps exactly the owner's rows: none left out, none added. */
  lemma {:induction false} OwnerTagsMembers(rows: seq<TagRow>, owner: int)
    ensures forall x :: x in OwnerTags(rows, owner) <==> x in rows && x.owner == owner
  {
    if rows != [] {
      OwnerTagsMembers(rows[1..], owner);
      var h := if rows[0].owner == owner then [rows[0]] else [];
      assert OwnerTags(rows, owner) == h + OwnerTags(rows[1..], owner);
      assert rows == [rows[0]] + rows[1..];
    }
  }

  lemma {:induction false} OwnerTagsAppend(rows: seq<TagRow>, extra: seq<TagRow>, owner: int)
    ensures OwnerTags(rows + extra, owner) == OwnerTags(rows, owner) + OwnerTags(extra, owner)
  {
    if rows != [] {
      assert (rows + extra)[0] == rows[0] && (rows + extra)[1..] == rows[1..] + extra;
      OwnerTagsAppend(rows[1..], extra, owner);
      var h := if rows[0].owner == owner then [rows[0]] else [];
      var t0, t1 := OwnerTags(rows[1..], owner), OwnerTags(extra, owner);
      assert OwnerTags(rows + extra, owner) == h + (t0 + t1);
      assert h + (t0 + t1) == (h + t0) + t1;
      assert OwnerTags(rows, owner) == h + t0;
    } else {
      assert rows + extra == extra;
      assert OwnerTags(rows, owner) + OwnerTags(extra, owner) == OwnerTags(extra, owner);
    }
  }

  // ---------------------------------------------------------------------
  // products

  /** The exclusion `.where("p_id", "!=", productId)` of the update; `None` on create. */
  predicate Excluded(exclude: Option<nat>, id: nat) {
    exclude == Some(id)
  }

  /**
   * `db("products").where("p_slug", slug).where("p_user_id", owner)[.where("p_id", "!=", id)].first()`
   * found a row.
   */
  predicate SlugTaken(rows: seq<ProductRow>, slug: string, owner: int, exclude: Option<nat>) {
    rows != [] &&
      ((rows[0].slug == slug && rows[0].owner == owner && !Excluded(exclude, rows[0].id))
       || SlugTaken(rows[1..], slug, owner, exclude))
  }

  /** The slugs the uniqueness check can collide with: those of `owner`'s other products. */
  ghost function OwnerSlugs(rows: seq<ProductRow>, owner: int, exclude: Option<nat>): set<string> {
    set i | 0 <= i < |rows| && rows[i].owner == owner && !Excluded(exclude, rows[i].id) :: rows[i].slug
  }

  /** The query finds a row exactly when the slug is among the owner's other slugs. */
  lemma {:induction false} SlugTakenIff(rows: seq<ProductRow>, slug: string, owner: int, exclude: Option<nat>)
    ensures SlugTaken(rows, slug, owner, exclude) <==> slug in OwnerSlugs(rows, owner, exclude)
  {
    if rows != [] {
      var rest := rows[1..];
      SlugTakenIff(rest, slug, owner, exclude);
      if slug in OwnerSlugs(rest, owner, exclude) {
        var i :| 0 <= i < |rest| && rest[i].owner == owner && !Excluded(exclude, rest[i].id) && rest[i].slug == slug;
        assert rows[i + 1] == rest[i];
      }
      if slug in OwnerSlugs(rows, owner, exclude) {
        var i :| 0 <= i < |rows| && rows[i].owner == owner && !Excluded(exclude, rows[i].id) && rows[i].slug == slug;
        if i > 0 {
          assert rest[i - 1] == rows[i];
        }
      }
    }
  }

  /** `.where("p_id", id).where("p_user_id", owner).first()`: the position of the row, if any. */
  function ProductIndex(rows: seq<ProductRow>, id: nat, owner: int): (r: Option<nat>)
    ensures r.Some? ==> r.value < |rows| && rows[r.value].id == id && rows[r.value].owner == owner
    ensures r.None? <==> forall i :: 0 <= i < |rows| ==> !(rows[i].id == id && rows[i].owner == owner)
  {
    if rows == [] then None
    else if rows[0].id == id && rows[0].owner == owner then Some(0)
    else match ProductIndex(rows[1..], id, owner)
      case None => None
      case Some(k) => Some(k + 1)
  }

  /** `.where("p_id", id).where("p_user_id", owner).del()` */
  function RemoveProduct(rows: seq<ProductRow>, id: nat, owner: int): (r: seq<ProductRow>)
    ensures forall k :: 0 <= k < |r| ==> r[k] in rows && !(r[k].id == id && r[k].owner == owner)
    ensures forall x :: x in rows && !(x.id == id && x.owner == owner) ==> x in r
  {
    if rows == [] then []
    else (if rows[0].id == id && rows[0].owner == owner then [] else [rows[0]]) + RemoveProduct(rows[1..], id, owner)
  }

  /** The products of one owner, in table order: the same filter as `OwnerTags`, over product rows. */
  function OwnerProducts(rows: seq<ProductRow>, owner: int): (r: seq<ProductRow>)
    ensures forall k :: 0 <= k < |r| ==> r[k].owner == owner
  {
    if rows == [] then []
    else (if rows[0].owner == owner then [rows[0]] else []) + OwnerProducts(rows[1..], owner)
  }

  /** The owner filter keeps exactly the owner's products: none left out, none added. */
  lemma {:induction false} OwnerProductsMembers(rows: seq<ProductRow>, owner: int)
    ensures forall x :: x in OwnerProducts(rows, owner) <==> x in rows && x.owner == owner
  {
    if rows != [] {
      OwnerProductsMembers(rows[1..], owner);
      var h := if rows[0].owner == owner then [rows[0]] else [];
      assert OwnerProducts(rows, owner) == h + OwnerProducts(rows[1..], owner);
      assert rows == [rows[0]] + rows[1..];
    }
  }

  lemma {:induction false} OwnerProductsAppend(rows: seq<ProductRow>, extra: seq<ProductRow>, owner: int)
    ensures OwnerProducts(rows + extra, owner) == OwnerProducts(rows, owner) + OwnerProducts(extra, owner)
  {
    if rows != [] {
      assert (rows + extra)[0] == rows[0] && (rows + extra)[1..] == rows[1..] + extra;
      OwnerProductsAppend(rows[1..], extra, owner);
      var h := if rows[0].owner == owner then [rows[0]] else [];
      var t0, t1 := OwnerProducts(rows[1..], owner), OwnerProducts(extra, owner);
      assert OwnerProducts(rows + extra, owner) == h + (t0 + t1);
      assert h + (t0 + t1) == (h + t0) + t1;
      assert OwnerProducts(rows, owner) == h + t0;
    } else {
      assert rows + extra == extra;
      assert OwnerProducts(rows, owner) + OwnerProducts(extra, owner) == OwnerProducts(extra, owner);
    }
  }

  /** Appending a row of one owner leaves every other owner's products as they were. */
  lemma OwnerProductsSnoc(rows: seq<ProductRow>, row: ProductRow, other: int)
    requires other != row.owner
    ensures OwnerProducts(rows + [row], other) == OwnerProducts(rows, other)
  {
    OwnerProductsAppend(rows, [row], other);
    assert OwnerProducts([row], other) == [];
  }

  /** Rewriting a row of `owner` in place leaves every other owner's products as they were. */
  lemma {:induction false} OwnerProductsUpdate(rows: seq<ProductRow>, i: nat, row: ProductRow, other: int)
    requires i < |rows| && rows[i].owner == row.owner && other != row.owner
    ensures OwnerProducts(rows[i := row], other) == OwnerProducts(rows, other)
  {
    if i > 0 {
      assert rows[i := row][1..] == rows[1..][i - 1 := row];
      OwnerProductsUpdate(rows[1..], i - 1, row, other);
    } else {
      assert rows[i := row][1..] == rows[1..];
    }
  }

  /** Deleting rows of `owner` leaves every other owner's products as they were. */
  lemma {:induction false} OwnerProductsRemove(rows: seq<ProductRow>, id: nat, owner: int, other: int)
    requires other != owner
    ensures OwnerProducts(RemoveProduct(rows, id, owner), other) == OwnerProducts(rows, other)
  {
    if rows != [] {
      var head := if rows[0].id == id && rows[0].owner == owner then [] else [rows[0]];
      OwnerProductsAppend(head, RemoveProduct(rows[1..], id, owner), other);
      OwnerProductsRemove(rows[1..], id, owner, other);
    }
  }

  /** The slugs of other owners play no part in the uniqueness check. */
  lemma {:induction false} OwnerSlugsOfOwner(rows: seq<ProductRow>, owner: int, exclude: Option<nat>)
    ensures OwnerSlugs(rows, owner, exclude) == OwnerSlugs(OwnerProducts(rows, owner), owner, exclude)
  {
    if rows != [] {
      var rest := rows[1..];
      OwnerSlugsOfOwner(rest, owner, exclude);
      var head := if rows[0].owner == owner then [rows[0]] else [];
      assert OwnerSlugs(rows, owner, exclude) == OwnerSlugs([rows[0]], owner, exclude) + OwnerSlugs(rest, owner, exclude) by {
        OwnerSlugsAppend([rows[0]], rest, owner, exclude);
        assert [rows[0]] + rest == rows;
      }
      OwnerSlugsAppend(head, OwnerProducts(rest, owner), owner, exclude);
      assert OwnerSlugs(head, owner, exclude) == OwnerSlugs([rows[0]], owner, exclude);
    }
  }

  lemma {:induction false} OwnerSlugsAppend(a: seq<ProductRow>, b: seq<ProductRow>, owner: int, exclude: Option<nat>)
    ensures OwnerSlugs(a + b, owner, exclude) == OwnerSlugs(a, owner, exclude) + OwnerSlugs(b, owner, exclude)
  {
    var ab := a + b;
    forall s | s in OwnerSlugs(ab, owner, exclude)
      ensures s in OwnerSlugs(a, owner, exclude) + OwnerSlugs(b, owner, exclude)
    {
      var i :| 0 <= i < |ab| && ab[i].owner == owner && !Excluded(exclude, ab[i].id) && ab[i].slug == s;
      if i >= |a| {
        assert b[i - |a|] == ab[i];
      } else {
        assert a[i] == ab[i];
      }
    }
    forall s | s in OwnerSlugs(a, owner, exclude) ensures s in OwnerSlugs(ab, owner, exclude) {
      var i :| 0 <= i < |a| && a[i].owner == owner && !Excluded(exclude, a[i].id) && a[i].slug == s;
      assert ab[i] == a[i];
    }
    forall s | s in OwnerSlugs(b, owner, exclude) ensures s in OwnerSlugs(ab, owner, exclude) {
      var i :| 0 <= i < |b| && b[i].owner == owner && !Excluded(exclude, b[i].id) && b[i].slug == s;
      assert ab[i + |a|] == b[i];
    }
  }

  predicate AscendingIds(rows: seq<ProductRow>) {
    forall i, j :: 0 <= i < j < |rows| ==> rows[i].id < rows[j].id
  }

  /** Product ids are handed out by a counter: ascending, below the counter. */
  predicate ProductIdsBelow(rows: seq<ProductRow>, next: nat) {
    AscendingIds(rows) && (forall i :: 0 <= i < |rows| ==> rows[i].id < next)
  }

  /** No owner has two products with the same slug. */
  predicate SlugsUnique(rows: seq<ProductRow>) {
    forall i, j :: 0 <= i < j < |rows| && rows[i].owner == rows[j].owner ==> rows[i].slug != rows[j].slug
  }

  predicate ProductsOk(rows: seq<ProductRow>, next: nat) {
    ProductIdsBelow(rows, next) && SlugsUnique(rows)
  }

  /** Inserting a row with the next id and a slug the owner does not use keeps the table well formed. */
  lemma {:induction false} ProductsOkInsert(rows: seq<ProductRow>, next: nat, row: ProductRow)
    requires ProductsOk(rows, next)
    requires row.id == next && row.slug !in OwnerSlugs(rows, row.owner, None)
    ensures ProductsOk(rows + [row], next + 1)
  {
    var r := rows + [row];
    forall i, j | 0 <= i < j < |r| && r[i].owner == r[j].owner ensures r[i].slug != r[j].slug {
      if j == |rows| {
        assert r[i] == rows[i];
        assert rows[i].slug in OwnerSlugs(rows, row.owner, None);
      }
    }
  }

  /** Rewriting a row in place, keeping its id and owner, with a slug the owner's other products do not use. */
  lemma {:induction false} ProductsOkUpdate(rows: seq<ProductRow>, next: nat, i: nat, row: ProductRow)
    requires ProductsOk(rows, next) && i < |rows|
    requires row.id == rows[i].id && row.owner == rows[i].owner
    requires row.slug == rows[i].slug || row.slug !in OwnerSlugs(rows, row.owner, Some(row.id))
    ensures ProductsOk(rows[i := row], next)
  {
    var r := rows[i := row];
    forall a, b | 0 <= a < b < |r| && r[a].owner == r[b].owner ensures r[a].slug != r[b].slug {
      if a == i || b == i {
        var o := if a == i then b else a;
        assert r[o] == rows[o] && rows[o].id != row.id;
        if row.slug != rows[i].slug {
          assert rows[o].slug in OwnerSlugs(rows, row.owner, Some(row.id));
        }
      }
    }
  }

  /** A row placed before a well-formed table, with a smaller id and a slug new to its owner. */
  lemma {:induction false} ProductsOkCons(head: ProductRow, tail: seq<ProductRow>, next: nat)
    requires ProductsOk(tail, next) && head.id < next
    requires forall k :: 0 <= k < |tail| ==> head.id < tail[k].id && (head.owner == tail[k].owner ==> head.slug != tail[k].slug)
    ensures ProductsOk([head] + tail, next)
  {
    var r := [head] + tail;
    assert forall a :: 0 < a < |r| ==> r[a] == tail[a - 1];
  }

  lemma {:induction false} ProductsOkTail(rows: seq<ProductRow>, next: nat)
    requires ProductsOk(rows, next) && rows != []
    ensures ProductsOk(rows[1..], next)
  {
    var rest := rows[1..];
    assert forall k :: 0 <= k < |rest| ==> rest[k] == rows[k + 1];
  }

  /** The first row of a well-formed table comes before, and differs in slug from, every row drawn from the rest. */
  lemma {:induction false} HeadBeforeRest(rows: seq<ProductRow>, next: nat, tail: seq<ProductRow>)
    requires ProductsOk(rows, next) && rows != []
    requires forall k :: 0 <= k < |tail| ==> tail[k] in rows[1..]
    ensures forall k :: 0 <= k < |tail| ==> rows[0].id < tail[k].id && (rows[0].owner == tail[k].owner ==> rows[0].slug != tail[k].slug)
  {
    forall k | 0 <= k < |tail|
      ensures rows[0].id < tail[k].id && (rows[0].owner == tail[k].owner ==> rows[0].slug != tail[k].slug)
    {
      var m :| 0 <= m < |rows[1..]| && rows[1..][m] == tail[k];
      assert rows[m + 1] == tail[k];
    }
  }

  /** Deleting rows keeps the table well formed. */
  lemma {:induction false} ProductsOkRemove(rows: seq<ProductRow>, next: nat, id: nat, owner: int)
    requires ProductsOk(rows, next)
    ensures ProductsOk(RemoveProduct(rows, id, owner), next)
  {
    if rows != [] {
      var rest := rows[1..];
      ProductsOkTail(rows, next);
      ProductsOkRemove(rest, next, id, owner);
      var tail := RemoveProduct(rest, id, owner);
      if !(rows[0].id == id && rows[0].owner == owner) {
        HeadBeforeRest(rows, next, tail);
        ProductsOkCons(rows[0], tail, next);
      } else {
        assert RemoveProduct(rows, id, owner) == tail;
      }
    }
  }

  // ---------------------------------------------------------------------
  // product_tags

  /** The tag ids linked to a product, in link-table order. */
  function LinksOf(links: seq<LinkRow>, productId: nat): seq<nat> {
    if links == [] then []
    else (if links[0].productId == productId then [links[0].tagId] else []) + LinksOf(links[1..], productId)
  }

  /** `db("product_tags").where("pt_product_id", productId).del()` */
  function Unlink(links: seq<LinkRow>, productId: nat): (r: seq<LinkRow>)
    ensures forall k :: 0 <= k < |r| ==> r[k] in links && r[k].productId != productId
  {
    if links == [] then []
    else (if links[0].productId == productId then [] else [links[0]]) + Unlink(links[1..], productId)
  }

  /** A link survives the delete exactly when it belongs to another product. */
  lemma {:induction false} UnlinkMembers(links: seq<LinkRow>, productId: nat)
    ensures forall x :: x in Unlink(links, productId) <==> x in links && x.productId != productId
  {
    if links != [] {
      UnlinkMembers(links[1..], productId);
      var h := if links[0].productId == productId then [] else [links[0]];
      assert Unlink(links, productId) == h + Unlink(links[1..], productId);
      assert links == [links[0]] + links[1..];
    }
  }

  /** `tagIds.map(tagId => ({pt_product_id: productId, pt_tag_id: tagId}))` */
  function NewLinks(productId: nat, tagIds: seq<nat>): seq<LinkRow>
  {
    seq(|tagIds|, k requires 0 <= k < |tagIds| => LinkRow(productId, tagIds[k]))
  }

  /** The inserted links are exactly the product's links to the given tag ids. */
  lemma NewLinksMembers(productId: nat, tagIds: seq<nat>)
    ensures forall x :: x in NewLinks(productId, tagIds) <==> x.productId == productId && x.tagId in tagIds
  {
    var r := NewLinks(productId, tagIds);
    assert forall k :: 0 <= k < |r| ==> r[k] == LinkRow(productId, tagIds[k]) && tagIds[k] in tagIds;
  }

  lemma {:induction false} LinksOfAppend(a: seq<LinkRow>, b: seq<LinkRow>, productId: nat)
    ensures LinksOf(a + b, productId) == LinksOf(a, productId) + LinksOf(b, productId)
  {
    if a != [] {
      assert (a + b)[0] == a[0] && (a + b)[1..] == a[1..] + b;
      LinksOfAppend(a[1..], b, productId);
      var h := if a[0].productId == productId then [a[0].tagId] else [];
      var t0, t1 := LinksOf(a[1..], productId), LinksOf(b, productId);
      assert LinksOf(a + b, productId) == h + (t0 + t1);
      assert h + (t0 + t1) == (h + t0) + t1;
      assert LinksOf(a, productId) == h + t0;
    } else {
      assert a + b == b;
      assert LinksOf(a, productId) + LinksOf(b, productId) == LinksOf(b, productId);
    }
  }

  lemma {:induction false} LinksOfUnlink(links: seq<LinkRow>, productId: nat, other: nat)
    ensures LinksOf(Unlink(links, productId), productId) == []
    ensures other != productId ==> LinksOf(Unlink(links, productId), other) == LinksOf(links, other)
  {
    if links != [] {
      var head := if links[0].productId == productId then [] else [links[0]];
      LinksOfAppend(head, Unlink(links[1..], productId), productId);
      LinksOfAppend(head, Unlink(links[1..], productId), other);
      LinksOfUnlink(links[1..], productId, other);
    }
  }

  lemma {:induction false} LinksOfNewLinks(productId: nat, tagIds: seq<nat>, other: nat)
    ensures LinksOf(NewLinks(productId, tagIds), productId) == tagIds
    ensures other != productId ==> LinksOf(NewLinks(productId, tagIds), other) == []
  {
    if tagIds != [] {
      var n := NewLinks(productId, tagIds);
      assert n[1..] == NewLinks(productId, tagIds[1..]);
      LinksOfNewLinks(productId, tagIds[1..], other);
      assert tagIds == [tagIds[0]] + tagIds[1..];
    }
  }

  /**
   * Delete-then-insert replaces the product's tag set exactly: afterwards its
   * links are one per element of `tagIds`, in order, and every other
   * product's links are as they were.
   */
  lemma {:induction false} ReplaceLinks(links: seq<LinkRow>, productId: nat, tagIds: seq<nat>, other: nat)
    ensures LinksOf(Unlink(links, productId) + NewLinks(productId, tagIds), productId) == tagIds
    ensures other != productId ==>
      LinksOf(Unlink(links, productId) + NewLinks(productId, tagIds), other) == LinksOf(links, other)
  {
    LinksOfAppend(Unlink(links, productId), NewLinks(productId, tagIds), productId);
    LinksOfAppend(Unlink(links, productId), NewLinks(productId, tagIds), other);
    LinksOfUnlink(links, productId, other);
    LinksOfNewLinks(productId, tagIds, other);
  }

  /** Every link points at a product id already handed out. */
  predicate LinksBelow(links: seq<LinkRow>, next: nat) {
    forall k :: 0 <= k < |links| ==> links[k].productId < next
  }

  /** A product id not yet handed out has no links. */
  lemma {:induction false} LinksOfFresh(links: seq<LinkRow>, next: nat)
    requires LinksBelow(links, next)
    ensures LinksOf(links, next) == []
  {
    if links != [] {
      LinksOfFresh(links[1..], next);
    }
  }

  // ---------------------------------------------------------------------
  // the join of product_tags with tags

  /**
   * `product_tags JOIN tags ON pt_tag_id = t_id WHERE pt_product_id = productId`,
   * in link-table order.
   */
  function JoinTags(links: seq<LinkRow>, rows: seq<TagRow>, productId: nat): seq<Tag> {
    if links == [] then []
    else
      var head := if links[0].productId == productId then TagsWithId(rows, links[0].tagId) else [];
      head + JoinTags(links[1..], rows, productId)
  }

  function Joined(productId: nat, tags: seq<Tag>): seq<JoinedTag>
  {
    seq(|tags|, k requires 0 <= k < |tags| => JoinedTag(productId, tags[k]))
  }

  /** Joining a non-empty list joins its first tag, then the rest. */
  lemma JoinedCons(productId: nat, tags: seq<Tag>)
    requires tags != []
    ensures Joined(productId, tags) == [JoinedTag(productId, tags[0])] + Joined(productId, tags[1..])
  {
    assert Joined(productId, tags)[1..] == Joined(productId, tags[1..]);
  }

  /** Every joined row carries the product id and one of the tags, and every tag is joined. */
  lemma JoinedMembers(productId: nat, tags: seq<Tag>)
    ensures forall x :: x in Joined(productId, tags) <==> x.productId == productId && x.tag in tags
  {
    var r := Joined(productId, tags);
    assert forall k :: 0 <= k < |r| ==> r[k] == JoinedTag(productId, tags[k]) && tags[k] in tags;
  }

  /** The same join `WHERE pt_product_id IN productIds`, keeping the product id of each row. */
  function JoinAll(links: seq<LinkRow>, rows: seq<TagRow>, productIds: set<nat>): seq<JoinedTag> {
    if links == [] then []
    else
      var head := if links[0].productId in productIds then Joined(links[0].productId, TagsWithId(rows, links[0].tagId)) else [];
      head + JoinAll(links[1..], rows, productIds)
  }

  /** A product's joined tags are the tags of its link ids, in link order. */
  lemma {:induction false} JoinTagsOfLinks(links: seq<LinkRow>, rows: seq<TagRow>, productId: nat)
    ensures JoinTags(links, rows, productId) == JoinTagsById(LinksOf(links, productId), rows)
  {
    if links != [] {
      JoinTagsOfLinks(links[1..], rows, productId);
      var ids := LinksOf(links, productId);
      if links[0].productId == productId {
        assert ids[0] == links[0].tagId && ids[1..] == LinksOf(links[1..], productId);
      } else {
        assert ids == LinksOf(links[1..], productId);
        assert JoinTags(links, rows, productId) == JoinTags(links[1..], rows, productId);
      }
    }
  }

  /** The tags with each id of a list of ids, in order. */
  function JoinTagsById(ids: seq<nat>, rows: seq<TagRow>): seq<Tag> {
    if ids == [] then [] else TagsWithId(rows, ids[0]) + JoinTagsById(ids[1..], rows)
  }

  lemma {:induction false} JoinTagsAppend(a: seq<LinkRow>, b: seq<LinkRow>, rows: seq<TagRow>, productId: nat)
    ensures JoinTags(a + b, rows, productId) == JoinTags(a, rows, productId) + JoinTags(b, rows, productId)
  {
    if a != [] {
      assert (a + b)[0] == a[0] && (a + b)[1..] == a[1..] + b;
      JoinTagsAppend(a[1..], b, rows, productId);
    } else {
      assert a + b == b;
    }
  }

  /** Removing a product's links removes all its joined tags and no other product's. */
  lemma {:induction false} JoinTagsUnlink(links: seq<LinkRow>, rows: seq<TagRow>, productId: nat, other: nat)
    ensures JoinTags(Unlink(links, productId), rows, productId) == []
    ensures other != productId ==> JoinTags(Unlink(links, productId), rows, other) == JoinTags(links, rows, other)
  {
    if links != [] {
      var head := if links[0].productId == productId then [] else [links[0]];
      JoinTagsAppend(head, Unlink(links[1..], productId), rows, productId);
      JoinTagsAppend(head, Unlink(links[1..], productId), rows, other);
      JoinTagsUnlink(links[1..], rows, productId, other);
    }
  }

  /** A fresh product id has nothing joined to it. */
  lemma {:induction false} JoinTagsFresh(links: seq<LinkRow>, rows: seq<TagRow>, next: nat)
    requires LinksBelow(links, next)
    ensures JoinTags(links, rows, next) == []
  {
    if links != [] {
      JoinTagsFresh(links[1..], rows, next);
    }
  }

  /** Replacing a product's links with links to `tagIds` joins it to the tags with those ids, in order. */
  lemma {:induction false} JoinTagsReplaced(links: seq<LinkRow>, rows: seq<TagRow>, productId: nat, tagIds: seq<nat>)
    ensures JoinTags(Unlink(links, productId) + NewLinks(productId, tagIds), rows, productId) == JoinTagsById(tagIds, rows)
  {
    var added := NewLinks(productId, tagIds);
    JoinTagsAppend(Unlink(links, productId), added, rows, productId);
    JoinTagsUnlink(links, rows, productId, productId);
    JoinTagsOfLinks(added, rows, productId);
    LinksOfNewLinks(productId, tagIds, productId);
  }

  lemma {:induction false} LinksBelowReplaced(links: seq<LinkRow>, next: nat, productId: nat, tagIds: seq<nat>)
    requires LinksBelow(links, next) && productId < next
    ensures LinksBelow(Unlink(links, productId) + NewLinks(productId, tagIds), next)
  {
  }

  /** `productTags.map(tag => tag.id)` */
  function TagIds(tags: seq<Tag>): seq<nat>
  {
    seq(|tags|, k requires 0 <= k < |tags| => tags[k].id)
  }

  /** The ids of a non-empty list are the first tag's id followed by the ids of the rest. */
  lemma TagIdsCons(tags: seq<Tag>)
    requires tags != []
    ensures TagIds(tags) == [tags[0].id] + TagIds(tags[1..])
  {
    assert TagIds(tags)[1..] == TagIds(tags[1..]);
  }

  /** Every tag's id is passed on, and every id passed on is some tag's. */
  lemma TagIdsMembers(tags: seq<Tag>)
    ensures forall t :: t in tags ==> t.id in TagIds(tags)
    ensures forall i :: i in TagIds(tags) ==> exists t :: t in tags && t.id == i
  {
    var r := TagIds(tags);
    assert forall k :: 0 <= k < |r| ==> r[k] == tags[k].id && tags[k] in tags;
  }

  /** Joining the ids of tags drawn from a table with unique ids gives back those tags. */
  lemma {:induction false} JoinTagsByIdOfRows(tags: seq<Tag>, rows: seq<TagRow>, next: nat)
    requires TagIdsBelow(rows, next)
    requires forall t :: t in tags ==> exists m :: 0 <= m < |rows| && AsTag(rows[m]) == t
    ensures JoinTagsById(TagIds(tags), rows) == tags
  {
    if tags != [] {
      var t, rest := tags[0], tags[1..];
      var ids := TagIds(tags);
      assert JoinTagsById(ids, rows) == [t] + JoinTagsById(TagIds(rest), rows) by {
        TagIdsCons(tags);
        assert t in tags;
        var m :| 0 <= m < |rows| && AsTag(rows[m]) == t;
        TagsWithIdUnique(rows, next, m);
      }
      assert JoinTagsById(TagIds(rest), rows) == rest by {
        assert forall u :: u in rest ==> u in tags;
        JoinTagsByIdOfRows(rest, rows, next);
      }
      assert tags == [t] + rest;
    }
  }

  // ---------------------------------------------------------------------
  // ordering

  /** The rows in reverse table order: `.orderBy("p_created_at", "desc")`. */
  function NewestFirst(rows: seq<ProductRow>): (r: seq<ProductRow>)
    ensures |r| == |rows|
    ensures forall k :: 0 <= k < |r| ==> r[k] == rows[|rows| - 1 - k]
  {
    if rows == [] then [] else NewestFirst(rows[1..]) + [rows[0]]
  }

  /** Listing an owner's products newest first leaves none of them out. */
  lemma NewestFirstComplete(rows: seq<ProductRow>, owner: int)
    ensures forall i :: 0 <= i < |rows| && rows[i].owner == owner ==> rows[i] in NewestFirst(OwnerProducts(rows, owner))
  {
    var own := OwnerProducts(rows, owner);
    OwnerProductsMembers(rows, owner);
    forall i | 0 <= i < |rows| && rows[i].owner == owner ensures rows[i] in NewestFirst(own) {
      var j :| 0 <= j < |own| && own[j] == rows[i];
      assert NewestFirst(own)[|own| - 1 - j] == rows[i];
    }
  }

  /** With ids handed out in ascending order, one owner's products are in ascending id order too. */
  lemma {:induction false} OwnerProductsAscending(rows: seq<ProductRow>, owner: int)
    requires AscendingIds(rows)
    ensures AscendingIds(OwnerProducts(rows, owner))
  {
    if rows != [] {
      var rest := rows[1..];
      OwnerProductsAscending(rest, owner);
      var tail := OwnerProducts(rest, owner);
      if rows[0].owner == owner {
        OwnerProductsMembers(rest, owner);
        forall k | 0 <= k < |tail| ensures rows[0].id < tail[k].id {
          assert tail[k] in rest;
          var m :| 0 <= m < |rest| && rest[m] == tail[k];
          assert rows[m + 1] == rest[m];
        }
        AscendingCons(rows[0], tail);
      }
    }
  }

  lemma AscendingCons(row: ProductRow, tail: seq<ProductRow>)
    requires AscendingIds(tail)
    requires forall k :: 0 <= k < |tail| ==> row.id < tail[k].id
    ensures AscendingIds([row] + tail)
  {
    var r := [row] + tail;
    forall i, j | 0 <= i < j < |r| ensures r[i].id < r[j].id {
      assert r[j] == tail[j - 1];
      if i > 0 {
        assert r[i] == tail[i - 1];
      }
    }
  }

  /** The listing of one owner's products, newest first, is in descending id order. */
  lemma NewestFirstDescending(rows: seq<ProductRow>, next: nat, owner: int)
    requires ProductIdsBelow(rows, next)
    ensures var l := NewestFirst(OwnerProducts(rows, owner)); forall i, j :: 0 <= i < j < |l| ==> l[i].id > l[j].id
  {
    OwnerProductsAscending(rows, owner);
  }

  /** The tag records of some rows. */
  function AsTags(rows: seq<TagRow>): seq<Tag>
  {
    seq(|rows|, k requires 0 <= k < |rows| => AsTag(rows[k]))
  }

  /** Every row's tag record is listed, and every listed record comes from a row. */
  lemma AsTagsMembers(rows: seq<TagRow>)
    ensures forall row :: row in rows ==> AsTag(row) in AsTags(rows)
    ensures forall t :: t in AsTags(rows) ==> exists row :: row in rows && AsTag(row) == t
  {
    var r := AsTags(rows);
    assert forall k :: 0 <= k < |r| ==> r[k] == AsTag(rows[k]) && rows[k] in rows;
  }

  /** Code-unit lexicographic order on names: `.orderBy("t_name", "asc")`. */
  predicate NameLeq(a: string, b: string) {
    a == [] || (b != [] && (a[0] < b[0] || (a[0] == b[0] && NameLeq(a[1..], b[1..]))))
  }

  lemma {:induction false} NameLeqTotal(a: string, b: string)
    ensures NameLeq(a, b) || NameLeq(b, a)
  {
    if a != [] && b != [] && a[0] == b[0] {
      NameLeqTotal(a[1..], b[1..]);
    }
  }

  predicate SortedByName(tags: seq<Tag>) {
    forall k :: 0 < k < |tags| ==> NameLeq(tags[k - 1].name, tags[k].name)
  }

  /** One step of an insertion sort by name. */
  function InsertByName(tag: Tag, sorted: seq<Tag>): (r: seq<Tag>)
    requires SortedByName(sorted)
    ensures SortedByName(r)
    ensures multiset(r) == multiset(sorted) + multiset{tag}
    ensures r != [] && (r[0] == tag || (sorted != [] && r[0] == sorted[0]))
  {
    if sorted == [] then [tag]
    else if NameLeq(tag.name, sorted[0].name) then [tag] + sorted
    else
      NameLeqTotal(tag.name, sorted[0].name);
      var rest := InsertByName(tag, sorted[1..]);
      assert sorted == [sorted[0]] + sorted[1..];
      [sorted[0]] + rest
  }

  /** The tags sorted by name. */
  function SortByName(tags: seq<Tag>): (r: seq<Tag>)
    ensures SortedByName(r)
    ensures multiset(r) == multiset(tags)
  {
    if tags == [] then []
    else
      assert tags == [tags[0]] + tags[1..];
      InsertByName(tags[0], SortByName(tags[1..]))
  }
}
