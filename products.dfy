/**
 * The products controller over an in-memory copy of its three tables:
 * `products`, `tags` and the join table `product_tags`. Each handler takes
 * the caller's user id and the request's parameters, and returns either the
 * record it would send or the status and message of the error it would send.
 */
module Products {
  import opened Text
  import opened Slugs
  import opened Tables
  import opened Format
  import opened TagResolution

  /** A response: the record sent with a success, or an error status and message. */
  datatype Outcome<T> = Ok(value: T) | Err(status: nat, message: string)

  const AuthRequired: string := "User authentication required"
  const FieldsRequired: string := "Name, description, and category are required"
  const InvalidId: string := "Invalid product ID"
  const NotFound: string := "Product not found or access denied"

  /**
   * The body of a create or update request. A string field is `None` when
   * it is absent; `tags` is `None` when it is absent or not an array.
   */
  datatype ProductInput = ProductInput(
    name: Option<string>,
    description: Option<string>,
    category: Option<string>,
    image: Option<string>,
    status: JsValue,
    featured: JsValue,
    businessId: JsValue,
    tags: Option<seq<string>>)

  /** A string field is truthy: present and not empty. */
  predicate Present(field: Option<string>) {
    field.Some? && field.value != []
  }

  /** `!name || !description || !category` */
  predicate MissingRequired(body: ProductInput) {
    !Present(body.name) || !Present(body.description) || !Present(body.category)
  }

  /** `req.user?.id` is truthy. */
  predicate Authenticated(caller: Option<int>) {
    caller.Some? && caller.value != 0
  }

  /** The names handed to the tag loop; empty when `tags` is absent, not an array, or empty. */
  function TagNames(body: ProductInput): seq<string> {
    if body.tags.Some? then body.tags.value else []
  }

  /** The row a create or update writes, with the slug it settled on. */
  function StoredRow(id: nat, body: ProductInput, slug: string, owner: int): (row: ProductRow)
    requires !MissingRequired(body)
    ensures row.id == id && row.owner == owner && row.slug == slug
    ensures row.name == Trim(body.name.value) && row.description == Trim(body.description.value)
    ensures row.category == body.category.value
    ensures row.status == 1 <==> body.status == Str("active")
    ensures row.featured == 1 <==> Truthy(body.featured)
    ensures row.image == if body.image.None? || Trim(body.image.value) == [] then None else Some(Trim(body.image.value))
    ensures row.businessId == if Truthy(body.businessId) then Some(body.businessId) else None
  {
    ProductRow(id, Trim(body.name.value), Trim(body.description.value), body.category.value,
               StoredImage(body.image), StoredStatus(body.status), StoredFeatured(body.featured),
               slug, StoredBusinessId(body.businessId), owner)
  }

  /** The position of `owner`'s product with id `id`; a negative id matches no row. */
  function FindOwned(rows: seq<ProductRow>, id: int, owner: int): (r: Option<nat>)
    ensures r.Some? ==> r.value < |rows| && rows[r.value].id == id && rows[r.value].owner == owner
    ensures r.None? <==> forall i :: 0 <= i < |rows| ==> !(rows[i].id == id && rows[i].owner == owner)
  {
    if id < 0 then None else ProductIndex(rows, id, owner)
  }

  class Database {
    var products: seq<ProductRow>
    var tags: seq<TagRow>
    var links: seq<LinkRow>
    /** The auto-increment counters of `products` and `tags`. */
    var nextProductId: nat
    var nextTagId: nat

    /**
     * Ids are handed out by the counters, no owner has two products with
     * one slug or two tags with one name, every tag's slug is derived from
     * its name, and every link refers to a product id already handed out.
     */
    ghost predicate Valid()
      reads this
    {
      && ProductsOk(products, nextProductId)
      && TagsOk(tags, nextTagId)
      && TagSlugsDerived(tags)
      && LinksBelow(links, nextProductId)
    }

    constructor ()
      ensures Valid()
      ensures products == [] && tags == [] && links == []
    {
      products, tags, links := [], [], [];
      nextProductId, nextTagId := 1, 1;
    }

    /**
     * The uniqueness loop: tries `base`, then `base-1`, `base-2`, ... until
     * no product of `owner`, other than the excluded one, has the slug.
     */
    method FindFreeSlug(base: string, owner: int, exclude: Option<nat>) returns (slug: string)
      ensures FirstFree(OwnerSlugs(products, owner, exclude), base, slug)
      ensures slug !in OwnerSlugs(products, owner, exclude)
    {
      ghost var used := OwnerSlugs(products, owner, exclude);
      slug := base;
      var counter := 1;
      SlugTakenIff(products, slug, owner, exclude);
      while SlugTaken(products, slug, owner, exclude)
        invariant counter >= 1
        invariant slug == Candidate(base, counter - 1)
        invariant forall j :: 0 <= j < counter - 1 ==> Candidate(base, j) in used
        invariant SlugTaken(products, slug, owner, exclude) <==> slug in used
        decreases |used| - (counter - 1)
      {
        CandidatesBound(base, used, counter - 1);
        slug := base + "-" + Digits(counter);
        counter := counter + 1;
        SlugTakenIff(products, slug, owner, exclude);
      }
    }

    /** `createOrGetTags`: the loop over the names, inserting the tags `owner` does not have yet. */
    method CreateOrGetTags(names: seq<string>, owner: int) returns (out: seq<Tag>)
      requires Valid()
      modifies this`tags, this`nextTagId
      ensures Valid()
      ensures Resolution(tags, nextTagId, out) == Resolve(old(tags), old(nextTagId), names, owner)
    {
      out := [];
      var i := 0;
      while i < |names|
        invariant 0 <= i <= |names|
        invariant Resolution(tags, nextTagId, out) == Resolve(old(tags), old(nextTagId), names[..i], owner)
      {
        ghost var before := Resolution(tags, nextTagId, out);
        var clean := CleanTagName(names[i]);
        if clean != [] {
          var tag := FindOrInsertTag(clean, owner);
          out := out + [tag];
        }
        assert Resolution(tags, nextTagId, out) == ResolveOne(before, names[i], owner);
        ResolvePrefixStep(old(tags), old(nextTagId), names, i, owner);
        i := i + 1;
      }
      assert names[..|names|] == names;
      ResolveRows(old(tags), old(nextTagId), names, owner);
      ResolveSlugs(old(tags), old(nextTagId), names, owner);
    }

    /** The body of the loop in `createOrGetTags` for a name that is not blank: the owner's tag of that name, inserted first when missing. */
    method FindOrInsertTag(clean: string, owner: int) returns (tag: Tag)
      modifies this`tags, this`nextTagId
      ensures var found := old(FindTag(tags, clean, owner));
        found.Some? ==> tags == old(tags) && nextTagId == old(nextTagId) && tag == AsTag(found.value)
      ensures var row := TagRow(old(nextTagId), clean, TagSlug(clean), owner);
        old(FindTag(tags, clean, owner)).None? ==> tags == old(tags) + [row] && nextTagId == old(nextTagId) + 1 && tag == AsTag(row)
    {
      var existing := FindTag(tags, clean, owner);
      if existing.None? {
        var row := TagRow(nextTagId, clean, TagSlug(clean), owner);
        tags := tags + [row];
        nextTagId := nextTagId + 1;
        tag := AsTag(row);
      } else {
        tag := AsTag(existing.value);
      }
    }

    /** `associateProductTags`: the product's links become exactly `tagIds`, in order. */
    method AssociateProductTags(productId: nat, tagIds: seq<nat>)
      modifies this`links
      ensures links == Unlink(old(links), productId) + NewLinks(productId, tagIds)
      ensures LinksOf(links, productId) == tagIds
      ensures forall other :: other != productId ==> LinksOf(links, other) == LinksOf(old(links), other)
    {
      links := Unlink(links, productId);
      if |tagIds| > 0 {
        links := links + NewLinks(productId, tagIds);
      } else {
        assert links == links + NewLinks(productId, tagIds);
      }
      ReplaceLinks(old(links), productId, tagIds, productId);
      forall other | other != productId
        ensures LinksOf(links, other) == LinksOf(old(links), other)
      {
        ReplaceLinks(old(links), productId, tagIds, other);
      }
    }

    /** The tag part of a create or update, from `Array.isArray(tagNames)` to the association. */
    method SaveTags(productId: nat, names: seq<string>, owner: int, always: bool) returns (out: seq<Tag>)
      requires Valid() && productId < nextProductId
      modifies this`tags, this`nextTagId, this`links
      ensures Valid()
      ensures Resolution(tags, nextTagId, out) == Resolve(old(tags), old(nextTagId), names, owner)
      ensures links == if names == [] && !always then old(links)
                       else Unlink(old(links), productId) + NewLinks(productId, TagIds(out))
      ensures names == [] && !always ==> LinksOf(links, productId) == LinksOf(old(links), productId)
      ensures names != [] || always ==> LinksOf(links, productId) == TagIds(out) && out == JoinTags(links, tags, productId)
      ensures forall other :: other != productId ==> LinksOf(links, other) == LinksOf(old(links), other)
      ensures forall o :: o != owner ==> OwnerTags(tags, o) == OwnerTags(old(tags), o)
    {
      out := [];
      if |names| > 0 {
        out := CreateOrGetTags(names, owner);
        AssociateProductTags(productId, TagIds(out));
      } else if always {
        AssociateProductTags(productId, []);
      }
      LinksBelowReplaced(old(links), nextProductId, productId, TagIds(out));
      if names != [] || always {
        JoinTagsReplaced(old(links), tags, productId, TagIds(out));
        ResolvedTagsJoin(old(tags), old(nextTagId), names, owner);
      }
      forall o | o != owner ensures OwnerTags(tags, o) == OwnerTags(old(tags), o) {
        ResolveOtherOwners(old(tags), old(nextTagId), names, owner, o);
      }
    }

    /** `createProduct` */
    method CreateProduct(caller: Option<int>, body: ProductInput) returns (r: Outcome<ProductView>)
      requires Valid()
      modifies this
      ensures Valid()
      ensures MissingRequired(body) ==> r == Err(400, FieldsRequired) && unchanged(this)
      ensures !MissingRequired(body) && !Authenticated(caller) ==> r == Err(401, AuthRequired) && unchanged(this)
      ensures !MissingRequired(body) && Authenticated(caller) ==>
        var owner := caller.value;
        var id := old(nextProductId);
        var res := Resolve(old(tags), old(nextTagId), TagNames(body), owner);
        && r.Ok?
        && FirstFree(old(OwnerSlugs(products, owner, None)), ProductSlug(body.name.value), r.value.slug)
        && products == old(products) + [StoredRow(id, body, r.value.slug, owner)]
        && nextProductId == id + 1
        && tags == res.rows && nextTagId == res.next
        && links == (if TagNames(body) == [] then old(links)
                     else Unlink(old(links), id) + NewLinks(id, TagIds(res.out)))
        && r.value == FormatProduct(StoredRow(id, body, r.value.slug, owner), res.out)
        && r.value.tags == JoinTags(links, tags, id)
      ensures Authenticated(caller) ==> forall o :: o != caller.value ==>
        && OwnerProducts(products, o) == old(OwnerProducts(products, o))
        && OwnerTags(tags, o) == old(OwnerTags(tags, o))
    {
      if MissingRequired(body) {
        return Err(400, FieldsRequired);
      }
      if !Authenticated(caller) {
        return Err(401, AuthRequired);
      }
      var owner := caller.value;
      var slug := FindFreeSlug(ProductSlug(body.name.value), owner, None);
      var id := nextProductId;
      var row := StoredRow(id, body, slug, owner);
      ghost var before := products;
      ProductsOkInsert(products, nextProductId, row);
      products := products + [row];
      nextProductId := nextProductId + 1;
      var productTags := SaveTags(id, TagNames(body), owner, false);
      if TagNames(body) == [] {
        JoinTagsFresh(links, tags, id);
      }
      r := Ok(FormatProduct(row, productTags));
      forall o | o != owner ensures OwnerProducts(products, o) == OwnerProducts(before, o) {
        OwnerProductsSnoc(before, row, o);
      }
    }

    /** `updateProduct` */
    method UpdateProduct(caller: Option<int>, id: Option<int>, body: ProductInput) returns (r: Outcome<ProductView>)
      requires Valid()
      modifies this
      ensures Valid()
      ensures id.None? ==> r == Err(400, InvalidId) && unchanged(this)
      ensures id.Some? && !Authenticated(caller) ==> r == Err(401, AuthRequired) && unchanged(this)
      ensures id.Some? && Authenticated(caller) && old(FindOwned(products, id.value, caller.value)).None? ==>
        r == Err(404, NotFound) && unchanged(this)
      ensures (id.Some? && Authenticated(caller) && old(FindOwned(products, id.value, caller.value)).Some?
               && MissingRequired(body)) ==> r == Err(400, FieldsRequired) && unchanged(this)
      ensures (id.Some? && Authenticated(caller) && old(FindOwned(products, id.value, caller.value)).Some?
               && !MissingRequired(body)) ==>
        var owner := caller.value;
        var i := old(FindOwned(products, id.value, caller.value)).value;
        var existing := old(products[i]);
        var res := Resolve(old(tags), old(nextTagId), TagNames(body), owner);
        && r.Ok?
        && (Trim(body.name.value) == existing.name ==> r.value.slug == existing.slug)
        && (Trim(body.name.value) != existing.name ==>
              FirstFree(old(OwnerSlugs(products, owner, Some(existing.id))), ProductSlug(body.name.value), r.value.slug))
        && products == old(products)[i := StoredRow(existing.id, body, r.value.slug, owner)]
        && nextProductId == old(nextProductId)
        && tags == res.rows && nextTagId == res.next
        && links == Unlink(old(links), existing.id) + NewLinks(existing.id, TagIds(res.out))
        && LinksOf(links, existing.id) == TagIds(res.out)
        && (TagNames(body) == [] ==> LinksOf(links, existing.id) == [])
        && r.value == FormatProduct(products[i], res.out)
        && r.value.tags == JoinTags(links, tags, existing.id)
      ensures Authenticated(caller) ==> forall o :: o != caller.value ==>
        && OwnerProducts(products, o) == old(OwnerProducts(products, o))
        && OwnerTags(tags, o) == old(OwnerTags(tags, o))
    {
      if id.None? {
        return Err(400, InvalidId);
      }
      if !Authenticated(caller) {
        return Err(401, AuthRequired);
      }
      var owner := caller.value;
      var found := FindOwned(products, id.value, owner);
      if found.None? {
        return Err(404, NotFound);
      }
      if MissingRequired(body) {
        return Err(400, FieldsRequired);
      }
      var i := found.value;
      var existing := products[i];
      var productId := existing.id;
      var slug := existing.slug;
      if Trim(body.name.value) != existing.name {
        slug := FindFreeSlug(ProductSlug(body.name.value), owner, Some(productId));
      }
      var row := StoredRow(productId, body, slug, owner);
      ghost var before := products;
      ProductsOkUpdate(products, nextProductId, i, row);
      products := products[i := row];
      var productTags := SaveTags(productId, TagNames(body), owner, true);
      r := Ok(FormatProduct(row, productTags));
      forall o | o != owner ensures OwnerProducts(products, o) == OwnerProducts(before, o) {
        OwnerProductsUpdate(before, i, row, o);
      }
    }

    /** `deleteProduct`; the database's cascade removes the product's links. */
    method DeleteProduct(caller: Option<int>, id: Option<int>) returns (r: Outcome<int>)
      requires Valid()
      modifies this
      ensures Valid()
      ensures id.None? ==> r == Err(400, InvalidId) && unchanged(this)
      ensures id.Some? && !Authenticated(caller) ==> r == Err(401, AuthRequired) && unchanged(this)
      ensures id.Some? && Authenticated(caller) && old(FindOwned(products, id.value, caller.value)).None? ==>
        r == Err(404, NotFound) && unchanged(this)
      ensures id.Some? && Authenticated(caller) && old(FindOwned(products, id.value, caller.value)).Some? ==>
        && r == Ok(id.value)
        && products == RemoveProduct(old(products), id.value, caller.value)
        && links == Unlink(old(links), id.value)
        && tags == old(tags) && nextProductId == old(nextProductId) && nextTagId == old(nextTagId)
      ensures Authenticated(caller) ==> forall o :: o != caller.value ==>
        OwnerProducts(products, o) == old(OwnerProducts(products, o))
    {
      if id.None? {
        return Err(400, InvalidId);
      }
      if !Authenticated(caller) {
        return Err(401, AuthRequired);
      }
      var owner := caller.value;
      if FindOwned(products, id.value, owner).None? {
        return Err(404, NotFound);
      }
      var productId: nat := id.value;
      ghost var before := products;
      ProductsOkRemove(products, nextProductId, productId, owner);
      products := RemoveProduct(products, productId, owner);
      links := Unlink(links, productId);
      r := Ok(id.value);
      forall o | o != owner ensures OwnerProducts(products, o) == OwnerProducts(before, o) {
        OwnerProductsRemove(before, productId, owner, o);
      }
    }

    /** `getProductById` */
    method GetProductById(caller: Option<int>, id: Option<int>) returns (r: Outcome<ProductView>)
      ensures id.None? ==> r == Err(400, InvalidId)
      ensures id.Some? && !Authenticated(caller) ==> r == Err(401, AuthRequired)
      ensures id.Some? && Authenticated(caller) ==>
        (r.Err? <==> forall i :: 0 <= i < |products| ==> !(products[i].id == id.value && products[i].owner == caller.value))
      ensures id.Some? && Authenticated(caller) ==>
        (r == Err(404, NotFound) <==> forall i :: 0 <= i < |products| ==> !(products[i].id == id.value && products[i].owner == caller.value))
      ensures r.Ok? ==>
        && id.Some? && Authenticated(caller)
        && (exists i :: 0 <= i < |products| && products[i].id == id.value && products[i].owner == caller.value
              && r.value == FormatProduct(products[i], JoinTags(links, tags, id.value)))
    {
      if id.None? {
        return Err(400, InvalidId);
      }
      if !Authenticated(caller) {
        return Err(401, AuthRequired);
      }
      var found := FindOwned(products, id.value, caller.value);
      if found.None? {
        return Err(404, NotFound);
      }
      var row := products[found.value];
      r := Ok(FormatProduct(row, JoinTags(links, tags, row.id)));
    }

    /** `getProducts`: the caller's products, newest first, each with its tags. */
    method GetProducts(caller: Option<int>) returns (r: Outcome<seq<ProductView>>)
      requires Valid()
      ensures !Authenticated(caller) ==> r == Err(401, AuthRequired)
      ensures Authenticated(caller) ==>
        && r.Ok?
        && var listed := NewestFirst(OwnerProducts(products, caller.value));
        && |r.value| == |listed|
        && (forall k :: 0 <= k < |listed| ==> r.value[k] == FormatProduct(listed[k], JoinTags(links, tags, listed[k].id)))
      ensures Authenticated(caller) ==> forall j, k :: 0 <= j < k < |r.value| ==> r.value[j].id > r.value[k].id
      ensures Authenticated(caller) ==> forall i :: 0 <= i < |products| && products[i].owner == caller.value ==>
        FormatProduct(products[i], JoinTags(links, tags, products[i].id)) in r.value
    {
      if !Authenticated(caller) {
        return Err(401, AuthRequired);
      }
      var listed := NewestFirst(OwnerProducts(products, caller.value));
      var views := Listing(listed, links, tags);
      ListingCorrect(listed, links, tags);
      ListingComplete(products, links, tags, caller.value);
      NewestFirstDescending(products, nextProductId, caller.value);
      r := Ok(views);
    }

    /** `getUserTags`: the caller's tags, ordered by name. */
    method GetUserTags(caller: Option<int>) returns (r: Outcome<seq<Tag>>)
      ensures !Authenticated(caller) ==> r == Err(401, AuthRequired)
      ensures Authenticated(caller) ==>
        && r.Ok?
        && SortedByName(r.value)
        && multiset(r.value) == multiset(AsTags(OwnerTags(tags, caller.value)))
        && (forall k :: 0 <= k < |tags| && tags[k].owner == caller.value ==> AsTag(tags[k]) in r.value)
    {
      if !Authenticated(caller) {
        return Err(401, AuthRequired);
      }
      var owned := AsTags(OwnerTags(tags, caller.value));
      var sorted := SortByName(owned);
      OwnerTagsMembers(tags, caller.value);
      forall k | 0 <= k < |tags| && tags[k].owner == caller.value ensures AsTag(tags[k]) in sorted {
        var j :| 0 <= j < |OwnerTags(tags, caller.value)| && OwnerTags(tags, caller.value)[j] == tags[k];
        assert owned[j] == AsTag(tags[k]);
        assert AsTag(tags[k]) in multiset(owned);
      }
      r := Ok(sorted);
    }
  }
}
