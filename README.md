# Products and tags: a verified model of the products controller

This project models the product and tag workflow of the server's products
controller. A logged-in owner keeps a catalogue of products. Each product
carries a URL slug that is unique among that owner's products, and a list
of free-text tags. Tags are created on demand, once per owner and
normalized name.

The three database tables are modelled in memory:
- `products`, whose rows carry an owner id;
- `tags`, whose rows carry an owner id;
- the join table `product_tags`.

Fresh ids come from auto-increment counters. Each request handler is a
method of `Products.Database` that reads and updates these tables in the
order the controller's queries do. It returns either the record sent with
the success or the HTTP status and message of the error.

Modules:

- `Text` (text.dfy): whitespace trimming, ASCII lowercasing, and the
  decimal rendering of the slug counter.
- `Slugs` (slugs.dfy): the two slug rewrites and the candidates tried by
  the uniqueness loop.
  - The tag rule trims, lowercases, drops characters outside `a-z`, `0-9`,
    whitespace and `-`, turns whitespace runs into `-`, collapses runs of
    `-`, and strips leading and trailing `-`.
  - The product rule lowercases the untrimmed name and applies the same
    replacements. It ends with `.trim("-")`, which in JavaScript ignores
    its argument and trims whitespace only. So a product slug is never
    stripped of edge hyphens: `" Honey Jar"` gives `-honey-jar`.
  - `FirstFree` states what the loop returns: `base` when it is free,
    otherwise `base-k` for the least `k ≥ 1` for which `base-k` is free.
- `Tables` (tables.dfy): the rows, the queries as functions, and the
  invariants of the tables. Those invariants are ascending counter ids,
  one slug per owner and product, and one name per owner and tag.
- `Format` (format.dfy):
  - the boundary encoding: `status` is stored as 1/0 and shown as
    `"active"`/`"inactive"`, `featured` is stored as 1/0 and shown as a
    boolean, and a blank image is stored as null and shown as the
    placeholder URL;
  - the response record;
  - the `reduce` that groups joined tag rows by product.
- `TagResolution` (tagres.dfy): `createOrGetTags` as a specification
  function, folded over the names from first to last, with its
  properties.
- `Products` (products.dfy): the `Database` class and the handlers
  `createProduct`, `updateProduct`, `deleteProduct`, `getProductById`,
  `getProducts` and `getUserTags`, together with the two helpers
  `createOrGetTags` and `associateProductTags` and the slug uniqueness
  loop.

The two slug rules differ in the code: the product rule neither trims the
name first nor strips edge hyphens, because `.trim("-")` ignores its
argument. The model keeps that difference.

All source paths below are relative to the repository root.

## Model

| member | source | states |
|---|---|---|
| Text.TrimStartSuffix | src/server/controllers/products.controller.ts:93 | Trimming the start leaves a suffix of the name, no longer than it |
| Text.TrimEndPrefix | src/server/controllers/products.controller.ts:93 | Trimming the end leaves a prefix of the name, no longer than it |
| Text.TrimEmptyIffBlank | src/server/controllers/products.controller.ts:93-94 | A name is empty after trimming exactly when every character is whitespace, so exactly such tag names are skipped |
| Text.TrimIdempotent | src/server/controllers/products.controller.ts:309 | Trimming an already trimmed name changes nothing, so a stored name compares equal to its own re-submission |
| Text.LowerKeepsSpaces | src/server/controllers/products.controller.ts:180-183 | Lowercasing keeps the length and changes no character's whitespace class, so the rewrite sees the same whitespace runs |
| Text.ParseDigitsRoundTrip | src/server/controllers/products.controller.ts:198 | The decimal suffix written for the counter reads back as the counter |
| Text.DigitsInjective | src/server/controllers/products.controller.ts:198 | Distinct counters are written as distinct suffixes |
| Slugs.KeepSlugChars | src/server/controllers/products.controller.ts:98 | After the first replacement, only `a-z`, `0-9`, whitespace and `-` remain |
| Slugs.KeepSlugCharsAppend | src/server/controllers/products.controller.ts:98 | The replacement works character by character: the result for a concatenation is the concatenation of the results |
| Slugs.KeepSlugCharsSnoc | src/server/controllers/products.controller.ts:98 | Each character of the input is kept exactly when it is in the class, in input order |
| Slugs.CollapseHyphens | src/server/controllers/products.controller.ts:100 | After collapsing there is no `--`; the alphabet is kept; the result is empty only for empty input; it begins with `-` exactly when the input does |
| Slugs.CollapseKeepsNonHyphens | src/server/controllers/products.controller.ts:100 | Collapsing keeps every character other than `-`, in order |
| Slugs.StripLeadingHyphens | src/server/controllers/products.controller.ts:101 | Only `-` characters are removed from the front, and the result does not begin with `-` |
| Slugs.StripLeadingSuffix | src/server/controllers/products.controller.ts:101 | Removing the leading hyphens leaves a suffix of the input, no longer than it |
| Slugs.StripTrailingHyphens | src/server/controllers/products.controller.ts:101 | Only `-` characters are removed from the end, and the result does not end with `-` |
| Slugs.StripTrailingPrefix | src/server/controllers/products.controller.ts:101 | Removing the trailing hyphens leaves a prefix of the input, no longer than it |
| Slugs.TagSlugShape | src/server/controllers/products.controller.ts:97-101 | Every tag slug consists of `a-z`, `0-9` and `-` only, has no `--`, and neither begins nor ends with `-` |
| Slugs.ProductSlugShape | src/server/controllers/products.controller.ts:180-185 | The final `.trim("-")` removes nothing. Every product slug consists of `a-z`, `0-9` and `-` only and has no `--` |
| Slugs.ProductSlugOfLeadingSpace | src/server/controllers/products.controller.ts:180-185 | A name with a leading space, `" A B"`, gets the product slug `-a-b`, which begins with `-` |
| Slugs.ProductSlugOfTrailingSpace | src/server/controllers/products.controller.ts:180-185 | A name with a trailing space, `"A B "`, gets the product slug `a-b-`, which ends with `-` |
| Slugs.TagSlugOfLeadingSpace | src/server/controllers/products.controller.ts:93-101 | The tag rule trims first, so the same name gets the tag slug `a-b` |
| Slugs.HyphenateRun | src/server/controllers/products.controller.ts:182 | A maximal run of white space, of any length, becomes exactly one `-`, and the text on either side is rewritten on its own |
| Slugs.CollapseRun | src/server/controllers/products.controller.ts:183 | A maximal run of hyphens, of any length, becomes exactly one `-`, and the text on either side is rewritten on its own |
| Slugs.CollapseHyphensSplit | src/server/controllers/products.controller.ts:183 | Cutting the input after a character other than `-` cuts the hyphen collapse there too |
| Slugs.RewriteWordsAroundRun | src/server/controllers/products.controller.ts:181-183 | Two lower-case alphanumeric words around any run of white space come out of the three rewrites as `a-b` |
| Slugs.ProductSlugOfTwoWords | src/server/controllers/products.controller.ts:180-185 | Two alphanumeric words separated by any run of white space give the product slug `lower(a)-lower(b)` |
| Slugs.TagSlugOfTwoWords | src/server/controllers/products.controller.ts:93-101 | Two alphanumeric words separated by any run of white space give the tag slug `lower(a)-lower(b)` |
| Slugs.ProductSlugOfHoneyJar | src/server/controllers/products.controller.ts:180-185 | `"Honey Jar"` gets the product slug `honey-jar` |
| Slugs.SlugIsFixedPoint | src/server/controllers/products.controller.ts:93-101 | A well-formed slug is its own clean tag name, its own tag slug and its own product slug |
| Slugs.CandidateInjective | src/server/controllers/products.controller.ts:188-199 | The loop never tries the same slug twice |
| Slugs.CandidatesBound | src/server/controllers/products.controller.ts:188-199 | The number of candidates already found taken is at most the number of taken slugs, so the loop ends |
| Slugs.CandidateChars | src/server/controllers/products.controller.ts:198 | Appending `-k` keeps the slug within `a-z`, `0-9` and `-` |
| Slugs.FirstFreeUnique | src/server/controllers/products.controller.ts:188-200 | The slug the loop settles on is determined by the owner's taken slugs and the base |
| Slugs.FirstFreeOfFreeBase | src/server/controllers/products.controller.ts:188-196 | A free base is kept as it is; a taken base never is |
| Slugs.FirstFreeScenario | src/server/controllers/products.controller.ts:188-200 | With nothing taken the result is `foo`; with `foo` taken it is `foo-1`; with `foo` and `foo-1` taken it is `foo-2` |
| Slugs.SuffixAfterTrailingHyphen | src/server/controllers/products.controller.ts:185-198 | A product slug that ends with `-`, once suffixed, contains `--`: `a-b-` becomes `a-b--1` |
| Tables.FindTag | src/server/controllers/products.controller.ts:104-107 | The lookup finds a row of that owner with that name, or reports none exactly when no such row exists |
| Tables.FindTagAppend | src/server/controllers/products.controller.ts:104-116 | Inserting rows does not change what an earlier successful lookup finds |
| Tables.TagsWithIdUnique | src/server/controllers/products.controller.ts:489-496 | With counter ids, the join on a tag id finds exactly that one tag |
| Tables.OwnerTags | src/server/controllers/products.controller.ts:531-536 | The owner filter keeps only rows of that owner |
| Tables.OwnerTagsMembers | src/server/controllers/products.controller.ts:531-536 | A row is in the owner filter's result exactly when it is in the table and belongs to the owner |
| Tables.SlugTakenIff | src/server/controllers/products.controller.ts:190-194 | The duplicate-slug query finds a row exactly when the slug is among the slugs of the owner's other products |
| Tables.OwnerSlugsOfOwner | src/server/controllers/products.controller.ts:320-325 | Other owners' products play no part in the uniqueness check |
| Tables.ProductIndex | src/server/controllers/products.controller.ts:292-296 | The ownership check finds a row with that id and owner, or reports none exactly when no such row exists |
| Tables.RemoveProduct | src/server/controllers/products.controller.ts:431-434 | The delete removes exactly the rows with that id and owner and keeps every other row |
| Tables.OwnerProductsAppend | src/server/controllers/products.controller.ts:216 | An insert adds to the inserting owner's products only |
| Tables.OwnerProductsUpdate | src/server/controllers/products.controller.ts:348-351 | Rewriting an owner's row leaves every other owner's products as they were |
| Tables.OwnerProductsRemove | src/server/controllers/products.controller.ts:431-434 | Deleting an owner's row leaves every other owner's products as they were |
| Tables.ProductsOkInsert | src/server/controllers/products.controller.ts:188-216 | Inserting a row with the next id and a slug the owner does not use keeps ids ascending and slugs unique per owner |
| Tables.ProductsOkUpdate | src/server/controllers/products.controller.ts:308-351 | Rewriting a row with a kept slug, or with a slug the owner's other products do not use, keeps the table well formed |
| Tables.ProductsOkRemove | src/server/controllers/products.controller.ts:431-434 | Deleting rows keeps the table well formed |
| Tables.UnlinkMembers | src/server/controllers/products.controller.ts:139 | A link survives the delete exactly when it is in the table and belongs to another product |
| Tables.LinksOfUnlink | src/server/controllers/products.controller.ts:139 | After the delete the product has no links, and every other product's links are unchanged |
| Tables.LinksOfNewLinks | src/server/controllers/products.controller.ts:141-148 | The inserted links give the product exactly the given tag ids, in order, and give no other product any |
| Tables.NewLinksMembers | src/server/controllers/products.controller.ts:141-148 | A link is inserted exactly when it is for the product and one of the given tag ids |
| Tables.ReplaceLinks | src/server/controllers/products.controller.ts:137-150 | After delete-then-insert the product's links are exactly the given ids, in order, and every other product's links are unchanged |
| Tables.LinksOfFresh | src/server/controllers/products.controller.ts:216 | A newly inserted product has no links |
| Tables.JoinTagsOfLinks | src/server/controllers/products.controller.ts:489-496 | For any link table, a product's joined tags are the tags of its link ids, in link order |
| Tables.JoinTagsFresh | src/server/controllers/products.controller.ts:216-224 | A newly inserted product joins to no tags |
| Tables.JoinTagsReplaced | src/server/controllers/products.controller.ts:137-150 | After the association, the product joins to the tags with the given ids, in order |
| Tables.TagIdsMembers | src/server/controllers/products.controller.ts:222 | Every resolved tag's id is passed to the association, and nothing else is |
| Tables.JoinTagsByIdOfRows | src/server/controllers/products.controller.ts:489-496 | Joining the ids of tags taken from the table gives back those tags |
| Tables.NewestFirst | src/server/controllers/products.controller.ts:39 | The listing holds the rows in reverse table order, that is, newest first |
| Tables.OwnerProductsMembers | src/server/controllers/products.controller.ts:38 | A product is in the listing's owner filter exactly when it is in the table and belongs to the owner |
| Tables.NewestFirstComplete | src/server/controllers/products.controller.ts:38-39 | Listing the owner's products newest first keeps every one of them |
| Tables.OwnerProductsAscending | src/server/controllers/products.controller.ts:38 | One owner's products keep the table's ascending id order |
| Tables.NewestFirstDescending | src/server/controllers/products.controller.ts:38-39 | The owner's products listed newest first are in strictly descending id order |
| Tables.NameLeqTotal | src/server/controllers/products.controller.ts:537 | Any two names are ordered one way or the other |
| Tables.InsertByName | src/server/controllers/products.controller.ts:537 | Inserting into a list sorted by name keeps it sorted and adds exactly that tag |
| Tables.SortByName | src/server/controllers/products.controller.ts:537 | The result is sorted by name and is a permutation of the input |
| Format.StatusRoundTrip | src/server/controllers/products.controller.ts:208 | The stored status is 1 exactly when the body says `"active"` and 0 otherwise, and it is shown as `"active"` exactly then |
| Format.StatusLabelIff | src/server/controllers/products.controller.ts:69 | A stored status is shown as `"active"` exactly when it is 1, and as `"inactive"` otherwise |
| Format.FeaturedRoundTrip | src/server/controllers/products.controller.ts:209 | `featured` is stored as 1 exactly when it is truthy and 0 otherwise, and it is shown as `true` exactly then |
| Format.ImageRoundTrip | src/server/controllers/products.controller.ts:207 | A missing or whitespace-only image is stored as null and shown as the placeholder; any other is stored and shown trimmed |
| Format.BusinessIdStored | src/server/controllers/products.controller.ts:211 | A falsy business id (0, `""`, `false`, null, missing) is stored as null; any other is stored as given |
| Format.TagsForAppend | src/server/controllers/products.controller.ts:54-64 | The tags carried for a product by consecutive runs of joined rows concatenate |
| Format.GroupByProductCorrect | src/server/controllers/products.controller.ts:54-72 | Grouping gives each product exactly the tags of the joined rows carrying its id, in query order, or `[]`; a product has an entry exactly when some row carries its id |
| Format.JoinAllFor | src/server/controllers/products.controller.ts:42-51 | The batch join, restricted to one listed product, is that product's own join; an unlisted id gets nothing |
| Format.ListedTags | src/server/controllers/products.controller.ts:42-72 | In the listing, every product receives the same tags a single-product read would give it |
| Format.ListingCorrect | src/server/controllers/products.controller.ts:42-73 | The listing has one record per listed row, in order, each formatted with exactly that product's own joined tags |
| Format.ListingComplete | src/server/controllers/products.controller.ts:38-73 | Every product of the owner appears in the listing, formatted with its own tags |
| TagResolution.CleanNames | src/server/controllers/products.controller.ts:93-94 | The normalized names that survive the blank check are all non-empty |
| TagResolution.ResolveOrder | src/server/controllers/products.controller.ts:92-128 | The loop yields exactly one tag per name that is not blank after normalization, in input order, named by its normalized form |
| TagResolution.SameNameSameTag | src/server/controllers/products.controller.ts:104-128 | Two inputs with the same normalized name yield the same tag, hence the same id |
| TagResolution.ResolveRepeatedName | src/server/controllers/products.controller.ts:104-128 | A name given twice is listed twice as one tag, and at most one row is inserted |
| TagResolution.InsertKeepsTagsOk | src/server/controllers/products.controller.ts:109-115 | Inserting a tag with the next id and a name the owner does not have keeps ids ascending and names unique per owner |
| TagResolution.ResolveRows | src/server/controllers/products.controller.ts:104-116 | Existing tag rows are kept unchanged; every new row belongs to the owner and has a name the owner did not have; the table stays well formed |
| TagResolution.ResolveFound | src/server/controllers/products.controller.ts:104-128 | Every tag returned is the row the owner's lookup of its name finds afterwards |
| TagResolution.ResolveOneFindsExisting | src/server/controllers/products.controller.ts:104-109 | A name the owner already has inserts no row |
| TagResolution.ResolveAllFound | src/server/controllers/products.controller.ts:104-109 | When the owner already has every name, nothing is inserted and the counter does not move |
| TagResolution.ResolveIdempotent | src/server/controllers/products.controller.ts:89-132 | Resolving the same names a second time inserts nothing and returns the same tags |
| TagResolution.ResolveOtherOwners | src/server/controllers/products.controller.ts:104-116 | Other owners' tags are unchanged |
| TagResolution.ResolvedTagsJoin | src/server/controllers/products.controller.ts:124-128 | The returned tags are rows of the table, so joining their ids gives them back |
| TagResolution.ResolveSlugs | src/server/controllers/products.controller.ts:97-116 | Every inserted tag carries the slug derived from its name |
| TagResolution.ResolvedSlugs | src/server/controllers/products.controller.ts:97-128 | Every returned tag carries the slug derived from its name |
| TagResolution.OrganicCleanName | src/server/controllers/products.controller.ts:93-101 | `"Organic"` normalizes to `organic`, which is its own slug and its own normalized form |
| Products.StoredRow | src/server/controllers/products.controller.ts:203-213 | The stored row has the given id, owner and slug, the trimmed name and description and the category as given; status and featured are 1 exactly for `"active"` and a truthy value; the image is null when missing or blank and trimmed otherwise; the business id is null when falsy and as given otherwise |
| Products.FindOwned | src/server/controllers/products.controller.ts:292-296 | The ownership check finds a row with that id and owner, or reports none exactly when there is none; a negative id matches nothing |
| Products.Database.FindFreeSlug | src/server/controllers/products.controller.ts:188-200 | The slug returned is the first free candidate among the owner's other slugs; in particular no such product has it |
| Products.Database.FindOrInsertTag | src/server/controllers/products.controller.ts:104-124 | The owner's tag of that clean name is returned with the table unchanged when it exists; otherwise a row with the next id, the name and its slug is appended, the counter advances and the new tag is returned |
| Products.Database.CreateOrGetTags | src/server/controllers/products.controller.ts:89-132 | The loop leaves the tag table, its counter and the result exactly as the resolution function over all names gives them, and keeps the database valid |
| Products.Database.AssociateProductTags | src/server/controllers/products.controller.ts:137-150 | The product's links become exactly the given ids, in order, and every other product's links are unchanged |
| Products.Database.SaveTags | src/server/controllers/products.controller.ts:219-224 | Tags are resolved and associated when names are given, and also on update when none are. The response tags are then exactly the product's joined tags. Other owners' tags and other products' links are unchanged |
| Products.Database.CreateProduct | src/server/controllers/products.controller.ts:155-262 | 400 on a missing field comes before 401, and both change nothing. On success: the first free slug; exactly one row appended with the next id; the tag state of the resolution; the response formatted from that row and those tags, equal to a later read; other owners untouched |
| Products.Database.UpdateProduct | src/server/controllers/products.controller.ts:267-400 | The order is 400 bad id, 401, 404, then 400 missing field, and every error changes nothing. On success: the slug is kept when the trimmed name is unchanged, otherwise the first free one ignoring the row itself; only that row is rewritten; its links are replaced, cleared when no tags are given; other owners untouched |
| Products.Database.DeleteProduct | src/server/controllers/products.controller.ts:405-445 | 400, 401 and 404 change nothing. On success exactly the owner's row with that id and its links are removed, the id is returned, and other owners' products are untouched |
| Products.Database.GetProductById | src/server/controllers/products.controller.ts:450-516 | 400 before 401, then 404 exactly when no row has both the id and the caller as owner; otherwise the row formatted with its joined tags |
| Products.Database.GetProducts | src/server/controllers/products.controller.ts:16-84 | 401 without a caller; otherwise all and only the caller's products, newest first in descending id order, each formatted with exactly its own joined tags |
| Products.Database.GetUserTags | src/server/controllers/products.controller.ts:521-548 | 401 without a caller; otherwise the caller's tags sorted by name, a permutation of the owner filter that contains every tag of the caller |

## Left out

- Database driver: the knex query builder and its SQL engine are not part of this model.
  - Each query becomes a function over in-memory tables.
  - An insert appends a row whose id comes from a counter.
  - The `product_tags` × `tags` join is taken in link-table order. SQL leaves that order unspecified.
- Timestamps: `p_created_at`, `p_modified_at` and `t_created_at` are not modelled, and response records do not carry them. "Newest first" is modelled as reverse insertion order. That agrees with the timestamp order except for ties within one clock tick, which are also left out.
- Cascade on delete: the database's cascading delete of `product_tags` rows is written out as an explicit removal of the product's links.
- Express: `req`, `res`, `sendSuccess` and `sendError` are replaced by an `Outcome` value. It holds the record sent, or the status and message.
- Server errors: the `catch` blocks returning 500 are not modelled, and neither is `console.error` logging. This includes a `TypeError` from a body field of an unexpected type, for example a non-string `name` or tag name.
- Category values: `ProductInput.category` holds a string or nothing. The source stores any truthy `category` as it is (`src/server/controllers/products.controller.ts` lines 169, 206, 303 and 338). A number or other non-string category goes into the table without raising an error, and the model does not represent it.
- The `:id` parameter: JavaScript's `Number` and `isNaN` coercion is not modelled. The parameter is taken as already parsed, with `None` for a missing or non-numeric id.
  - A negative id matches no row.
  - A fractional id, which also matches no row, is not represented.
- Numbers in the body: JavaScript number semantics beyond integers (NaN, fractions) are not modelled. `featured` and `businessId` truthiness is modelled for integers, strings, booleans, null and undefined; arrays and objects are not represented.
- Business id column: a truthy `businessId` is stored as given. The column's coercion of a non-numeric value (a string or `true`) is not modelled.
- Unicode: characters are ASCII as far as lowercasing and whitespace go. Unicode case mapping and Unicode whitespace in `toLowerCase`, `trim` and `\s` are not modelled.
- Concurrency: interleaved requests and the check-then-insert races they allow are not modelled. Each handler runs atomically.
- Products.Database.GetUserTags: orders names by code unit, not by the database's collation. It states sortedness and permutation rather than one fixed sequence. The two agree because names are unique per owner, a property the model keeps.
- The server bootstrap, routing, middleware and the states lookup controller are not part of this model.
