/**
 * `createOrGetTags`: each tag name is trimmed and lower-cased, skipped when
 * that leaves nothing, looked up among the owner's tags and inserted when
 * missing; the resolved `{id, name, slug}` records are collected in input
 * order.  `Resolve` is the effect of the whole loop on the tags table and
 * the id counter, and the list it returns.
 */
module TagResolution {
  import opened Text
  import opened Slugs
  import opened Tables

  /** The tags table, the next id it hands out, and the tags resolved so far. */
  datatype Resolution = Resolution(rows: seq<TagRow>, next: nat, out: seq<Tag>)

  /** One pass of the loop body for `name`. */
  function ResolveOne(st: Resolution, name: string, owner: int): Resolution {
    var clean := CleanTagName(name);
    if clean == [] then st
    else match FindTag(st.rows, clean, owner)
      case Some(row) => Resolution(st.rows, st.next, st.out + [AsTag(row)])
      case None =>
        var row := TagRow(st.next, clean, TagSlug(clean), owner);
        Resolution(st.rows + [row], st.next + 1, st.out + [AsTag(row)])
  }

  /** The loop over all of `names`, starting from the table `rows` whose counter stands at `next`. */
  function Resolve(rows: seq<TagRow>, next: nat, names: seq<string>, owner: int): Resolution {
    if names == [] then Resolution(rows, next, [])
    else ResolveOne(Resolve(rows, next, names[..|names| - 1], owner), names[|names| - 1], owner)
  }

  /** The fold over the first `i + 1` names is one more pass over the fold of the first `i`. */
  lemma ResolvePrefixStep(rows: seq<TagRow>, next: nat, names: seq<string>, i: nat, owner: int)
    requires i < |names|
    ensures Resolve(rows, next, names[..i + 1], owner) == ResolveOne(Resolve(rows, next, names[..i], owner), names[i], owner)
  {
    assert names[..i + 1][..i] == names[..i];
  }

  /** The clean forms of the names that are not blank, in input order. */
  function CleanNames(names: seq<string>): (r: seq<string>)
    ensures forall k :: 0 <= k < |r| ==> r[k] != []
  {
    if names == [] then []
    else
      var c := CleanTagName(names[0]);
      (if c == [] then [] else [c]) + CleanNames(names[1..])
  }

  lemma {:induction false} CleanNamesSnoc(names: seq<string>, name: string)
    ensures CleanNames(names + [name])
         == CleanNames(names) + (if CleanTagName(name) == [] then [] else [CleanTagName(name)])
  {
    if names == [] {
      assert names + [name] == [name];
      assert [name][1..] == [];
    } else {
      assert (names + [name])[0] == names[0] && (names + [name])[1..] == names[1..] + [name];
      CleanNamesSnoc(names[1..], name);
    }
  }

  lemma {:induction false} CleanNamesOfPrefix(names: seq<string>)
    requires names != []
    ensures var c := CleanTagName(names[|names| - 1]);
      CleanNames(names) == CleanNames(names[..|names| - 1]) + (if c == [] then [] else [c])
  {
    assert names == names[..|names| - 1] + [names[|names| - 1]];
    CleanNamesSnoc(names[..|names| - 1], names[|names| - 1]);
  }

  /** What `ResolveRows` states of a table that started as `rows` with counter `next`. */
  predicate GrewFrom(st: Resolution, rows: seq<TagRow>, next: nat, owner: int) {
    && TagsOk(st.rows, st.next)
    && next <= st.next
    && |rows| <= |st.rows| && st.rows[..|rows|] == rows
    && forall k :: |rows| <= k < |st.rows| ==> st.rows[k].owner == owner && FindTag(rows, st.rows[k].name, owner).None?
  }

  /** Inserting a row of `owner` with the next id and a name the owner does not have. */
  lemma {:induction false} GrewByInsert(st: Resolution, row: TagRow, out: seq<Tag>, rows: seq<TagRow>, next: nat, owner: int)
    requires GrewFrom(st, rows, next, owner)
    requires row.id == st.next && row.owner == owner && FindTag(st.rows, row.name, owner).None?
    ensures GrewFrom(Resolution(st.rows + [row], st.next + 1, out), rows, next, owner)
  {
    InsertKeepsTagsOk(st.rows, st.next, row);
    var extra := st.rows[|rows|..];
    assert st.rows == rows + extra;
    FindTagAppend(rows, extra, row.name, owner);
    var r := st.rows + [row];
    assert r[..|rows|] == rows;
    forall k | |rows| <= k < |r| ensures r[k].owner == owner && FindTag(rows, r[k].name, owner).None? {
      if k < |st.rows| {
        assert r[k] == st.rows[k];
      }
    }
  }

  lemma {:induction false} ResolveOneRows(st: Resolution, name: string, owner: int, rows: seq<TagRow>, next: nat)
    requires GrewFrom(st, rows, next, owner)
    ensures GrewFrom(ResolveOne(st, name, owner), rows, next, owner)
  {
    var clean := CleanTagName(name);
    if clean != [] && FindTag(st.rows, clean, owner).None? {
      var row := TagRow(st.next, clean, TagSlug(clean), owner);
      GrewByInsert(st, row, st.out + [AsTag(row)], rows, next, owner);
    }
  }

  /**
   * The loop keeps the table well formed, never changes a row it finds,
   * and inserts a row only for the owner and only for a name the owner did
   * not have.
   */
  lemma {:induction false} ResolveRows(rows: seq<TagRow>, next: nat, names: seq<string>, owner: int)
    requires TagsOk(rows, next)
    ensures GrewFrom(Resolve(rows, next, names, owner), rows, next, owner)
  {
    if names == [] {
      assert rows[..|rows|] == rows;
    } else {
      var init := names[..|names| - 1];
      ResolveRows(rows, next, init, owner);
      ResolveOneRows(Resolve(rows, next, init, owner), names[|names| - 1], owner, rows, next);
    }
  }

  /** Inserting a row with the next id, a name its owner does not have and the derived slug. */
  lemma {:induction false} InsertKeepsTagsOk(rows: seq<TagRow>, next: nat, row: TagRow)
    requires TagsOk(rows, next)
    requires row.id == next && FindTag(rows, row.name, row.owner).None?
    ensures TagsOk(rows + [row], next + 1)
  {
    var r := rows + [row];
    assert forall k :: 0 <= k < |rows| ==> r[k] == rows[k];
  }

  /** The loop yields one tag per name that is not blank, in input order, named by its clean form. */
  lemma {:induction false} ResolveOrder(rows: seq<TagRow>, next: nat, names: seq<string>, owner: int)
    ensures var r := Resolve(rows, next, names, owner);
      && |r.out| == |CleanNames(names)|
      && forall k :: 0 <= k < |r.out| ==> r.out[k].name == CleanNames(names)[k]
  {
    ResolveNamedBy(rows, next, names, owner);
  }

  /** The tags `out` are named, one for one, by `cleanNames`. */
  predicate NamedBy(out: seq<Tag>, cleanNames: seq<string>) {
    |out| == |cleanNames| && forall k :: 0 <= k < |out| ==> out[k].name == cleanNames[k]
  }

  lemma {:induction false} ResolveNamedBy(rows: seq<TagRow>, next: nat, names: seq<string>, owner: int)
    ensures NamedBy(Resolve(rows, next, names, owner).out, CleanNames(names))
  {
    if names != [] {
      var init, last := names[..|names| - 1], names[|names| - 1];
      ResolveNamedBy(rows, next, init, owner);
      CleanNamesOfPrefix(names);
      var st := Resolve(rows, next, init, owner);
      ResolveOneOut(st, last, owner);
      NamedBySnoc(st.out, ResolveOne(st, last, owner).out, CleanNames(init), CleanTagName(last));
    }
  }

  lemma NamedBySnoc(a: seq<Tag>, b: seq<Tag>, cs: seq<string>, c: string)
    requires NamedBy(a, cs)
    requires c == [] ==> b == a
    requires c != [] ==> |b| == |a| + 1 && b[..|a|] == a && b[|a|].name == c
    ensures NamedBy(b, cs + (if c == [] then [] else [c]))
  {
    if c != [] {
      forall k | 0 <= k < |a| ensures b[k].name == cs[k] {
        assert b[k] == b[..|a|][k];
      }
    } else {
      assert cs + [] == cs;
    }
  }

  /** One pass appends one tag, named by the clean form, exactly when the name is not blank. */
  lemma ResolveOneOut(st: Resolution, name: string, owner: int)
    ensures var c := CleanTagName(name); var r := ResolveOne(st, name, owner);
      && (c == [] ==> r.out == st.out)
      && (c != [] ==> |r.out| == |st.out| + 1 && r.out[..|st.out|] == st.out && r.out[|st.out|].name == c)
  {
  }

  /** Every tag listed in `st` is the one the owner's lookup of its name finds. */
  predicate AllFound(st: Resolution, owner: int) {
    forall k :: 0 <= k < |st.out| ==>
      FindTag(st.rows, st.out[k].name, owner).Some? && AsTag(FindTag(st.rows, st.out[k].name, owner).value) == st.out[k]
  }

  lemma {:induction false} ResolveOneFound(st: Resolution, name: string, owner: int)
    requires AllFound(st, owner)
    ensures AllFound(ResolveOne(st, name, owner), owner)
  {
    var clean := CleanTagName(name);
    if clean != [] {
      var r := ResolveOne(st, name, owner);
      var extra := r.rows[|st.rows|..];
      assert r.rows == st.rows + extra;
      forall k | 0 <= k < |r.out|
        ensures FindTag(r.rows, r.out[k].name, owner).Some? && AsTag(FindTag(r.rows, r.out[k].name, owner).value) == r.out[k]
      {
        FindTagAppend(st.rows, extra, r.out[k].name, owner);
        if k < |st.out| {
          assert r.out[k] == st.out[k];
        } else if FindTag(st.rows, clean, owner).None? {
          var row := TagRow(st.next, clean, TagSlug(clean), owner);
          assert extra == [row];
          assert FindTag(extra, clean, owner) == Some(row);
        }
      }
    }
  }

  /** Every tag the loop yields is the one the owner's lookup of its name now finds. */
  lemma {:induction false} ResolveFound(rows: seq<TagRow>, next: nat, names: seq<string>, owner: int)
    ensures AllFound(Resolve(rows, next, names, owner), owner)
  {
    if names != [] {
      var init := names[..|names| - 1];
      ResolveFound(rows, next, init, owner);
      ResolveOneFound(Resolve(rows, next, init, owner), names[|names| - 1], owner);
    }
  }

  /** A repeated clean name yields the same tag, hence the same id, as its first occurrence. */
  lemma {:induction false} SameNameSameTag(rows: seq<TagRow>, next: nat, names: seq<string>, owner: int, j: nat, k: nat)
    requires var r := Resolve(rows, next, names, owner); j < |r.out| && k < |r.out|
    ensures var r := Resolve(rows, next, names, owner);
      j < |CleanNames(names)| && k < |CleanNames(names)|
      && (CleanNames(names)[j] == CleanNames(names)[k] ==> r.out[j] == r.out[k])
  {
    ResolveOrder(rows, next, names, owner);
    ResolveFound(rows, next, names, owner);
  }

  /** A name the owner already has (or a blank one) inserts nothing. */
  lemma {:induction false} ResolveOneFindsExisting(st: Resolution, name: string, owner: int)
    requires CleanTagName(name) != [] ==> FindTag(st.rows, CleanTagName(name), owner).Some?
    ensures ResolveOne(st, name, owner).rows == st.rows && ResolveOne(st, name, owner).next == st.next
  {
  }

  /** The owner already has a tag for each of the names `cs`. */
  predicate AllKnown(rows: seq<TagRow>, cs: seq<string>, owner: int) {
    forall k :: 0 <= k < |cs| ==> FindTag(rows, cs[k], owner).Some?
  }

  lemma {:induction false} AllKnownSplit(rows: seq<TagRow>, a: seq<string>, b: seq<string>, owner: int)
    requires AllKnown(rows, a + b, owner)
    ensures AllKnown(rows, a, owner) && AllKnown(rows, b, owner)
  {
    assert forall k :: 0 <= k < |a| ==> (a + b)[k] == a[k];
    assert forall k :: 0 <= k < |b| ==> (a + b)[|a| + k] == b[k];
  }

  /** When the owner already has every clean name, the loop inserts nothing. */
  lemma {:induction false} ResolveAllFound(rows: seq<TagRow>, next: nat, names: seq<string>, owner: int)
    requires AllKnown(rows, CleanNames(names), owner)
    ensures Resolve(rows, next, names, owner).rows == rows
    ensures Resolve(rows, next, names, owner).next == next
  {
    if names != [] {
      var init, last := names[..|names| - 1], names[|names| - 1];
      var c := CleanTagName(last);
      var tail := if c == [] then [] else [c];
      CleanNamesOfPrefix(names);
      AllKnownSplit(rows, CleanNames(init), tail, owner);
      ResolveAllFound(rows, next, init, owner);
      assert c != [] ==> FindTag(rows, c, owner).Some? by {
        if c != [] {
          assert tail[0] == c;
        }
      }
      ResolveOneFindsExisting(Resolve(rows, next, init, owner), last, owner);
    }
  }

  /** Lookup-or-create is idempotent: resolving the same names again inserts nothing and yields the same tags. */
  lemma {:induction false} ResolveIdempotent(rows: seq<TagRow>, next: nat, names: seq<string>, owner: int)
    ensures var r := Resolve(rows, next, names, owner);
      Resolve(r.rows, r.next, names, owner) == r
  {
    var r := Resolve(rows, next, names, owner);
    ResolveOrder(rows, next, names, owner);
    ResolveFound(rows, next, names, owner);
    ResolveAllFound(r.rows, r.next, names, owner);
    var r2 := Resolve(r.rows, r.next, names, owner);
    ResolveOrder(r.rows, r.next, names, owner);
    ResolveFound(r.rows, r.next, names, owner);
    assert r2.out == r.out;
  }

  /** The loop changes no other owner's tags. */
  lemma {:induction false} ResolveOtherOwners(rows: seq<TagRow>, next: nat, names: seq<string>, owner: int, other: int)
    requires TagsOk(rows, next) && other != owner
    ensures OwnerTags(Resolve(rows, next, names, owner).rows, other) == OwnerTags(rows, other)
  {
    var r := Resolve(rows, next, names, owner);
    ResolveRows(rows, next, names, owner);
    var extra := r.rows[|rows|..];
    assert r.rows == rows + extra;
    OwnerTagsAppend(rows, extra, other);
    OwnerTagsNone(extra, other);
  }

  lemma {:induction false} OwnerTagsNone(rows: seq<TagRow>, other: int)
    requires forall k :: 0 <= k < |rows| ==> rows[k].owner != other
    ensures OwnerTags(rows, other) == []
  {
    if rows != [] {
      OwnerTagsNone(rows[1..], other);
    }
  }

  /** Two names with the same clean form resolve to one tag listed twice, inserting at most one row. */
  lemma {:induction false} ResolveRepeatedName(rows: seq<TagRow>, next: nat, a: string, b: string, owner: int)
    requires CleanTagName(a) != [] && CleanTagName(a) == CleanTagName(b)
    ensures var r := Resolve(rows, next, [a, b], owner);
      |r.out| == 2 && r.out[0] == r.out[1] && r.out[0].name == CleanTagName(a) && |r.rows| <= |rows| + 1
  {
    var names := [a, b];
    assert names[..1] == [a] && names[1] == b;
    assert [a][..0] == [] && [a][0] == a;
    assert Resolve(rows, next, [], owner) == Resolution(rows, next, []);
    var st := Resolve(rows, next, [a], owner);
    assert st == ResolveOne(Resolution(rows, next, []), a, owner);
    var c := CleanTagName(a);
    assert |st.out| == 1 && st.out[0].name == c && |st.rows| <= |rows| + 1;
    var found := FindTag(st.rows, c, owner);
    assert found.Some? && AsTag(found.value) == st.out[0] by {
      if FindTag(rows, c, owner).None? {
        var row := TagRow(next, c, TagSlug(c), owner);
        FindTagAppend(rows, [row], c, owner);
        assert FindTag([row], c, owner) == Some(row);
      }
    }
    var r := Resolve(rows, next, names, owner);
    assert r == ResolveOne(st, b, owner);
  }

  /** The names `Organic` and `organic` have the same clean form, `organic`, which is also its slug. */
  lemma OrganicCleanName()
    ensures CleanTagName("Organic") == "organic" && CleanTagName("organic") == "organic" && TagSlug("organic") == "organic"
  {
    var a, b := "Organic", "organic";
    TrimFixed(a);
    LowerOrganic();
    assert AllSlugChars(b) && NoDoubleHyphen(b) && NoEdgeHyphen(b);
    SlugIsFixedPoint(b);
  }

  lemma LowerOrganic()
    ensures Lower("Organic") == "organic"
  {
    var a, b := "Organic", "organic";
    LowerAt(a);
    assert forall i :: 0 <= i < |a| ==> Lower(a)[i] == b[i];
  }

  /**
   * The tags the loop returns are rows of the resulting table, so joining
   * their ids, as the association and a later read do, gives them back.
   */
  lemma {:induction false} ResolvedTagsJoin(rows: seq<TagRow>, next: nat, names: seq<string>, owner: int)
    requires TagsOk(rows, next)
    ensures var r := Resolve(rows, next, names, owner); JoinTagsById(TagIds(r.out), r.rows) == r.out
  {
    var r := Resolve(rows, next, names, owner);
    ResolveRows(rows, next, names, owner);
    ResolveFound(rows, next, names, owner);
    forall t | t in r.out ensures exists m :: 0 <= m < |r.rows| && AsTag(r.rows[m]) == t {
      var k :| 0 <= k < |r.out| && r.out[k] == t;
      var row := FindTag(r.rows, r.out[k].name, owner).value;
      var m :| 0 <= m < |r.rows| && r.rows[m] == row;
    }
    JoinTagsByIdOfRows(r.out, r.rows, r.next);
  }

  /** Every tag the loop inserts carries the slug derived from its name. */
  lemma {:induction false} ResolveSlugs(rows: seq<TagRow>, next: nat, names: seq<string>, owner: int)
    requires TagSlugsDerived(rows)
    ensures TagSlugsDerived(Resolve(rows, next, names, owner).rows)
  {
    if names != [] {
      ResolveSlugs(rows, next, names[..|names| - 1], owner);
      ResolveOneSlugs(Resolve(rows, next, names[..|names| - 1], owner), names[|names| - 1], owner);
    }
  }

  lemma ResolveOneSlugs(st: Resolution, name: string, owner: int)
    requires TagSlugsDerived(st.rows)
    ensures TagSlugsDerived(ResolveOne(st, name, owner).rows)
  {
    var clean := CleanTagName(name);
    if clean != [] && FindTag(st.rows, clean, owner).None? {
      SlugsDerivedSnoc(st.rows, TagRow(st.next, clean, TagSlug(clean), owner));
    }
  }

  lemma SlugsDerivedSnoc(rows: seq<TagRow>, row: TagRow)
    requires TagSlugsDerived(rows) && row.slug == TagSlug(row.name)
    ensures TagSlugsDerived(rows + [row])
  {
    var r := rows + [row];
    forall i | 0 <= i < |r| ensures r[i].slug == TagSlug(r[i].name) {
      if i < |rows| {
        assert r[i] == rows[i];
      }
    }
  }

  /** So every tag the loop returns carries the slug derived from its name. */
  lemma {:induction false} ResolvedSlugs(rows: seq<TagRow>, next: nat, names: seq<string>, owner: int)
    requires TagSlugsDerived(rows)
    ensures var r := Resolve(rows, next, names, owner);
      forall k :: 0 <= k < |r.out| ==> r.out[k].slug == TagSlug(r.out[k].name)
  {
    var r := Resolve(rows, next, names, owner);
    ResolveSlugs(rows, next, names, owner);
    ResolveFound(rows, next, names, owner);
    forall k | 0 <= k < |r.out| ensures r.out[k].slug == TagSlug(r.out[k].name) {
      var row := FindTag(r.rows, r.out[k].name, owner).value;
      var m :| 0 <= m < |r.rows| && r.rows[m] == row;
    }
  }
}
