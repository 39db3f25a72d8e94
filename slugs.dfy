/**
 * The two slug rewrites of the products controller and the suffixes its
 * uniqueness loop appends.
 *
 * Both rewrites run the same chain of regular-expression replacements:
 * drop every character outside `[a-z0-9\s-]`, turn each run of white space
 * into one hyphen, collapse each run of hyphens into one.  A tag name is
 * trimmed and lower-cased first and its slug finally loses leading and
 * trailing hyphens.  A product name is only lower-cased, and its last step
 * is `.trim("-")`: `String.prototype.trim` takes no argument, so that step
 * removes white space (of which none is left) and no hyphen.
 */
module Slugs {
  import opened Text

  /** The alphabet of every slug: `[a-z0-9-]`. */
  predicate IsSlugChar(c: char) {
    'a' <= c <= 'z' || '0' <= c <= '9' || c == '-'
  }

  /** The character class `[a-z0-9\s-]` that the first replacement keeps. */
  predicate IsKeptChar(c: char) {
    IsSlugChar(c) || IsSpace(c)
  }

  predicate AllSlugChars(s: string) {
    forall i :: 0 <= i < |s| ==> IsSlugChar(s[i])
  }

  predicate NoDoubleHyphen(s: string) {
    forall i :: 0 < i < |s| ==> !(s[i - 1] == '-' && s[i] == '-')
  }

  predicate NoEdgeHyphen(s: string) {
    s == [] || (s[0] != '-' && s[|s| - 1] != '-')
  }

  /** `.replace(/[^a-z0-9\s-]/g, "")` */
  function KeepSlugChars(s: string): (r: string)
    ensures forall i :: 0 <= i < |r| ==> IsKeptChar(r[i])
  {
    if s == [] then [] else (if IsKeptChar(s[0]) then [s[0]] else []) + KeepSlugChars(s[1..])
  }

  /** The filter distributes over concatenation. */
  lemma {:induction false} KeepSlugCharsAppend(a: string, b: string)
    ensures KeepSlugChars(a + b) == KeepSlugChars(a) + KeepSlugChars(b)
  {
    if a == [] {
      assert a + b == b;
    } else {
      assert (a + b)[0] == a[0] && (a + b)[1..] == a[1..] + b;
      KeepSlugCharsAppend(a[1..], b);
    }
  }

  /** Read from the left, every character in the class survives and every other is dropped, in order. */
  lemma KeepSlugCharsSnoc(s: string)
    requires s != []
    ensures KeepSlugChars(s) == KeepSlugChars(s[..|s| - 1]) + (if IsKeptChar(s[|s| - 1]) then [s[|s| - 1]] else [])
  {
    var init, last := s[..|s| - 1], s[|s| - 1];
    assert s == init + [last];
    KeepSlugCharsAppend(init, [last]);
    assert KeepSlugChars([last]) == (if IsKeptChar(last) then [last] else []) by {
      assert [last][1..] == [];
    }
  }

  /**
   * `.replace(/\s+/g, "-")`: every maximal run of white space becomes one
   * hyphen.  A white-space character followed by another one is dropped;
   * the last of a run is replaced.
   */
  function HyphenateSpaces(s: string): (r: string)
    ensures (forall i :: 0 <= i < |s| ==> IsKeptChar(s[i])) ==> AllSlugChars(r)
  {
    if s == [] then []
    else if IsSpace(s[0]) && |s| > 1 && IsSpace(s[1]) then HyphenateSpaces(s[1..])
    else [if IsSpace(s[0]) then '-' else s[0]] + HyphenateSpaces(s[1..])
  }

  /** `.replace(/-+/g, "-")`: every maximal run of hyphens becomes one hyphen. */
  function CollapseHyphens(s: string): (r: string)
    ensures AllSlugChars(s) ==> AllSlugChars(r)
    ensures NoDoubleHyphen(r)
    ensures |r| == 0 <==> |s| == 0
    ensures |s| > 0 ==> (r[0] == '-' <==> s[0] == '-')
  {
    if s == [] then []
    else if s[0] == '-' && |s| > 1 && s[1] == '-' then CollapseHyphens(s[1..])
    else [s[0]] + CollapseHyphens(s[1..])
  }

  /** The characters of `s` other than `-`, in order. */
  function NonHyphens(s: string): string {
    if s == [] then [] else (if s[0] == '-' then [] else [s[0]]) + NonHyphens(s[1..])
  }

  /** Collapsing runs of hyphens keeps every other character, in order. */
  lemma {:induction false} CollapseKeepsNonHyphens(s: string)
    ensures NonHyphens(CollapseHyphens(s)) == NonHyphens(s)
  {
    if s != [] {
      CollapseKeepsNonHyphens(s[1..]);
      if !(s[0] == '-' && |s| > 1 && s[1] == '-') {
        var c := CollapseHyphens(s[1..]);
        assert ([s[0]] + c)[0] == s[0] && ([s[0]] + c)[1..] == c;
      }
    }
  }

  function StripLeadingHyphens(s: string): (r: string)
    ensures |r| <= |s| && forall i :: 0 <= i < |s| - |r| ==> s[i] == '-'
    ensures r == [] || r[0] != '-'
  {
    if |s| > 0 && s[0] == '-' then StripLeadingHyphens(s[1..]) else s
  }

  function StripTrailingHyphens(s: string): (r: string)
    ensures |r| <= |s| && forall i :: |r| <= i < |s| ==> s[i] == '-'
    ensures r == [] || r[|r| - 1] != '-'
  {
    if |s| > 0 && s[|s| - 1] == '-' then StripTrailingHyphens(s[..|s| - 1]) else s
  }

  /** Stripping leading hyphens leaves a suffix of the input. */
  lemma {:induction false} StripLeadingSuffix(s: string)
    ensures var r := StripLeadingHyphens(s); |r| <= |s| && r == s[|s| - |r|..]
  {
    if |s| > 0 && s[0] == '-' {
      StripLeadingSuffix(s[1..]);
    }
  }

  /** Stripping trailing hyphens leaves a prefix of the input. */
  lemma {:induction false} StripTrailingPrefix(s: string)
    ensures var r := StripTrailingHyphens(s); |r| <= |s| && r == s[..|r|]
  {
    if |s| > 0 && s[|s| - 1] == '-' {
      StripTrailingPrefix(s[..|s| - 1]);
    }
  }

  /** `.replace(/^-+|-+$/g, "")` */
  function StripHyphens(s: string): string {
    StripTrailingHyphens(StripLeadingHyphens(s))
  }

  /** The tag name as stored and looked up: `tagName.trim().toLowerCase()`. */
  function CleanTagName(name: string): string {
    Lower(Trim(name))
  }

  /** The slug of a tag, computed from its clean name. */
  function TagSlug(cleanName: string): string {
    StripHyphens(CollapseHyphens(HyphenateSpaces(KeepSlugChars(cleanName))))
  }

  /** The slug of a product, computed from the name as received (untrimmed). */
  function ProductSlug(name: string): string {
    Trim(CollapseHyphens(HyphenateSpaces(KeepSlugChars(Lower(name)))))
  }

  lemma {:induction false} RewriteChars(s: string)
    ensures AllSlugChars(CollapseHyphens(HyphenateSpaces(KeepSlugChars(s))))
  {
  }

  /** A tag slug is over `[a-z0-9-]`, has no `--`, and neither starts nor ends with `-`. */
  lemma {:induction false} TagSlugShape(cleanName: string)
    ensures AllSlugChars(TagSlug(cleanName))
    ensures NoDoubleHyphen(TagSlug(cleanName))
    ensures NoEdgeHyphen(TagSlug(cleanName))
  {
    RewriteChars(cleanName);
    StripHyphensShape(CollapseHyphens(HyphenateSpaces(KeepSlugChars(cleanName))));
  }

  /** Stripping the edge hyphens of a string of slug characters without `--` leaves no edge hyphen. */
  lemma {:induction false} StripHyphensShape(c: string)
    requires AllSlugChars(c) && NoDoubleHyphen(c)
    ensures AllSlugChars(StripHyphens(c)) && NoDoubleHyphen(StripHyphens(c)) && NoEdgeHyphen(StripHyphens(c))
  {
    var l := StripLeadingHyphens(c);
    var r := StripTrailingHyphens(l);
    StripLeadingSuffix(c);
    StripTrailingPrefix(l);
    SliceShape(c, |c| - |l|, |c|);
    SliceShape(l, 0, |r|);
    if r != [] {
      assert r[0] == l[0];
    }
  }

  /** A slice of a string of slug characters without `--` is one too. */
  lemma {:induction false} SliceShape(c: string, lo: nat, hi: nat)
    requires lo <= hi <= |c| && AllSlugChars(c) && NoDoubleHyphen(c)
    ensures AllSlugChars(c[lo..hi]) && NoDoubleHyphen(c[lo..hi])
  {
    var r := c[lo..hi];
    forall i | 0 <= i < |r| ensures IsSlugChar(r[i]) {
      assert r[i] == c[lo + i];
    }
    forall i | 0 < i < |r| ensures !(r[i - 1] == '-' && r[i] == '-') {
      assert r[i - 1] == c[lo + i - 1] && r[i] == c[lo + i];
    }
  }

  /**
   * A product slug is over `[a-z0-9-]` and has no `--`; the final `.trim("-")`
   * changes nothing, because no white space survives the earlier rewrites.
   */
  lemma {:induction false} ProductSlugShape(name: string)
    ensures ProductSlug(name) == CollapseHyphens(HyphenateSpaces(KeepSlugChars(Lower(name))))
    ensures AllSlugChars(ProductSlug(name))
    ensures NoDoubleHyphen(ProductSlug(name))
  {
    var c := CollapseHyphens(HyphenateSpaces(KeepSlugChars(Lower(name))));
    RewriteChars(Lower(name));
    assert TrimStart(c) == c;
    assert TrimEnd(c) == c;
  }

  lemma {:induction false} KeepSlugCharsFixed(s: string)
    requires forall i :: 0 <= i < |s| ==> IsKeptChar(s[i])
    ensures KeepSlugChars(s) == s
  {
    if s != [] {
      KeepSlugCharsFixed(s[1..]);
    }
  }

  lemma {:induction false} HyphenateSpacesFixed(s: string)
    requires forall i :: 0 <= i < |s| ==> !IsSpace(s[i])
    ensures HyphenateSpaces(s) == s
  {
    if s != [] {
      HyphenateSpacesFixed(s[1..]);
    }
  }

  lemma {:induction false} CollapseHyphensFixed(s: string)
    requires NoDoubleHyphen(s)
    ensures CollapseHyphens(s) == s
  {
    if s != [] {
      assert NoDoubleHyphen(s[1..]) by {
        forall i | 0 < i < |s[1..]| ensures !(s[1..][i - 1] == '-' && s[1..][i] == '-') {
          assert s[1..][i - 1] == s[i] && s[1..][i] == s[i + 1];
        }
      }
      CollapseHyphensFixed(s[1..]);
    }
  }

  /** Splitting the input where no run of white space is cut splits the output. */
  lemma {:induction false} HyphenateSpacesSplit(a: string, b: string)
    requires a != [] && !(IsSpace(a[|a| - 1]) && b != [] && IsSpace(b[0]))
    ensures HyphenateSpaces(a + b) == HyphenateSpaces(a) + HyphenateSpaces(b)
  {
    if |a| > 1 {
      assert (a + b)[1..] == a[1..] + b;
      HyphenateSpacesSplit(a[1..], b);
    } else {
      assert (a + b)[1..] == b;
    }
  }

  lemma {:induction false} HyphenateLeadingSpace(b: string)
    requires b != []
    requires forall i :: 0 <= i < |b| ==> !IsSpace(b[i])
    ensures HyphenateSpaces(" " + b) == "-" + b
  {
    var sb := " " + b;
    assert sb[1..] == b;
    HyphenateSpacesFixed(b);
  }

  /** Two words separated by one space are joined by one hyphen. */
  lemma {:induction false} HyphenateTwoWords(a: string, b: string)
    requires a != [] && b != []
    requires forall i :: 0 <= i < |a| ==> !IsSpace(a[i])
    requires forall i :: 0 <= i < |b| ==> !IsSpace(b[i])
    ensures HyphenateSpaces(a + " " + b) == a + "-" + b
  {
    HyphenateLeadingSpace(b);
    HyphenateSpacesFixed(a);
    assert a + " " + b == a + (" " + b);
    HyphenateSpacesSplit(a, " " + b);
  }

  /** A non-empty run of white space. */
  predicate SpaceRun(w: string) {
    w != [] && forall i :: 0 <= i < |w| ==> IsSpace(w[i])
  }

  /** A non-empty run of hyphens. */
  predicate HyphenRun(w: string) {
    w != [] && forall i :: 0 <= i < |w| ==> w[i] == '-'
  }

  /** A run of white space at the front, however long, becomes one hyphen. */
  lemma {:induction false} HyphenateRunPrefix(w: string, b: string)
    requires SpaceRun(w) && (b == [] || !IsSpace(b[0]))
    ensures HyphenateSpaces(w + b) == "-" + HyphenateSpaces(b)
  {
    var s := w + b;
    assert s[0] == w[0];
    if |w| == 1 {
      assert s[1..] == b;
    } else {
      assert s[1] == w[1] && s[1..] == w[1..] + b;
      HyphenateRunPrefix(w[1..], b);
    }
  }

  /**
   * `.replace(/\s+/g, "-")` on a maximal run of white space: the run
   * becomes exactly one hyphen and the text on either side is rewritten
   * on its own.
   */
  lemma {:induction false} HyphenateRun(a: string, w: string, b: string)
    requires SpaceRun(w)
    requires a == [] || !IsSpace(a[|a| - 1])
    requires b == [] || !IsSpace(b[0])
    ensures HyphenateSpaces(a + w + b) == HyphenateSpaces(a) + "-" + HyphenateSpaces(b)
  {
    var c := w + b;
    assert HyphenateSpaces(c) == "-" + HyphenateSpaces(b) by {
      HyphenateRunPrefix(w, b);
    }
    assert a + w + b == a + c;
    if a == [] {
      assert a + c == c;
    } else {
      assert c[0] == w[0];
      HyphenateSpacesSplit(a, c);
    }
  }

  /** Splitting the input after a character other than `-` splits the output. */
  lemma {:induction false} CollapseHyphensSplit(a: string, c: string)
    requires a == [] || a[|a| - 1] != '-'
    ensures CollapseHyphens(a + c) == CollapseHyphens(a) + CollapseHyphens(c)
  {
    if a == [] {
      assert a + c == c;
    } else {
      var s := a + c;
      assert s[0] == a[0] && s[1..] == a[1..] + c;
      if |a| == 1 {
        assert s[1..] == c;
      } else {
        assert s[1] == a[1];
        CollapseHyphensSplit(a[1..], c);
      }
    }
  }

  /** A run of hyphens at the front, however long, becomes one hyphen. */
  lemma {:induction false} CollapseRunPrefix(w: string, b: string)
    requires HyphenRun(w) && (b == [] || b[0] != '-')
    ensures CollapseHyphens(w + b) == "-" + CollapseHyphens(b)
  {
    var s := w + b;
    assert s[0] == w[0];
    if |w| == 1 {
      assert s[1..] == b;
    } else {
      assert s[1] == w[1] && s[1..] == w[1..] + b;
      CollapseRunPrefix(w[1..], b);
    }
  }

  /**
   * `.replace(/-+/g, "-")` on a maximal run of hyphens: the run becomes
   * exactly one hyphen and the text on either side is rewritten on its own.
   */
  lemma {:induction false} CollapseRun(a: string, w: string, b: string)
    requires HyphenRun(w)
    requires a == [] || a[|a| - 1] != '-'
    requires b == [] || b[0] != '-'
    ensures CollapseHyphens(a + w + b) == CollapseHyphens(a) + "-" + CollapseHyphens(b)
  {
    CollapseRunPrefix(w, b);
    assert a + w + b == a + (w + b);
    CollapseHyphensSplit(a, w + b);
  }

  /** An ASCII letter or digit, of either case. */
  predicate IsAlnum(c: char) {
    'a' <= c <= 'z' || 'A' <= c <= 'Z' || '0' <= c <= '9'
  }

  /** A non-empty run of ASCII letters and digits. */
  predicate IsWord(s: string) {
    s != [] && forall i :: 0 <= i < |s| ==> IsAlnum(s[i])
  }

  /** A non-empty run of `[a-z0-9]`. */
  predicate IsLowerWord(s: string) {
    s != [] && forall i :: 0 <= i < |s| ==> 'a' <= s[i] <= 'z' || '0' <= s[i] <= '9'
  }

  lemma {:induction false} LowerWord(a: string)
    requires IsWord(a)
    ensures IsLowerWord(Lower(a))
  {
    LowerAt(a);
  }

  lemma {:induction false} LowerAppend(x: string, y: string)
    ensures Lower(x + y) == Lower(x) + Lower(y)
  {
    LowerAt(x);
    LowerAt(y);
    LowerAt(x + y);
    assert forall i :: 0 <= i < |x + y| ==> Lower(x + y)[i] == (Lower(x) + Lower(y))[i];
  }

  lemma {:induction false} NoDoubleHyphenAppend(x: string, y: string)
    requires NoDoubleHyphen(x) && NoDoubleHyphen(y)
    requires x == [] || y == [] || x[|x| - 1] != '-' || y[0] != '-'
    ensures NoDoubleHyphen(x + y)
  {
    var s := x + y;
    forall i | 0 < i < |s| ensures !(s[i - 1] == '-' && s[i] == '-') {
      if i < |x| {
        assert s[i - 1] == x[i - 1] && s[i] == x[i];
      } else if i > |x| {
        assert s[i - 1] == y[i - 1 - |x|] && s[i] == y[i - |x|];
      }
    }
  }

  /** The three literal rewrites turn `a`, a run of white space, `b` into `a-b` when both words are over `[a-z0-9]`. */
  lemma {:induction false} RewriteWordsAroundRun(a: string, w: string, b: string)
    requires IsLowerWord(a) && IsLowerWord(b) && SpaceRun(w)
    ensures CollapseHyphens(HyphenateSpaces(KeepSlugChars(a + w + b))) == a + "-" + b
  {
    var s := a + w + b;
    assert forall i :: 0 <= i < |s| ==> IsKeptChar(s[i]) by {
      forall i | 0 <= i < |s| ensures IsKeptChar(s[i]) {
        if i < |a| {
          assert s[i] == a[i];
        } else if i < |a| + |w| {
          assert s[i] == w[i - |a|];
        } else {
          assert s[i] == b[i - |a| - |w|];
        }
      }
    }
    KeepSlugCharsFixed(s);
    HyphenateRun(a, w, b);
    HyphenateSpacesFixed(a);
    HyphenateSpacesFixed(b);
    NoDoubleHyphenAppend(a, "-");
    NoDoubleHyphenAppend(a + "-", b);
    CollapseHyphensFixed(a + "-" + b);
  }

  /** Lower-casing keeps a run of white space a run of white space. */
  lemma LowerSpaceRun(w: string)
    requires SpaceRun(w)
    ensures SpaceRun(Lower(w))
  {
    LowerKeepsSpaces(w);
  }

  /** Lower-casing two words around a run of white space lower-cases each part. */
  lemma LowerAroundRun(a: string, w: string, b: string)
    ensures Lower(a + w + b) == Lower(a) + Lower(w) + Lower(b)
  {
    LowerAppend(a, w);
    LowerAppend(a + w, b);
  }

  /** Lower-casing two words separated by a space lower-cases each word. */
  lemma {:induction false} LowerTwoWords(a: string, b: string)
    ensures Lower(a + " " + b) == Lower(a) + " " + Lower(b)
  {
    LowerAppend(a, " " + b);
    LowerAppend(" ", b);
    assert a + " " + b == a + (" " + b);
    assert Lower(a) + " " + Lower(b) == Lower(a) + (" " + Lower(b));
  }

  /** Two words separated by any run of white space: the product rule joins them with one hyphen. */
  lemma {:induction false} ProductSlugOfTwoWords(a: string, w: string, b: string)
    requires IsWord(a) && IsWord(b) && SpaceRun(w)
    ensures ProductSlug(a + w + b) == Lower(a) + "-" + Lower(b)
  {
    var la, lw, lb := Lower(a), Lower(w), Lower(b);
    LowerWord(a);
    LowerWord(b);
    LowerSpaceRun(w);
    LowerAroundRun(a, w, b);
    RewriteWordsAroundRun(la, lw, lb);
    TrimFixed(la + "-" + lb);
  }

  /** Two words separated by any run of white space: the tag rule joins them with one hyphen. */
  lemma {:induction false} TagSlugOfTwoWords(a: string, w: string, b: string)
    requires IsWord(a) && IsWord(b) && SpaceRun(w)
    ensures TagSlug(CleanTagName(a + w + b)) == Lower(a) + "-" + Lower(b)
  {
    var la, lw, lb := Lower(a), Lower(w), Lower(b);
    LowerWord(a);
    LowerWord(b);
    LowerSpaceRun(w);
    var s := a + w + b;
    assert s[0] == a[0] && s[|s| - 1] == b[|b| - 1];
    TrimFixed(s);
    LowerAroundRun(a, w, b);
    RewriteWordsAroundRun(la, lw, lb);
    StripHyphensFixed(la + "-" + lb);
  }

  /**
   * The product named "Honey Jar" gets the slug "honey-jar". The words are
   * parameters fixed by the requires only so that the solver does not
   * evaluate the whole slug rule on the literal name, which is too costly.
   */
  lemma ProductSlugOfHoneyJar(a: string, b: string)
    requires a == "Honey" && b == "Jar"
    ensures a + " " + b == "Honey Jar"
    ensures ProductSlug(a + " " + b) == "honey-jar"
  {
    assert ProductSlug(a + " " + b) == Lower(a) + "-" + Lower(b) by {
      assert IsWord(a) && IsWord(b) && SpaceRun(" ");
      ProductSlugOfTwoWords(a, " ", b);
    }
    assert Lower(a) == "honey" by { LowerHoney(); }
    assert Lower(b) == "jar" by { LowerJar(); }
  }

  lemma LowerHoney()
    ensures Lower("Honey") == "honey"
  {
    var a := "Honey";
    LowerAt(a);
    assert forall i :: 0 <= i < 5 ==> Lower(a)[i] == "honey"[i];
  }

  lemma LowerJar()
    ensures Lower("Jar") == "jar"
  {
    var b := "Jar";
    LowerAt(b);
    assert forall i :: 0 <= i < 3 ==> Lower(b)[i] == "jar"[i];
  }

  /** The three literal rewrites turn ` a b` into `-a-b`. */
  lemma {:induction false} RewriteLeadingSpace(la: string, lb: string)
    requires IsLowerWord(la) && IsLowerWord(lb)
    ensures CollapseHyphens(HyphenateSpaces(KeepSlugChars(" " + la + " " + lb))) == "-" + la + "-" + lb
  {
    var lw := la + " " + lb;
    assert " " + la + " " + lb == " " + lw;
    assert forall i :: 0 <= i < |" " + lw| ==> IsKeptChar((" " + lw)[i]);
    KeepSlugCharsFixed(" " + lw);
    HyphenateLeadingTwoWords(la, lb);
    HyphenatedNoDouble(la, lb);
    CollapseHyphensFixed("-" + la + "-" + lb);
  }

  lemma {:induction false} HyphenateLeadingTwoWords(la: string, lb: string)
    requires IsLowerWord(la) && IsLowerWord(lb)
    ensures HyphenateSpaces(" " + (la + " " + lb)) == "-" + la + "-" + lb
  {
    HyphenateTwoWords(la, lb);
    HyphenateSpacesSplit(" ", la + " " + lb);
    assert HyphenateSpaces(" ") == "-";
    assert "-" + (la + "-" + lb) == "-" + la + "-" + lb;
  }

  lemma {:induction false} HyphenatedNoDouble(la: string, lb: string)
    requires IsLowerWord(la) && IsLowerWord(lb)
    ensures NoDoubleHyphen("-" + la + "-" + lb)
  {
    NoDoubleHyphenAppend("-", la);
    NoDoubleHyphenAppend("-" + la, "-");
    NoDoubleHyphenAppend("-" + la + "-", lb);
  }

  /** With a leading space the product rule keeps a leading hyphen. */
  lemma {:induction false} ProductSlugOfLeadingSpace(a: string, b: string)
    requires IsWord(a) && IsWord(b)
    ensures ProductSlug(" " + a + " " + b) == "-" + Lower(a) + "-" + Lower(b)
  {
    var la, lb := Lower(a), Lower(b);
    var w := a + " " + b;
    assert " " + a + " " + b == " " + w;
    LowerWord(a);
    LowerWord(b);
    LowerTwoWords(a, b);
    LowerAppend(" ", w);
    assert Lower(" " + w) == " " + la + " " + lb;
    RewriteLeadingSpace(la, lb);
    TrimFixed("-" + la + "-" + lb);
  }

  /** The tag rule trims the name first, so a leading space leaves no hyphen. */
  lemma {:induction false} TagSlugOfLeadingSpace(a: string, b: string)
    requires IsWord(a) && IsWord(b)
    ensures TagSlug(CleanTagName(" " + a + " " + b)) == Lower(a) + "-" + Lower(b)
  {
    var w := a + " " + b;
    assert " " + a + " " + b == " " + w;
    assert (" " + w)[1..] == w;
    assert TrimStart(" " + w) == TrimStart(w);
    assert Trim(" " + w) == Trim(w);
    TagSlugOfTwoWords(a, " ", b);
  }

  /** The three literal rewrites turn `a b ` into `a-b-`. */
  lemma {:induction false} RewriteTrailingSpace(la: string, lb: string)
    requires IsLowerWord(la) && IsLowerWord(lb)
    ensures CollapseHyphens(HyphenateSpaces(KeepSlugChars(la + " " + lb + " "))) == la + "-" + lb + "-"
  {
    var lw := la + " " + lb;
    assert forall i :: 0 <= i < |lw + " "| ==> IsKeptChar((lw + " ")[i]);
    KeepSlugCharsFixed(lw + " ");
    var h := la + "-" + lb;
    assert HyphenateSpaces(lw + " ") == h + "-" by {
      HyphenateTwoWords(la, lb);
      HyphenateSpacesSplit(lw, " ");
      assert HyphenateSpaces(" ") == "-";
    }
    NoDoubleHyphenAppend(la, "-");
    NoDoubleHyphenAppend(la + "-", lb);
    NoDoubleHyphenAppend(h, "-");
    CollapseHyphensFixed(h + "-");
  }

  /** A trailing space likewise leaves the product slug ending in a hyphen. */
  lemma {:induction false} ProductSlugOfTrailingSpace(a: string, b: string)
    requires IsWord(a) && IsWord(b)
    ensures ProductSlug(a + " " + b + " ") == Lower(a) + "-" + Lower(b) + "-"
  {
    var la, lb := Lower(a), Lower(b);
    var w := a + " " + b;
    LowerWord(a);
    LowerWord(b);
    LowerTwoWords(a, b);
    LowerAppend(w, " ");
    assert Lower(w + " ") == la + " " + lb + " ";
    RewriteTrailingSpace(la, lb);
    TrimFixed(la + "-" + lb + "-");
  }

  lemma {:induction false} LowerFixed(s: string)
    requires AllSlugChars(s)
    ensures Lower(s) == s
  {
    LowerAt(s);
    assert forall i :: 0 <= i < |s| ==> Lower(s)[i] == s[i];
  }

  lemma {:induction false} TrimFixed(s: string)
    requires s == [] || (!IsSpace(s[0]) && !IsSpace(s[|s| - 1]))
    ensures Trim(s) == s
  {
    assert TrimStart(s) == s;
  }

  lemma {:induction false} StripHyphensFixed(s: string)
    requires NoEdgeHyphen(s)
    ensures StripHyphens(s) == s
  {
    assert StripLeadingHyphens(s) == s;
  }

  /** A well-formed slug is its own tag name, its own tag slug and its own product slug. */
  lemma {:induction false} SlugIsFixedPoint(s: string)
    requires AllSlugChars(s) && NoDoubleHyphen(s) && NoEdgeHyphen(s)
    ensures CleanTagName(s) == s
    ensures TagSlug(s) == s
    ensures ProductSlug(s) == s
  {
    assert s == [] || (!IsSpace(s[0]) && !IsSpace(s[|s| - 1]));
    CleanNameFixed(s);
    TagSlugFixed(s);
    ProductSlugFixed(s);
  }

  lemma CleanNameFixed(s: string)
    requires AllSlugChars(s) && (s == [] || (!IsSpace(s[0]) && !IsSpace(s[|s| - 1])))
    ensures CleanTagName(s) == s
  {
    TrimFixed(s);
    LowerFixed(s);
  }

  lemma TagSlugFixed(s: string)
    requires AllSlugChars(s) && NoDoubleHyphen(s) && NoEdgeHyphen(s)
    ensures TagSlug(s) == s
  {
    RewriteFixed(s);
    StripHyphensFixed(s);
  }

  lemma ProductSlugFixed(s: string)
    requires AllSlugChars(s) && NoDoubleHyphen(s) && (s == [] || (!IsSpace(s[0]) && !IsSpace(s[|s| - 1])))
    ensures ProductSlug(s) == s
  {
    LowerFixed(s);
    RewriteFixed(s);
    TrimFixed(s);
  }

  /** The three replacements leave a string of slug characters without `--` as it is. */
  lemma {:induction false} RewriteFixed(s: string)
    requires AllSlugChars(s) && NoDoubleHyphen(s)
    ensures CollapseHyphens(HyphenateSpaces(KeepSlugChars(s))) == s
  {
    assert forall i :: 0 <= i < |s| ==> IsKeptChar(s[i]) && !IsSpace(s[i]);
    KeepSlugCharsFixed(s);
    HyphenateSpacesFixed(s);
    CollapseHyphensFixed(s);
  }

  /** The slug the uniqueness loop tries at step `k`: `base` itself, then `${base}-${k}`. */
  function Candidate(base: string, k: nat): string {
    if k == 0 then base else base + "-" + Digits(k)
  }

  /** The loop never tries the same slug twice. */
  lemma {:induction false} CandidateInjective(base: string, j: nat, k: nat)
    requires Candidate(base, j) == Candidate(base, k)
    ensures j == k
  {
    if j != 0 && k != 0 {
      var n := |base| + 1;
      assert Candidate(base, j)[n..] == Digits(j);
      assert Candidate(base, k)[n..] == Digits(k);
      DigitsInjective(j, k);
    }
  }

  /** The first `k + 1` candidates. */
  ghost function CandidateSet(base: string, k: nat): set<string> {
    if k == 0 then {base} else CandidateSet(base, k - 1) + {Candidate(base, k)}
  }

  lemma {:induction false} CandidateSetMembers(base: string, k: nat)
    ensures forall j :: 0 <= j <= k ==> Candidate(base, j) in CandidateSet(base, k)
    ensures forall c :: c in CandidateSet(base, k) ==> exists j :: 0 <= j <= k && c == Candidate(base, j)
  {
    if k > 0 {
      CandidateSetMembers(base, k - 1);
    } else {
      assert Candidate(base, 0) == base;
    }
  }

  lemma {:induction false} CandidateSetSize(base: string, k: nat)
    ensures |CandidateSet(base, k)| == k + 1
  {
    if k > 0 {
      CandidateSetSize(base, k - 1);
      CandidateIsNew(base, k);
    }
  }

  /** Candidate `k` is none of the earlier ones. */
  lemma {:induction false} CandidateIsNew(base: string, k: nat)
    requires k > 0
    ensures Candidate(base, k) !in CandidateSet(base, k - 1)
  {
    CandidateSetMembers(base, k - 1);
    if Candidate(base, k) in CandidateSet(base, k - 1) {
      var j :| 0 <= j <= k - 1 && Candidate(base, k) == Candidate(base, j);
      CandidateInjective(base, j, k);
    }
  }

  /**
   * If the first `k + 1` candidates are all taken, at least `k + 1` slugs are
   * taken: the loop stops after at most as many steps as there are slugs.
   */
  lemma {:induction false} CandidatesBound(base: string, used: set<string>, k: nat)
    requires forall j :: 0 <= j <= k ==> Candidate(base, j) in used
    ensures k + 1 <= |used|
  {
    var cs := CandidateSet(base, k);
    CandidateSetSize(base, k);
    CandidateSetMembers(base, k);
    assert cs <= used;
    assert used == cs + (used - cs);
  }

  /**
   * `slug` is what the loop returns for `base` when `used` holds the taken
   * slugs: the first candidate that is free.
   */
  ghost predicate FirstFree(used: set<string>, base: string, slug: string) {
    exists k: nat :: slug == Candidate(base, k) && slug !in used
      && forall j :: 0 <= j < k ==> Candidate(base, j) in used
  }

  /** The first free candidate is determined by the taken slugs. */
  lemma {:induction false} FirstFreeUnique(used: set<string>, base: string, s1: string, s2: string)
    requires FirstFree(used, base, s1) && FirstFree(used, base, s2)
    ensures s1 == s2
  {
    var k1: nat :| s1 == Candidate(base, k1) && s1 !in used && forall j :: 0 <= j < k1 ==> Candidate(base, j) in used;
    var k2: nat :| s2 == Candidate(base, k2) && s2 !in used && forall j :: 0 <= j < k2 ==> Candidate(base, j) in used;
    assert !(k1 < k2) && !(k2 < k1);
  }

  /** A free base is kept as it is; a taken one never is. */
  lemma {:induction false} FirstFreeOfFreeBase(used: set<string>, base: string, slug: string)
    ensures base !in used ==> (FirstFree(used, base, slug) <==> slug == base)
    ensures base in used ==> (FirstFree(used, base, slug) ==> slug != base)
  {
    if base !in used && slug == base {
      assert slug == Candidate(base, 0);
    }
    if FirstFree(used, base, slug) && base !in used {
      FirstFreeUnique(used, base, slug, base) by {
        assert base == Candidate(base, 0);
      }
    }
  }

  /** Three products named `foo` by one owner get `foo`, `foo-1` and `foo-2`. */
  lemma FirstFreeScenario()
    ensures FirstFree({}, "foo", "foo")
    ensures FirstFree({"foo"}, "foo", "foo-1")
    ensures FirstFree({"foo", "foo-1"}, "foo", "foo-2")
  {
    assert Candidate("foo", 0) == "foo";
    assert Candidate("foo", 1) == "foo-1";
    assert Candidate("foo", 2) == "foo-2";
  }

  /** Suffixing a product slug that ends in a hyphen yields a `--`. */
  lemma SuffixAfterTrailingHyphen()
    ensures Candidate("a-b-", 1) == "a-b--1"
  {
    assert Digits(1) == "1";
  }

  /** A suffixed candidate stays over `[a-z0-9-]`. */
  lemma {:induction false} CandidateChars(base: string, k: nat)
    requires AllSlugChars(base)
    ensures AllSlugChars(Candidate(base, k))
  {
  }
}
