/**
 * The cross-reference lookup: the catalog rows whose Haydon or vendor part
 * contains the query's key, in catalog order, and, for the first of them,
 * its family code and the first reference row (image and submittal links)
 * whose name has the same key as that family code.
 */
module CrossReference {
  import opened Wrappers
  import opened Ascii
  import opened Normalization
  import opened CorePart

  /** One row of the catalog ("Export") sheet; a missing cell is None. */
  datatype CatalogRow = CatalogRow(haydonPart: Option<string>, vendorPart: Option<string>, vendor: Option<string>)
  {
    /** The "Normalized Haydon Part" column derived when the catalog is loaded. */
    function NormalizedHaydon(): (key: string)
      ensures haydonPart.None? ==> key == ""
      ensures haydonPart.Some? ==> |key| <= |haydonPart.value|
      ensures forall i | 0 <= i < |key| :: IsKeyChar(key[i])
    {
      Normalize(haydonPart)
    }

    /** The "Normalized Vendor Part" column derived when the catalog is loaded. */
    function NormalizedVendor(): (key: string)
      ensures vendorPart.None? ==> key == ""
      ensures vendorPart.Some? ==> |key| <= |vendorPart.value|
      ensures forall i | 0 <= i < |key| :: IsKeyChar(key[i])
    {
      Normalize(vendorPart)
    }
  }

  /** One row of the image and submittal reference sheet; a missing cell is None. */
  datatype ReferenceRow = ReferenceRow(name: Option<string>, coverImage: Option<string>, files: Option<string>)
  {
    /** The "Normalized Name" column derived when the reference sheet is loaded. */
    function NormalizedName(): (key: string)
      ensures name.None? ==> key == ""
      ensures name.Some? ==> |key| <= |name.value|
      ensures forall i | 0 <= i < |key| :: IsKeyChar(key[i])
    {
      Normalize(name)
    }
  }

  /** `p` occurs in `t` starting at index `i`. */
  predicate OccursAt(p: string, t: string, i: nat)
  {
    i + |p| <= |t| && t[i..i + |p|] == p
  }

  ghost predicate IsSubstring(p: string, t: string)
  {
    exists i: nat :: OccursAt(p, t, i)
  }

  /** An occurrence in `t` is either at its start or an occurrence in its tail. */
  lemma SubstringStep(p: string, t: string)
    requires t != []
    ensures IsSubstring(p, t) <==> OccursAt(p, t, 0) || IsSubstring(p, t[1..])
  {
    if IsSubstring(p, t) {
      var i: nat :| OccursAt(p, t, i);
      if i > 0 {
        assert t[1..][i - 1..i - 1 + |p|] == t[i..i + |p|];
        assert OccursAt(p, t[1..], i - 1);
      }
    }
    if IsSubstring(p, t[1..]) {
      var i: nat :| OccursAt(p, t[1..], i);
      assert t[1..][i..i + |p|] == t[i + 1..i + 1 + |p|];
      assert OccursAt(p, t, i + 1);
    }
  }

  /**
   * `Series.str.contains` on one cell. The pattern is always a key, made of
   * lower-case letters and digits only, so the regular-expression search is
   * a plain substring search.
   */
  function Contains(t: string, p: string): (found: bool)
    ensures found <==> IsSubstring(p, t)
    decreases |t|
  {
    if OccursAt(p, t, 0) then
      true
    else if t == [] then
      assert !IsSubstring(p, t);
      false
    else
      SubstringStep(p, t);
      Contains(t[1..], p)
  }

  /** The row's Haydon part or its vendor part contains the key. */
  ghost predicate Hit(row: CatalogRow, key: string)
  {
    IsSubstring(key, row.NormalizedHaydon()) || IsSubstring(key, row.NormalizedVendor())
  }

  predicate RowMatches(row: CatalogRow, key: string)
  {
    Contains(row.NormalizedHaydon(), key) || Contains(row.NormalizedVendor(), key)
  }

  /** The boolean-mask selection of the rows that match `key`, in catalog order. */
  function FilterRows(rows: seq<CatalogRow>, key: string): (kept: seq<CatalogRow>)
    ensures |kept| <= |rows|
    ensures forall r | r in kept :: r in rows && Hit(r, key)
  {
    if rows == [] then []
    else (if RowMatches(rows[0], key) then [rows[0]] else []) + FilterRows(rows[1..], key)
  }

  /** The cross-reference search: the catalog rows whose Haydon or vendor part contains the query's key. */
  function Search(rows: seq<CatalogRow>, query: string): (matches: seq<CatalogRow>)
    ensures forall r | r in matches :: r in rows && Hit(r, Normalize(Some(query)))
  {
    FilterRows(rows, Normalize(Some(query)))
  }

  /** Filtering commutes with concatenation: the kept rows of an earlier block come before those of a later one. */
  lemma {:induction false} FilterRowsConcat(a: seq<CatalogRow>, b: seq<CatalogRow>, key: string)
    ensures FilterRows(a + b, key) == FilterRows(a, key) + FilterRows(b, key)
  {
    if a == [] {
      assert a + b == b;
    } else {
      var head := if RowMatches(a[0], key) then [a[0]] else [];
      assert (a + b)[0] == a[0];
      assert (a + b)[1..] == a[1..] + b;
      assert FilterRows(a + b, key) == head + FilterRows(a[1..] + b, key);
      FilterRowsConcat(a[1..], b, key);
      assert FilterRows(a, key) == head + FilterRows(a[1..], key);
    }
  }

  /** A row is kept exactly when it is in the catalog and matches the key. */
  lemma {:induction false} FilterRowsMembership(rows: seq<CatalogRow>, key: string, row: CatalogRow)
    ensures row in FilterRows(rows, key) <==> row in rows && Hit(row, key)
  {
    if rows != [] {
      FilterRowsMembership(rows[1..], key, row);
      assert rows == [rows[0]] + rows[1..];
    }
  }

  /** No row is kept exactly when no row matches. */
  lemma {:induction false} FilterRowsEmpty(rows: seq<CatalogRow>, key: string)
    ensures FilterRows(rows, key) == [] <==> forall i | 0 <= i < |rows| :: !Hit(rows[i], key)
  {
    if rows != [] {
      FilterRowsEmpty(rows[1..], key);
      assert forall i | 1 <= i < |rows| :: rows[i] == rows[1..][i - 1];
    }
  }

  /** The first kept row is the first row of the catalog that matches. */
  lemma {:induction false} FilterRowsFirst(rows: seq<CatalogRow>, key: string, i: nat)
    requires i < |rows| && Hit(rows[i], key)
    requires forall j | 0 <= j < i :: !Hit(rows[j], key)
    ensures FilterRows(rows, key) != [] && FilterRows(rows, key)[0] == rows[i]
  {
    if i > 0 {
      assert forall j | 0 <= j < i - 1 :: rows[1..][j] == rows[j + 1];
      FilterRowsFirst(rows[1..], key, i - 1);
    }
  }

  /** When every row matches the key, every row is kept, in order. */
  lemma {:induction false} FilterRowsAll(rows: seq<CatalogRow>, key: string)
    requires forall i | 0 <= i < |rows| :: Hit(rows[i], key)
    ensures FilterRows(rows, key) == rows
  {
    if rows != [] {
      assert forall i | 0 <= i < |rows| - 1 :: rows[1..][i] == rows[i + 1];
      FilterRowsAll(rows[1..], key);
    }
  }

  /** A row is a search result exactly when it is a catalog row whose Haydon or vendor part contains the query's key. */
  lemma SearchMembership(rows: seq<CatalogRow>, query: string, row: CatalogRow)
    ensures row in Search(rows, query) <==>
      row in rows && (IsSubstring(Normalize(Some(query)), row.NormalizedHaydon()) ||
                      IsSubstring(Normalize(Some(query)), row.NormalizedVendor()))
  {
    FilterRowsMembership(rows, Normalize(Some(query)), row);
  }

  /**
   * The search finds nothing exactly when no row matches; otherwise its
   * first result is the first matching row of the catalog.
   */
  lemma SearchFirstMatch(rows: seq<CatalogRow>, query: string)
    ensures Search(rows, query) == [] <==> forall i | 0 <= i < |rows| :: !Hit(rows[i], Normalize(Some(query)))
    ensures forall i | 0 <= i < |rows| && Hit(rows[i], Normalize(Some(query))) &&
                       (forall j | 0 <= j < i :: !Hit(rows[j], Normalize(Some(query)))) ::
              Search(rows, query) != [] && Search(rows, query)[0] == rows[i]
  {
    var key := Normalize(Some(query));
    FilterRowsEmpty(rows, key);
    forall i | 0 <= i < |rows| && Hit(rows[i], key) && (forall j | 0 <= j < i :: !Hit(rows[j], key))
      ensures FilterRows(rows, key) != [] && FilterRows(rows, key)[0] == rows[i]
    {
      FilterRowsFirst(rows, key, i);
    }
  }

  /**
   * A query whose key is empty (one made only of punctuation or spaces)
   * matches every row, including rows whose part cells are missing.
   */
  lemma SearchEmptyKey(rows: seq<CatalogRow>, query: string)
    requires Normalize(Some(query)) == ""
    ensures Search(rows, query) == rows
  {
    forall i | 0 <= i < |rows| ensures Hit(rows[i], "") {
      assert OccursAt("", rows[i].NormalizedHaydon(), 0);
    }
    FilterRowsAll(rows, "");
  }

  /** The index of the first reference row whose name has the given key, or None when there is none. */
  function FirstIndexNamed(refs: seq<ReferenceRow>, key: string): (found: Option<nat>)
    ensures found.Some? ==> found.value < |refs| && refs[found.value].NormalizedName() == key
    ensures found.Some? ==> forall j | 0 <= j < found.value :: refs[j].NormalizedName() != key
    ensures found.None? ==> forall j | 0 <= j < |refs| :: refs[j].NormalizedName() != key
  {
    if refs == [] then None
    else if refs[0].NormalizedName() == key then Some(0)
    else
      match FirstIndexNamed(refs[1..], key)
      case None => None
      case Some(j) => Some(j + 1)
  }

  /** What the sidebar shows for the first match: its family code and the reference row found for it, if any. */
  datatype ProductDetails = ProductDetails(corePart: string, reference: Option<ReferenceRow>)

  /**
   * The product details of the first matching row: its Haydon part reduced
   * to a family code, and the first reference row whose name has the same
   * key as that code, or None when no reference row does.
   */
  function DetailsFor(first: CatalogRow, refs: seq<ReferenceRow>): (details: ProductDetails)
    ensures details.corePart == ExtractCorePart(first.haydonPart)
    ensures details.reference.None? <==>
      forall j | 0 <= j < |refs| :: refs[j].NormalizedName() != Normalize(Some(details.corePart))
    ensures details.reference.Some? ==>
      exists i | 0 <= i < |refs| :: refs[i] == details.reference.value &&
        refs[i].NormalizedName() == Normalize(Some(details.corePart)) &&
        forall j | 0 <= j < i :: refs[j].NormalizedName() != Normalize(Some(details.corePart))
  {
    var core := ExtractCorePart(first.haydonPart);
    match FirstIndexNamed(refs, Normalize(Some(core)))
    case None => ProductDetails(core, None)
    case Some(i) => ProductDetails(core, Some(refs[i]))
  }

  /**
   * When the first match's Haydon part starts with letters, a dash and
   * digits, its family code is those pieces upper-cased and the reference
   * row is looked up by the lower-cased letters followed by the digits.
   */
  lemma DetailsForCode(first: CatalogRow, refs: seq<ReferenceRow>, letters: string, digits: string, rest: string)
    requires |letters| > 0 && AllLetters(letters)
    requires |digits| > 0 && AllDigits(digits)
    requires rest == [] || !IsDigit(rest[0])
    requires first.haydonPart == Some(letters + "-" + digits + rest)
    ensures DetailsFor(first, refs).corePart == Upper(letters) + "-" + digits
    ensures Normalize(Some(DetailsFor(first, refs).corePart)) == Lower(letters) + digits
  {
    ExtractCorePartOfCode(letters, digits, rest);
  }

  /**
   * A first match with no Haydon part has the empty family code, whose key
   * is empty too: it takes the first reference row whose name is missing
   * or has no letter or digit.
   */
  lemma DetailsForMissingPart(first: CatalogRow, refs: seq<ReferenceRow>)
    requires first.haydonPart.None?
    ensures DetailsFor(first, refs).corePart == ""
    ensures DetailsFor(first, refs).reference.None? <==> forall j | 0 <= j < |refs| :: refs[j].NormalizedName() != ""
  {
    NormalizeFixpoint("");
  }

  /** The three outcomes of a lookup: no query entered, no catalog row found, or rows found with the first one's details. */
  datatype Outcome = NoQuery | NoCrossReference | Found(matches: seq<CatalogRow>, details: ProductDetails)

  /**
   * One lookup: nothing happens for an empty query; otherwise the search
   * runs, and when it finds rows the details of the first one are looked up.
   */
  function Lookup(catalog: seq<CatalogRow>, refs: seq<ReferenceRow>, query: string): (outcome: Outcome)
    ensures outcome.NoQuery? <==> query == ""
    ensures outcome.NoCrossReference? <==>
      query != "" && forall i | 0 <= i < |catalog| :: !Hit(catalog[i], Normalize(Some(query)))
    ensures outcome.Found? ==>
      outcome.matches == Search(catalog, query) && outcome.matches != [] &&
      outcome.details == DetailsFor(outcome.matches[0], refs)
  {
    if query == "" then
      NoQuery
    else
      var matches := Search(catalog, query);
      SearchFirstMatch(catalog, query);
      if matches == [] then NoCrossReference
      else Found(matches, DetailsFor(matches[0], refs))
  }

  /**
   * A non-empty query made only of punctuation or spaces returns the whole
   * catalog, and the details shown are those of its first row.
   */
  lemma LookupPunctuationQuery(catalog: seq<CatalogRow>, refs: seq<ReferenceRow>, query: string)
    requires query != "" && Normalize(Some(query)) == "" && catalog != []
    ensures Lookup(catalog, refs, query) == Found(catalog, DetailsFor(catalog[0], refs))
  {
    SearchEmptyKey(catalog, query);
  }

  /**
   * A query equal to the vendor part of the first catalog row it matches
   * finds that row first; when that row's Haydon part starts with a family
   * code, the details are the code and the first reference row whose name
   * has the code's key, however that name is cased or punctuated.
   */
  lemma LookupByVendorPart(catalog: seq<CatalogRow>, refs: seq<ReferenceRow>, query: string, i: nat, j: nat,
                           letters: string, digits: string, rest: string)
    requires query != "" && i < |catalog| && catalog[i].vendorPart == Some(query)
    requires forall k | 0 <= k < i :: !Hit(catalog[k], Normalize(Some(query)))
    requires |letters| > 0 && AllLetters(letters)
    requires |digits| > 0 && AllDigits(digits)
    requires rest == [] || !IsDigit(rest[0])
    requires catalog[i].haydonPart == Some(letters + "-" + digits + rest)
    requires j < |refs| && refs[j].NormalizedName() == Lower(letters) + digits
    requires forall k | 0 <= k < j :: refs[k].NormalizedName() != Lower(letters) + digits
    ensures Lookup(catalog, refs, query).Found?
    ensures Lookup(catalog, refs, query).matches[0] == catalog[i]
    ensures Lookup(catalog, refs, query).details == ProductDetails(Upper(letters) + "-" + digits, Some(refs[j]))
  {
    var key := Normalize(Some(query));
    assert OccursAt(key, catalog[i].NormalizedVendor(), 0);
    SearchFirstMatch(catalog, query);
    assert Search(catalog, query) != [] && Search(catalog, query)[0] == catalog[i];
    DetailsForCode(catalog[i], refs, letters, digits, rest);
    var found := FirstIndexNamed(refs, Lower(letters) + digits);
    assert found == Some(j) by {
      assert refs[j].NormalizedName() == Lower(letters) + digits;
      assert found.Some? && found.value <= j;
    }
  }

  /**
   * The catalog row `H-132-HDG` / `AB-99` is found by the query `AB-99`, and
   * the reference row named `H-132` supplies its image.
   */
  lemma LookupScenario(row: CatalogRow, ref: ReferenceRow, query: string)
    requires row == CatalogRow(Some("H-132-HDG"), Some("AB-99"), None) && query == "AB-99"
    requires ref == ReferenceRow(Some("H-132"), Some("http://x/img.png"), None)
    ensures Lookup([row], [ref], query) == Found([row], ProductDetails("H-132", Some(ref)))
  {
    ScenarioPieces(row, ref, query);
    assert Search([row], query) == [row] by {
      assert OccursAt(Normalize(Some(query)), row.NormalizedVendor(), 0);
      SearchEveryHit([row], query);
    }
    CodeNameKey("H", "132");
    LookupByVendorPart([row], [ref], query, 0, 0, "H", "132", "-HDG");
    ExampleSpelling();
  }

  /** The scenario's cells, split into a family code's pieces. */
  lemma ScenarioPieces(row: CatalogRow, ref: ReferenceRow, query: string)
    requires row == CatalogRow(Some("H-132-HDG"), Some("AB-99"), None) && query == "AB-99"
    requires ref == ReferenceRow(Some("H-132"), Some("http://x/img.png"), None)
    ensures query != "" && row.vendorPart == Some(query)
    ensures row.haydonPart == Some("H" + "-" + "132" + "-HDG") && ref.name == Some("H" + "-" + "132")
    ensures AllLetters("H") && AllDigits("132") && !IsDigit("-HDG"[0])
  {
    assert "H-132-HDG" == "H" + "-" + "132" + "-HDG";
    assert "H-132" == "H" + "-" + "132";
  }

  /** The query `132` finds both `H-132-HDG` and `AB-1320`: the search is by substring, not by whole key. */
  lemma SearchSubstringScenario(first: CatalogRow, second: CatalogRow, query: string)
    requires first.haydonPart == Some("H-132-HDG") && second.haydonPart == Some("AB-1320")
    requires query == "132"
    ensures Search([first, second], query) == [first, second]
  {
    ScenarioFirstHit(first);
    ScenarioSecondHit(second);
    ScenarioQueryKey(query);
    SearchEveryHit([first, second], query);
  }

  /** When every row matches the query's key, the search returns the whole catalog in order. */
  lemma SearchEveryHit(rows: seq<CatalogRow>, query: string)
    requires forall r | r in rows :: Hit(r, Normalize(Some(query)))
    ensures Search(rows, query) == rows
  {
    FilterRowsAll(rows, Normalize(Some(query)));
  }

  lemma ScenarioQueryKey(query: string)
    requires query == "132"
    ensures Normalize(Some(query)) == "132"
  {
    assert AllDigits("132");
    NormalizeDigits("132");
  }

  lemma ScenarioSecondKey()
    ensures Normalize(Some("AB-1320")) == "ab1320"
  {
    assert AllLetters("AB") && AllDigits("1320");
    assert "AB-1320" == "AB" + "-" + "1320";
    CodeNameKey("AB", "1320");
    assert Lower("AB") + "1320" == "ab1320";
  }

  lemma ScenarioFirstHit(first: CatalogRow)
    requires first.haydonPart == Some("H-132-HDG")
    ensures Hit(first, "132")
  {
    NormalizeDashedExample();
    assert OccursAt("132", "h132hdg", 1);
  }

  lemma ScenarioSecondHit(second: CatalogRow)
    requires second.haydonPart == Some("AB-1320")
    ensures Hit(second, "132")
  {
    ScenarioSecondKey();
    assert OccursAt("132", "ab1320", 2);
  }
}
