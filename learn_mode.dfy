/** The browsing view: a case-insensitive search over the catalog and the
    country whose detail overlay is open. */
module LearnMode {
  import opened Types
  import opened Text
  import opened Seqs

  /** The search test of one country: its lowercased name contains the
      lowercased term. */
  predicate NameMatches(country: Country, term: string) {
    Contains(Lower(country.name), Lower(term))
  }

  /** `filteredCountries`: the catalog entries whose name matches the term,
      all of them, in catalog order. */
  function FilterCountries(catalog: seq<Country>, term: string): (r: seq<Country>)
    ensures forall c :: c in r <==> c in catalog && Contains(Lower(c.name), Lower(term))
    ensures IsSubsequence(r, catalog)
  {
    FilterIsSubsequence(c => NameMatches(c, term), catalog);
    Filter(c => NameMatches(c, term), catalog)
  }

  /** An empty search shows the whole catalog. */
  lemma EmptyTermKeepsCatalog(catalog: seq<Country>)
    ensures FilterCountries(catalog, "") == catalog
  {
    forall c | c in catalog ensures NameMatches(c, "") {
      ContainsEmpty(Lower(c.name));
    }
    FilterKeepsAll(c => NameMatches(c, ""), catalog);
  }

  /** The two terms differ at most in the case of ASCII letters. */
  predicate SameIgnoringCase(a: string, b: string) {
    |a| == |b| && forall i :: 0 <= i < |a| ==> LowerChar(a[i]) == LowerChar(b[i])
  }

  /** Terms that differ only in letter case select the same countries. */
  lemma CaseInsensitiveSearch(catalog: seq<Country>, a: string, b: string)
    requires SameIgnoringCase(a, b)
    ensures FilterCountries(catalog, a) == FilterCountries(catalog, b)
  {
    assert Lower(a) == Lower(b);
    FilterCongruent(c => NameMatches(c, a), c => NameMatches(c, b), catalog);
  }

  /** A longer term never shows more: every match of `term + more` is a
      match of `term`. */
  lemma NarrowingSearch(catalog: seq<Country>, term: string, more: string)
    ensures forall c :: c in FilterCountries(catalog, term + more) ==> c in FilterCountries(catalog, term)
  {
    assert Lower(term + more) == Lower(term) + Lower(more);
    forall c | c in FilterCountries(catalog, term + more)
      ensures c in FilterCountries(catalog, term)
    {
      ContainsPrefix(Lower(c.name), Lower(term), Lower(more));
    }
  }

  /** The view's own state: the search box and the selected country. */
  class LearnView {
    const catalog: seq<Country>
    var searchTerm: string
    var selectedCountry: Option<Country>

    constructor (catalog: seq<Country>)
      ensures this.catalog == catalog && searchTerm == [] && selectedCountry == None
    {
      this.catalog := catalog;
      searchTerm := [];
      selectedCountry := None;
    }

    /** The countries shown in the grid: those of the catalog whose name
        contains the search term, ignoring ASCII case, in catalog order. */
    function Shown(): (r: seq<Country>)
      reads this
      ensures forall c :: c in r <==> c in catalog && Contains(Lower(c.name), Lower(searchTerm))
      ensures IsSubsequence(r, catalog)
    {
      FilterCountries(catalog, searchTerm)
    }

    /** The detail overlay is mounted, for the selected country: a country
        record is always truthy, so only `null` keeps it closed. */
    function ModalOpen(): (r: bool)
      reads this
      ensures r <==> selectedCountry != None
    {
      selectedCountry.Some?
    }

    /** Typing in the search box. */
    method SetSearchTerm(term: string)
      modifies this
      ensures searchTerm == term && selectedCountry == old(selectedCountry)
      ensures Shown() == FilterCountries(catalog, term)
    {
      searchTerm := term;
    }

    /** `handleSelectCountry`: open the overlay for `country`. */
    method SelectCountry(country: Country)
      modifies this
      ensures selectedCountry == Some(country) && ModalOpen()
      ensures searchTerm == old(searchTerm) && Shown() == old(Shown())
    {
      selectedCountry := Some(country);
    }

    /** `handleCloseModal`: close the overlay. */
    method CloseModal()
      modifies this
      ensures selectedCountry == None && !ModalOpen()
      ensures searchTerm == old(searchTerm) && Shown() == old(Shown())
    {
      selectedCountry := None;
    }
  }
}
