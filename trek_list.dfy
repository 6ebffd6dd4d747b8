/**
 * The trek list view (frontends/src/components/TrekList.jsx): the search
 * filter over the fetched page, the page count shown by the pagination
 * control, and the view state that the delete, search and page handlers
 * update.
 */
module TrekList {
  import opened JsStrings
  import opened SeqUtil
  import opened TrekModel
  import TrekRoutes

  /** `const limit = 10` of the view. */
  const Limit: nat := 10

  /** The `search` state: location text and difficulty, `''` meaning "any". */
  datatype Search = Search(location: string, difficulty: string)

  /** The two inputs that `handleSearchChange` serves, by their `name`. */
  datatype SearchField = LocationField | DifficultyField

  /** The filter's test: a non-empty location must occur case-insensitively, a non-empty difficulty must be equal. */
  predicate Matches(t: Trek, search: Search)
    ensures search == Search("", "") ==> Matches(t, search)
    ensures Matches(t, search) && search.location != [] ==> |search.location| <= |t.location|
  {
    && (search.location != [] ==> Includes(ToLower(t.location), ToLower(search.location)))
    && (search.difficulty != [] ==> t.difficulty == search.difficulty)
  }

  /** The location search ignores letter case, both in the trek's location and in the typed text. */
  lemma SearchIgnoresCase(t: Trek, search: Search)
    ensures Matches(t, search) <==> Matches(t, search.(location := ToLower(search.location)))
    ensures Matches(t, search) <==> Matches(t.(location := ToLower(t.location)), search)
  {
    ToLowerIdempotent(search.location);
    ToLowerIdempotent(t.location);
  }

  /** `filteredTreks`: the fetched treks that pass the search, in their order. */
  function FilteredTreks(treks: seq<Trek>, search: Search): (r: seq<Trek>)
    ensures forall t :: t in r <==> t in treks && Matches(t, search)
    ensures IsSubsequence(r, treks)
    ensures |r| <= |treks|
  {
    if treks == [] then []
    else
      var rest := FilteredTreks(treks[1..], search);
      if Matches(treks[0], search) then
        assert ([treks[0]] + rest)[1..] == rest;
        [treks[0]] + rest
      else
        assert rest != [] ==> rest[0] != treks[0];
        rest
  }

  /** The filter keeps each matching trek as often as it was fetched, duplicates included. */
  lemma {:induction false} FilteredTreksCounts(treks: seq<Trek>, search: Search)
    ensures forall t :: multiset(FilteredTreks(treks, search))[t] == if Matches(t, search) then multiset(treks)[t] else 0
  {
    if treks != [] {
      FilteredTreksCounts(treks[1..], search);
      assert treks == [treks[0]] + treks[1..];
    }
  }

  /** Dropping a trek by id before or after filtering gives the same rows. */
  lemma {:induction false} FilterWithoutIdCommute(treks: seq<Trek>, search: Search, id: TrekId)
    ensures FilteredTreks(WithoutId(treks, id), search) == WithoutId(FilteredTreks(treks, search), id)
  {
    if treks != [] {
      FilterWithoutIdCommute(treks[1..], search, id);
    }
  }

  /** With an empty search every fetched trek is shown, in order. */
  lemma {:induction false} EmptySearchKeepsAll(treks: seq<Trek>)
    ensures FilteredTreks(treks, Search("", "")) == treks
  {
    if treks != [] {
      EmptySearchKeepsAll(treks[1..]);
      assert [treks[0]] + treks[1..] == treks;
    }
  }

  /** A location search keeps exactly the treks whose lower-cased location contains the lower-cased text. */
  lemma LocationSearch(treks: seq<Trek>, text: string)
    requires text != []
    ensures forall t :: t in FilteredTreks(treks, Search(text, "")) <==>
      t in treks && exists i :: OccursAt(ToLower(t.location), ToLower(text), i)
  {
    forall t | t in treks {
      IncludesOccurs(ToLower(t.location), ToLower(text));
    }
  }

  /** A difficulty search keeps exactly the treks of that difficulty. */
  lemma DifficultySearch(treks: seq<Trek>, difficulty: string)
    requires difficulty != []
    ensures forall t :: t in FilteredTreks(treks, Search("", difficulty)) <==> t in treks && t.difficulty == difficulty
  {
  }

  /** `Math.ceil(total / limit)`. */
  function PageCount(total: int): (n: int)
    ensures (n - 1) * Limit < total <= n * Limit
  {
    if total % Limit == 0 then total / Limit else total / Limit + 1
  }

  /** The route's pages 1 to k of `s`, one after another. */
  function PagesUpTo(s: seq<Trek>, k: nat): seq<Trek> {
    if k == 0 then [] else PagesUpTo(s, k - 1) + TrekRoutes.Slice(s, (k - 1) * TrekRoutes.PageLimit, TrekRoutes.PageLimit)
  }

  /** The first k pages are the first 10k treks. */
  lemma {:induction false} PagesUpToPrefix(s: seq<Trek>, k: nat)
    ensures PagesUpTo(s, k) == s[..TrekRoutes.Min(k * TrekRoutes.PageLimit, |s|)]
  {
    if k > 0 {
      PagesUpToPrefix(s, k - 1);
      var limit := TrekRoutes.PageLimit;
      var before := TrekRoutes.Min((k - 1) * limit, |s|);
      var after := TrekRoutes.Min(k * limit, |s|);
      var page := TrekRoutes.Slice(s, (k - 1) * limit, limit);
      if (k - 1) * limit >= |s| {
        assert page == [];
      } else {
        assert page == s[before..after];
        assert s[..before] + s[before..after] == s[..after];
      }
    }
  }

  /**
   * The pages the pagination control offers, `1..pageCount` with `total` the
   * collection size, hold every trek exactly once and in order, and the page after
   * them is empty.
   */
  lemma PagesCoverCollection(s: seq<Trek>)
    ensures PagesUpTo(s, PageCount(|s|)) == s
    ensures TrekRoutes.Slice(s, PageCount(|s|) * TrekRoutes.PageLimit, TrekRoutes.PageLimit) == []
  {
    PagesUpToPrefix(s, PageCount(|s|));
  }

  /** No two treks share an id. */
  predicate DistinctIds(treks: seq<Trek>) {
    forall i, j :: 0 <= i < j < |treks| ==> treks[i].id != treks[j].id
  }

  /** Filtering out an id that occurs once removes exactly one trek, matching `setTotal(total - 1)`. */
  lemma {:induction false} WithoutIdRemovesOne(treks: seq<Trek>, id: TrekId)
    requires DistinctIds(treks)
    requires exists t <- treks :: t.id == id
    ensures |WithoutId(treks, id)| == |treks| - 1
  {
    var rest := WithoutId(treks[1..], id);
    if treks[0].id == id {
      WithoutIdKeepsAll(treks[1..], id);
    } else {
      var t :| t in treks && t.id == id;
      assert t in treks[1..];
      WithoutIdRemovesOne(treks[1..], id);
    }
  }

  /** Filtering out an id that does not occur keeps every trek. */
  lemma {:induction false} WithoutIdKeepsAll(treks: seq<Trek>, id: TrekId)
    requires forall t <- treks :: t.id != id
    ensures WithoutId(treks, id) == treks
  {
    if treks != [] {
      WithoutIdKeepsAll(treks[1..], id);
      assert [treks[0]] + treks[1..] == treks;
    }
  }

  class TrekListView {
    /** The fetched page of treks. */
    var treks: seq<Trek>
    /** The collection size reported by the server. */
    var total: int
    /** The current page. */
    var page: int
    /** The search inputs. */
    var search: Search

    constructor ()
      ensures treks == [] && total == 0 && page == 1 && search == Search("", "")
    {
      treks, total, page, search := [], 0, 1, Search("", "");
    }

    /** The rows on screen. */
    function Visible(): seq<Trek>
      reads this
    {
      FilteredTreks(treks, search)
    }

    /** `setTreks(res.data.treks); setTotal(res.data.total)` after a fetch. */
    method Loaded(response: TrekRoutes.ListPage)
      modifies this
      ensures treks == response.treks && total == response.total
      ensures page == old(page) && search == old(search)
    {
      treks, total := response.treks, response.total;
    }

    /**
     * `handleDelete`: when the user confirmed and the server accepted the delete,
     * drop the trek from the page and count one trek less; otherwise nothing changes.
     */
    method HandleDelete(id: TrekId, confirmed: bool, deleted: bool)
      modifies this
      ensures confirmed && deleted ==>
        && treks == WithoutId(old(treks), id)
        && Visible() == WithoutId(old(Visible()), id)
        && total == old(total) - 1
        && page == old(page) && search == old(search)
      ensures !(confirmed && deleted) ==> unchanged(this)
    {
      if confirmed && deleted {
        FilterWithoutIdCommute(treks, search, id);
        treks := WithoutId(treks, id);
        total := total - 1;
      }
    }

    /** `setSearch({ ...search, [name]: value })`. */
    method HandleSearchChange(field: SearchField, value: string)
      modifies this
      ensures field == LocationField ==> search == Search(value, old(search.difficulty))
      ensures field == DifficultyField ==> search == Search(old(search.location), value)
      ensures treks == old(treks) && total == old(total) && page == old(page)
    {
      match field
      case LocationField => search := search.(location := value);
      case DifficultyField => search := search.(difficulty := value);
    }

    /** `onChange={(e, value) => setPage(value)}` of the pagination control. */
    method SetPage(value: int)
      modifies this
      ensures page == value
      ensures treks == old(treks) && total == old(total) && search == old(search)
    {
      page := value;
    }
  }
}
