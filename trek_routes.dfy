/**
 * The trek routes (backend/routes/treks.js) over the trek collection.
 *
 * The collection is a class whose state is a map from id to document plus the
 * collection's natural order, in which `find({})` returns documents. Every
 * route takes the caller as an `Option<UserId>`: `None` is a request the
 * authentication middleware rejects before the handler runs.
 */
module TrekRoutes {
  import opened Wrappers
  import opened JsStrings
  import opened SeqUtil
  import opened TrekModel

  /** `const limit = 10` of the list route. */
  const PageLimit: nat := 10

  /** The failures the routes answer with. */
  datatype ApiError =
    | Unauthorized  // the middleware found no valid token; taken to answer 401
    | NotFound      // 404 { msg: 'Trek not found' }
    | NotOwner      // 401 { msg: 'Not authorized' }
    | ServerError   // 500 { msg: 'Server error' }

  /**
   * HTTP status of each failure: 404 for a missing trek, 401 for a wrong owner,
   * 500 for the catch-all. The middleware's rejection is taken to be a 401 too.
   */
  function Status(e: ApiError): (code: nat)
    ensures 400 <= code < 600
    ensures code == 401 <==> e == Unauthorized || e == NotOwner
    ensures code == 404 <==> e == NotFound
    ensures code == 500 <==> e == ServerError
    ensures code >= 500 <==> e == ServerError
  {
    match e
    case Unauthorized => 401
    case NotFound => 404
    case NotOwner => 401
    case ServerError => 500
  }

  /** The JSON body `{ treks, total, page, limit }` of the list route. */
  datatype ListPage = ListPage(treks: seq<Trek>, total: nat, page: int, limit: nat)

  /** The body fields of an update; the client always sends all five. */
  datatype TrekUpdate = TrekUpdate(name: string, location: string, difficulty: string, price: real, images: seq<string>)

  /** `parseInt(req.query.page) || 1`: NaN and zero fall back to the first page. */
  function EffectivePage(query: Option<string>): (page: int)
    ensures page != 0
    ensures page == 1 || (query.Some? && ParseInt(query.value) == Some(page))
    ensures query.Some? && ParseInt(query.value).Some? && ParseInt(query.value).value != 0 ==>
      page == ParseInt(query.value).value
  {
    match query
    case None => 1
    case Some(q) =>
      match ParseInt(q)
      case Some(v) => if v != 0 then v else 1
      case None => 1
  }

  /** The page number a client puts in `?page=${page}` is the page the route serves. */
  lemma PageQueryRoundTrip(p: nat)
    requires p >= 1
    ensures EffectivePage(Some(NatToString(p))) == p
  {
    ParseIntOfNatToString(p);
  }

  /** A missing, non-numeric or zero page query selects page 1. */
  lemma PageDefaultsToOne(query: Option<string>)
    requires query.None? || ParseInt(query.value).None? || ParseInt(query.value) == Some(0)
    ensures EffectivePage(query) == 1
  {
  }

  function Min(a: int, b: int): int {
    if a <= b then a else b
  }

  /** `.skip(skip).limit(limit)` on a query result. */
  function Slice<T>(s: seq<T>, skip: nat, limit: nat): (r: seq<T>)
    ensures |r| == if skip >= |s| then 0 else Min(limit, |s| - skip)
    ensures forall i :: 0 <= i < |r| ==> r[i] == s[skip + i]
  {
    if skip >= |s| then [] else s[skip..Min(skip + limit, |s|)]
  }

  /** The documents named by `order`, in that order. */
  function Listing(order: seq<TrekId>, docs: map<TrekId, Trek>): (r: seq<Trek>)
    requires forall k <- order :: k in docs
    ensures |r| == |order|
    ensures forall i :: 0 <= i < |order| ==> r[i] == docs[order[i]]
  {
    if order == [] then [] else [docs[order[0]]] + Listing(order[1..], docs)
  }

  /** `order` without `id`. */
  function RemoveId(order: seq<TrekId>, id: TrekId): (r: seq<TrekId>)
    ensures forall k :: k in r <==> k in order && k != id
    ensures Distinct(order) ==> Distinct(r)
  {
    if order == [] then []
    else
      var rest := RemoveId(order[1..], id);
      if order[0] == id then rest
      else
        assert Distinct(order) ==> order[0] !in rest;
        [order[0]] + rest
  }

  /** `ts` with the trek whose id is `t.id` replaced by `t`. */
  function ReplaceTrek(ts: seq<Trek>, t: Trek): (r: seq<Trek>)
    ensures |r| == |ts|
    ensures forall i :: 0 <= i < |ts| ==> r[i] == if ts[i].id == t.id then t else ts[i]
  {
    seq(|ts|, i requires 0 <= i < |ts| => if ts[i].id == t.id then t else ts[i])
  }

  /** Replacing a trek leaves the treks with other ids as they were, in their order. */
  lemma {:induction false} ReplaceTrekKeepsOthers(ts: seq<Trek>, t: Trek)
    ensures WithoutId(ReplaceTrek(ts, t), t.id) == WithoutId(ts, t.id)
  {
    if ts != [] {
      ReplaceTrekKeepsOthers(ts[1..], t);
      assert ReplaceTrek(ts, t)[1..] == ReplaceTrek(ts[1..], t);
    }
  }

  /** When a trek with its id is present, the replacing trek is in the result. */
  lemma ReplaceTrekPresent(ts: seq<Trek>, t: Trek, i: int)
    requires 0 <= i < |ts| && ts[i].id == t.id
    ensures t in ReplaceTrek(ts, t)
  {
    assert ReplaceTrek(ts, t)[i] == t;
  }

  /** The collection holds as many documents as its order lists. */
  lemma {:induction false} CollectionSize(order: seq<TrekId>, docs: map<TrekId, Trek>)
    requires Distinct(order)
    requires forall k :: k in docs <==> k in order
    ensures |docs| == |order|
  {
    DistinctCardinality(order);
    assert docs.Keys == Elements(order);
    assert |docs| == |docs.Keys|;
  }

  /** Removing an id from the order and the map lists the old documents without that id. */
  lemma {:induction false} ListingRemove(order: seq<TrekId>, docs: map<TrekId, Trek>, id: TrekId)
    requires forall k <- order :: k in docs
    requires forall k :: k in docs ==> docs[k].id == k
    ensures Listing(RemoveId(order, id), docs - {id}) == WithoutId(Listing(order, docs), id)
  {
    if order != [] {
      ListingRemove(order[1..], docs, id);
      if order[0] == id {
        ListingRemoveHead(order, docs, id);
      } else {
        ListingKeepHead(order, docs, id);
      }
    }
  }

  lemma ListingRemoveHead(order: seq<TrekId>, docs: map<TrekId, Trek>, id: TrekId)
    requires order != [] && order[0] == id
    requires forall k <- order :: k in docs
    requires forall k :: k in docs ==> docs[k].id == k
    ensures Listing(RemoveId(order, id), docs - {id}) == Listing(RemoveId(order[1..], id), docs - {id})
    ensures WithoutId(Listing(order, docs), id) == WithoutId(Listing(order[1..], docs), id)
  {
    var all := Listing(order, docs);
    assert all[1..] == Listing(order[1..], docs);
  }

  lemma ListingKeepHead(order: seq<TrekId>, docs: map<TrekId, Trek>, id: TrekId)
    requires order != [] && order[0] != id
    requires forall k <- order :: k in docs
    requires forall k :: k in docs ==> docs[k].id == k
    ensures Listing(RemoveId(order, id), docs - {id}) == [docs[order[0]]] + Listing(RemoveId(order[1..], id), docs - {id})
    ensures WithoutId(Listing(order, docs), id) == [docs[order[0]]] + WithoutId(Listing(order[1..], docs), id)
  {
    var all := Listing(order, docs);
    assert all[1..] == Listing(order[1..], docs);
    var rest := RemoveId(order[1..], id);
    assert ([order[0]] + rest)[1..] == rest;
  }

  /** Replacing a document keeps the order and replaces that trek in the listing. */
  lemma ListingReplace(order: seq<TrekId>, docs: map<TrekId, Trek>, t: Trek)
    requires forall k <- order :: k in docs
    requires forall k :: k in docs ==> docs[k].id == k
    requires t.id in docs
    ensures Listing(order, docs[t.id := t]) == ReplaceTrek(Listing(order, docs), t)
  {
  }

  /** Adding a document under a new id appends it to the listing. */
  lemma ListingAppend(order: seq<TrekId>, docs: map<TrekId, Trek>, t: Trek)
    requires forall k <- order :: k in docs
    requires t.id !in order
    ensures Listing(order + [t.id], docs[t.id := t]) == Listing(order, docs) + [t]
  {
  }

  /**
   * The `$set` of an update: the five body fields overwrite the document's,
   * name and location through the schema's `trim` setters. Validators do not
   * run (no `runValidators`), and id and owner are kept.
   */
  function ApplyUpdate(t: Trek, u: TrekUpdate): (r: Trek)
    ensures r.id == t.id && r.owner == t.owner
  {
    t.(name := Trim(u.name), location := Trim(u.location), difficulty := u.difficulty,
       price := u.price, images := u.images)
  }

  /** The update body read as a creation body. */
  function AsInput(u: TrekUpdate): TrekInput {
    TrekInput(Some(u.name), Some(u.location), Some(u.difficulty), Some(u.price), Some(u.images))
  }

  /** An update whose body the schema would accept stores exactly the document a creation with that body stores. */
  lemma UpdateAgreesWithValidation(t: Trek, u: TrekUpdate)
    requires forall p :: FieldAccepted(AsInput(u), p)
    ensures Validate(t.id, t.owner, AsInput(u)) == Success(ApplyUpdate(t, u))
    ensures ValidTrek(ApplyUpdate(t, u))
  {
  }

  /** Because validators do not run, an update can store a document the schema rejects. */
  lemma UpdateCanBreakValidity()
    ensures var t := Trek(0, 0, "Everest Base Camp", "Nepal", "Hard", 1200.0, []);
            var u := TrekUpdate("Everest Base Camp", "Nepal", "Extreme", -5.0, []);
            ValidTrek(t) && !ValidTrek(ApplyUpdate(t, u))
  {
  }

  /**
   * The collection's own consistency: each id is listed once in the order, the
   * order lists exactly the stored ids, each document carries its own id, and
   * every id in use was handed out before `nextId`.
   */
  ghost predicate StoreInvariant(order: seq<TrekId>, docs: map<TrekId, Trek>, nextId: TrekId) {
    && Distinct(order)
    && (forall k :: k in docs <==> k in order)
    && (forall k :: k in docs ==> docs[k].id == k && k < nextId)
  }

  /** Storing a document under the next id keeps the collection consistent and one larger. */
  lemma InsertKeepsInvariant(order: seq<TrekId>, docs: map<TrekId, Trek>, nextId: TrekId, t: Trek)
    requires StoreInvariant(order, docs, nextId)
    requires t.id == nextId
    ensures t.id !in docs && t.id !in order
    ensures StoreInvariant(order + [t.id], docs[t.id := t], nextId + 1)
    ensures |docs[t.id := t]| == |docs| + 1
  {
    var order', docs' := order + [t.id], docs[t.id := t];
    assert forall k :: k in order' <==> k in order || k == t.id;
    DistinctAppend(order, t.id);
    CollectionSize(order, docs);
    CollectionSize(order', docs');
  }

  /** Dropping an id keeps the collection consistent and one smaller when the id was stored. */
  lemma RemoveKeepsInvariant(order: seq<TrekId>, docs: map<TrekId, Trek>, nextId: TrekId, id: TrekId)
    requires StoreInvariant(order, docs, nextId)
    requires id in docs
    ensures StoreInvariant(RemoveId(order, id), docs - {id}, nextId)
    ensures |docs - {id}| == |docs| - 1
  {
    CollectionSize(order, docs);
    CollectionSize(RemoveId(order, id), docs - {id});
    assert |docs - {id}| == |docs| - 1 by {
      assert (docs - {id}).Keys == docs.Keys - {id};
      assert |docs.Keys - {id}| == |docs.Keys| - 1;
    }
  }

  /** The ownership test of the update and delete routes. */
  predicate IsOwner(t: Trek, caller: UserId) {
    t.owner == caller
  }

  /** A saved trek is owned by its creator and by nobody else. */
  lemma CreatorOwns(id: TrekId, creator: UserId, input: TrekInput, other: UserId)
    requires Validate(id, creator, input).Success?
    ensures IsOwner(Validate(id, creator, input).value, other) <==> other == creator
  {
  }

  class TrekStore {
    /** The documents by id. */
    var docs: map<TrekId, Trek>
    /** The collection's natural order, in which `find({})` returns documents. */
    var order: seq<TrekId>
    /** The id the next created document receives. */
    var nextId: TrekId

    ghost predicate Valid()
      reads this
    {
      StoreInvariant(order, docs, nextId)
    }

    /** Every document, in collection order. */
    function AllTreks(): seq<Trek>
      reads this
      requires Valid()
    {
      Listing(order, docs)
    }

    constructor ()
      ensures Valid()
      ensures docs == map[] && order == [] && nextId == 0
    {
      docs, order, nextId := map[], [], 0;
    }

    /** GET /treks?page=N */
    method List(caller: Option<UserId>, pageQuery: Option<string>) returns (r: Result<ListPage, ApiError>)
      requires Valid()
      ensures caller.None? ==> r == Failure(Unauthorized)
      ensures caller.Some? && EffectivePage(pageQuery) < 0 ==> r == Failure(ServerError)
      ensures caller.Some? && EffectivePage(pageQuery) > 0 ==>
        var page := EffectivePage(pageQuery);
        r == Success(ListPage(Slice(AllTreks(), (page - 1) * PageLimit, PageLimit), |docs|, page, PageLimit))
      ensures r.Success? ==> |r.value.treks| <= PageLimit && r.value.total == |AllTreks()|
    {
      if caller.None? {
        return Failure(Unauthorized);
      }
      var page := EffectivePage(pageQuery);
      if page < 0 {
        // the store rejects a negative skip
        return Failure(ServerError);
      }
      var skip := (page - 1) * PageLimit;
      CollectionSize(order, docs);
      r := Success(ListPage(Slice(AllTreks(), skip, PageLimit), |docs|, page, PageLimit));
    }

    /** GET /treks/:id — any authenticated caller may read any trek. */
    method Get(caller: Option<UserId>, id: TrekId) returns (r: Result<Trek, ApiError>)
      requires Valid()
      ensures caller.None? ==> r == Failure(Unauthorized)
      ensures caller.Some? && id in docs ==> r == Success(docs[id])
      ensures caller.Some? && id !in docs ==> r == Failure(NotFound)
    {
      if caller.None? {
        return Failure(Unauthorized);
      }
      if id !in docs {
        return Failure(NotFound);
      }
      r := Success(docs[id]);
    }

    /** POST /treks — the caller becomes the owner; a body the schema rejects ends in a 500. */
    method Create(caller: Option<UserId>, input: TrekInput) returns (r: Result<Trek, ApiError>)
      requires Valid()
      modifies this
      ensures Valid()
      ensures caller.None? ==> r == Failure(Unauthorized) && unchanged(this)
      ensures caller.Some? && Validate(old(nextId), caller.value, input).Failure? ==>
        r == Failure(ServerError) && unchanged(this)
      ensures caller.Some? && Validate(old(nextId), caller.value, input).Success? ==>
        && r == Success(Validate(old(nextId), caller.value, input).value)
        && r.value.owner == caller.value
        && r.value.id !in old(docs)
        && docs == old(docs)[r.value.id := r.value]
        && AllTreks() == old(AllTreks()) + [r.value]
        && |docs| == |old(docs)| + 1
    {
      if caller.None? {
        return Failure(Unauthorized);
      }
      var v := Validate(nextId, caller.value, input);
      if v.Failure? {
        return Failure(ServerError);
      }
      Insert(v.value);
      r := Success(v.value);
    }

    /** `save()` of a new document: it is stored under the next id and listed last. */
    method Insert(t: Trek)
      requires Valid() && t.id == nextId
      modifies this
      ensures Valid()
      ensures t.id !in old(docs) && docs == old(docs)[t.id := t] && nextId == old(nextId) + 1
      ensures AllTreks() == old(AllTreks()) + [t]
      ensures |docs| == |old(docs)| + 1
    {
      ghost var order0, docs0, nextId0 := order, docs, nextId;
      docs, order, nextId := docs[t.id := t], order + [t.id], nextId + 1;
      InsertKeepsInvariant(order0, docs0, nextId0, t);
      ListingAppend(order0, docs0, t);
      assert StoreInvariant(order, docs, nextId);
    }

    /** PUT /treks/:id — existence is checked before ownership; the new values are not validated. */
    method Update(caller: Option<UserId>, id: TrekId, u: TrekUpdate) returns (r: Result<Trek, ApiError>)
      requires Valid()
      modifies this
      ensures Valid()
      ensures caller.None? ==> r == Failure(Unauthorized) && unchanged(this)
      ensures caller.Some? && id !in old(docs) ==> r == Failure(NotFound) && unchanged(this)
      ensures caller.Some? && id in old(docs) && !IsOwner(old(docs)[id], caller.value) ==>
        r == Failure(NotOwner) && unchanged(this)
      ensures caller.Some? && id in old(docs) && IsOwner(old(docs)[id], caller.value) ==>
        && r == Success(ApplyUpdate(old(docs)[id], u))
        && docs == old(docs)[id := r.value]
        && order == old(order) && nextId == old(nextId)
        && AllTreks() == ReplaceTrek(old(AllTreks()), r.value)
    {
      if caller.None? {
        return Failure(Unauthorized);
      }
      if id !in docs {
        return Failure(NotFound);
      }
      if !IsOwner(docs[id], caller.value) {
        return Failure(NotOwner);
      }
      var t := ApplyUpdate(docs[id], u);
      Replace(t);
      r := Success(t);
    }

    /** `findByIdAndUpdate` on a stored id: the document is replaced where it stands. */
    method Replace(t: Trek)
      requires Valid() && t.id in docs
      modifies this
      ensures Valid()
      ensures docs == old(docs)[t.id := t] && order == old(order) && nextId == old(nextId)
      ensures AllTreks() == ReplaceTrek(old(AllTreks()), t)
    {
      ghost var docs0 := docs;
      docs := docs[t.id := t];
      ListingReplace(order, docs0, t);
      assert StoreInvariant(order, docs, nextId);
    }

    /** DELETE /treks/:id — existence is checked before ownership; only that id is removed. */
    method Delete(caller: Option<UserId>, id: TrekId) returns (r: Result<string, ApiError>)
      requires Valid()
      modifies this
      ensures Valid()
      ensures caller.None? ==> r == Failure(Unauthorized) && unchanged(this)
      ensures caller.Some? && id !in old(docs) ==> r == Failure(NotFound) && unchanged(this)
      ensures caller.Some? && id in old(docs) && !IsOwner(old(docs)[id], caller.value) ==>
        r == Failure(NotOwner) && unchanged(this)
      ensures caller.Some? && id in old(docs) && IsOwner(old(docs)[id], caller.value) ==>
        && r == Success("Trek removed")
        && docs == old(docs) - {id}
        && nextId == old(nextId)
        && AllTreks() == WithoutId(old(AllTreks()), id)
        && |docs| == |old(docs)| - 1
    {
      if caller.None? {
        return Failure(Unauthorized);
      }
      if id !in docs {
        return Failure(NotFound);
      }
      if !IsOwner(docs[id], caller.value) {
        return Failure(NotOwner);
      }
      RemoveById(id);
      r := Success("Trek removed");
    }

    /** `findByIdAndDelete` on a stored id: that document leaves the collection and its order. */
    method RemoveById(id: TrekId)
      requires Valid() && id in docs
      modifies this
      ensures Valid()
      ensures docs == old(docs) - {id} && nextId == old(nextId)
      ensures AllTreks() == WithoutId(old(AllTreks()), id)
      ensures |docs| == |old(docs)| - 1
    {
      ghost var order0, docs0 := order, docs;
      docs, order := docs - {id}, RemoveId(order, id);
      RemoveKeepsInvariant(order0, docs0, nextId, id);
      ListingRemove(order0, docs0, id);
      assert StoreInvariant(order, docs, nextId);
    }
  }

  /** Deleting the same trek twice: the second request finds nothing. */
  method DeleteTwice(store: TrekStore, caller: UserId, id: TrekId) returns (first: Result<string, ApiError>, second: Result<string, ApiError>)
    requires store.Valid()
    modifies store
    ensures store.Valid()
    ensures first.Success? <==> id in old(store.docs) && IsOwner(old(store.docs)[id], caller)
    ensures first.Success? || first == Failure(NotFound) ==> second == Failure(NotFound)
  {
    first := store.Delete(Some(caller), id);
    second := store.Delete(Some(caller), id);
  }

  /** Creating a trek and reading it back by id gives the created document. */
  method CreateThenGet(store: TrekStore, caller: UserId, input: TrekInput, reader: UserId)
    returns (created: Result<Trek, ApiError>, read: Result<Trek, ApiError>)
    requires store.Valid()
    modifies store
    ensures created.Success? ==> read == created
    ensures created.Success? <==> forall p :: FieldAccepted(input, p)
  {
    created := store.Create(Some(caller), input);
    if created.Success? {
      read := store.Get(Some(reader), created.value.id);
    } else {
      read := Failure(NotFound);
    }
  }
}
