# trekPlanner core in Dafny

trekPlanner lets signed-in users publish trekking routes. Each trek has a
name, location, difficulty, price and image URLs. Users list the treks page
by page, search them, and edit or delete their own. This project models the
parts of the application that carry logic:

- **The trek schema** (`TrekModel`, over `backend/models/Trek.js`). It covers:
  - which bodies a trek can be saved from: name and location required and trimmed, difficulty one of Easy / Medium / Hard, price at least 0, images defaulting to `[]`;
  - the error message each field reports, one error per failing path, in schema order.
- **The trek routes** (`TrekRoutes`, over `backend/routes/treks.js`). The collection is a class `TrekStore` holding a map from id to document plus the collection's natural order. Each operation is a method with a full before/after contract:
  - list, with page fallback and a fixed limit of 10;
  - read by id, with no ownership check;
  - create, which sets the caller as owner;
  - update and delete, which check existence before ownership.
  Lemmas prove:
  - the store's consistency invariant;
  - that the listing is kept in order across inserts, replacements and removals;
  - that updates bypass validation.
- **The list view** (`TrekList`, over `frontends/src/components/TrekList.jsx`). It covers:
  - the location/difficulty search filter;
  - `pageCount = ceil(total / 10)`, with the lemma that pages `1..pageCount` of the list route cover the whole collection once;
  - the view state changed by the delete, search and page handlers.
- **The add and edit forms** (`TrekForm`, `AddTrek`, `EditTrek`, over `AddTrek.jsx` and `EditTrek.jsx`). They cover:
  - the one-input `handleChange`;
  - the images text: rendered with `join(', ')`, parsed with `split(',').map(trim)`. A round-trip lemma covers non-empty lists of trimmed, comma-free URLs, and a counterexample covers the empty list;
  - the submitted body, and the error texts shown on failure.
- **JavaScript string built-ins** the above rely on (`JsStrings`): `trim`, `split`, `join`, ASCII `toLowerCase`, `includes`, and `parseInt` without a radix. Each has a contract on its result, and lemmas connect them: trim is idempotent and unique, split and join invert each other, lower-casing is idempotent, `includes` agrees with an occurrence, and `parseInt` reads back decimal renderings.

Behaviour of the code worth noting:

- A caller who does not own the trek gets **401** "Not authorized" from update and delete, the status the model also takes the authentication middleware's rejection to answer (`backend/routes/treks.js:35`, `:47`).
- A create body that the schema rejects ends in the route's catch-all: **500** "Server error" (`backend/routes/treks.js:25-26`). The model's `Create` returns `ServerError` and leaves the store unchanged.
- Updates run `findByIdAndUpdate` without `runValidators` (`backend/routes/treks.js:36`). The `trim` setters apply, but required / enum / min are not checked. `TrekRoutes.UpdateCanBreakValidity` exhibits a stored document the schema would reject.
- The list route's limit is the constant 10. A `limit` query parameter is ignored. A negative `page` gives a negative skip, which the database refuses, so the route answers 500.

## Model

| member | source | states |
|---|---|---|
| JsStrings.Trim | backend/models/Trek.js:11 | the trimmed text has no whitespace at either end, is no longer than the input, is the input itself when that had none, and is the stretch of the input between its leading and its trailing run of whitespace, with only whitespace outside it |
| JsStrings.TrimmedAtUnique | backend/models/Trek.js:11 | any trimmed stretch of the input with only whitespace around it is the trim of the input |
| JsStrings.TrimSkipsLeadingWhitespace | backend/models/Trek.js:11 | a whitespace character in front of a text does not change its trim |
| JsStrings.TrimKeepsOut | frontends/src/components/AddTrek.jsx:34 | trimming only removes characters, so a character absent from the text is absent from its trim |
| JsStrings.TrimIdempotent | backend/models/Trek.js:11 | trimming twice is trimming once |
| JsStrings.Split | frontends/src/components/AddTrek.jsx:34 | `split(',')` yields one piece per comma plus one, and no piece contains a comma |
| JsStrings.Join | frontends/src/components/EditTrek.jsx:37 | the joined text starts with the first piece, followed by the separator when there are two or more pieces, and is at least as long as every piece |
| JsStrings.JoinSplit | frontends/src/components/EditTrek.jsx:58 | joining the pieces of a split with the same separator gives back the text |
| JsStrings.SplitJoin | frontends/src/components/EditTrek.jsx:37 | splitting the join of a non-empty list of separator-free pieces gives back the list |
| JsStrings.ToLower | frontends/src/components/TrekList.jsx:67 | lower-casing keeps the length, turns each ASCII upper-case letter into its lower-case letter (32 code points on), and keeps every other character |
| JsStrings.ToLowerIgnoresCase | frontends/src/components/TrekList.jsx:67 | two texts that differ only in ASCII letter case lower-case to the same text |
| JsStrings.ToLowerIdempotent | frontends/src/components/TrekList.jsx:67 | lower-casing twice is lower-casing once |
| JsStrings.Includes | frontends/src/components/TrekList.jsx:67 | the empty text is included in every text, and an included text is no longer than the text |
| JsStrings.IncludesOccurs | frontends/src/components/TrekList.jsx:67 | `includes` holds exactly when the searched text occurs at some position |
| JsStrings.ParseInt | backend/routes/treks.js:8 | a text with nothing after its leading whitespace is NaN; a negative result needs a leading minus, and a non-zero number after a leading minus is negative |
| JsStrings.ParseIntOfNatToString | backend/routes/treks.js:8 | `parseInt` reads back the decimal rendering of every natural number |
| TrekModel.Normalize | backend/models/Trek.js:8-31 | casting trims name and location when present and keeps them absent otherwise, keeps difficulty and price as given, and replaces absent images by `[]` |
| TrekModel.NormalizeIdempotent | backend/models/Trek.js:8-17 | casting an already cast body changes nothing |
| TrekModel.PathError | backend/models/Trek.js:8-27 | every reported message is non-empty, and a path without a message holds a non-empty name or location, a difficulty among Easy / Medium / Hard, or a price of at least 0 |
| TrekModel.PathErrorMatchesAcceptance | backend/models/Trek.js:8-27 | a path reports no error on the cast body exactly when the raw body's field is acceptable: a name or location that is not blank after trimming, a known difficulty, a price of at least 0 |
| TrekModel.ErrorsNamePath | backend/models/Trek.js:8-27 | the validation error list names a path exactly when that path's validators fail |
| TrekModel.Validate | backend/models/Trek.js:3-32 | saving succeeds exactly when all four validated fields are accepted; the saved document is valid, has the given id and owner, trimmed name and location, difficulty and price as given, and images defaulted to `[]`; on failure the errors name exactly the rejected paths |
| TrekModel.MissingNameRejected | backend/models/Trek.js:8-12 | an absent or blank name fails with "Name is required" |
| TrekModel.MissingLocationRejected | backend/models/Trek.js:13-17 | an absent or blank location fails with "Location is required" |
| TrekModel.UnknownDifficultyRejected | backend/models/Trek.js:18-22 | a difficulty other than Easy, Medium or Hard fails on the difficulty path whatever else the body holds |
| TrekModel.PriceBound | backend/models/Trek.js:23-27 | a negative price fails with "Price must be positive", and a price of 0 is accepted |
| TrekModel.ImagesDefaultEmpty | backend/models/Trek.js:28-31 | an otherwise valid body without images saves the empty image list |
| TrekModel.WithoutId | frontends/src/components/TrekList.jsx:53 | the filtered list holds exactly the treks with another id, as an order-preserving subsequence |
| TrekModel.WithoutIdCounts | frontends/src/components/TrekList.jsx:53 | filtering by id keeps every trek with another id as many times as it occurs, and no trek with that id |
| TrekRoutes.EffectivePage | backend/routes/treks.js:8 | the page is never 0; a parsed non-zero query value is the page, and anything else (no query, NaN, zero) gives 1 |
| TrekRoutes.Status | backend/routes/treks.js:34-35 | a missing trek answers 404, a wrong owner 401 and the catch-all 500 (and only these); the middleware's rejection is taken to be 401 as well |
| TrekRoutes.PageQueryRoundTrip | backend/routes/treks.js:8 | the page a client writes into `?page=` is the page the route serves |
| TrekRoutes.PageDefaultsToOne | backend/routes/treks.js:8 | a missing, non-numeric or zero page selects page 1 |
| TrekRoutes.Slice | backend/routes/treks.js:9-11 | skip/limit yields at most `limit` items, namely the ones at positions `skip`, `skip+1`, … of the input |
| TrekRoutes.Listing | backend/routes/treks.js:11 | `find({})` lists one document per stored id, in collection order |
| TrekRoutes.RemoveId | backend/routes/treks.js:48 | dropping an id keeps exactly the other ids and keeps them distinct |
| TrekRoutes.ReplaceTrekKeepsOthers | backend/routes/treks.js:36 | replacing a trek leaves the treks with other ids as they were, in their order |
| TrekRoutes.ReplaceTrekPresent | backend/routes/treks.js:36 | when a trek with that id is present, the new document is in the result |
| TrekRoutes.CollectionSize | backend/routes/treks.js:12 | `countDocuments()` equals the number of listed documents |
| TrekRoutes.ListingAppend | backend/routes/treks.js:22-23 | saving a document under a new id appends it to the listing |
| TrekRoutes.ListingReplace | backend/routes/treks.js:36 | updating a document in place replaces it in the listing, order unchanged |
| TrekRoutes.ListingRemove | backend/routes/treks.js:48 | deleting an id lists the old documents without that id, in order |
| TrekRoutes.ApplyUpdate | backend/routes/treks.js:36 | the `$set` keeps the id and owner of the document |
| TrekRoutes.UpdateAgreesWithValidation | backend/routes/treks.js:36 | an update body the schema accepts stores exactly what creating from it would, and the result is valid |
| TrekRoutes.UpdateCanBreakValidity | backend/routes/treks.js:36 | without validators an update can turn a valid document into one with difficulty "Extreme" and a negative price |
| TrekRoutes.CreatorOwns | backend/routes/treks.js:22 | a saved trek passes the ownership test of update and delete for its creator and for nobody else |
| TrekRoutes.InsertKeepsInvariant | backend/routes/treks.js:22-23 | storing under a fresh id keeps the collection consistent and one document larger |
| TrekRoutes.RemoveKeepsInvariant | backend/routes/treks.js:48 | deleting a stored id keeps the collection consistent and one document smaller |
| TrekRoutes.TrekStore.List | backend/routes/treks.js:6-17 | unauthenticated → Unauthorized; negative page → ServerError; otherwise the slice of all treks at `(page-1)*10` of at most 10 items, with `total` the collection size whatever the page, the page, and limit 10 |
| TrekRoutes.TrekStore.Get | backend/routes/treks.js:55-63 | any authenticated caller gets the stored document, or NotFound when the id is not stored |
| TrekRoutes.TrekStore.Create | backend/routes/treks.js:19-28 | a rejected body gives ServerError and leaves the store unchanged; an accepted one is stored under a fresh id with the caller as owner, appended to the listing, growing the store by one |
| TrekRoutes.TrekStore.Update | backend/routes/treks.js:30-41 | Unauthorized, then NotFound, then NotOwner (401), each leaving the store unchanged; otherwise the document gets the body's fields, keeps its owner, and only that document changes |
| TrekRoutes.TrekStore.Delete | backend/routes/treks.js:43-53 | same check order as update; otherwise "Trek removed", only that id is gone, the listing loses exactly that trek, and the store shrinks by one |
| TrekRoutes.TrekStore.Insert | backend/routes/treks.js:23 | saving a new document stores it under the next id, lists it last, keeps the collection consistent and grows it by one |
| TrekRoutes.TrekStore.Replace | backend/routes/treks.js:36 | `findByIdAndUpdate` replaces the stored document in place: order and other documents unchanged |
| TrekRoutes.TrekStore.RemoveById | backend/routes/treks.js:48 | `findByIdAndDelete` removes exactly that id, the listing loses exactly that trek, and the collection shrinks by one |
| TrekRoutes.DeleteTwice | backend/routes/treks.js:45-46 | deleting an id a second time answers NotFound |
| TrekRoutes.CreateThenGet | backend/routes/treks.js:22-24 | a created trek is read back unchanged by any authenticated caller, and creation succeeds exactly when the body is accepted |
| TrekList.FilteredTreks | frontends/src/components/TrekList.jsx:66-69 | the shown treks are exactly the fetched ones that match the search, as an order-preserving subsequence no longer than the fetched page |
| TrekList.Matches | frontends/src/components/TrekList.jsx:66-69 | an empty search matches every trek, and a matching location search text is no longer than the trek's location |
| TrekList.SearchIgnoresCase | frontends/src/components/TrekList.jsx:67 | lower-casing the typed location text, or the trek's location, does not change whether the trek matches |
| TrekList.FilteredTreksCounts | frontends/src/components/TrekList.jsx:66-69 | each matching trek is shown as many times as it was fetched, and no other trek is shown |
| TrekList.FilterWithoutIdCommute | frontends/src/components/TrekList.jsx:53 | dropping a trek by id before or after filtering gives the same rows |
| TrekList.EmptySearchKeepsAll | frontends/src/components/TrekList.jsx:66-69 | with an empty search every fetched trek is shown, in order |
| TrekList.LocationSearch | frontends/src/components/TrekList.jsx:67 | a location search keeps exactly the treks whose lower-cased location contains the lower-cased text |
| TrekList.DifficultySearch | frontends/src/components/TrekList.jsx:68 | a difficulty search keeps exactly the treks of that difficulty |
| TrekList.PageCount | frontends/src/components/TrekList.jsx:71 | the page count `n` is `ceil(total / 10)`: `(n-1)*10 < total <= n*10` |
| TrekList.PagesUpToPrefix | frontends/src/components/TrekList.jsx:71 | the list route's first k pages are the first k·`PageLimit` treks |
| TrekList.PagesCoverCollection | frontends/src/components/TrekList.jsx:71 | pages `1..pageCount` together hold every trek once, in order, and the next page is empty |
| TrekList.WithoutIdRemovesOne | frontends/src/components/TrekList.jsx:53-54 | filtering out an id held by one fetched trek removes exactly one trek, matching `total - 1` |
| TrekList.WithoutIdKeepsAll | frontends/src/components/TrekList.jsx:53 | filtering out an id no fetched trek has keeps the list |
| TrekList.TrekListView.constructor | frontends/src/components/TrekList.jsx:14-19 | the view starts with no treks, total 0, page 1 and an empty search |
| TrekList.TrekListView.Loaded | frontends/src/components/TrekList.jsx:36-37 | a fetched page replaces the treks and total, keeping page and search |
| TrekList.TrekListView.HandleDelete | frontends/src/components/TrekList.jsx:48-60 | after a confirmed and accepted delete, the trek is dropped from the page in order, the rows on screen lose exactly that trek, and total drops by one; otherwise nothing changes |
| TrekList.TrekListView.HandleSearchChange | frontends/src/components/TrekList.jsx:62-64 | only the named search input changes |
| TrekList.TrekListView.SetPage | frontends/src/components/TrekList.jsx:178 | the pagination control sets the page and nothing else |
| TrekForm.WithField | frontends/src/components/EditTrek.jsx:50 | the named input takes the value and every other input is unchanged |
| TrekForm.RenderImages | frontends/src/components/EditTrek.jsx:37 | the images text starts with the first URL, followed by `", "` when there are two or more |
| TrekForm.MapTrim | frontends/src/components/EditTrek.jsx:58 | each piece is trimmed, count and order kept; every result is trimmed, and a list of already trimmed pieces comes back unchanged |
| TrekForm.ParseImages | frontends/src/components/AddTrek.jsx:34 | the images text yields one URL per comma plus one, each the trim of the corresponding piece of the split, so trimmed and comma-free |
| TrekForm.EmptyImagesText | frontends/src/components/AddTrek.jsx:34 | an empty images text is submitted as `[""]` |
| TrekForm.ParseRenderTrims | frontends/src/components/EditTrek.jsx:37 | parsing the rendering of a non-empty list of comma-free URLs gives the URLs trimmed |
| TrekForm.ParseRenderRoundTrip | frontends/src/components/EditTrek.jsx:58 | a non-empty list of trimmed, comma-free URLs survives rendering and parsing |
| TrekForm.EmptyImagesNotPreserved | frontends/src/components/EditTrek.jsx:37 | the empty image list renders to `""` and comes back as `[""]`, not `[]` |
| TrekForm.RenderedCommaCount | frontends/src/components/EditTrek.jsx:37 | rendering a non-empty list of comma-free URLs puts exactly one comma between each two of them |
| TrekForm.ToPayload | frontends/src/components/AddTrek.jsx:34 | the body carries name, location, difficulty and the price text unchanged, and the images parsed from the images text, one per comma plus one |
| TrekForm.ErrorText | frontends/src/components/AddTrek.jsx:39 | the shown text is the server's message when it has a non-empty one and the fallback otherwise, so never empty when the fallback is not |
| AddTrek.UntouchedSubmission | frontends/src/components/AddTrek.jsx:21 | submitting the untouched add form sends empty name, location and price, difficulty "Easy" and images `[""]` |
| AddTrek.AddTrekPage.constructor | frontends/src/components/AddTrek.jsx:21-22 | the form starts empty with difficulty "Easy" and no error |
| AddTrek.AddTrekPage.HandleChange | frontends/src/components/AddTrek.jsx:25-27 | only the named input changes |
| AddTrek.AddTrekPage.HandleSubmit | frontends/src/components/AddTrek.jsx:29-35 | the error is cleared and the body is the parsed form, one image per comma plus one |
| AddTrek.AddTrekPage.SubmitFailed | frontends/src/components/AddTrek.jsx:38-39 | the error shows the server's message, or "Error adding trek" when there is none |
| EditTrek.FormOfTrek | frontends/src/components/EditTrek.jsx:32-38 | name, location and difficulty are copied verbatim, the price text is the given one, the images text is the `", "`-joined image list, and it parses back to the trek's images when they are non-empty, trimmed and comma-free |
| EditTrek.UnchangedEditKeepsTrek | frontends/src/components/EditTrek.jsx:32-59 | loading a valid trek with non-empty, clean images and saving it unchanged stores the same document |
| EditTrek.UnchangedEditOfImagelessTrek | frontends/src/components/EditTrek.jsx:37 | loading a trek without images and saving it unchanged stores one empty image |
| EditTrek.EditTrekPage.constructor | frontends/src/components/EditTrek.jsx:21-23 | the form starts empty, with no error, while loading |
| EditTrek.EditTrekPage.FetchSucceeded | frontends/src/components/EditTrek.jsx:32-39 | the form is filled from the fetched trek and loading stops |
| EditTrek.EditTrekPage.FetchFailed | frontends/src/components/EditTrek.jsx:40-43 | the error shows the server's message or "Error fetching trek", and loading stops |
| EditTrek.EditTrekPage.HandleChange | frontends/src/components/EditTrek.jsx:49-51 | only the named input changes |
| EditTrek.EditTrekPage.HandleSubmit | frontends/src/components/EditTrek.jsx:53-59 | the error is cleared and the body is the parsed form, one image per comma plus one |
| EditTrek.EditTrekPage.SubmitFailed | frontends/src/components/EditTrek.jsx:62-63 | the error shows the server's message, or "Error updating trek" when there is none |

## Left out

- Authentication: token issuing and checking, and the `auth` middleware, are not part of this model. Every route takes the caller as `Option<UserId>`, and `None` stands for a request the middleware rejects. The middleware's rejection is taken to answer 401 (`TrekRoutes.Status`); its actual code and message are not part of this model.
- Document ids: MongoDB ObjectIds are modelled as natural numbers handed out by a counter. Casting of ids from request parameters is not modelled, so a malformed id's cast error (a 500) is left out.
- Owner field: the `user` path of the schema has no validator. The model always stores the creating caller there, so a trek without an owner is not represented.
- Timestamps (`createdAt`, `updatedAt`) are not modelled.
- Server errors other than a rejected create body and a negative page are left out: connection loss, and any other database exception that reaches the catch-all 500.
- Numbers: prices are `real`. JSON number casting, `parseFloat` of the price text and `price.toString()` are not modelled. The form keeps the price as text and the edit page takes the rendered price text as a parameter.
- `parseInt` returns exact integers: the loss of precision of very long digit strings is not modelled, and neither is an array-valued `page` query.
- `TrekRoutes.ApplyUpdate`: the update body is modelled with all five fields present, as both forms always send them. An update body with missing fields (left untouched by `$set`) is not modelled.
- `TrekRoutes.ApplyUpdate`: the contract states only that id and owner survive, and the field-by-field overwrite is its definition. `TrekRoutes.UpdateAgreesWithValidation` ties it to `TrekModel.Validate`.
- JsStrings.ParseInt: the contract states the NaN case and the sign of the result only; its value is tied to the digits by `JsStrings.ParseIntOfNatToString`, for decimal renderings of natural numbers.
- JsStrings.Includes: the contract states the empty-text case and a length bound only; `JsStrings.IncludesOccurs` states when the result holds.
- JsStrings.Join: the contract states the beginning of the text and a length bound; the full text is tied to `split` by `JsStrings.SplitJoin` and `JsStrings.JoinSplit`.
- TrekForm.RenderImages: the contract states the beginning of the text only; the full text is tied to parsing by `TrekForm.ParseRenderTrims` and `TrekForm.RenderedCommaCount`.
- TrekList.Matches: the contract states the empty-search case and a length bound; `TrekList.LocationSearch` and `TrekList.DifficultySearch` state which treks each search keeps.
- `JsStrings.ToLower` lower-cases ASCII letters only: Unicode case mapping is not modelled.
- Strings are sequences of characters; UTF-16 surrogate pairs are not modelled.
- UI behaviour is not modelled: rendering, toasts, navigation, `window.confirm` (a `confirmed` parameter) and the loading skeleton. The asynchronous request life cycle becomes one method per outcome.
- The delete request inside `handleDelete` is not modelled. Its outcome is a `deleted` parameter.
- `frontends/src/context/AuthContext.jsx`, `frontends/src/App.js`, `Login.jsx`, `Signup.jsx`, `backend/server.js` and `frontends/src/setupProxy.js` are routing, storage and HTTP plumbing, and are not part of this model.
