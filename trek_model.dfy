/**
 * The trek document schema (backend/models/Trek.js): which field values a
 * trek may be saved with, how they are normalised on the way in (`trim` on
 * name and location, `[]` as the default image list) and which error each
 * field reports when it is rejected.
 */
module TrekModel {
  import opened Wrappers
  import opened JsStrings
  import opened SeqUtil

  /** Document identifiers (ObjectIds) of users and treks. */
  type UserId = nat
  type TrekId = nat

  /** A stored trek; `owner` is the schema's `user` field. Timestamps are not modelled. */
  datatype Trek = Trek(
    id: TrekId,
    owner: UserId,
    name: string,
    location: string,
    difficulty: string,
    price: real,
    images: seq<string>)

  /** The fields of a request body; `None` is a field that is absent. */
  datatype TrekInput = TrekInput(
    name: Option<string>,
    location: Option<string>,
    difficulty: Option<string>,
    price: Option<real>,
    images: Option<seq<string>>)

  /** The schema paths that carry validators, in schema order. */
  datatype Path = NamePath | LocationPath | DifficultyPath | PricePath

  /** One entry of a Mongoose validation error. */
  datatype FieldError = FieldError(path: Path, message: string)

  /** The `enum` of the difficulty path. */
  predicate IsDifficulty(d: string) {
    d == "Easy" || d == "Medium" || d == "Hard"
  }

  /** What the schema demands of a stored document. */
  predicate ValidTrek(t: Trek) {
    && t.name != [] && IsTrimmed(t.name)
    && t.location != [] && IsTrimmed(t.location)
    && IsDifficulty(t.difficulty)
    && t.price >= 0.0
  }

  /** Whether the schema accepts the given field of a body, stated on the raw body. */
  predicate FieldAccepted(input: TrekInput, p: Path) {
    match p
    case NamePath => input.name.Some? && Trim(input.name.value) != []
    case LocationPath => input.location.Some? && Trim(input.location.value) != []
    case DifficultyPath => input.difficulty.Some? && IsDifficulty(input.difficulty.value)
    case PricePath => input.price.Some? && input.price.value >= 0.0
  }

  function TrimOption(v: Option<string>): Option<string> {
    match v
    case Some(s) => Some(Trim(s))
    case None => None
  }

  /**
   * Casting a body into a document: the `trim` setters of name and location
   * and the `default: []` of images; difficulty and price are kept as given.
   */
  function Normalize(input: TrekInput): (n: TrekInput)
    ensures n.name.Some? == input.name.Some? && n.location.Some? == input.location.Some?
    ensures n.name.Some? ==> IsTrimmed(n.name.value)
    ensures n.location.Some? ==> IsTrimmed(n.location.value)
    ensures n.images.Some?
    ensures input.name.Some? ==> n.name.value == Trim(input.name.value)
    ensures input.location.Some? ==> n.location.value == Trim(input.location.value)
    ensures n.difficulty == input.difficulty && n.price == input.price
    ensures n.images == Some(input.images.GetOr([]))
  {
    input.(name := TrimOption(input.name),
           location := TrimOption(input.location),
           images := Some(input.images.GetOr([])))
  }

  /** Normalising a normalised body changes nothing. */
  lemma NormalizeIdempotent(input: TrekInput)
    ensures Normalize(Normalize(input)) == Normalize(input)
  {
    if input.name.Some? { TrimIdempotent(input.name.value); }
    if input.location.Some? { TrimIdempotent(input.location.value); }
  }

  /**
   * The message of the first failing validator of one path of a normalised
   * body: `required` (an absent value or, for strings, the empty string),
   * then `enum` or `min`.
   */
  function PathError(n: TrekInput, p: Path): (r: Option<string>)
    ensures r.Some? ==> r.value != []
    ensures r.None? && p == NamePath ==> n.name.Some? && n.name.value != []
    ensures r.None? && p == LocationPath ==> n.location.Some? && n.location.value != []
    ensures r.None? && p == DifficultyPath ==> n.difficulty.Some? && IsDifficulty(n.difficulty.value)
    ensures r.None? && p == PricePath ==> n.price.Some? && n.price.value >= 0.0
  {
    match p
    case NamePath =>
      if n.name.None? || n.name.value == [] then Some("Name is required") else None
    case LocationPath =>
      if n.location.None? || n.location.value == [] then Some("Location is required") else None
    case DifficultyPath =>
      if n.difficulty.None? || n.difficulty.value == [] then Some("Difficulty is required")
      else if !IsDifficulty(n.difficulty.value) then
        Some("`" + n.difficulty.value + "` is not a valid enum value for path `difficulty`.")
      else None
    case PricePath =>
      if n.price.None? then Some("Price is required")
      else if n.price.value < 0.0 then Some("Price must be positive")
      else None
  }

  function ErrorsAt(n: TrekInput, p: Path): seq<FieldError> {
    match PathError(n, p)
    case Some(m) => [FieldError(p, m)]
    case None => []
  }

  /** All validation errors of a normalised body, one per failing path, in schema order. */
  function Errors(n: TrekInput): seq<FieldError> {
    ErrorsAt(n, NamePath) + ErrorsAt(n, LocationPath) + ErrorsAt(n, DifficultyPath) + ErrorsAt(n, PricePath)
  }

  /** A path fails its validators on the normalised body exactly when the raw body's field is not accepted. */
  lemma PathErrorMatchesAcceptance(input: TrekInput, p: Path)
    ensures PathError(Normalize(input), p).None? <==> FieldAccepted(input, p)
  {
  }

  /** The error list names a path exactly when that path fails. */
  lemma ErrorsNamePath(n: TrekInput, p: Path)
    ensures (exists e <- Errors(n) :: e.path == p) <==> PathError(n, p).Some?
  {
    var a, b, c, d := ErrorsAt(n, NamePath), ErrorsAt(n, LocationPath), ErrorsAt(n, DifficultyPath), ErrorsAt(n, PricePath);
    assert Errors(n) == a + b + c + d;
    assert forall e <- a :: e.path == NamePath;
    assert forall e <- b :: e.path == LocationPath;
    assert forall e <- c :: e.path == DifficultyPath;
    assert forall e <- d :: e.path == PricePath;
    if PathError(n, p).Some? {
      assert FieldError(p, PathError(n, p).value) in Errors(n);
    }
  }

  /**
   * `new Trek({user, ...body}).save()`: normalise, run every validator, and either
   * produce the document (with the given generated id and owner) or the list of
   * validation errors.
   */
  function Validate(id: TrekId, owner: UserId, input: TrekInput): (r: Result<Trek, seq<FieldError>>)
    ensures r.Success? <==> forall p :: FieldAccepted(input, p)
    ensures r.Success? ==> ValidTrek(r.value)
    ensures r.Success? ==> r.value.id == id && r.value.owner == owner
    ensures r.Success? ==>
      && input.name.Some? && input.location.Some? && input.difficulty.Some? && input.price.Some?
      && r.value.name == Trim(input.name.value)
      && r.value.location == Trim(input.location.value)
      && r.value.difficulty == input.difficulty.value
      && r.value.price == input.price.value
      && r.value.images == input.images.GetOr([])
    ensures r.Failure? ==> forall p :: (exists e <- r.error :: e.path == p) <==> !FieldAccepted(input, p)
  {
    var n := Normalize(input);
    var errs := Errors(n);
    forall p ensures (exists e <- errs :: e.path == p) <==> !FieldAccepted(input, p) {
      ErrorsNamePath(n, p);
      PathErrorMatchesAcceptance(input, p);
    }
    if errs == [] then
      assert forall p :: FieldAccepted(input, p);
      Success(Trek(id, owner, n.name.value, n.location.value, n.difficulty.value, n.price.value, n.images.value))
    else
      assert !forall p :: FieldAccepted(input, p) by {
        var e := errs[0];
        assert !FieldAccepted(input, e.path);
      }
      Failure(errs)
  }

  /** A body without a name is rejected with "Name is required". */
  lemma MissingNameRejected(id: TrekId, owner: UserId, input: TrekInput)
    requires input.name.None? || Trim(input.name.value) == []
    ensures Validate(id, owner, input).Failure?
    ensures FieldError(NamePath, "Name is required") in Validate(id, owner, input).error
  {
    var n := Normalize(input);
    assert Errors(n)[0] == FieldError(NamePath, "Name is required");
  }

  /** A body without a location is rejected with "Location is required". */
  lemma MissingLocationRejected(id: TrekId, owner: UserId, input: TrekInput)
    requires input.location.None? || Trim(input.location.value) == []
    ensures Validate(id, owner, input).Failure?
    ensures FieldError(LocationPath, "Location is required") in Validate(id, owner, input).error
  {
    var n := Normalize(input);
    var errs := Errors(n);
    assert errs == ErrorsAt(n, NamePath) + [FieldError(LocationPath, "Location is required")]
      + ErrorsAt(n, DifficultyPath) + ErrorsAt(n, PricePath);
  }

  /** A difficulty outside Easy / Medium / Hard is rejected on the difficulty path, whatever else the body holds. */
  lemma UnknownDifficultyRejected(id: TrekId, owner: UserId, input: TrekInput)
    requires input.difficulty.Some? && !IsDifficulty(input.difficulty.value)
    ensures Validate(id, owner, input).Failure?
    ensures exists e <- Validate(id, owner, input).error :: e.path == DifficultyPath
  {
    assert !FieldAccepted(input, DifficultyPath);
  }

  /** A negative price is rejected with "Price must be positive", while a price of zero passes the `min` validator. */
  lemma PriceBound(id: TrekId, owner: UserId, input: TrekInput)
    requires input.price.Some?
    ensures input.price.value < 0.0 ==>
      FieldError(PricePath, "Price must be positive") in Validate(id, owner, input).error
    ensures input.price.value == 0.0 ==> FieldAccepted(input, PricePath)
  {
    var n := Normalize(input);
    if input.price.value < 0.0 {
      var errs := Errors(n);
      assert errs == ErrorsAt(n, NamePath) + ErrorsAt(n, LocationPath) + ErrorsAt(n, DifficultyPath)
        + [FieldError(PricePath, "Price must be positive")];
    }
  }

  /** A body with no images stores the empty list. */
  lemma ImagesDefaultEmpty(id: TrekId, owner: UserId, input: TrekInput)
    requires input.images.None?
    requires forall p :: FieldAccepted(input, p)
    ensures Validate(id, owner, input).Success? && Validate(id, owner, input).value.images == []
  {
  }

  /** The treks of `ts` whose id is not `id`, in their order (`ts.filter(t => t._id !== id)`). */
  function WithoutId(ts: seq<Trek>, id: TrekId): (r: seq<Trek>)
    ensures forall t :: t in r <==> t in ts && t.id != id
    ensures IsSubsequence(r, ts)
  {
    if ts == [] then []
    else
      var rest := WithoutId(ts[1..], id);
      if ts[0].id == id then
        assert rest == [] || rest[0] != ts[0];
        rest
      else
        assert ([ts[0]] + rest)[1..] == rest;
        [ts[0]] + rest
  }

  /** Filtering by id keeps every other trek as often as it occurs, duplicates included. */
  lemma {:induction false} WithoutIdCounts(ts: seq<Trek>, id: TrekId)
    ensures forall t :: multiset(WithoutId(ts, id))[t] == if t.id != id then multiset(ts)[t] else 0
  {
    if ts != [] {
      WithoutIdCounts(ts[1..], id);
      assert ts == [ts[0]] + ts[1..];
    }
  }
}
