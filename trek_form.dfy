/**
 * The trek form shared by the add and edit pages
 * (frontends/src/components/AddTrek.jsx, EditTrek.jsx): the `formData`
 * record of input texts, the `handleChange` update of one input, the images
 * text that lists image URLs separated by commas, and the request body built
 * on submit.
 */
module TrekForm {
  import opened Wrappers
  import opened JsStrings

  /** `formData`: the text of each input. */
  datatype FormData = FormData(name: string, location: string, difficulty: string, price: string, images: string)

  /** The inputs, by their `name` attribute. */
  datatype FormField = NameInput | LocationInput | DifficultyInput | PriceInput | ImagesInput

  /** The text of one input. */
  function Get(form: FormData, field: FormField): string {
    match field
    case NameInput => form.name
    case LocationInput => form.location
    case DifficultyInput => form.difficulty
    case PriceInput => form.price
    case ImagesInput => form.images
  }

  /** `{ ...formData, [e.target.name]: e.target.value }`: the named input takes the value and no other input changes. */
  function WithField(form: FormData, field: FormField, value: string): (r: FormData)
    ensures Get(r, field) == value
    ensures forall other :: other != field ==> Get(r, other) == Get(form, other)
  {
    match field
    case NameInput => form.(name := value)
    case LocationInput => form.(location := value)
    case DifficultyInput => form.(difficulty := value)
    case PriceInput => form.(price := value)
    case ImagesInput => form.(images := value)
  }

  /** `images.join(', ')`: the images text of a stored image list. */
  function RenderImages(images: seq<string>): (r: string)
    ensures images != [] ==> images[0] <= r
    ensures |images| >= 2 ==> images[0] + ", " <= r
  {
    Join(images, ", ")
  }

  /** `.map(img => img.trim())`. */
  function MapTrim(parts: seq<string>): (r: seq<string>)
    ensures |r| == |parts|
    ensures forall i :: 0 <= i < |parts| ==> r[i] == Trim(parts[i])
    ensures forall i :: 0 <= i < |r| ==> IsTrimmed(r[i])
    ensures (forall i :: 0 <= i < |parts| ==> IsTrimmed(parts[i])) ==> r == parts
  {
    seq(|parts|, i requires 0 <= i < |parts| => Trim(parts[i]))
  }

  /** `text.split(',').map(img => img.trim())`: one trimmed, comma-free entry per comma plus one. */
  function ParseImages(text: string): (r: seq<string>)
    ensures |r| == Count(text, ',') + 1
    ensures forall i :: 0 <= i < |r| ==> IsTrimmed(r[i]) && ',' !in r[i]
    ensures forall i :: 0 <= i < |r| ==> r[i] == Trim(Split(text, ',')[i])
  {
    var pieces := Split(text, ',');
    forall i | 0 <= i < |pieces| ensures ',' !in Trim(pieces[i]) {
      TrimKeepsOut(pieces[i], ',');
    }
    MapTrim(pieces)
  }

  /** An empty images text is submitted as one empty image, not as no image. */
  lemma EmptyImagesText()
    ensures ParseImages("") == [""]
  {
    assert Split("", ',') == [""];
  }

  /**
   * Rendering puts `", "` after the first entry: splitting that text gives the
   * first entry and then the pieces of the rest with a blank in front of the first.
   */
  lemma SplitRenderCons(head: string, tail: seq<string>)
    requires tail != [] && ',' !in head
    ensures Split(RenderImages([head] + tail), ',') ==
      [head] + ([[' '] + Split(RenderImages(tail), ',')[0]] + Split(RenderImages(tail), ',')[1..])
  {
    var images := [head] + tail;
    var joinedTail := RenderImages(tail);
    assert images[1..] == tail;
    assert RenderImages(images) == head + [','] + ([' '] + joinedTail) by {
      assert ", " == [','] + [' '];
    }
    SplitAfterPiece(head, [' '] + joinedTail, ',');
    assert ([' '] + joinedTail)[1..] == joinedTail;
  }

  /** Parsing a rendering with a first entry in front trims that entry and parses the rest as before. */
  lemma ParseRenderCons(head: string, tail: seq<string>)
    requires tail != [] && ',' !in head
    ensures ParseImages(RenderImages([head] + tail)) == [Trim(head)] + ParseImages(RenderImages(tail))
  {
    var rest := Split(RenderImages(tail), ',');
    var blanked := [[' '] + rest[0]] + rest[1..];
    SplitRenderCons(head, tail);
    MapTrimCons(head, blanked);
    MapTrimLeadingBlank(rest);
  }

  /**
   * Parsing the rendering of a non-empty list of comma-free entries gives the
   * entries trimmed: `join(', ')` adds a blank after each comma and `trim`
   * takes it away again.
   */
  lemma {:induction false} ParseRenderTrims(images: seq<string>)
    requires images != []
    requires forall img <- images :: ',' !in img
    ensures ParseImages(RenderImages(images)) == MapTrim(images)
  {
    if |images| == 1 {
      SplitWithoutSeparator(images[0], ',');
    } else {
      var head, tail := images[0], images[1..];
      assert [head] + tail == images;
      ParseRenderCons(head, tail);
      ParseRenderTrims(tail);
      MapTrimCons(head, tail);
    }
  }

  /** Trimming the pieces does not see a blank added in front of the first one. */
  lemma MapTrimLeadingBlank(pieces: seq<string>)
    requires pieces != []
    ensures MapTrim([[' '] + pieces[0]] + pieces[1..]) == MapTrim(pieces)
  {
    MapTrimBlankCons(pieces[0], pieces[1..]);
    MapTrimFirst(pieces);
  }

  lemma MapTrimBlankCons(head: string, parts: seq<string>)
    ensures MapTrim([[' '] + head] + parts) == [Trim(head)] + MapTrim(parts)
  {
    MapTrimCons([' '] + head, parts);
    TrimSkipsLeadingWhitespace(' ', head);
  }

  lemma MapTrimFirst(parts: seq<string>)
    requires parts != []
    ensures MapTrim(parts) == [Trim(parts[0])] + MapTrim(parts[1..])
  {
    MapTrimCons(parts[0], parts[1..]);
    assert [parts[0]] + parts[1..] == parts;
  }

  lemma MapTrimCons(head: string, parts: seq<string>)
    ensures MapTrim([head] + parts) == [Trim(head)] + MapTrim(parts)
  {
    var a := [head] + parts;
    var l, r := MapTrim(a), [Trim(head)] + MapTrim(parts);
    assert |l| == |r|;
    forall i | 0 <= i < |l| ensures l[i] == r[i] {
      if i > 0 {
        assert a[i] == parts[i - 1];
      }
    }
  }

  /** Round trip: a non-empty list of trimmed, comma-free image URLs survives rendering and parsing. */
  lemma ParseRenderRoundTrip(images: seq<string>)
    requires images != []
    requires forall img <- images :: ',' !in img && IsTrimmed(img)
    ensures ParseImages(RenderImages(images)) == images
  {
    ParseRenderTrims(images);
  }

  /** Rendering a non-empty list of comma-free URLs puts one comma between each two of them. */
  lemma RenderedCommaCount(images: seq<string>)
    requires images != []
    requires forall img <- images :: ',' !in img
    ensures Count(RenderImages(images), ',') == |images| - 1
  {
    ParseRenderTrims(images);
  }

  /** The round trip fails for the empty list: it comes back as one empty image. */
  lemma EmptyImagesNotPreserved()
    ensures RenderImages([]) == ""
    ensures ParseImages(RenderImages([])) == [""]
    ensures ParseImages(RenderImages([])) != []
  {
    EmptyImagesText();
  }

  /** The request body: the input texts with the images text parsed; the price stays text (see README). */
  datatype Payload = Payload(name: string, location: string, difficulty: string, price: string, images: seq<string>)

  /** `{ ...formData, price: parseFloat(formData.price), images: formData.images.split(',').map(img => img.trim()) }` */
  function ToPayload(form: FormData): (p: Payload)
    ensures p.name == form.name && p.location == form.location && p.difficulty == form.difficulty
    ensures |p.images| == Count(form.images, ',') + 1
    ensures p.price == form.price && p.images == ParseImages(form.images)
  {
    Payload(form.name, form.location, form.difficulty, form.price, ParseImages(form.images))
  }

  /** `err.response?.data?.msg || fallback`: the server's message unless it is missing or empty. */
  function ErrorText(serverMsg: Option<string>, fallback: string): (r: string)
    ensures serverMsg.Some? && serverMsg.value != [] ==> r == serverMsg.value
    ensures r == fallback || (serverMsg == Some(r) && r != [])
    ensures fallback != [] ==> r != []
  {
    if serverMsg.Some? && serverMsg.value != [] then serverMsg.value else fallback
  }
}
