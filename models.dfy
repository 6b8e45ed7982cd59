/** The records of the gallery (artists, genres, artworks, events and the three
    ratchet tables), their size limits, defaults and choices, and the builders of
    upload file names and paths. */
module Models {
  import opened Wrappers

  // Size limits of the character fields.
  const ArtistNameMax := 30          // Artist.first_name, Artist.last_name
  const ArtistSlugMax := 65          // Artist.slug
  const ArtistRatchetKeyMax := 61    // ArtistRatchet.name
  const GenreNameMax := 60           // Genre.name
  const GenreSlugMax := 65           // Genre.slug
  const ArtworkTitleMax := 100       // Artwork.title
  const ArtworkRatchetKeyMax := 100  // ArtworkRatchet.title
  const EventTitleMax := 128         // Event.title
  const EventRatchetKeyMax := 128    // EventRatchet.title
  const EventSlugMax := 132          // Event.slug

  /** Every ratchet row starts with suffix 0. */
  const RatchetInitialSuffix: nat := 0

  // Unit codes of Artwork.UNIT_CHOICES.
  const Centimetres := "C"
  const Inches := "I"

  const StyleChoices := ["TRAD", "ABST", "FIGU", "SEMA", "SEMF"]
  const StatusChoices := ["AVAL", "SOLD"]

  predicate IsUnitChoice(u: string)
  {
    u == Centimetres || u == Inches
  }

  /** `measurement_units` may be a unit code or blank. */
  predicate IsMeasurementUnits(u: string)
  {
    IsUnitChoice(u) || u == ""
  }

  /** The reverse relations declared on Artist by other models' foreign keys. */
  const ArtistReverseRelations: set<string> := {"artwork_artist", "events_presented"}

  datatype Artist = Artist(
    id: nat,
    firstName: string,
    lastName: string,
    slug: string,
    isActive: bool,
    description: string,
    biography: string,   // stored file name, "" when no file
    created: int)

  datatype Genre = Genre(
    name: string,
    slug: string,
    isActive: bool,
    location: string,
    description: string)

  /** An artwork row, together with the artist and genre rows it refers to.
      Dimensions are in hundredths of a unit; `None` is a NULL column. */
  datatype Artwork = Artwork(
    title: string,
    name: string,
    slug: string,
    isActive: bool,
    inventoryName: string,
    internalName: string,
    artist: Artist,
    year: string,
    isRepresentative: bool,
    genre: Genre,
    styleClass: string,
    mediumDescription: string,
    description: string,
    imageHeight: Option<int>,
    imageWidth: Option<int>,
    measurementUnits: string,
    heightMetric: Option<int>,
    widthMetric: Option<int>,
    metricUnits: string,
    heightImperial: Option<int>,
    widthImperial: Option<int>,
    imperialUnits: string,
    price: nat,
    isPriceDisplayed: bool,
    alternativePricingMessage: string,
    status: string,
    created: int)

  datatype Event = Event(
    title: string,
    isActive: bool,
    slug: string,
    eventType: string,
    artists: seq<nat>,
    image: string,       // stored file name, "" when no file
    totalSeats: Option<nat>,
    isAdmission: bool,
    admissionPrice: Option<nat>,
    startDate: int,
    endDate: int,
    time: string,
    location: string,
    details: string,
    created: int)

  /** A fresh artwork as the model's field defaults leave it before the save hooks run. */
  function NewArtwork(title: string, inventoryName: string, internalName: string, artist: Artist,
                      genre: Genre, mediumDescription: string, price: nat, created: int): (a: Artwork)
    ensures a.title == title && a.artist == artist && a.genre == genre && a.price == price
    ensures a.isActive && !a.isRepresentative && a.isPriceDisplayed
    ensures a.styleClass == StyleChoices[0] == "TRAD" && a.status == StatusChoices[0] == "AVAL"
    ensures a.measurementUnits == Inches && IsMeasurementUnits(a.measurementUnits)
    ensures a.metricUnits == Centimetres && a.imperialUnits == Inches
    ensures a.imageHeight.None? && a.imageWidth.None?
    ensures a.heightMetric.None? && a.widthMetric.None? && a.heightImperial.None? && a.widthImperial.None?
    ensures a.alternativePricingMessage == "Please inquire"
    ensures a.name == "" && a.slug == ""
  {
    Artwork(title, "", "", true, inventoryName, internalName, artist, "", false, genre,
            "TRAD", mediumDescription, "", None, None, Inches, None, None, Centimetres,
            None, None, Inches, price, true, "Please inquire", "AVAL", created)
  }

  /** Index of the last occurrence of `c` in `s`, or -1. */
  function LastIndexOf(s: string, c: char): (r: int)
    ensures -1 <= r < |s|
    ensures r >= 0 ==> s[r] == c
    ensures forall i :: r < i < |s| ==> s[i] != c
  {
    if s == [] then -1
    else if s[|s| - 1] == c then |s| - 1
    else LastIndexOf(s[..|s| - 1], c)
  }

  lemma {:induction false} LastIndexOfAppend(a: string, b: string, c: char)
    requires forall i :: 0 <= i < |b| ==> b[i] != c
    ensures LastIndexOf(a + b, c) == LastIndexOf(a, c)
  {
    if b != [] {
      assert (a + b)[..|a + b| - 1] == a + b[..|b| - 1];
      LastIndexOfAppend(a, b[..|b| - 1], c);
    } else {
      assert a + b == a;
    }
  }

  /** The extension `os.path.splitext` gives on POSIX: the text from the last `.` of the
      final path component, unless only dots precede that `.` in the component. */
  function Extension(p: string): (ext: string)
    ensures ext == "" || (ext[0] == '.' && |ext| <= |p| && p[|p| - |ext|..] == ext)
    ensures forall i :: 0 < i < |ext| ==> ext[i] != '.' && ext[i] != '/'
    ensures ext != "" <==>
      exists i, j :: LastIndexOf(p, '/') < i < j < |p| && p[i] != '.' && p[j] == '.'
    ensures ext != "" ==> ext == p[LastIndexOf(p, '.')..]
  {
    var sep := LastIndexOf(p, '/');
    var dot := LastIndexOf(p, '.');
    if dot > sep && exists i :: sep < i < dot && p[i] != '.' then p[dot..] else ""
  }

  /** `get_sluggified_filename`: the slug followed by the upload's extension. */
  function SluggifiedFilename(slug: string, filename: string): (r: string)
    ensures |slug| <= |r| && r[..|slug|] == slug
    ensures |r| == |slug| || r[|slug|] == '.'
    ensures forall i :: |slug| < i < |r| ==> r[i] != '.' && r[i] != '/'
    ensures |r| - |slug| <= |filename| && r[|slug|..] == filename[|filename| - (|r| - |slug|)..]
    ensures r[|slug|..] == Extension(filename)
  {
    slug + Extension(filename)
  }

  /** `os.path.join(a, b)` on POSIX. */
  function PathJoin(a: string, b: string): string
  {
    if |b| > 0 && b[0] == '/' then b
    else if a == [] || a[|a| - 1] == '/' then a + b
    else a + "/" + b
  }

  /** The final component of a POSIX path. */
  function Basename(p: string): string
  {
    p[LastIndexOf(p, '/') + 1..]
  }

  lemma JoinBasename(root: string, name: string)
    requires forall i :: 0 <= i < |name| ==> name[i] != '/'
    ensures |root| <= |PathJoin(root, name)| && PathJoin(root, name)[..|root|] == root
    ensures Basename(PathJoin(root, name)) == name
    ensures PathJoin(root, name) ==
      if root == [] || root[|root| - 1] == '/' then root + name else root + "/" + name
  {
    var r := PathJoin(root, name);
    if root == [] {
      assert r == [] + name;
      LastIndexOfAppend([], name, '/');
    } else if root[|root| - 1] == '/' {
      LastIndexOfAppend(root, name, '/');
    } else {
      assert r == (root + "/") + name;
      LastIndexOfAppend(root + "/", name, '/');
    }
  }

  /** `Artist.get_biography_filepath` and `Event.get_event_image_filepath`: the sluggified
      file name under the model's upload root (`DEFAULT_ARTIST_BIOGRAPHY_ROOT` or
      `DEFAULT_EVENT_IMAGE_ROOT`). */
  function UploadFilepath(root: string, slug: string, filename: string): (r: string)
    requires forall i :: 0 <= i < |slug| ==> slug[i] != '/'
    ensures |root| <= |r| && r[..|root|] == root
    ensures Basename(r) == SluggifiedFilename(slug, filename)
    ensures r == root + SluggifiedFilename(slug, filename) || r == root + "/" + SluggifiedFilename(slug, filename)
    ensures r == root + SluggifiedFilename(slug, filename) <==> root == [] || root[|root| - 1] == '/'
  {
    JoinBasename(root, SluggifiedFilename(slug, filename));
    PathJoin(root, SluggifiedFilename(slug, filename))
  }

  /** A dot that starts the final component (a "hidden" file name) is no extension. */
  lemma LeadingDotIsNoExtension(dir: string, name: string)
    requires |name| > 0 && name[0] == '.'
    requires forall i :: 0 < i < |name| ==> name[i] != '.' && name[i] != '/'
    ensures Extension(dir + "/" + name) == ""
  {
    var p := dir + "/" + name;
    LastIndexOfAppend(dir + "/", name, '/');
    assert LastIndexOf(p, '/') == |dir|;
  }
}
