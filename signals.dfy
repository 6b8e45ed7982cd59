/** The save and delete hooks: slug ratchets, genre slugs, unit mirroring, the
    one-representative-artwork rule, cascade deactivation and the choice of the
    uploaded file that a save or a delete removes. */
module Signals {
  import opened Wrappers
  import opened Text
  import opened Models

  // ---------------------------------------------------------------------------
  // Ratchet suffixes

  /** `str.zfill(str(n), 3)`: at least three digits, never truncated. */
  function Suffix(n: nat): (r: string)
    ensures AllDigits(r)
    ensures |r| == if |DecimalString(n)| >= 3 then |DecimalString(n)| else 3
    ensures r[|r| - |DecimalString(n)|..] == DecimalString(n)
    ensures DigitsValue(r) == n
  {
    var d := DecimalString(n);
    var r := ZFill(d, 3);
    if |d| < 3 then
      assert r == Zeros(3 - |d|) + d;
      LeadingZerosValue(3 - |d|, d);
      r
    else r
  }

  /** Distinct counters give distinct suffixes, and a larger counter a larger suffix value. */
  lemma SuffixOrder(n: nat, m: nat)
    requires n < m
    ensures Suffix(n) != Suffix(m)
    ensures DigitsValue(Suffix(n)) < DigitsValue(Suffix(m))
  {
  }

  /** The first reservation of a key takes its counter from 0 to 1. */
  lemma FirstSuffix()
    ensures Suffix(RatchetInitialSuffix + 1) == "001"
  {
    assert DecimalString(1) == "1";
  }

  /** `'-'.join([key, suffix])`, the text that is slugified. */
  function SlugSource(key: string, n: nat): string
  {
    key + "-" + Suffix(n)
  }

  lemma {:induction false} SlugSourcesDiffer(key: string, n: nat, m: nat)
    requires n != m
    ensures SlugSource(key, n) != SlugSource(key, m)
  {
    var a, b := SlugSource(key, n), SlugSource(key, m);
    assert a[|key| + 1..] == Suffix(n);
    assert b[|key| + 1..] == Suffix(m);
  }

  /** The counter a ratchet table holds for `key`; a missing row is created with suffix 0. */
  function Counter(m: map<string, nat>, key: string): nat
  {
    if key in m then m[key] else RatchetInitialSuffix
  }

  /** Slugify keeps two different digit runs after the same key and dash apart. Django's
      `slugify` does: the digits after the last dash survive it unchanged. */
  ghost predicate KeepsDigitSuffixes(slugify: string -> string)
  {
    forall k, d1, d2 :: AllDigits(d1) && AllDigits(d2) && d1 != d2 ==>
      slugify(k + "-" + d1) != slugify(k + "-" + d2)
  }

  /** Two reservations in a row on one key give consecutive counters and, for a slugify
      that keeps digit suffixes apart, two different slugs. */
  lemma SuccessiveReservations(m: map<string, nat>, key: string, slugify: string -> string)
    requires KeepsDigitSuffixes(slugify)
    ensures var n1 := Counter(m, key) + 1;
            var n2 := Counter(m[key := n1], key) + 1;
            n2 == n1 + 1 && slugify(SlugSource(key, n1)) != slugify(SlugSource(key, n2))
  {
    var n1 := Counter(m, key) + 1;
    SuffixOrder(n1, n1 + 1);
    assert slugify(key + "-" + Suffix(n1)) != slugify(key + "-" + Suffix(n1 + 1));
  }

  /** A slugify that maps `"A B"` and `"a-b"` to one slug, as Django's does, can still keep
      digit suffixes apart: the premise above does not ask for injectivity. */
  lemma DigitSuffixesWithoutInjectivity()
    ensures var slugify := (x: string) => if x == "A B" then "a-b" else x;
            slugify("A B") == slugify("a-b") && KeepsDigitSuffixes(slugify)
  {
    var slugify := (x: string) => if x == "A B" then "a-b" else x;
    forall k, d1, d2 | AllDigits(d1) && AllDigits(d2) && d1 != d2
      ensures slugify(k + "-" + d1) != slugify(k + "-" + d2)
    {
      var a, b := k + "-" + d1, k + "-" + d2;
      assert a[|k| + 1..] == d1 && b[|k| + 1..] == d2;
      EndsInDigitOrDash(k, d1);
      EndsInDigitOrDash(k, d2);
    }
  }

  lemma EndsInDigitOrDash(k: string, d: string)
    requires AllDigits(d)
    ensures k + "-" + d != "A B"
  {
    var a := k + "-" + d;
    if d == [] {
      assert a[|a| - 1] == '-';
    } else {
      assert a[|a| - 1] == d[|d| - 1];
    }
  }

  // ---------------------------------------------------------------------------
  // Ratchet keys and their size budgets

  /** `str(artist).lower()`: first and last name joined by a space. */
  function ArtistRatchetKey(a: Artist): (key: string)
    ensures |key| == |a.firstName| + 1 + |a.lastName|
    ensures key == Lower(a.firstName) + " " + Lower(a.lastName)
  {
    LowerConcat(a.firstName + " ", a.lastName);
    LowerConcat(a.firstName, " ");
    Lower(a.firstName + " " + a.lastName)
  }

  /** Names within their limits give a key within ArtistRatchet.name's limit, and with a
      three-digit counter a slug text within Artist.slug's limit. */
  lemma ArtistBudget(a: Artist, n: nat)
    requires |a.firstName| <= ArtistNameMax && |a.lastName| <= ArtistNameMax
    requires n < 1000
    ensures ArtistRatchetKeyMax == 2 * ArtistNameMax + 1
    ensures |ArtistRatchetKey(a)| <= ArtistRatchetKeyMax
    ensures |SlugSource(ArtistRatchetKey(a), n)| <= ArtistSlugMax == ArtistRatchetKeyMax + 4
  {
    DecimalStringLength(n);
  }

  lemma ArtworkBudget(a: Artwork)
    requires |a.title| <= ArtworkTitleMax
    ensures |Lower(a.title)| <= ArtworkRatchetKeyMax
  {
  }

  lemma EventBudget(e: Event, n: nat)
    requires |e.title| <= EventTitleMax
    requires n < 1000
    ensures |Lower(e.title)| <= EventRatchetKeyMax
    ensures |SlugSource(Lower(e.title), n)| <= EventSlugMax == EventTitleMax + 4
  {
    DecimalStringLength(n);
  }

  // ---------------------------------------------------------------------------
  // Genre slug (no ratchet)

  /** `slugify__genre`: the slug is recomputed from the lower-cased name when the name
      changed or the slug is empty; nothing else of the genre changes. */
  function SlugifyGenre(instance: Genre, changed: set<string>, slugify: string -> string): (saved: Genre)
    ensures saved == instance.(slug := saved.slug)
    ensures "name" in changed || instance.slug == "" ==> saved.slug == slugify(Lower(instance.name))
    ensures !("name" in changed || instance.slug == "") ==> saved == instance
  {
    if "name" in changed || instance.slug == "" then instance.(slug := slugify(Lower(instance.name)))
    else instance
  }

  // ---------------------------------------------------------------------------
  // Unit mirroring

  /** Nearest integer to num / den, halfway cases away from zero. */
  function RoundHalfAway(num: int, den: nat): (r: int)
    requires den > 0
    ensures num >= 0 ==> -(den as int) < 2 * (den * r - num) <= den
    ensures num < 0 ==> -(den as int) <= 2 * (den * r - num) < den
  {
    var q := (2 * (if num >= 0 then num else -num) + den) / (2 * den);
    if num >= 0 then q else -q
  }

  /** `round(Decimal(2.54) * h, 2)` for `h` in hundredths of an inch. `Decimal(2.54)` is the
      binary double nearest 2.54, a little above it, so the exact product is never halfway
      and the halfway cases of the exact constant come out away from zero. */
  function InchesToCentimetres(h: int): (cm: int)
    ensures h >= 0 ==> -100 < 2 * (100 * cm - 254 * h) <= 100
    ensures h < 0 ==> -100 <= 2 * (100 * cm - 254 * h) < 100
  {
    RoundHalfAway(254 * h, 100)
  }

  /** `round(Decimal(0.394) * h, 2)` for `h` in hundredths of a centimetre; as with 2.54 the
      double is a little above 0.394. */
  function CentimetresToInches(h: int): (inches: int)
    ensures h >= 0 ==> -1000 < 2 * (1000 * inches - 394 * h) <= 1000
    ensures h < 0 ==> -1000 <= 2 * (1000 * inches - 394 * h) < 1000
  {
    RoundHalfAway(394 * h, 1000)
  }

  lemma ConversionExamples()
    ensures InchesToCentimetres(1000) == 2540 && InchesToCentimetres(500) == 1270
    ensures CentimetresToInches(1000) == 394 && CentimetresToInches(500) == 197
    ensures InchesToCentimetres(25) == 64 && InchesToCentimetres(75) == 191
    ensures InchesToCentimetres(-75) == -191
  {
  }

  /** Python's truth value of a decimal column: NULL and zero are false. */
  predicate Falsy(d: Option<int>)
  {
    d.None? || d.value == 0
  }

  predicate DimensionsDue(instance: Artwork, changed: set<string>)
  {
    "image_height" in changed || "image_width" in changed || "measurement_units" in changed
    || (Falsy(instance.imageHeight) && Falsy(instance.imageWidth))
  }

  /** `calculate_artwork_dimensions`. The entered unit's fields copy the entered values
      and the other unit's fields are converted; a NULL dimension that reaches a
      multiplication raises TypeError, which aborts the save. */
  method CalculateArtworkDimensions(instance: Artwork, changed: set<string>)
    returns (r: Result<Artwork, PyError>)
    ensures !DimensionsDue(instance, changed) || !IsUnitChoice(instance.measurementUnits) ==>
      r == Success(instance)
    ensures DimensionsDue(instance, changed) && instance.measurementUnits == Inches ==>
      (r.Failure? <==> instance.imageHeight.None? || instance.imageWidth.None?) &&
      (r.Success? ==> r.value == instance.(
        heightImperial := instance.imageHeight, widthImperial := instance.imageWidth,
        imperialUnits := Inches,
        heightMetric := Some(InchesToCentimetres(instance.imageHeight.value)),
        widthMetric := Some(InchesToCentimetres(instance.imageWidth.value)),
        metricUnits := Centimetres))
    ensures DimensionsDue(instance, changed) && instance.measurementUnits == Centimetres ==>
      (r.Failure? <==> instance.imageHeight.None? || instance.imageWidth.None?) &&
      (r.Success? ==> r.value == instance.(
        heightMetric := instance.imageHeight, widthMetric := instance.imageWidth,
        metricUnits := Centimetres,
        heightImperial := Some(CentimetresToInches(instance.imageHeight.value)),
        widthImperial := Some(CentimetresToInches(instance.imageWidth.value)),
        imperialUnits := Inches))
  {
    var a := instance;
    if DimensionsDue(a, changed) {
      if a.measurementUnits == Inches {
        a := a.(heightImperial := a.imageHeight);
        a := a.(widthImperial := a.imageWidth);
        a := a.(imperialUnits := Inches);
        if a.imageHeight.None? {
          return Failure(TypeError("Decimal * NoneType"));
        }
        a := a.(heightMetric := Some(InchesToCentimetres(a.imageHeight.value)));
        if a.imageWidth.None? {
          return Failure(TypeError("Decimal * NoneType"));
        }
        a := a.(widthMetric := Some(InchesToCentimetres(a.imageWidth.value)));
        a := a.(metricUnits := Centimetres);
      } else if a.measurementUnits == Centimetres {
        a := a.(heightMetric := a.imageHeight);
        a := a.(widthMetric := a.imageWidth);
        a := a.(metricUnits := Centimetres);
        if a.imageHeight.None? {
          return Failure(TypeError("Decimal * NoneType"));
        }
        a := a.(heightImperial := Some(CentimetresToInches(a.imageHeight.value)));
        if a.imageWidth.None? {
          return Failure(TypeError("Decimal * NoneType"));
        }
        a := a.(widthImperial := Some(CentimetresToInches(a.imageWidth.value)));
        a := a.(imperialUnits := Inches);
      }
    }
    r := Success(a);
  }

  /** An artwork as its field defaults leave it has no dimensions and units in inches, so
      the dimension hook is due on its first save whatever changed and takes the inches
      branch, where the contract of `CalculateArtworkDimensions` makes a save without
      both dimensions a TypeError. */
  lemma NewArtworkDimensionsDue(title: string, inventoryName: string, internalName: string,
                                artist: Artist, genre: Genre, mediumDescription: string,
                                price: nat, created: int, changed: set<string>)
    ensures var a := NewArtwork(title, inventoryName, internalName, artist, genre, mediumDescription, price, created);
            DimensionsDue(a, changed) && a.measurementUnits == Inches && IsUnitChoice(a.measurementUnits)
            && a.imageHeight.None? && a.imageWidth.None?
  {
  }

  // ---------------------------------------------------------------------------
  // One representative artwork per artist

  /** The rows `Artwork.artworks.filter(artist__slug=...).exclude(slug=...)` selects. */
  predicate IsOtherArtworkOfArtist(row: Artwork, instance: Artwork)
  {
    row.artist.slug == instance.artist.slug && row.slug != instance.slug
  }

  function ClearedRow(row: Artwork, instance: Artwork): Artwork
  {
    if instance.isRepresentative && IsOtherArtworkOfArtist(row, instance) && row.isRepresentative
    then row.(isRepresentative := false)
    else row
  }

  /** The table after `ensure_artwork_uniquely_representative` has run for `instance`. */
  function ClearOtherRepresentatives(rows: seq<Artwork>, instance: Artwork): (r: seq<Artwork>)
    ensures |r| == |rows|
    ensures instance.isRepresentative ==>
      forall i :: 0 <= i < |r| && IsOtherArtworkOfArtist(r[i], instance) ==> !r[i].isRepresentative
    ensures forall i :: 0 <= i < |r| ==> r[i] == rows[i].(isRepresentative := r[i].isRepresentative)
    ensures forall i :: 0 <= i < |r| ==> (r[i].isRepresentative ==> rows[i].isRepresentative)
    ensures forall i :: 0 <= i < |r| && !IsOtherArtworkOfArtist(rows[i], instance) ==> r[i] == rows[i]
    ensures !instance.isRepresentative ==> r == rows
  {
    seq(|rows|, i requires 0 <= i < |rows| => ClearedRow(rows[i], instance))
  }

  lemma ClearOtherRepresentativesIdempotent(rows: seq<Artwork>, instance: Artwork)
    ensures ClearOtherRepresentatives(ClearOtherRepresentatives(rows, instance), instance)
         == ClearOtherRepresentatives(rows, instance)
  {
  }

  /** With artwork slugs unique in the table, the rule leaves at most one representative
      artwork for the saved artwork's artist. */
  lemma AtMostOneRepresentative(rows: seq<Artwork>, instance: Artwork, i: nat, j: nat)
    requires instance.isRepresentative
    requires forall k, l :: 0 <= k < l < |rows| ==> rows[k].slug != rows[l].slug
    requires i < |rows| && j < |rows|
    requires ClearOtherRepresentatives(rows, instance)[i].isRepresentative
    requires ClearOtherRepresentatives(rows, instance)[j].isRepresentative
    requires rows[i].artist.slug == instance.artist.slug == rows[j].artist.slug
    ensures i == j
  {
    var r := ClearOtherRepresentatives(rows, instance);
    assert !IsOtherArtworkOfArtist(r[i], instance) && !IsOtherArtworkOfArtist(r[j], instance);
    assert rows[i].slug == instance.slug == rows[j].slug;
  }

  // ---------------------------------------------------------------------------
  // Cascade deactivation

  predicate CascadeDue(artist: Artist, changed: set<string>)
  {
    "is_active" in changed && !artist.isActive
  }

  function DeactivatedRow(row: Artwork, artist: Artist, changed: set<string>): Artwork
  {
    if CascadeDue(artist, changed) && row.artist.id == artist.id && row.isActive
    then row.(isActive := false)
    else row
  }

  /** The table after `deactivate_artworks_of_inactive_artist` for `artist`. */
  function DeactivateArtworks(rows: seq<Artwork>, artist: Artist, changed: set<string>): (r: seq<Artwork>)
    ensures |r| == |rows|
    ensures CascadeDue(artist, changed) ==>
      forall i :: 0 <= i < |r| && rows[i].artist.id == artist.id ==> !r[i].isActive
    ensures forall i :: 0 <= i < |r| ==> r[i] == rows[i].(isActive := r[i].isActive)
    ensures forall i :: 0 <= i < |r| && rows[i].artist.id != artist.id ==> r[i] == rows[i]
    ensures !CascadeDue(artist, changed) ==> r == rows
  {
    seq(|rows|, i requires 0 <= i < |rows| => DeactivatedRow(rows[i], artist, changed))
  }

  lemma DeactivateArtworksIdempotent(rows: seq<Artwork>, artist: Artist, changed: set<string>)
    ensures DeactivateArtworks(DeactivateArtworks(rows, artist, changed), artist, changed)
         == DeactivateArtworks(rows, artist, changed)
  {
  }

  /** Looking up a reverse relation on an Artist instance by attribute name. */
  function ArtistReverseAccessor(name: string): (r: Result<string, PyError>)
    ensures r.Success? <==> name in ArtistReverseRelations
  {
    if name in ArtistReverseRelations then Success(name) else Failure(AttributeError(name))
  }

  /** The cascade as the source spells it: it reads `instance.artworks_authored`,
      a relation Artist does not have. */
  function DeactivateArtworksAsWritten(rows: seq<Artwork>, artist: Artist, changed: set<string>)
    : (r: Result<seq<Artwork>, PyError>)
    ensures !CascadeDue(artist, changed) ==> r == Success(rows)
  {
    if CascadeDue(artist, changed) then
      match ArtistReverseAccessor("artworks_authored")
      case Failure(e) => Failure(e)
      case Success(_) => Success(DeactivateArtworks(rows, artist, changed))
    else Success(rows)
  }

  /** Whenever the cascade is due, the code as spelt raises AttributeError and no artwork
      is deactivated, while the relation declared by Artwork.artist deactivates them. */
  lemma CascadeAsWrittenRaises(rows: seq<Artwork>, artist: Artist, changed: set<string>)
    requires CascadeDue(artist, changed)
    ensures DeactivateArtworksAsWritten(rows, artist, changed) == Failure(AttributeError("artworks_authored"))
    ensures ArtistReverseAccessor("artwork_artist").Success?
  {
    assert "artworks_authored" != "artwork_artist";
    assert "artworks_authored" != "events_presented";
  }

  // ---------------------------------------------------------------------------
  // Which uploaded file a save or a delete removes

  /** `delete__artist_biography` (field `biography`) and `delete__event_image` (field
      `image`): when the file field changed, its previous file, if any. */
  function ReplacedFileToDelete(field: string, changed: set<string>, previous: string): (r: Option<string>)
    ensures r.Some? <==> field in changed && previous != ""
    ensures r.Some? ==> r.value == previous
  {
    if field in changed && previous != "" then Some(previous) else None
  }

  /** `delete__artist`: the biography file, if the artist has one. */
  function ArtistFileToDelete(instance: Artist): (r: Option<string>)
    ensures r.Some? <==> instance.biography != ""
    ensures r.Some? ==> r.value == instance.biography
  {
    if instance.biography != "" then Some(instance.biography) else None
  }

  /** `delete__event`: the image file; asking an empty image field for its path raises
      ValueError, which aborts the delete. */
  function EventFileToDelete(instance: Event): (r: Result<string, PyError>)
    ensures r.Success? <==> instance.image != ""
    ensures r.Success? ==> r.value == instance.image
  {
    if instance.image != "" then Success(instance.image)
    else Failure(ValueError("The 'image' attribute has no file associated with it."))
  }

  // ---------------------------------------------------------------------------
  // The store the hooks read and write

  datatype Kind = ArtistKind | ArtworkKind | EventKind

  /** The three ratchet tables and the persisted artwork rows. */
  class Gallery {
    var artistRatchets: map<string, nat>
    var artworkRatchets: map<string, nat>
    var eventRatchets: map<string, nat>
    const artworks: array<Artwork>

    constructor (rows: seq<Artwork>)
      ensures artistRatchets == map[] && artworkRatchets == map[] && eventRatchets == map[]
      ensures fresh(artworks) && artworks[..] == rows
    {
      artistRatchets, artworkRatchets, eventRatchets := map[], map[], map[];
      artworks := new Artwork[|rows|](i requires 0 <= i < |rows| => rows[i]);
    }

    function Ratchet(kind: Kind): map<string, nat>
      reads this
    {
      match kind
      case ArtistKind => artistRatchets
      case ArtworkKind => artworkRatchets
      case EventKind => eventRatchets
    }

    /** `get_or_create` the row for `key`, increment its suffix and save it. */
    method Reserve(kind: Kind, key: string) returns (n: nat)
      modifies this
      ensures n == Counter(old(Ratchet(kind)), key) + 1
      ensures Ratchet(kind) == old(Ratchet(kind))[key := n]
      ensures kind != ArtistKind ==> artistRatchets == old(artistRatchets)
      ensures kind != ArtworkKind ==> artworkRatchets == old(artworkRatchets)
      ensures kind != EventKind ==> eventRatchets == old(eventRatchets)
      ensures forall k :: k in old(Ratchet(kind)) ==> k in Ratchet(kind) && old(Ratchet(kind))[k] <= Ratchet(kind)[k]
    {
      match kind
      case ArtistKind =>
        n := Counter(artistRatchets, key) + 1;
        artistRatchets := artistRatchets[key := n];
      case ArtworkKind =>
        n := Counter(artworkRatchets, key) + 1;
        artworkRatchets := artworkRatchets[key := n];
      case EventKind =>
        n := Counter(eventRatchets, key) + 1;
        eventRatchets := eventRatchets[key := n];
    }

    /** `slugify__artist`. */
    method SlugifyArtist(instance: Artist, changed: set<string>, slugify: string -> string)
      returns (saved: Artist)
      modifies this
      ensures !("first_name" in changed || "last_name" in changed || instance.slug == "") ==>
        saved == instance && artistRatchets == old(artistRatchets)
      ensures "first_name" in changed || "last_name" in changed || instance.slug == "" ==>
        var key := ArtistRatchetKey(instance);
        var n := Counter(old(artistRatchets), key) + 1;
        artistRatchets == old(artistRatchets)[key := n] &&
        saved == instance.(slug := slugify(SlugSource(key, n)))
      ensures artworkRatchets == old(artworkRatchets) && eventRatchets == old(eventRatchets)
    {
      saved := instance;
      if "first_name" in changed || "last_name" in changed || instance.slug == "" {
        var key := ArtistRatchetKey(instance);
        ghost var before := artistRatchets;
        assert before == Ratchet(ArtistKind);
        var n := Reserve(ArtistKind, key);
        assert artistRatchets == Ratchet(ArtistKind) == before[key := n];
        saved := saved.(slug := slugify(SlugSource(key, n)));
      }
    }

    /** `name_slugify__artwork`: the name keeps the title's case, the key is lower-cased. */
    method NameSlugifyArtwork(instance: Artwork, changed: set<string>, slugify: string -> string)
      returns (saved: Artwork)
      modifies this
      ensures !("title" in changed || instance.name == "") ==>
        saved == instance && artworkRatchets == old(artworkRatchets)
      ensures "title" in changed || instance.name == "" ==>
        var n := Counter(old(artworkRatchets), Lower(instance.title)) + 1;
        artworkRatchets == old(artworkRatchets)[Lower(instance.title) := n] &&
        saved == instance.(name := SlugSource(instance.title, n), slug := slugify(SlugSource(instance.title, n)))
      ensures artistRatchets == old(artistRatchets) && eventRatchets == old(eventRatchets)
    {
      saved := instance;
      if "title" in changed || instance.name == "" {
        var key := Lower(instance.title);
        ghost var before := artworkRatchets;
        assert before == Ratchet(ArtworkKind);
        var n := Reserve(ArtworkKind, key);
        assert artworkRatchets == Ratchet(ArtworkKind) == before[key := n];
        var name := SlugSource(instance.title, n);
        saved := instance.(name := name, slug := slugify(name));
      }
    }

    /** `slugify__event`: the guard reads the title, not the slug. */
    method SlugifyEvent(instance: Event, changed: set<string>, slugify: string -> string)
      returns (saved: Event)
      modifies this
      ensures !("title" in changed || instance.title == "") ==>
        saved == instance && eventRatchets == old(eventRatchets)
      ensures "title" in changed || instance.title == "" ==>
        var key := Lower(instance.title);
        var n := Counter(old(eventRatchets), key) + 1;
        eventRatchets == old(eventRatchets)[key := n] &&
        saved == instance.(slug := slugify(SlugSource(key, n)))
      ensures artistRatchets == old(artistRatchets) && artworkRatchets == old(artworkRatchets)
    {
      saved := instance;
      if "title" in changed || instance.title == "" {
        var key := Lower(instance.title);
        ghost var before := eventRatchets;
        assert before == Ratchet(EventKind);
        var n := Reserve(EventKind, key);
        assert eventRatchets == Ratchet(EventKind) == before[key := n];
        saved := saved.(slug := slugify(SlugSource(key, n)));
      }
    }

    /** `ensure_artwork_uniquely_representative`, run after `instance` was saved. */
    method EnsureArtworkUniquelyRepresentative(instance: Artwork)
      modifies artworks
      ensures artworks[..] == ClearOtherRepresentatives(old(artworks[..]), instance)
    {
      if instance.isRepresentative {
        var i := 0;
        while i < artworks.Length
          invariant 0 <= i <= artworks.Length
          invariant forall k :: 0 <= k < i ==> artworks[k] == ClearedRow(old(artworks[k]), instance)
          invariant forall k :: i <= k < artworks.Length ==> artworks[k] == old(artworks[k])
        {
          var row := artworks[i];
          if IsOtherArtworkOfArtist(row, instance) && row.isRepresentative {
            artworks[i] := row.(isRepresentative := false);
          }
          i := i + 1;
        }
      }
      assert artworks[..] == ClearOtherRepresentatives(old(artworks[..]), instance);
    }

    /** `deactivate_artworks_of_inactive_artist`, over the artworks whose artist is
        `instance` (the reverse relation Artwork.artist declares). */
    method DeactivateArtworksOfInactiveArtist(instance: Artist, changed: set<string>)
      modifies artworks
      ensures artworks[..] == DeactivateArtworks(old(artworks[..]), instance, changed)
    {
      if "is_active" in changed && !instance.isActive {
        var i := 0;
        while i < artworks.Length
          invariant 0 <= i <= artworks.Length
          invariant forall k :: 0 <= k < i ==> artworks[k] == DeactivatedRow(old(artworks[k]), instance, changed)
          invariant forall k :: i <= k < artworks.Length ==> artworks[k] == old(artworks[k])
        {
          var row := artworks[i];
          if row.artist.id == instance.id && row.isActive {
            artworks[i] := row.(isActive := false);
          }
          i := i + 1;
        }
      }
      assert artworks[..] == DeactivateArtworks(old(artworks[..]), instance, changed);
    }
  }
}
