/** The catalog query layer: every queryset method is a filter, an ordering or a
    de-duplication of a sequence of rows, and never changes a row. */
module Managers {
  import opened Models

  /** `DAYS`, the width of the `recent()` window. */
  const Days := 30
  const SecondsPerDay := 86400

  /** `DATE`: computed once, from the clock reading taken when the module is imported,
      and never recomputed; `recent()` compares against this fixed instant. */
  function RecentCutoff(importTime: int): (date: int)
    ensures date < importTime
    ensures importTime - date == 30 * 86400
  {
    importTime - Days * SecondsPerDay
  }

  /** `recent()` over the fixed `DATE`: the rows created at most `DAYS` days before the
      import-time clock reading (or later). */
  lemma RecentWindow(artists: seq<Artist>, artworks: seq<Artwork>, importTime: int)
    ensures forall a :: a in ArtistsRecent(artists, RecentCutoff(importTime)) <==>
      a in artists && importTime - a.created <= Days * SecondsPerDay
    ensures forall a :: a in ArtworksRecent(artworks, RecentCutoff(importTime)) <==>
      a in artworks && importTime - a.created <= Days * SecondsPerDay
  {
  }

  const ContemporaryGenre := "Contemporary"

  // ---------------------------------------------------------------------------
  // Filtering

  /** `filter(...)`: the rows satisfying `p`, in their original order. */
  function Filter<T(!new)>(s: seq<T>, p: T -> bool): (r: seq<T>)
    ensures |r| <= |s|
    ensures forall x :: x in r <==> x in s && p(x)
  {
    if s == [] then []
    else if p(s[0]) then [s[0]] + Filter(s[1..], p)
    else Filter(s[1..], p)
  }

  /** Each row satisfying `p` is kept as many times as it occurs; no other row is kept. */
  lemma {:induction false} FilterMultiset<T(!new)>(s: seq<T>, p: T -> bool, x: T)
    ensures multiset(Filter(s, p))[x] == if p(x) then multiset(s)[x] else 0
  {
    if s != [] {
      assert s == [s[0]] + s[1..];
      FilterMultiset(s[1..], p, x);
    }
  }

  /** Filtering distributes over concatenation, so the kept rows stay in order. */
  lemma {:induction false} FilterConcat<T(!new)>(a: seq<T>, b: seq<T>, p: T -> bool)
    ensures Filter(a + b, p) == Filter(a, p) + Filter(b, p)
  {
    if a == [] {
      assert a + b == b;
    } else {
      var ab := a + b;
      assert ab[0] == a[0] && ab[1..] == a[1..] + b;
      FilterConcat(a[1..], b, p);
      var fa, fb := Filter(a[1..], p), Filter(b, p);
      if p(a[0]) {
        assert Filter(ab, p) == [a[0]] + (fa + fb);
        assert [a[0]] + (fa + fb) == ([a[0]] + fa) + fb;
      } else {
        assert Filter(ab, p) == fa + fb;
      }
    }
  }

  lemma {:induction false} FilterIdempotent<T(!new)>(s: seq<T>, p: T -> bool)
    ensures Filter(Filter(s, p), p) == Filter(s, p)
  {
    if s != [] {
      FilterIdempotent(s[1..], p);
    }
  }

  lemma {:induction false} FilterCommute<T(!new)>(s: seq<T>, p: T -> bool, q: T -> bool)
    ensures Filter(Filter(s, p), q) == Filter(Filter(s, q), p)
  {
    if s != [] {
      FilterCommute(s[1..], p, q);
    }
  }

  /** Chaining two filters that no row passes together leaves nothing. */
  lemma {:induction false} FilterDisjoint<T(!new)>(s: seq<T>, p: T -> bool, q: T -> bool)
    requires forall x :: !(p(x) && q(x))
    ensures Filter(Filter(s, p), q) == []
  {
    if s != [] {
      FilterDisjoint(s[1..], p, q);
    }
  }

  /** `filter(c)` and `exclude(c)` split the rows between them. */
  lemma FilterPartition<T(!new)>(s: seq<T>, p: T -> bool, q: T -> bool)
    requires forall x :: q(x) == !p(x)
    ensures multiset(Filter(s, p)) + multiset(Filter(s, q)) == multiset(s)
    ensures multiset(Filter(s, p)) * multiset(Filter(s, q)) == multiset{}
  {
    forall x | x in multiset(s) + multiset(Filter(s, p)) + multiset(Filter(s, q))
      ensures (multiset(Filter(s, p)) + multiset(Filter(s, q)))[x] == multiset(s)[x]
      ensures (multiset(Filter(s, p)) * multiset(Filter(s, q)))[x] == 0
    {
      FilterMultiset(s, p, x);
      FilterMultiset(s, q, x);
    }
  }

  // ---------------------------------------------------------------------------
  // Row predicates

  predicate IsActiveArtist(a: Artist) { a.isActive }
  predicate IsActiveArtwork(a: Artwork) { a.isActive }
  predicate IsActiveEvent(e: Event) { e.isActive }
  predicate IsRepresentativeArtwork(a: Artwork) { a.isRepresentative }
  predicate IsContemporaryGenre(g: Genre) { g.name == ContemporaryGenre }
  predicate IsTraditionalGenre(g: Genre) { g.name != ContemporaryGenre }
  predicate IsContemporaryArtwork(a: Artwork) { a.genre.name == ContemporaryGenre }
  predicate IsTraditionalArtwork(a: Artwork) { a.genre.name != ContemporaryGenre }

  function CreatedSince(date: int): Artwork -> bool
  {
    (a: Artwork) => a.created >= date
  }

  // ---------------------------------------------------------------------------
  // ArtistQuerySet

  function ArtistsActive(s: seq<Artist>): (r: seq<Artist>)
    ensures forall a :: a in r <==> a in s && a.isActive
  {
    Filter(s, IsActiveArtist)
  }

  function ArtistsRecent(s: seq<Artist>, date: int): (r: seq<Artist>)
    ensures forall a :: a in r <==> a in s && a.created >= date
  {
    Filter(s, (a: Artist) => a.created >= date)
  }

  function ArtistsOrderly(s: seq<Artist>): (r: seq<Artist>)
    ensures multiset(r) == multiset(s)
    ensures forall i, j :: 0 <= i < j < |r| ==> KeyLe(ArtistKey(r[i]), ArtistKey(r[j]))
  {
    SortByName(s, ArtistKey)
  }

  function ArtistsDistinctly(s: seq<Artist>): (r: seq<Artist>)
    ensures forall i, j :: 0 <= i < j < |r| ==> ArtistKey(r[i]) != ArtistKey(r[j])
    ensures forall i :: 0 <= i < |s| ==> HasKey(r, ArtistKey, ArtistKey(s[i]))
    ensures forall a :: a in r ==> a in s
  {
    DistinctBy(s, ArtistKey)
  }

  // ---------------------------------------------------------------------------
  // GenreQuerySet

  function GenresContemporary(s: seq<Genre>): (r: seq<Genre>)
    ensures forall g :: g in r <==> g in s && g.name == "Contemporary"
  {
    Filter(s, IsContemporaryGenre)
  }

  function GenresTraditional(s: seq<Genre>): (r: seq<Genre>)
    ensures forall g :: g in r <==> g in s && g.name != "Contemporary"
  {
    Filter(s, IsTraditionalGenre)
  }

  lemma GenresPartition(s: seq<Genre>)
    ensures multiset(GenresContemporary(s)) + multiset(GenresTraditional(s)) == multiset(s)
    ensures multiset(GenresContemporary(s)) * multiset(GenresTraditional(s)) == multiset{}
  {
    FilterPartition(s, IsContemporaryGenre, IsTraditionalGenre);
  }

  // ---------------------------------------------------------------------------
  // ArtworkQuerySet

  function ArtworksActive(s: seq<Artwork>): (r: seq<Artwork>)
    ensures forall a :: a in r <==> a in s && a.isActive
  {
    Filter(s, IsActiveArtwork)
  }

  function ArtworksRecent(s: seq<Artwork>, date: int): (r: seq<Artwork>)
    ensures forall a :: a in r <==> a in s && a.created >= date
  {
    Filter(s, CreatedSince(date))
  }

  function ArtworksRepresentative(s: seq<Artwork>): (r: seq<Artwork>)
    ensures forall a :: a in r <==> a in s && a.isRepresentative
  {
    Filter(s, IsRepresentativeArtwork)
  }

  function ArtworksOrderly(s: seq<Artwork>): (r: seq<Artwork>)
    ensures multiset(r) == multiset(s)
    ensures forall i, j :: 0 <= i < j < |r| ==> KeyLe(ArtworkArtistKey(r[i]), ArtworkArtistKey(r[j]))
  {
    SortByName(s, ArtworkArtistKey)
  }

  function ArtworksDistinctly(s: seq<Artwork>): (r: seq<Artwork>)
    ensures forall i, j :: 0 <= i < j < |r| ==> ArtworkArtistKey(r[i]) != ArtworkArtistKey(r[j])
    ensures forall i :: 0 <= i < |s| ==> HasKey(r, ArtworkArtistKey, ArtworkArtistKey(s[i]))
    ensures forall a :: a in r ==> a in s
  {
    DistinctBy(s, ArtworkArtistKey)
  }

  function ArtworksContemporary(s: seq<Artwork>): (r: seq<Artwork>)
    ensures forall a :: a in r <==> a in s && a.genre.name == "Contemporary"
  {
    Filter(s, IsContemporaryArtwork)
  }

  function ArtworksTraditional(s: seq<Artwork>): (r: seq<Artwork>)
    ensures forall a :: a in r <==> a in s && a.genre.name != "Contemporary"
  {
    Filter(s, IsTraditionalArtwork)
  }

  lemma ArtworksPartition(s: seq<Artwork>)
    ensures multiset(ArtworksContemporary(s)) + multiset(ArtworksTraditional(s)) == multiset(s)
    ensures multiset(ArtworksContemporary(s)) * multiset(ArtworksTraditional(s)) == multiset{}
  {
    FilterPartition(s, IsContemporaryArtwork, IsTraditionalArtwork);
  }

  /** The artwork filters are idempotent. */
  lemma ArtworkFiltersIdempotent(s: seq<Artwork>, date: int)
    ensures ArtworksActive(ArtworksActive(s)) == ArtworksActive(s)
    ensures ArtworksRecent(ArtworksRecent(s, date), date) == ArtworksRecent(s, date)
    ensures ArtworksRepresentative(ArtworksRepresentative(s)) == ArtworksRepresentative(s)
    ensures ArtworksContemporary(ArtworksContemporary(s)) == ArtworksContemporary(s)
    ensures ArtworksTraditional(ArtworksTraditional(s)) == ArtworksTraditional(s)
  {
    FilterIdempotent(s, IsActiveArtwork);
    FilterIdempotent(s, CreatedSince(date));
    FilterIdempotent(s, IsRepresentativeArtwork);
    FilterIdempotent(s, IsContemporaryArtwork);
    FilterIdempotent(s, IsTraditionalArtwork);
  }

  /** The artwork filters may be chained in either order. */
  lemma ArtworkFiltersCommute(s: seq<Artwork>, date: int)
    ensures ArtworksActive(ArtworksRepresentative(s)) == ArtworksRepresentative(ArtworksActive(s))
    ensures ArtworksActive(ArtworksRecent(s, date)) == ArtworksRecent(ArtworksActive(s), date)
    ensures ArtworksActive(ArtworksContemporary(s)) == ArtworksContemporary(ArtworksActive(s))
    ensures ArtworksActive(ArtworksTraditional(s)) == ArtworksTraditional(ArtworksActive(s))
    ensures ArtworksRepresentative(ArtworksRecent(s, date)) == ArtworksRecent(ArtworksRepresentative(s), date)
    ensures ArtworksRepresentative(ArtworksContemporary(s)) == ArtworksContemporary(ArtworksRepresentative(s))
    ensures ArtworksRepresentative(ArtworksTraditional(s)) == ArtworksTraditional(ArtworksRepresentative(s))
    ensures ArtworksRecent(ArtworksContemporary(s), date) == ArtworksContemporary(ArtworksRecent(s, date))
    ensures ArtworksRecent(ArtworksTraditional(s), date) == ArtworksTraditional(ArtworksRecent(s, date))
    ensures ArtworksContemporary(ArtworksTraditional(s)) == ArtworksTraditional(ArtworksContemporary(s)) == []
  {
    FilterCommute(s, IsRepresentativeArtwork, IsActiveArtwork);
    FilterCommute(s, CreatedSince(date), IsActiveArtwork);
    FilterCommute(s, IsContemporaryArtwork, IsActiveArtwork);
    FilterCommute(s, IsTraditionalArtwork, IsActiveArtwork);
    FilterCommute(s, CreatedSince(date), IsRepresentativeArtwork);
    FilterCommute(s, IsContemporaryArtwork, IsRepresentativeArtwork);
    FilterCommute(s, IsTraditionalArtwork, IsRepresentativeArtwork);
    FilterCommute(s, IsContemporaryArtwork, CreatedSince(date));
    FilterCommute(s, IsTraditionalArtwork, CreatedSince(date));
    FilterCommute(s, IsTraditionalArtwork, IsContemporaryArtwork);
    FilterDisjoint(s, IsTraditionalArtwork, IsContemporaryArtwork);
  }

  function EventsActive(s: seq<Event>): (r: seq<Event>)
    ensures forall e :: e in r <==> e in s && e.isActive
  {
    Filter(s, IsActiveEvent)
  }

  // ---------------------------------------------------------------------------
  // Ordering by (last name, first name)

  datatype NameKey = NameKey(last: string, first: string)

  function ArtistKey(a: Artist): NameKey { NameKey(a.lastName, a.firstName) }
  function ArtworkArtistKey(a: Artwork): NameKey { NameKey(a.artist.lastName, a.artist.firstName) }

  /** Lexicographic order of strings by code point. */
  predicate StrLe(a: string, b: string)
  {
    a == [] || (b != [] && (a[0] < b[0] || (a[0] == b[0] && StrLe(a[1..], b[1..]))))
  }

  lemma {:induction false} StrLeTotal(a: string, b: string)
    ensures StrLe(a, b) || StrLe(b, a)
  {
    if a != [] && b != [] && a[0] == b[0] {
      StrLeTotal(a[1..], b[1..]);
    }
  }

  lemma {:induction false} StrLeAntisymmetric(a: string, b: string)
    requires StrLe(a, b) && StrLe(b, a)
    ensures a == b
  {
    if a != [] && b != [] {
      StrLeAntisymmetric(a[1..], b[1..]);
      assert a == [a[0]] + a[1..] && b == [b[0]] + b[1..];
    }
  }

  lemma {:induction false} StrLeTransitive(a: string, b: string, c: string)
    requires StrLe(a, b) && StrLe(b, c)
    ensures StrLe(a, c)
  {
    if a != [] && b != [] && c != [] && a[0] == b[0] == c[0] {
      StrLeTransitive(a[1..], b[1..], c[1..]);
    }
  }

  /** `order_by('last_name', 'first_name')`. */
  predicate KeyLe(x: NameKey, y: NameKey)
  {
    if x.last != y.last then StrLe(x.last, y.last) else StrLe(x.first, y.first)
  }

  lemma KeyLeTotal(x: NameKey, y: NameKey)
    ensures KeyLe(x, y) || KeyLe(y, x)
  {
    StrLeTotal(x.last, y.last);
    StrLeTotal(x.first, y.first);
  }

  lemma KeyLeTransitive(x: NameKey, y: NameKey, z: NameKey)
    requires KeyLe(x, y) && KeyLe(y, z)
    ensures KeyLe(x, z)
  {
    if x.last != y.last && y.last != z.last {
      StrLeTransitive(x.last, y.last, z.last);
      if x.last == z.last {
        StrLeAntisymmetric(x.last, y.last);
      }
    } else if x.last == y.last && y.last == z.last {
      StrLeTransitive(x.first, y.first, z.first);
    }
  }

  ghost predicate SortedBy<T>(s: seq<T>, key: T -> NameKey)
  {
    forall i, j :: 0 <= i < j < |s| ==> KeyLe(key(s[i]), key(s[j]))
  }

  /** A row that sorts before every row of a sorted list can go in front of it. */
  lemma ConsSorted<T>(h: T, t: seq<T>, key: T -> NameKey)
    requires SortedBy(t, key)
    requires forall j :: 0 <= j < |t| ==> KeyLe(key(h), key(t[j]))
    ensures SortedBy([h] + t, key)
  {
    var r := [h] + t;
    forall i, j | 0 <= i < j < |r| ensures KeyLe(key(r[i]), key(r[j])) {
      assert r[j] == t[j - 1];
      if i > 0 {
        assert r[i] == t[i - 1];
      }
    }
  }

  function InsertByName<T>(x: T, s: seq<T>, key: T -> NameKey): (r: seq<T>)
    requires SortedBy(s, key)
    ensures multiset(r) == multiset(s) + multiset{x}
    ensures SortedBy(r, key)
  {
    if s == [] then [x]
    else if KeyLe(key(x), key(s[0])) then
      forall j | 0 <= j < |s| ensures KeyLe(key(x), key(s[j])) {
        if j > 0 {
          KeyLeTransitive(key(x), key(s[0]), key(s[j]));
        }
      }
      ConsSorted(x, s, key);
      [x] + s
    else
      KeyLeTotal(key(x), key(s[0]));
      var t := InsertByName(x, s[1..], key);
      assert s == [s[0]] + s[1..];
      forall j | 0 <= j < |t| ensures KeyLe(key(s[0]), key(t[j])) {
        assert t[j] in multiset(t);
        assert t[j] == x || t[j] in s[1..];
      }
      ConsSorted(s[0], t, key);
      [s[0]] + t
  }

  /** A sort by (last name, first name); the database does not promise which of two rows
      with equal names comes first, and this one keeps their input order. */
  function SortByName<T>(s: seq<T>, key: T -> NameKey): (r: seq<T>)
    ensures multiset(r) == multiset(s)
    ensures SortedBy(r, key)
  {
    if s == [] then []
    else
      assert s == [s[0]] + s[1..];
      InsertByName(s[0], SortByName(s[1..], key), key)
  }

  // ---------------------------------------------------------------------------
  // De-duplication by (last name, first name)

  predicate HasKey<T>(s: seq<T>, key: T -> NameKey, k: NameKey)
  {
    exists i :: 0 <= i < |s| && key(s[i]) == k
  }

  /** `distinct('last_name', 'first_name')`: the first row of each name pair. */
  function DistinctBy<T(!new)>(s: seq<T>, key: T -> NameKey): (r: seq<T>)
    ensures forall i, j :: 0 <= i < j < |r| ==> key(r[i]) != key(r[j])
    ensures forall i :: 0 <= i < |s| ==> HasKey(r, key, key(s[i]))
    ensures forall x :: x in r ==> x in s
  {
    if s == [] then []
    else
      var init := s[..|s| - 1];
      var last := s[|s| - 1];
      var r := DistinctBy(init, key);
      assert forall i :: 0 <= i < |init| ==> s[i] == init[i];
      if HasKey(r, key, key(last)) then r
      else
        var r' := r + [last];
        assert forall i :: 0 <= i < |r| ==> r'[i] == r[i];
        forall i | 0 <= i < |s| ensures HasKey(r', key, key(s[i])) {
          if i < |init| {
            assert HasKey(r, key, key(init[i]));
            var j :| 0 <= j < |r| && key(r[j]) == key(init[i]);
            assert key(r'[j]) == key(s[i]);
          } else {
            assert key(r'[|r|]) == key(s[i]);
          }
        }
        r'
  }
}
