/**
 * Matching one manga against the destination sources chosen for a
 * migration: the sources are tried in the chosen order and the first one
 * whose search by title returns anything supplies the replacement.
 */
module MigrationSearch {
  import opened Wrappers

  /**
   * A manga as a source describes it. Its identity is (sourceId, id);
   * `info` stands for every other field (author, description, cover, ...),
   * which the migration only copies.
   */
  datatype Manga = Manga(sourceId: string, id: string, title: Option<string>, info: string)

  /** A chapter, carrying the identity of the manga it belongs to. */
  datatype Chapter = Chapter(sourceId: string, mangaId: string, id: string, chapterNum: Option<real>)

  /** A source as the user picked it for the migration. */
  datatype SourceInfo = SourceInfo(sourceId: string, name: string)

  /**
   * What the installed sources answer, given as total functions so that
   * every network outcome is an input: whether an id resolves to an
   * installed source; a search by title (`None` when it throws); the
   * detail fetch for a hit and the chapter-list fetch (`None` when they throw).
   */
  datatype Providers = Providers(
    resolves: string -> bool,
    search: (string, string) -> Option<seq<Manga>>,
    details: (string, Manga) -> Option<Manga>,
    chapters: (string, Manga) -> Option<seq<Chapter>>)

  /** The outcome of matching one manga. */
  datatype MatchOutcome = Found(manga: Manga, chapters: seq<Chapter>) | NotFound

  /**
   * What one source contributes: the first search result, or `None` when
   * the manga has no title, the source id does not resolve, the search
   * throws or the search returns nothing.
   */
  function Hit(title: Option<string>, source: SourceInfo, p: Providers): (r: Option<Manga>)
    ensures title.None? || !p.resolves(source.sourceId) ==> r.None?
    ensures r.Some? ==> exists results :: p.search(source.sourceId, title.value) == Some(results) && results != [] && r.value == results[0]
    ensures title.Some? && p.resolves(source.sourceId) && p.search(source.sourceId, title.value).Some?
            && p.search(source.sourceId, title.value).value != []
            ==> r == Some(p.search(source.sourceId, title.value).value[0])
  {
    if title.None? || !p.resolves(source.sourceId) then None
    else match p.search(source.sourceId, title.value)
      case None => None
      case Some(results) => if results == [] then None else Some(results[0])
  }

  /**
   * The recorded match for a hit: its details, or the bare hit when the
   * detail fetch fails, with the chapters of those details, or none when
   * the chapter fetch fails.
   */
  function Enrich(source: SourceInfo, hit: Manga, p: Providers): (r: MatchOutcome)
    ensures r.Found?
    ensures p.details(source.sourceId, hit).None? ==> r.manga == hit
    ensures p.chapters(source.sourceId, r.manga).None? ==> r.chapters == []
    ensures p.details(source.sourceId, hit).Some? ==> r.manga == p.details(source.sourceId, hit).value
    ensures p.chapters(source.sourceId, r.manga).Some? ==> r.chapters == p.chapters(source.sourceId, r.manga).value
  {
    var details := p.details(source.sourceId, hit).GetOr(hit);
    Found(details, p.chapters(source.sourceId, details).GetOr([]))
  }

  /** Try `sources` in order; the first source with a hit decides. */
  function Match(title: Option<string>, sources: seq<SourceInfo>, p: Providers): (r: MatchOutcome)
    ensures r.Found? ==> exists k :: 0 <= k < |sources| && Hit(title, sources[k], p).Some?
    decreases |sources|
  {
    if sources == [] then NotFound
    else match Hit(title, sources[0], p)
      case Some(hit) => Enrich(sources[0], hit, p)
      case None =>
        var r := Match(title, sources[1..], p);
        assert r.Found? ==> exists k :: 1 <= k < |sources| && Hit(title, sources[k], p).Some? by {
          if r.Found? {
            var k :| 0 <= k < |sources[1..]| && Hit(title, sources[1..][k], p).Some?;
            assert sources[1..][k] == sources[k + 1];
          }
        }
        r
  }

  /** Source `k` is the first of `sources` with a hit. */
  predicate FirstHitAt(title: Option<string>, sources: seq<SourceInfo>, p: Providers, k: nat) {
    && k < |sources|
    && Hit(title, sources[k], p).Some?
    && forall j :: 0 <= j < k ==> Hit(title, sources[j], p).None?
  }

  /** The first source with a hit supplies the match: its first result, enriched. */
  lemma {:induction false} FirstSourceWins(title: Option<string>, sources: seq<SourceInfo>, p: Providers, k: nat)
    requires FirstHitAt(title, sources, p, k)
    ensures Match(title, sources, p) == Enrich(sources[k], Hit(title, sources[k], p).value, p)
  {
    if k > 0 {
      assert Hit(title, sources[0], p).None?;
      assert FirstHitAt(title, sources[1..], p, k - 1) by {
        forall j | 0 <= j < k - 1 ensures Hit(title, sources[1..][j], p).None? {
          assert sources[1..][j] == sources[j + 1];
        }
      }
      FirstSourceWins(title, sources[1..], p, k - 1);
    }
  }

  /** There is no match exactly when no source has a hit: a skipped source is never fatal. */
  lemma {:induction false} NotFoundIffNoHit(title: Option<string>, sources: seq<SourceInfo>, p: Providers)
    ensures Match(title, sources, p).NotFound? <==> forall j :: 0 <= j < |sources| ==> Hit(title, sources[j], p).None?
  {
    if sources != [] {
      NotFoundIffNoHit(title, sources[1..], p);
      if Hit(title, sources[0], p).None? {
        forall j | 0 <= j < |sources| && (forall i :: 0 <= i < |sources[1..]| ==> Hit(title, sources[1..][i], p).None?)
          ensures Hit(title, sources[j], p).None?
        {
          if j > 0 { assert sources[j] == sources[1..][j - 1]; }
        }
      }
    }
  }

  /** When some source has a hit, there is a first one. */
  lemma FirstHitExists(title: Option<string>, sources: seq<SourceInfo>, p: Providers, j: nat)
    requires j < |sources| && Hit(title, sources[j], p).Some?
    ensures exists k :: FirstHitAt(title, sources, p, k)
    decreases j
  {
    if !FirstHitAt(title, sources, p, j) {
      var i :| 0 <= i < j && Hit(title, sources[i], p).Some?;
      FirstHitExists(title, sources, p, i);
    }
  }

  /**
   * Sources after the first one with a hit are never consulted: replacing
   * everything after it leaves the match unchanged.
   */
  lemma LaterSourcesNotConsulted(title: Option<string>, sources: seq<SourceInfo>, p: Providers, k: nat, later: seq<SourceInfo>)
    requires FirstHitAt(title, sources, p, k)
    ensures Match(title, sources[..k + 1] + later, p) == Match(title, sources, p)
  {
    var other := sources[..k + 1] + later;
    assert other[k] == sources[k];
    assert forall j :: 0 <= j < k ==> other[j] == sources[j];
    FirstSourceWins(title, other, p, k);
    FirstSourceWins(title, sources, p, k);
  }

  /** A manga without a title never matches. */
  lemma {:induction false} NoTitleNoMatch(sources: seq<SourceInfo>, p: Providers)
    ensures Match(None, sources, p) == NotFound
  {
    if sources != [] {
      NoTitleNoMatch(sources[1..], p);
    }
  }

  /**
   * Scenario: the first destination's search returns nothing, the second
   * returns one result, whose details and chapters are fetched.
   */
  lemma EmptyThenHit(title: string, s1: SourceInfo, s2: SourceInfo, p: Providers, r: Manga)
    requires p.resolves(s1.sourceId) && p.resolves(s2.sourceId)
    requires p.search(s1.sourceId, title) == Some([])
    requires p.search(s2.sourceId, title) == Some([r])
    ensures Match(Some(title), [s1, s2], p) == Enrich(s2, r, p)
  {
    FirstSourceWins(Some(title), [s1, s2], p, 1);
  }
}
