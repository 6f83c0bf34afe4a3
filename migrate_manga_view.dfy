/**
 * The migration screen's state and the operations behind it: withdrawing
 * a manga, matching every manga against the chosen destination sources,
 * and migrating every matched manga in the store. The per-manga tables
 * are keyed by an integer key of the manga (its hash value), which is a
 * parameter of the model.
 */
module MigrateMangaView {
  import opened Wrappers
  import opened MigrationSearch
  import opened MigrationStore

  /** The state of the screen and of each manga row. */
  datatype MigrationState = Idle | Running | Done | Failed

  /** `s` with every element equal to `x` removed, the others kept in order (`removeAll { $0 == x }`). */
  function RemoveAll<T(==)>(s: seq<T>, x: T): (r: seq<T>)
    ensures multiset(r) == multiset(s)[x := 0]
  {
    if s == [] then []
    else
      var rest := RemoveAll(s[1..], x);
      assert s == [s[0]] + s[1..];
      if s[0] == x then rest else [s[0]] + rest
  }

  /** Removal works element by element, so the kept elements stay in their original order. */
  lemma {:induction false} RemoveAllAppend<T>(a: seq<T>, b: seq<T>, x: T)
    ensures RemoveAll(a + b, x) == RemoveAll(a, x) + RemoveAll(b, x)
  {
    if a == [] {
      assert a + b == b;
    } else {
      assert (a + b)[1..] == a[1..] + b;
      RemoveAllAppend(a[1..], b, x);
    }
  }

  /** The source table built when the screen opens: each manga's key gives its source, a later manga winning a shared key. */
  function SourceTable(manga: seq<Manga>, key: Manga -> int, sourceFor: string -> Option<SourceInfo>): (t: map<int, Option<SourceInfo>>)
    ensures t.Keys == set m | m in manga :: key(m)
    ensures forall i :: 0 <= i < |manga| && (forall j :: i < j < |manga| ==> key(manga[j]) != key(manga[i])) ==>
      t[key(manga[i])] == sourceFor(manga[i].sourceId)
  {
    if manga == [] then map[]
    else
      var n := |manga| - 1;
      var last := manga[n];
      assert manga == manga[..n] + [last];
      var prefix := SourceTable(manga[..n], key, sourceFor);
      SourceTableLast(manga[..n], last, key, sourceFor, prefix);
      prefix[key(last) := sourceFor(last.sourceId)]
  }

  /** Adding the last manga's entry to the table of the others gives the table of all. */
  lemma SourceTableLast(init: seq<Manga>, last: Manga, key: Manga -> int, sourceFor: string -> Option<SourceInfo>,
                        prefix: map<int, Option<SourceInfo>>)
    requires prefix.Keys == set m | m in init :: key(m)
    requires forall i :: 0 <= i < |init| && (forall j :: i < j < |init| ==> key(init[j]) != key(init[i])) ==>
      prefix[key(init[i])] == sourceFor(init[i].sourceId)
    ensures var manga, t := init + [last], prefix[key(last) := sourceFor(last.sourceId)];
      && t.Keys == (set m | m in manga :: key(m))
      && forall i :: 0 <= i < |manga| && (forall j :: i < j < |manga| ==> key(manga[j]) != key(manga[i])) ==>
           t[key(manga[i])] == sourceFor(manga[i].sourceId)
  {
    var manga, t := init + [last], prefix[key(last) := sourceFor(last.sourceId)];
    assert t.Keys == set m | m in manga :: key(m);
    forall i | 0 <= i < |manga| && (forall j :: i < j < |manga| ==> key(manga[j]) != key(manga[i]))
      ensures t[key(manga[i])] == sourceFor(manga[i].sourceId)
    {
      if i < |init| {
        assert key(manga[|init|]) != key(manga[i]);
        assert forall j :: i < j < |init| ==> manga[j] == init[j];
      }
    }
  }

  /** The key of each listed manga, position by position. */
  function KeysOf(manga: seq<Manga>, key: Manga -> int): (ks: seq<int>)
    ensures |ks| == |manga| && forall j :: 0 <= j < |manga| ==> ks[j] == key(manga[j])
  {
    seq(|manga|, j requires 0 <= j < |manga| => key(manga[j]))
  }

  /** Mark keys `i` up to `n` (exclusive) running. */
  function MarkIndices(states: map<int, MigrationState>, i: int, n: int): (r: map<int, MigrationState>)
    ensures forall k :: i <= k < n ==> k in r && r[k] == Running
    ensures forall k :: (k < i || k >= n) ==> (k in r <==> k in states)
    ensures forall k :: (k < i || k >= n) && k in states ==> r[k] == states[k]
    decreases n - i
  {
    if i >= n then states else MarkIndices(states[i := Running], i + 1, n)
  }

  /** The "set running" loop as written: it marks keys 0 up to the table's size, not the manga's keys. */
  function RunningByIndex(states: map<int, MigrationState>): (r: map<int, MigrationState>)
    ensures forall k :: 0 <= k < |states| ==> k in r && r[k] == Running
    ensures forall k :: (k < 0 || k >= |states|) ==> (k in r <==> k in states)
    ensures forall k :: (k < 0 || k >= |states|) && k in states ==> r[k] == states[k]
  {
    MarkIndices(states, 0, |states|)
  }

  /**
   * A manga whose key lies outside 0 up to the table's size is not marked
   * running by that loop; on a fresh screen the table is empty and nothing
   * is marked.
   */
  lemma RunningByIndexMissesItems(states: map<int, MigrationState>, k: int)
    requires k < 0 || k >= |states|
    ensures k in RunningByIndex(states) <==> k in states
    ensures k in states ==> RunningByIndex(states)[k] == states[k]
    ensures RunningByIndex(map[]) == map[]
  {
    assert RunningByIndex(map[]).Keys == {};
  }

  /** The evident intent: every listed manga's row is marked running. */
  function RunningForItems(states: map<int, MigrationState>, manga: seq<Manga>, key: Manga -> int): (r: map<int, MigrationState>)
    ensures r.Keys == states.Keys + set m | m in manga :: key(m)
    ensures forall m :: m in manga ==> r[key(m)] == Running
    ensures forall k :: k in states && (forall m :: m in manga ==> key(m) != k) ==> r[k] == states[k]
    decreases |manga|
  {
    if manga == [] then states
    else RunningForItems(states[key(manga[0]) := Running], manga[1..], key)
  }

  /** The manga keys are pairwise distinct. */
  predicate KeysDistinct(manga: seq<Manga>, key: Manga -> int) {
    forall i, j :: 0 <= i < j < |manga| ==> (manga[i] == manga[j] || key(manga[i]) != key(manga[j]))
  }

  /** Key `k`'s row records outcome `o`. */
  predicate RecordedIn(k: int, o: MatchOutcome, states: map<int, MigrationState>,
                       migrated: map<int, Option<Manga>>, chapters: map<int, seq<Chapter>>) {
    match o
    case Found(details, cs) =>
      && k in states && states[k] == Done
      && k in migrated && migrated[k] == Some(details)
      && k in chapters && chapters[k] == cs
    case NotFound => k in states && states[k] == Failed
  }

  /** Recording a match under another key leaves `k`'s row as it was. */
  lemma RecordedElsewhere(k: int, other: int, o: MatchOutcome,
                          states: map<int, MigrationState>, migrated: map<int, Option<Manga>>, chapters: map<int, seq<Chapter>>,
                          states': map<int, MigrationState>, migrated': map<int, Option<Manga>>, chapters': map<int, seq<Chapter>>)
    requires k != other
    requires states'.Keys <= states.Keys + {other} && states.Keys <= states'.Keys
    requires forall x :: x in states && x != other ==> states'[x] == states[x]
    requires migrated.Keys <= migrated'.Keys && forall x :: x in migrated && x != other ==> migrated'[x] == migrated[x]
    requires chapters.Keys <= chapters'.Keys && forall x :: x in chapters && x != other ==> chapters'[x] == chapters[x]
    ensures k in states ==> k in states' && states'[k] == states[k]
    ensures RecordedIn(k, o, states, migrated, chapters) ==> RecordedIn(k, o, states', migrated', chapters')
  {
  }

  /** Key `k`'s row is finished: `Done` or `Failed`. */
  predicate SettledIn(k: int, states: map<int, MigrationState>) {
    k in states && (states[k] == Done || states[k] == Failed)
  }

  /**
   * One search step: recording outcome `os[i]` under key `ks[i]` keeps the
   * earlier rows finished and, when no earlier row shares the key with a
   * different outcome, keeps each earlier row's own outcome.
   */
  lemma SearchStep(ks: seq<int>, os: seq<MatchOutcome>, i: int, distinct: bool,
                   states: map<int, MigrationState>, migrated: map<int, Option<Manga>>, chapters: map<int, seq<Chapter>>,
                   states': map<int, MigrationState>, migrated': map<int, Option<Manga>>, chapters': map<int, seq<Chapter>>)
    requires |ks| == |os| && 0 <= i < |ks|
    requires forall j :: 0 <= j < i ==> SettledIn(ks[j], states)
    requires distinct ==> forall j :: 0 <= j < i ==> RecordedIn(ks[j], os[j], states, migrated, chapters)
    requires distinct ==> forall j :: 0 <= j < i ==> ks[j] != ks[i] || os[j] == os[i]
    requires match os[i]
      case Found(details, cs) =>
        states' == states[ks[i] := Done] && migrated' == migrated[ks[i] := Some(details)] && chapters' == chapters[ks[i] := cs]
      case NotFound =>
        states' == states[ks[i] := Failed] && migrated' == migrated && chapters' == chapters
    ensures forall j :: 0 <= j <= i ==> SettledIn(ks[j], states')
    ensures distinct ==> forall j :: 0 <= j <= i ==> RecordedIn(ks[j], os[j], states', migrated', chapters')
  {
    forall j | 0 <= j <= i
      ensures SettledIn(ks[j], states')
      ensures distinct ==> RecordedIn(ks[j], os[j], states', migrated', chapters')
    {
      if j < i && ks[j] != ks[i] {
        RecordedElsewhere(ks[j], ks[i], os[j], states, migrated, chapters, states', migrated', chapters');
      }
    }
  }

  /** The matches recorded by the search, per manga key: the new manga (or nil) and its chapters. */
  datatype Matches = Matches(key: Manga -> int, migrated: map<int, Option<Manga>>, chapters: map<int, seq<Chapter>>)
  {
    /** The match recorded for key `k`, when there is a non-nil manga and a chapter list. */
    function Pending(k: int): (r: Option<(Manga, seq<Chapter>)>)
      ensures r.None? <==> k !in migrated || migrated[k].None? || k !in chapters
      ensures r.Some? ==> migrated[k] == Some(r.value.0) && chapters[k] == r.value.1
    {
      if k in migrated && migrated[k].Some? && k in chapters
      then Some((migrated[k].value, chapters[k]))
      else None
    }

    /** The pair reported for `m`: (m, new) when it has a recorded match. */
    function MigrationOf(m: Manga): Option<(Manga, Manga)> {
      match Pending(key(m))
      case Some((n, _)) => Some((m, n))
      case None => None
    }

    /** The store after migrating `m`: unchanged without a recorded match. */
    function MigrateStep(d: StoreData, m: Manga): StoreData {
      match Pending(key(m))
      case Some((n, cs)) => Migrate(d, m, n, cs)
      case None => d
    }

    /** The (old, new) pairs of the listed manga that have a recorded match, in list order. */
    function Migrations(items: seq<Manga>): (r: seq<(Manga, Manga)>)
      ensures |r| <= |items|
      ensures forall x :: x in r ==> exists j :: 0 <= j < |items| && MigrationOf(items[j]) == Some(x)
      ensures forall j :: 0 <= j < |items| && MigrationOf(items[j]).Some? ==> MigrationOf(items[j]).value in r
    {
      if items == [] then []
      else
        Reported(MigrationOf(items[0])) + Migrations(items[1..])
    }

    /** The store after migrating `items` one after another. */
    function MigrateAll(d: StoreData, items: seq<Manga>): (r: StoreData)
      ensures |r.catalog| <= |d.catalog| && |r.tracks| == |d.tracks|
      ensures (forall j :: 0 <= j < |items| ==> Pending(key(items[j])).None?) ==> r == d
      decreases |items|
    {
      if items == [] then d else MigrateAll(MigrateStep(d, items[0]), items[1..])
    }
  }

  /** Facts recorded position by position carry over to every listed manga. */
  lemma SearchCovers(items: seq<Manga>, key: Manga -> int, chosen: seq<SourceInfo>, p: Providers,
                     ks: seq<int>, os: seq<MatchOutcome>, distinct: bool,
                     states: map<int, MigrationState>, migrated: map<int, Option<Manga>>, chapters: map<int, seq<Chapter>>)
    requires |ks| == |items| == |os|
    requires forall j :: 0 <= j < |items| ==> ks[j] == key(items[j]) && os[j] == Match(items[j].title, chosen, p)
    requires forall j :: 0 <= j < |items| ==> SettledIn(ks[j], states)
    requires distinct ==> forall j :: 0 <= j < |items| ==> RecordedIn(ks[j], os[j], states, migrated, chapters)
    ensures forall m :: m in items ==> SettledIn(key(m), states)
    ensures distinct ==> forall m :: m in items ==> RecordedIn(key(m), Match(m.title, chosen, p), states, migrated, chapters)
  {
    forall m | m in items
      ensures SettledIn(key(m), states)
      ensures distinct ==> RecordedIn(key(m), Match(m.title, chosen, p), states, migrated, chapters)
    {
      var j :| 0 <= j < |items| && items[j] == m;
    }
  }

  /** The pairs reported for one migration outcome. */
  function Reported(o: Option<(Manga, Manga)>): (r: seq<(Manga, Manga)>)
    ensures |r| <= 1
  {
    match o
    case Some(pair) => [pair]
    case None => []
  }

  /** One turn of the migration loop moves the first remaining manga from the pending list to the done part. */
  lemma MigrationStep(t: Matches, items: seq<Manga>, i: int, d0: StoreData, d: StoreData, prev: seq<(Manga, Manga)>)
    requires 0 <= i < |items|
    requires prev + t.Migrations(items[i..]) == t.Migrations(items)
    requires t.MigrateAll(d, items[i..]) == t.MigrateAll(d0, items)
    ensures (prev + Reported(t.MigrationOf(items[i]))) + t.Migrations(items[i + 1..]) == t.Migrations(items)
    ensures t.MigrateAll(t.MigrateStep(d, items[i]), items[i + 1..]) == t.MigrateAll(d0, items)
  {
    var here, later := items[i..], items[i + 1..];
    assert here[0] == items[i] && here[1..] == later;
    MigrationsUnfold(t, here, items[i], later);
    MigrateAllUnfold(t, d, here, items[i], later);
    var step, rest := Reported(t.MigrationOf(items[i])), t.Migrations(later);
    AppendAssociative(prev, step, rest);
  }

  lemma AppendAssociative<T>(a: seq<T>, b: seq<T>, c: seq<T>)
    ensures (a + b) + c == a + (b + c)
  {
  }

  /** The reported pairs of a non-empty list: the first manga's pair, then the rest's. */
  lemma MigrationsUnfold(t: Matches, here: seq<Manga>, first: Manga, rest: seq<Manga>)
    requires here != [] && here[0] == first && here[1..] == rest
    ensures t.Migrations(here) == Reported(t.MigrationOf(first)) + t.Migrations(rest)
  {
  }

  /** Migrating a non-empty list: the first manga, then the rest. */
  lemma MigrateAllUnfold(t: Matches, d: StoreData, here: seq<Manga>, first: Manga, rest: seq<Manga>)
    requires here != [] && here[0] == first && here[1..] == rest
    ensures t.MigrateAll(d, here) == t.MigrateAll(t.MigrateStep(d, first), rest)
  {
  }

  class MigrateMangaView {
    /** `hashValue`: the key of each manga in the tables below. */
    const key: Manga -> int
    var manga: seq<Manga>
    var sources: map<int, Option<SourceInfo>>
    var migrationState: MigrationState
    var selectedSources: seq<SourceInfo>
    var migratedManga: map<int, Option<Manga>>
    var newChapters: map<int, seq<Chapter>>
    var states: map<int, MigrationState>

    /** Open the screen on `manga`; `sourceFor` resolves a source id to the installed source's description. */
    constructor (manga: seq<Manga>, key: Manga -> int, sourceFor: string -> Option<SourceInfo>)
      ensures this.manga == manga && this.key == key
      ensures sources == SourceTable(manga, key, sourceFor)
      ensures migrationState == Idle && selectedSources == []
      ensures migratedManga == map[] && newChapters == map[] && states == map[]
    {
      this.key := key;
      this.manga := manga;
      var table: map<int, Option<SourceInfo>> := map[];
      for i := 0 to |manga|
        invariant table == SourceTable(manga[..i], key, sourceFor)
      {
        assert manga[..i + 1][..i] == manga[..i];
        table := table[key(manga[i]) := sourceFor(manga[i].sourceId)];
      }
      assert manga[..|manga|] == manga;
      sources := table;
      migrationState := Idle;
      selectedSources := [];
      migratedManga, newChapters, states := map[], map[], map[];
    }

    /**
     * Withdraw `m`: every equal entry leaves the list, the others stay in
     * order, and `m`'s key leaves the four tables; nothing else changes.
     */
    method Remove(m: Manga)
      modifies this
      ensures manga == RemoveAll(old(manga), m)
      ensures sources == old(sources) - {key(m)}
      ensures newChapters == old(newChapters) - {key(m)}
      ensures migratedManga == old(migratedManga) - {key(m)}
      ensures states == old(states) - {key(m)}
      ensures migrationState == old(migrationState) && selectedSources == old(selectedSources)
      ensures m !in manga && Matched().MigrationOf(m) == None
      ensures forall d :: Matched().MigrateStep(d, m) == d
    {
      manga := RemoveAll(manga, m);
      sources := sources - {key(m)};
      newChapters := newChapters - {key(m)};
      migratedManga := migratedManga - {key(m)};
      states := states - {key(m)};
    }

    /** The "set running" loop as written: keys 0 up to the table's size at the start. */
    method MarkRunningByIndex()
      modifies this`states
      ensures states == RunningByIndex(old(states))
    {
      var n := |states|;
      for i := 0 to n
        invariant RunningByIndex(old(states)) == MarkIndices(states, i, n)
      {
        states := states[i := Running];
      }
    }

    /** Mark every listed manga's row running. */
    method MarkRunning()
      modifies this`states
      ensures states == RunningForItems(old(states), manga, key)
    {
      for i := 0 to |manga|
        invariant RunningForItems(old(states), manga, key) == RunningForItems(states, manga[i..], key)
      {
        assert manga[i..][1..] == manga[i + 1..];
        states := states[key(manga[i]) := Running];
      }
    }

    /**
     * Match one manga: try the chosen sources in order and record the
     * first match with its chapters and `Done`, or record `Failed`.
     */
    method SearchManga(m: Manga, p: Providers)
      modifies this`migratedManga, this`newChapters, this`states
      ensures match Match(m.title, selectedSources, p)
        case Found(details, chapters) =>
          && migratedManga == old(migratedManga)[key(m) := Some(details)]
          && newChapters == old(newChapters)[key(m) := chapters]
          && states == old(states)[key(m) := Done]
        case NotFound =>
          && migratedManga == old(migratedManga)
          && newChapters == old(newChapters)
          && states == old(states)[key(m) := Failed]
    {
      var i := 0;
      while i < |selectedSources|
        invariant 0 <= i <= |selectedSources|
        invariant Match(m.title, selectedSources, p) == Match(m.title, selectedSources[i..], p)
        invariant migratedManga == old(migratedManga) && newChapters == old(newChapters) && states == old(states)
      {
        var source := selectedSources[i];
        if m.title.Some? && p.resolves(source.sourceId) {
          var search := p.search(source.sourceId, m.title.value);
          if search.Some? && search.value != [] {
            var newManga := search.value[0];
            var details := p.details(source.sourceId, newManga).GetOr(newManga);
            var chapters := p.chapters(source.sourceId, details);
            migratedManga := migratedManga[key(m) := Some(details)];
            newChapters := newChapters[key(m) := chapters.GetOr([])];
            states := states[key(m) := Done];
            return;
          }
        }
        assert selectedSources[i..][1..] == selectedSources[i + 1..];
        i := i + 1;
      }
      states := states[key(m) := Failed];
    }

    /** `m`'s row is finished: `Done` or `Failed`. */
    predicate Settled(m: Manga)
      reads this
    {
      SettledIn(key(m), states)
    }

    /** `m`'s row records `m`'s own match: the match, its chapters and `Done`, or `Failed`. */
    predicate Recorded(m: Manga, p: Providers)
      reads this
    {
      RecordedIn(key(m), Match(m.title, selectedSources, p), states, migratedManga, newChapters)
    }

    /**
     * Match every manga, one after another. Afterwards every listed manga's
     * row is `Done` or `Failed`, never idle or running; when the keys are
     * distinct, each row records exactly its own manga's match. The
     * "set running" loop runs as written, so rows with keys 0 up to the
     * table's former size that belong to no listed manga are left running.
     */
    method PerformSearch(p: Providers)
      modifies this`migratedManga, this`newChapters, this`states, this`migrationState
      ensures migrationState == Done
      ensures forall m :: m in manga ==> Settled(m)
      ensures KeysDistinct(manga, key) ==> forall m :: m in manga ==> Recorded(m, p)
      ensures forall k :: 0 <= k < |old(states)| && k !in KeysOf(manga, key) ==> k in states && states[k] == Running
      ensures forall k :: (k < 0 || k >= |old(states)|) && k in old(states) && k !in KeysOf(manga, key) ==> k in states && states[k] == old(states)[k]
      ensures forall k :: k !in KeysOf(manga, key) ==>
        (k in migratedManga <==> k in old(migratedManga)) && (k in newChapters <==> k in old(newChapters))
      ensures forall k :: k in old(migratedManga) && k !in KeysOf(manga, key) ==> migratedManga[k] == old(migratedManga)[k]
      ensures forall k :: k in old(newChapters) && k !in KeysOf(manga, key) ==> newChapters[k] == old(newChapters)[k]
      ensures forall k :: k in migratedManga && !(k in old(migratedManga) && migratedManga[k] == old(migratedManga)[k]) ==>
        exists j :: 0 <= j < |manga| && key(manga[j]) == k && Match(manga[j].title, selectedSources, p).Found?
      ensures forall k :: k in newChapters && !(k in old(newChapters) && newChapters[k] == old(newChapters)[k]) ==>
        exists j :: 0 <= j < |manga| && key(manga[j]) == k && Match(manga[j].title, selectedSources, p).Found?
      ensures forall k :: (k < 0 || k >= |old(states)|) && k !in old(states) && k !in KeysOf(manga, key) ==> k !in states
      ensures old(states).Keys <= states.Keys && old(migratedManga).Keys <= migratedManga.Keys && old(newChapters).Keys <= newChapters.Keys
    {
      migrationState := Running;
      MarkRunningByIndex();
      SearchAll(p);
      migrationState := Done;
    }

    /** The search loop: match each listed manga in turn. */
    method SearchAll(p: Providers)
      modifies this`migratedManga, this`newChapters, this`states
      ensures forall m :: m in manga ==> Settled(m)
      ensures KeysDistinct(manga, key) ==> forall m :: m in manga ==> Recorded(m, p)
      ensures forall k :: k in old(states) && k !in KeysOf(manga, key) ==> k in states && states[k] == old(states)[k]
      ensures forall k :: k !in old(states) && k !in KeysOf(manga, key) ==> k !in states
      ensures old(states).Keys <= states.Keys && old(migratedManga).Keys <= migratedManga.Keys && old(newChapters).Keys <= newChapters.Keys
      ensures forall k :: k !in KeysOf(manga, key) ==>
        (k in migratedManga <==> k in old(migratedManga)) && (k in newChapters <==> k in old(newChapters))
      ensures forall k :: k in old(migratedManga) && k !in KeysOf(manga, key) ==> migratedManga[k] == old(migratedManga)[k]
      ensures forall k :: k in old(newChapters) && k !in KeysOf(manga, key) ==> newChapters[k] == old(newChapters)[k]
      ensures forall k :: k in migratedManga && !(k in old(migratedManga) && migratedManga[k] == old(migratedManga)[k]) ==>
        exists j :: 0 <= j < |manga| && key(manga[j]) == k && Match(manga[j].title, selectedSources, p).Found?
      ensures forall k :: k in newChapters && !(k in old(newChapters) && newChapters[k] == old(newChapters)[k]) ==>
        exists j :: 0 <= j < |manga| && key(manga[j]) == k && Match(manga[j].title, selectedSources, p).Found?
    {
      ghost var items, chosen, kf := manga, selectedSources, key;
      ghost var ks := KeysOf(items, kf);
      ghost var st0, mm0, nc0 := states, migratedManga, newChapters;
      ghost var outcome := seq(|items|, j requires 0 <= j < |items| => Match(items[j].title, chosen, p));
      ghost var distinct := KeysDistinct(manga, key);
      for i := 0 to |manga|
        invariant forall j :: 0 <= j < i ==> SettledIn(ks[j], states)
        invariant distinct ==> forall j :: 0 <= j < i ==> RecordedIn(ks[j], outcome[j], states, migratedManga, newChapters)
        invariant forall k :: k in st0 && k !in ks ==> k in states && states[k] == st0[k]
        invariant forall k :: k !in st0 && k !in ks ==> k !in states
        invariant st0.Keys <= states.Keys && mm0.Keys <= migratedManga.Keys && nc0.Keys <= newChapters.Keys
        invariant forall k :: k !in ks ==> (k in migratedManga <==> k in mm0) && (k in newChapters <==> k in nc0)
        invariant forall k :: k in mm0 && k !in ks ==> migratedManga[k] == mm0[k]
        invariant forall k :: k in nc0 && k !in ks ==> newChapters[k] == nc0[k]
        invariant forall k :: k in migratedManga && !(k in mm0 && migratedManga[k] == mm0[k]) ==>
          exists j :: 0 <= j < i && ks[j] == k && outcome[j].Found?
        invariant forall k :: k in newChapters && !(k in nc0 && newChapters[k] == nc0[k]) ==>
          exists j :: 0 <= j < i && ks[j] == k && outcome[j].Found?
      {
        ghost var st, mm, nc := states, migratedManga, newChapters;
        SearchManga(manga[i], p);
        assert distinct ==> forall j :: 0 <= j < i ==> ks[j] != ks[i] || outcome[j] == outcome[i] by {
          if distinct {
            forall j | 0 <= j < i ensures ks[j] != ks[i] || outcome[j] == outcome[i] {
              assert manga[j] == manga[i] || key(manga[j]) != key(manga[i]);
            }
          }
        }
        SearchStep(ks, outcome, i, distinct, st, mm, nc, states, migratedManga, newChapters);
      }
      SearchCovers(items, kf, chosen, p, ks, outcome, distinct, states, migratedManga, newChapters);
    }

    /** The recorded matches, as a value. */
    function Matched(): Matches
      reads this
    {
      Matches(key, migratedManga, newChapters)
    }

    /**
     * Migrate one manga: without a recorded match nothing happens and the
     * result is `None`; otherwise the library, chapter and history, and
     * tracker steps run and the result is (old, new).
     */
    method MigrateManga(oldManga: Manga, store: Store) returns (r: Option<(Manga, Manga)>)
      modifies store
      ensures match Matched().Pending(key(oldManga))
        case None => r == None && store.Data() == old(store.Data())
        case Some((newManga, chapters)) =>
          r == Some((oldManga, newManga)) && store.Data() == Migrate(old(store.Data()), oldManga, newManga, chapters)
      ensures r == Matched().MigrationOf(oldManga) && store.Data() == Matched().MigrateStep(old(store.Data()), oldManga)
    {
      var k := key(oldManga);
      if !(k in migratedManga && migratedManga[k].Some? && k in newChapters) {
        return None;
      }
      var newManga := migratedManga[k].value;
      var chapters := newChapters[k];
      store.MigrateMangaRecord(oldManga, newManga);
      store.MigrateMangaHistory(oldManga, newManga, chapters);
      store.MigrateMangaTracks(oldManga, newManga);
      r := Some((oldManga, newManga));
    }

    /**
     * Migrate every listed manga, one after another, and collect the
     * migrated (old, new) pairs.
     */
    method PerformMigration(store: Store) returns (migrated: seq<(Manga, Manga)>)
      modifies store
      ensures migrated == Matched().Migrations(manga)
      ensures store.Data() == Matched().MigrateAll(old(store.Data()), manga)
    {
      migrated := [];
      var items, t := manga, Matched();
      ghost var d0 := store.Data();
      for i := 0 to |items|
        invariant migrated + t.Migrations(items[i..]) == t.Migrations(items)
        invariant t.MigrateAll(store.Data(), items[i..]) == t.MigrateAll(d0, items)
      {
        var m := items[i];
        MigrationStep(t, items, i, d0, store.Data(), migrated);
        var result := MigrateManga(m, store);
        if result.Some? {
          migrated := migrated + [result.value];
        }
      }
      assert items[|items|..] == [];
    }
  }

  /** Migrating any list of manga keeps the store free of duplicate library records and tracker links. */
  lemma {:induction false} MigrateAllKeepsConsistent(t: Matches, d: StoreData, items: seq<Manga>)
    requires Consistent(d)
    ensures Consistent(t.MigrateAll(d, items))
    decreases |items|
  {
    if items != [] {
      match t.Pending(t.key(items[0])) {
        case Some((n, cs)) => MigrateKeepsConsistent(d, items[0], n, cs);
        case None =>
      }
      MigrateAllKeepsConsistent(t, t.MigrateStep(d, items[0]), items[1..]);
    }
  }
}
