/**
 * The persistent store as the migration sees it, and the three rewrites a
 * migration performs on it for one manga: the library record, the chapters
 * and reading history, and the tracker links. Records are kept in store
 * order, so that a store holding two records for one identity, which the
 * store itself does not forbid, can be described.
 */
module MigrationStore {
  import opened Wrappers
  import opened MigrationSearch

  // ----- library records -----

  /**
   * A stored manga record: the manga data last loaded into it, and
   * `recordState`, standing for what belongs to the record itself and is
   * not overwritten by loading new data into it (its library entry,
   * categories, row identity).
   */
  datatype StoredManga = StoredManga(manga: Manga, recordState: int)

  predicate IsRecordOf(r: StoredManga, sourceId: string, mangaId: string) {
    r.manga.sourceId == sourceId && r.manga.id == mangaId
  }

  predicate SameIdentity(a: Manga, b: Manga) {
    a.sourceId == b.sourceId && a.id == b.id
  }

  /** At most one record per (sourceId, mangaId). */
  predicate UniqueRecords(rows: seq<StoredManga>) {
    forall i, j :: 0 <= i < j < |rows| ==> !SameIdentity(rows[i].manga, rows[j].manga)
  }

  /** `getManga(sourceId:mangaId:)`: the first record with that identity, by position. */
  function FindManga(rows: seq<StoredManga>, sourceId: string, mangaId: string): (r: Option<nat>)
    ensures r.Some? ==> r.value < |rows| && IsRecordOf(rows[r.value], sourceId, mangaId)
    ensures r.Some? ==> forall j :: 0 <= j < r.value ==> !IsRecordOf(rows[j], sourceId, mangaId)
    ensures r.None? ==> forall j :: 0 <= j < |rows| ==> !IsRecordOf(rows[j], sourceId, mangaId)
  {
    if rows == [] then None
    else if IsRecordOf(rows[0], sourceId, mangaId) then Some(0)
    else match FindManga(rows[1..], sourceId, mangaId)
      case None => None
      case Some(i) => Some(i + 1)
  }

  /** `removeManga(sourceId:mangaId:)`: drop every record with that identity, keeping the rest in order. */
  function RemoveManga(rows: seq<StoredManga>, sourceId: string, mangaId: string): (r: seq<StoredManga>)
    ensures forall x :: x in r <==> x in rows && !IsRecordOf(x, sourceId, mangaId)
    ensures |r| <= |rows|
    ensures UniqueRecords(rows) ==> UniqueRecords(r)
  {
    if rows == [] then []
    else
      var rest := RemoveManga(rows[1..], sourceId, mangaId);
      assert UniqueRecords(rows) ==> UniqueRecords(rows[1..]);
      assert UniqueRecords(rows) ==> forall j :: 0 <= j < |rest| ==> !SameIdentity(rows[0].manga, rest[j].manga) by {
        if UniqueRecords(rows) {
          forall j | 0 <= j < |rest| ensures !SameIdentity(rows[0].manga, rest[j].manga) {
            assert rest[j] in rows[1..];
            var k :| 0 <= k < |rows[1..]| && rows[1..][k] == rest[j];
            assert rows[k + 1] == rest[j];
          }
        }
      }
      if IsRecordOf(rows[0], sourceId, mangaId) then rest else [rows[0]] + rest
  }

  /** `load(from:)`: overwrite the record's manga data, keep what belongs to the record. */
  function Load(r: StoredManga, m: Manga): StoredManga {
    r.(manga := m)
  }

  /**
   * The library step. When the destination differs from the source manga
   * and already has a record, that record receives the new data and the
   * old manga's records are removed (an existing destination wins);
   * otherwise the old manga's record, if any, receives the new data
   * (renamed in place). With no record for either, nothing changes.
   */
  function MigrateCatalog(rows: seq<StoredManga>, from: Manga, to: Manga): (r: seq<StoredManga>)
    ensures |r| <= |rows|
    ensures forall x :: x in r ==> x in rows || x.manga == to
  {
    var existing := if SameIdentity(from, to) then None else FindManga(rows, to.sourceId, to.id);
    if existing.Some? then
      RemoveManga(rows[existing.value := Load(rows[existing.value], to)], from.sourceId, from.id)
    else
      match FindManga(rows, from.sourceId, from.id)
      case Some(t) => rows[t := Load(rows[t], to)]
      case None => rows
  }

  /** The library step as written: only the manga id, not the source id, is compared. */
  function MigrateCatalogAsWritten(rows: seq<StoredManga>, from: Manga, to: Manga): (r: seq<StoredManga>)
    ensures |r| <= |rows|
    ensures forall x :: x in r ==> x in rows || x.manga == to
  {
    var existing := if to.id == from.id then None else FindManga(rows, to.sourceId, to.id);
    if existing.Some? then
      RemoveManga(rows[existing.value := Load(rows[existing.value], to)], from.sourceId, from.id)
    else
      match FindManga(rows, from.sourceId, from.id)
      case Some(t) => rows[t := Load(rows[t], to)]
      case None => rows
  }

  /** The two versions differ only when the ids agree and the source ids do not. */
  lemma CatalogVersionsAgree(rows: seq<StoredManga>, from: Manga, to: Manga)
    requires to.id != from.id || to.sourceId == from.sourceId
    ensures MigrateCatalogAsWritten(rows, from, to) == MigrateCatalog(rows, from, to)
  {
  }

  /** As written, the library stays free of duplicates whenever the ids differ or the source ids agree. */
  lemma AsWrittenKeepsUniqueOtherwise(rows: seq<StoredManga>, from: Manga, to: Manga)
    requires UniqueRecords(rows)
    requires to.id != from.id || to.sourceId == from.sourceId
    ensures UniqueRecords(MigrateCatalogAsWritten(rows, from, to))
  {
    CatalogVersionsAgree(rows, from, to);
    CatalogKeepsUnique(rows, from, to);
  }

  /**
   * As written, migrating ("a", "1") to ("b", "1") while both are in the
   * library renames the old record onto the destination's identity beside
   * the destination's own record: the library ends up with two records
   * for ("b", "1").
   */
  lemma AsWrittenDuplicatesRecord()
    ensures var from, to := Manga("a", "1", Some("T"), "old"), Manga("b", "1", Some("T"), "new");
      var rows := [StoredManga(from, 0), StoredManga(Manga("b", "1", Some("T"), "kept"), 1)];
      var after := MigrateCatalogAsWritten(rows, from, to);
      UniqueRecords(rows) && after == [StoredManga(to, 0), StoredManga(Manga("b", "1", Some("T"), "kept"), 1)]
      && !UniqueRecords(after)
  {
    var from, to := Manga("a", "1", Some("T"), "old"), Manga("b", "1", Some("T"), "new");
    var rows := [StoredManga(from, 0), StoredManga(Manga("b", "1", Some("T"), "kept"), 1)];
    assert FindManga(rows, "a", "1") == Some(0);
    var after := MigrateCatalogAsWritten(rows, from, to);
    assert after == [StoredManga(to, 0), StoredManga(Manga("b", "1", Some("T"), "kept"), 1)];
    assert SameIdentity(after[0].manga, after[1].manga);
  }

  /** Replacing a record by one of an identity no other record has keeps the records unique. */
  lemma {:induction false} UpdateKeepsUnique(rows: seq<StoredManga>, t: nat, r: StoredManga)
    requires UniqueRecords(rows) && t < |rows|
    requires forall j :: 0 <= j < |rows| && j != t ==> !SameIdentity(rows[j].manga, r.manga)
    ensures UniqueRecords(rows[t := r])
  {
  }

  /** The library step keeps the library free of duplicate records. */
  lemma CatalogKeepsUnique(rows: seq<StoredManga>, from: Manga, to: Manga)
    requires UniqueRecords(rows)
    ensures UniqueRecords(MigrateCatalog(rows, from, to))
  {
    var existing := if SameIdentity(from, to) then None else FindManga(rows, to.sourceId, to.id);
    if existing.Some? {
      var t := existing.value;
      UpdateKeepsUnique(rows, t, Load(rows[t], to));
    } else if FindManga(rows, from.sourceId, from.id).Some? {
      var t := FindManga(rows, from.sourceId, from.id).value;
      if !SameIdentity(from, to) {
        assert FindManga(rows, to.sourceId, to.id).None?;
      }
      UpdateKeepsUnique(rows, t, Load(rows[t], to));
    }
  }

  /**
   * Outcome of the library step on a library without duplicates: if either
   * manga had a record, exactly one record carries the destination's
   * identity and the new data, keeping the destination's own record when
   * it had one and the old manga's record otherwise; the old manga's
   * record is gone when the identities differ; every other record is kept.
   */
  lemma CatalogOutcome(rows: seq<StoredManga>, from: Manga, to: Manga)
    requires UniqueRecords(rows)
    ensures var after := MigrateCatalog(rows, from, to);
      var old_ := FindManga(rows, from.sourceId, from.id);
      var dest := FindManga(rows, to.sourceId, to.id);
      && (old_.None? && dest.None? ==> after == rows)
      && (old_.Some? || dest.Some? ==>
            exists i :: 0 <= i < |after| && after[i] == StoredManga(to, rows[if dest.Some? then dest.value else old_.value].recordState))
      && (!SameIdentity(from, to) ==> forall x :: x in after ==> !IsRecordOf(x, from.sourceId, from.id))
      && (forall x :: x in rows && !IsRecordOf(x, from.sourceId, from.id) && !IsRecordOf(x, to.sourceId, to.id) ==> x in after)
      && (forall x :: x in after ==> x in rows || x.manga == to)
  {
    var after := MigrateCatalog(rows, from, to);
    var old_ := FindManga(rows, from.sourceId, from.id);
    var dest := FindManga(rows, to.sourceId, to.id);
    if !SameIdentity(from, to) && dest.Some? {
      var t := dest.value;
      var updated := rows[t := Load(rows[t], to)];
      assert updated[t] in after;
      forall x | x in rows && !IsRecordOf(x, from.sourceId, from.id) && !IsRecordOf(x, to.sourceId, to.id)
        ensures x in after
      {
        var j :| 0 <= j < |rows| && rows[j] == x;
        assert updated[j] == x;
      }
    } else if old_.Some? {
      var t := old_.value;
      if SameIdentity(from, to) {
        assert dest == old_;
      }
      assert after[t] == StoredManga(to, rows[t].recordState);
      forall x | x in after ensures !SameIdentity(from, to) ==> !IsRecordOf(x, from.sourceId, from.id) {
        var j :| 0 <= j < |after| && after[j] == x;
        if j != t && !SameIdentity(from, to) {
          assert !SameIdentity(rows[j].manga, rows[t].manga);
        }
      }
      forall x | x in rows && !IsRecordOf(x, from.sourceId, from.id) && !IsRecordOf(x, to.sourceId, to.id)
        ensures x in after
      {
        var j :| 0 <= j < |rows| && rows[j] == x;
        assert after[j] == x;
      }
    } else if SameIdentity(from, to) {
      assert dest == old_;
    }
  }

  // ----- chapters and history -----

  /** The identity a chapter list is stored under. */
  datatype MangaKey = MangaKey(sourceId: string, mangaId: string)

  function KeyOf(m: Manga): MangaKey {
    MangaKey(m.sourceId, m.id)
  }

  /**
   * A reading-history entry for one chapter. `chapterNum` is the number of
   * the chapter the entry is linked to: `None` when the entry has no
   * chapter or that chapter has no number.
   */
  datatype HistoryEntry = HistoryEntry(sourceId: string, mangaId: string, chapterId: string, chapterNum: Option<real>, completed: bool)

  predicate IsEntryOf(e: HistoryEntry, sourceId: string, mangaId: string) {
    e.sourceId == sourceId && e.mangaId == mangaId
  }

  /** A numbered history entry of (sourceId, mangaId). */
  predicate Numbered(e: HistoryEntry, sourceId: string, mangaId: string) {
    IsEntryOf(e, sourceId, mangaId) && e.chapterNum.Some?
  }

  /**
   * `maxChapterRead`: the largest chapter number among the manga's history
   * entries that carry one; `None` when none does.
   */
  function MaxChapterRead(history: seq<HistoryEntry>, sourceId: string, mangaId: string): (r: Option<real>)
    ensures r.None? <==> forall i :: 0 <= i < |history| ==> !Numbered(history[i], sourceId, mangaId)
    ensures r.Some? ==> exists i :: 0 <= i < |history| && Numbered(history[i], sourceId, mangaId) && history[i].chapterNum == r
    ensures r.Some? ==> forall i :: 0 <= i < |history| && Numbered(history[i], sourceId, mangaId) ==> history[i].chapterNum.value <= r.value
  {
    if history == [] then None
    else
      var rest := MaxChapterRead(history[1..], sourceId, mangaId);
      var e := history[0];
      assert forall i :: 1 <= i < |history| ==> history[i] == history[1..][i - 1];
      if !Numbered(e, sourceId, mangaId) then
        (assert rest.Some? ==> exists i :: 0 <= i < |history[1..]| && Numbered(history[1..][i], sourceId, mangaId) && history[1..][i].chapterNum == rest;
        rest)
      else if rest.Some? && e.chapterNum.value <= rest.value then rest
      else e.chapterNum
  }

  /** `Float.greatestFiniteMagnitude`, what a chapter without a number is compared as. */
  const GreatestFiniteMagnitude: real := 340282346638528859811704183484516925440.0

  /** Whether a new chapter is marked read: its number, or the largest float when it has none, is at most `max`. */
  predicate MarkedRead(c: Chapter, max: real) {
    c.chapterNum.GetOr(GreatestFiniteMagnitude) <= max
  }

  /** `newChapters.filter { $0.chapterNum ?? .greatestFiniteMagnitude <= max }`. */
  function ChaptersToComplete(chapters: seq<Chapter>, max: real): (r: seq<Chapter>)
    ensures forall c :: c in r <==> c in chapters && MarkedRead(c, max)
    ensures |r| <= |chapters|
  {
    if chapters == [] then []
    else (if MarkedRead(chapters[0], max) then [chapters[0]] else []) + ChaptersToComplete(chapters[1..], max)
  }

  /**
   * Below the largest float, exactly the chapters with a number at most
   * `max` are marked; a chapter without a number never is.
   */
  lemma MarkedExactly(chapters: seq<Chapter>, max: real)
    requires max < GreatestFiniteMagnitude
    ensures forall c :: c in ChaptersToComplete(chapters, max) <==> c in chapters && c.chapterNum.Some? && c.chapterNum.value <= max
  {
  }

  predicate IsEntryFor(e: HistoryEntry, c: Chapter) {
    e.sourceId == c.sourceId && e.mangaId == c.mangaId && e.chapterId == c.id
  }

  function SetCompletedAll(history: seq<HistoryEntry>, c: Chapter): (r: seq<HistoryEntry>)
    ensures |r| == |history|
    ensures forall i :: 0 <= i < |r| ==> r[i] == if IsEntryFor(history[i], c) then history[i].(completed := true) else history[i]
  {
    if history == [] then []
    else [if IsEntryFor(history[0], c) then history[0].(completed := true) else history[0]] + SetCompletedAll(history[1..], c)
  }

  /** Mark one chapter completed: its existing entries are marked, or an entry is added. */
  function MarkCompleted(history: seq<HistoryEntry>, c: Chapter): (r: seq<HistoryEntry>)
    ensures |history| <= |r| <= |history| + 1
  {
    if exists i :: 0 <= i < |history| && IsEntryFor(history[i], c) then SetCompletedAll(history, c)
    else history + [HistoryEntry(c.sourceId, c.mangaId, c.id, c.chapterNum, true)]
  }

  /** `setCompleted(chapters:)`: mark each chapter completed, in order. */
  function SetCompleted(history: seq<HistoryEntry>, chapters: seq<Chapter>): (r: seq<HistoryEntry>)
    ensures |history| <= |r| <= |history| + |chapters|
    decreases |chapters|
  {
    if chapters == [] then history
    else SetCompleted(MarkCompleted(history, chapters[0]), chapters[1..])
  }

  /** `removeHistory(sourceId:mangaId:)`: drop the manga's entries, keeping the rest in order. */
  function RemoveHistory(history: seq<HistoryEntry>, sourceId: string, mangaId: string): (r: seq<HistoryEntry>)
    ensures forall e :: e in r <==> e in history && !IsEntryOf(e, sourceId, mangaId)
  {
    if history == [] then []
    else (if IsEntryOf(history[0], sourceId, mangaId) then [] else [history[0]]) + RemoveHistory(history[1..], sourceId, mangaId)
  }

  /** The chapter and history step's effect on the chapter lists: old removed, new stored under the destination. */
  function MigrateChapters(chapters: map<MangaKey, seq<Chapter>>, from: Manga, to: Manga, newChapters: seq<Chapter>): (r: map<MangaKey, seq<Chapter>>)
    ensures KeyOf(to) in r && r[KeyOf(to)] == newChapters
    ensures KeyOf(from) != KeyOf(to) ==> KeyOf(from) !in r
    ensures forall k :: k != KeyOf(from) && k != KeyOf(to) ==> (k in r <==> k in chapters)
    ensures forall k :: k != KeyOf(from) && k != KeyOf(to) && k in r ==> r[k] == chapters[k]
  {
    (chapters - {KeyOf(from)})[KeyOf(to) := newChapters]
  }

  /**
   * The chapter and history step's effect on the history: the old manga's
   * entries are removed, then, when they carried a largest chapter
   * number, the new chapters at or below it are marked completed.
   */
  function MigrateHistory(history: seq<HistoryEntry>, from: Manga, newChapters: seq<Chapter>): (r: seq<HistoryEntry>)
    ensures forall e :: e in r ==>
      (e in history && !IsEntryOf(e, from.sourceId, from.id)) || (e.completed && exists c :: c in newChapters && IsEntryFor(e, c))
  {
    var max := MaxChapterRead(history, from.sourceId, from.id);
    var cleared := RemoveHistory(history, from.sourceId, from.id);
    if max.Some? then
      var marked := ChaptersToComplete(newChapters, max.value);
      SetCompletedSpec(cleared, marked);
      SetCompleted(cleared, marked)
    else cleared
  }

  /** An entry marking `c` completed. */
  predicate CompletedIn(history: seq<HistoryEntry>, c: Chapter) {
    exists i :: 0 <= i < |history| && IsEntryFor(history[i], c) && history[i].completed
  }

  lemma MarkCompletedSpec(history: seq<HistoryEntry>, c: Chapter)
    ensures var r := MarkCompleted(history, c);
      && CompletedIn(r, c)
      && (forall d :: CompletedIn(history, d) ==> CompletedIn(r, d))
      && (forall i :: 0 <= i < |history| && !IsEntryFor(history[i], c) ==> history[i] in r)
      && (forall e :: e in r ==> e in history || (IsEntryFor(e, c) && e.completed))
  {
    var r := MarkCompleted(history, c);
    if exists i :: 0 <= i < |history| && IsEntryFor(history[i], c) {
      var i :| 0 <= i < |history| && IsEntryFor(history[i], c);
      assert IsEntryFor(r[i], c) && r[i].completed;
      forall d | CompletedIn(history, d) ensures CompletedIn(r, d) {
        var j :| 0 <= j < |history| && IsEntryFor(history[j], d) && history[j].completed;
        assert IsEntryFor(r[j], d) && r[j].completed;
      }
      forall i | 0 <= i < |history| && !IsEntryFor(history[i], c) ensures history[i] in r {
        assert r[i] == history[i];
      }
    } else {
      assert r[|history|] == HistoryEntry(c.sourceId, c.mangaId, c.id, c.chapterNum, true);
      forall d | CompletedIn(history, d) ensures CompletedIn(r, d) {
        var j :| 0 <= j < |history| && IsEntryFor(history[j], d) && history[j].completed;
        assert r[j] == history[j];
      }
    }
  }

  /**
   * Every chapter handed to `setCompleted` ends up completed, completed
   * chapters stay completed, entries of other chapters are kept, and
   * every entry in the result was there before or marks one of the chapters.
   */
  lemma {:induction false} SetCompletedSpec(history: seq<HistoryEntry>, chapters: seq<Chapter>)
    ensures var r := SetCompleted(history, chapters);
      && (forall c :: c in chapters ==> CompletedIn(r, c))
      && (forall d :: CompletedIn(history, d) ==> CompletedIn(r, d))
      && (forall e :: e in history && (forall c :: c in chapters ==> !IsEntryFor(e, c)) ==> e in r)
      && (forall e :: e in r ==> e in history || (e.completed && exists c :: c in chapters && IsEntryFor(e, c)))
    decreases |chapters|
  {
    if chapters != [] {
      var c := chapters[0];
      var h1 := MarkCompleted(history, c);
      MarkCompletedSpec(history, c);
      SetCompletedSpec(h1, chapters[1..]);
      var r := SetCompleted(history, chapters);
      assert r == SetCompleted(h1, chapters[1..]);
      forall e | e in history && (forall c' :: c' in chapters ==> !IsEntryFor(e, c')) ensures e in r {
        var i :| 0 <= i < |history| && history[i] == e;
        assert c in chapters;
        assert e in h1;
        assert forall c' :: c' in chapters[1..] ==> c' in chapters;
      }
      forall e | e in r ensures e in history || (e.completed && exists c' :: c' in chapters && IsEntryFor(e, c')) {
        if e !in h1 {
          var c' :| c' in chapters[1..] && IsEntryFor(e, c');
          assert c' in chapters;
        }
      }
    }
  }

  /**
   * Outcome of the history step. Every new chapter at or below the old
   * largest chapter number is completed; with no numbered old entry,
   * nothing is marked and the old entries are simply removed. Entries of
   * other manga are kept, and the only entries left for the old manga are
   * completion marks for new chapters.
   */
  lemma HistoryOutcome(history: seq<HistoryEntry>, from: Manga, newChapters: seq<Chapter>)
    ensures var after := MigrateHistory(history, from, newChapters);
      var max := MaxChapterRead(history, from.sourceId, from.id);
      && (max.Some? ==> forall c :: c in newChapters && MarkedRead(c, max.value) ==> CompletedIn(after, c))
      && (max.None? ==> after == RemoveHistory(history, from.sourceId, from.id))
      && (forall e :: e in history && !IsEntryOf(e, from.sourceId, from.id) && (forall c :: c in newChapters ==> !IsEntryFor(e, c)) ==> e in after)
      && (forall e :: e in after && IsEntryOf(e, from.sourceId, from.id) ==> e.completed && exists c :: c in newChapters && IsEntryFor(e, c))
      && (max.Some? ==> forall e :: e in after ==>
            e in history || (e.completed && exists c :: c in newChapters && MarkedRead(c, max.value) && IsEntryFor(e, c)))
  {
    var max := MaxChapterRead(history, from.sourceId, from.id);
    var cleared := RemoveHistory(history, from.sourceId, from.id);
    if max.Some? {
      var marked := ChaptersToComplete(newChapters, max.value);
      SetCompletedSpec(cleared, marked);
    }
  }

  /**
   * The carried-forward progress: when the old history had a largest
   * chapter number, every new chapter numbered at or below it is completed
   * afterwards, so reading progress never moves backwards past a chapter
   * the new list contains.
   */
  lemma ProgressCarriedForward(history: seq<HistoryEntry>, from: Manga, newChapters: seq<Chapter>, c: Chapter)
    requires c in newChapters && c.chapterNum.Some?
    requires exists i :: 0 <= i < |history| && Numbered(history[i], from.sourceId, from.id) && c.chapterNum.value <= history[i].chapterNum.value
    ensures CompletedIn(MigrateHistory(history, from, newChapters), c)
  {
    HistoryOutcome(history, from, newChapters);
  }

  /** Scenario: old progress 12.5, new chapters 10, 12, 13 and 15: chapters 10 and 12 are marked. */
  lemma MarkUpToTwelveAndAHalf(c10: Chapter, c12: Chapter, c13: Chapter, c15: Chapter)
    requires c10.chapterNum == Some(10.0) && c12.chapterNum == Some(12.0)
    requires c13.chapterNum == Some(13.0) && c15.chapterNum == Some(15.0)
    ensures ChaptersToComplete([c10, c12, c13, c15], 12.5) == [c10, c12]
  {
    assert ChaptersToComplete([c15], 12.5) == [];
    assert ChaptersToComplete([c13, c15], 12.5) == [] by { assert [c13, c15][1..] == [c15]; }
    assert ChaptersToComplete([c12, c13, c15], 12.5) == [c12] by { assert [c12, c13, c15][1..] == [c13, c15]; }
    assert [c10, c12, c13, c15][1..] == [c12, c13, c15];
  }

  // ----- tracker links -----

  /** A tracker link: which tracker (if recorded) follows which manga. `state` is the rest of the link. */
  datatype TrackItem = TrackItem(trackerId: Option<string>, sourceId: string, mangaId: string, state: string)

  predicate IsTrackOf(t: TrackItem, sourceId: string, mangaId: string) {
    t.sourceId == sourceId && t.mangaId == mangaId
  }

  /** `hasTrack(trackerId:sourceId:mangaId:)`. */
  predicate HasTrack(tracks: seq<TrackItem>, trackerId: string, sourceId: string, mangaId: string) {
    exists i :: 0 <= i < |tracks| && tracks[i].trackerId == Some(trackerId) && IsTrackOf(tracks[i], sourceId, mangaId)
  }

  /** At most one link per (tracker, sourceId, mangaId). */
  predicate UniqueTracks(tracks: seq<TrackItem>) {
    forall i, j :: 0 <= i < j < |tracks| && tracks[i].trackerId.Some? ==>
      !(tracks[i].trackerId == tracks[j].trackerId && tracks[i].sourceId == tracks[j].sourceId && tracks[i].mangaId == tracks[j].mangaId)
  }

  /** `t` bound to the destination identity. */
  function Rebind(t: TrackItem, to: Manga): TrackItem {
    t.(sourceId := to.sourceId, mangaId := to.id)
  }

  /**
   * The links after the tracker loop has looked at the first `n` links:
   * a link of the old manga that names a tracker is rebound to the
   * destination unless, at that moment, the destination already has a
   * link for that tracker. Links rebound earlier in the loop count.
   */
  function RebindTracks(tracks: seq<TrackItem>, n: nat, from: Manga, to: Manga): (r: seq<TrackItem>)
    requires n <= |tracks|
    ensures |r| == |tracks|
  {
    if n == 0 then tracks
    else
      var cur := RebindTracks(tracks, n - 1, from, to);
      var t := tracks[n - 1];
      if IsTrackOf(t, from.sourceId, from.id) && t.trackerId.Some? && !HasTrack(cur, t.trackerId.value, to.sourceId, to.id)
      then cur[n - 1 := Rebind(t, to)]
      else cur
  }

  /** The tracker step: the loop over every link of the old manga. */
  function MigrateTracks(tracks: seq<TrackItem>, from: Manga, to: Manga): (r: seq<TrackItem>)
    ensures |r| == |tracks|
    ensures forall i :: 0 <= i < |tracks| ==>
      r[i] == tracks[i] || (IsTrackOf(tracks[i], from.sourceId, from.id) && tracks[i].trackerId.Some? && r[i] == Rebind(tracks[i], to))
  {
    RebindOnlyMoves(tracks, |tracks|, from, to);
    RebindTracks(tracks, |tracks|, from, to)
  }

  /**
   * No link is created or deleted and each link either is unchanged or is a
   * link of the old manga with a tracker id, now bound to the destination;
   * links the loop has not reached are untouched.
   */
  lemma {:induction false} RebindOnlyMoves(tracks: seq<TrackItem>, n: nat, from: Manga, to: Manga)
    requires n <= |tracks|
    ensures var r := RebindTracks(tracks, n, from, to);
      forall i :: 0 <= i < |tracks| ==>
        || r[i] == tracks[i]
        || (i < n && IsTrackOf(tracks[i], from.sourceId, from.id) && tracks[i].trackerId.Some? && r[i] == Rebind(tracks[i], to))
    ensures forall i :: n <= i < |tracks| ==> RebindTracks(tracks, n, from, to)[i] == tracks[i]
  {
    if n > 0 {
      RebindOnlyMoves(tracks, n - 1, from, to);
    }
  }

  /** Rebinding keeps at most one link per (tracker, identity). */
  lemma {:induction false} RebindKeepsUnique(tracks: seq<TrackItem>, n: nat, from: Manga, to: Manga)
    requires n <= |tracks| && UniqueTracks(tracks)
    ensures UniqueTracks(RebindTracks(tracks, n, from, to))
  {
    if n > 0 {
      RebindKeepsUnique(tracks, n - 1, from, to);
      var cur := RebindTracks(tracks, n - 1, from, to);
      var t := tracks[n - 1];
      if IsTrackOf(t, from.sourceId, from.id) && t.trackerId.Some? && !HasTrack(cur, t.trackerId.value, to.sourceId, to.id) {
        var r := cur[n - 1 := Rebind(t, to)];
        forall i, j | 0 <= i < j < |r| && r[i].trackerId.Some?
          ensures !(r[i].trackerId == r[j].trackerId && r[i].sourceId == r[j].sourceId && r[i].mangaId == r[j].mangaId)
        {
          if i == n - 1 || j == n - 1 {
            RebindOnlyMoves(tracks, n - 1, from, to);
            assert cur[n - 1] == t;
          }
        }
      }
    }
  }

  /**
   * Once the loop has passed a link of the old manga that names a tracker,
   * the destination has a link for that tracker: the one it already had,
   * or a rebound one.
   */
  lemma {:induction false} RebindCovers(tracks: seq<TrackItem>, n: nat, from: Manga, to: Manga)
    requires n <= |tracks|
    ensures forall i :: 0 <= i < n && IsTrackOf(tracks[i], from.sourceId, from.id) && tracks[i].trackerId.Some? ==>
      HasTrack(RebindTracks(tracks, n, from, to), tracks[i].trackerId.value, to.sourceId, to.id)
  {
    if n > 0 {
      RebindCovers(tracks, n - 1, from, to);
      var cur := RebindTracks(tracks, n - 1, from, to);
      var r := RebindTracks(tracks, n, from, to);
      var t := tracks[n - 1];
      var moved := IsTrackOf(t, from.sourceId, from.id) && t.trackerId.Some? && !HasTrack(cur, t.trackerId.value, to.sourceId, to.id);
      RebindOnlyMoves(tracks, n - 1, from, to);
      assert cur[n - 1] == t;
      forall i | 0 <= i < n && IsTrackOf(tracks[i], from.sourceId, from.id) && tracks[i].trackerId.Some?
        ensures HasTrack(r, tracks[i].trackerId.value, to.sourceId, to.id)
      {
        var tid := tracks[i].trackerId.value;
        if moved && (i == n - 1 || tid == t.trackerId.value) {
          assert r[n - 1] == Rebind(t, to);
        } else {
          assert HasTrack(cur, tid, to.sourceId, to.id);
          var w :| 0 <= w < |cur| && cur[w].trackerId == Some(tid) && IsTrackOf(cur[w], to.sourceId, to.id);
          if moved {
            assert w != n - 1;
            assert r[w] == cur[w];
          } else {
            assert r == cur;
          }
        }
      }
    }
  }

  /**
   * Duplicate prevention: when the destination already has a link for a
   * tracker, no link of the old manga for that tracker is rebound.
   */
  lemma {:induction false} ExistingDestinationLinkBlocks(tracks: seq<TrackItem>, n: nat, from: Manga, to: Manga, tid: string)
    requires n <= |tracks|
    requires HasTrack(tracks, tid, to.sourceId, to.id)
    ensures HasTrack(RebindTracks(tracks, n, from, to), tid, to.sourceId, to.id)
    ensures forall i :: 0 <= i < |tracks| && tracks[i].trackerId == Some(tid) ==> RebindTracks(tracks, n, from, to)[i] == tracks[i]
  {
    if n > 0 {
      ExistingDestinationLinkBlocks(tracks, n - 1, from, to, tid);
      var cur := RebindTracks(tracks, n - 1, from, to);
      var r := RebindTracks(tracks, n, from, to);
      var w :| 0 <= w < |cur| && cur[w].trackerId == Some(tid) && IsTrackOf(cur[w], to.sourceId, to.id);
      var t := tracks[n - 1];
      if IsTrackOf(t, from.sourceId, from.id) && t.trackerId.Some? && !HasTrack(cur, t.trackerId.value, to.sourceId, to.id) {
        assert t.trackerId != Some(tid);
        RebindOnlyMoves(tracks, n - 1, from, to);
        assert cur[n - 1] == t;
        assert r[w] == cur[w];
      }
    }
  }

  // ----- the store -----

  /** The store's four tables as one value. */
  datatype StoreData = StoreData(
    catalog: seq<StoredManga>,
    chapters: map<MangaKey, seq<Chapter>>,
    history: seq<HistoryEntry>,
    tracks: seq<TrackItem>)

  /** The store's invariants that migration keeps: no duplicate library record, no duplicate tracker link. */
  predicate Consistent(d: StoreData) {
    UniqueRecords(d.catalog) && UniqueTracks(d.tracks)
  }

  /** One manga's migration: the library, chapter and history, and tracker steps. */
  function Migrate(d: StoreData, from: Manga, to: Manga, newChapters: seq<Chapter>): (r: StoreData)
    ensures KeyOf(to) in r.chapters && r.chapters[KeyOf(to)] == newChapters
    ensures |r.catalog| <= |d.catalog| && |r.tracks| == |d.tracks|
  {
    StoreData(
      MigrateCatalog(d.catalog, from, to),
      MigrateChapters(d.chapters, from, to, newChapters),
      MigrateHistory(d.history, from, newChapters),
      MigrateTracks(d.tracks, from, to))
  }

  lemma MigrateKeepsConsistent(d: StoreData, from: Manga, to: Manga, newChapters: seq<Chapter>)
    requires Consistent(d)
    ensures Consistent(Migrate(d, from, to, newChapters))
  {
    CatalogKeepsUnique(d.catalog, from, to);
    RebindKeepsUnique(d.tracks, |d.tracks|, from, to);
  }

  /** The persistent store, updated in place by the three migration steps. */
  class Store {
    var catalog: seq<StoredManga>
    var chapters: map<MangaKey, seq<Chapter>>
    var history: seq<HistoryEntry>
    var tracks: seq<TrackItem>

    function Data(): StoreData
      reads this
    {
      StoreData(catalog, chapters, history, tracks)
    }

    constructor (d: StoreData)
      ensures Data() == d
    {
      catalog, chapters, history, tracks := d.catalog, d.chapters, d.history, d.tracks;
    }

    /** The library step: pick the target record, drop the old one when merging, load the new data. */
    method MigrateMangaRecord(from: Manga, to: Manga)
      modifies this`catalog
      ensures catalog == MigrateCatalog(old(catalog), from, to)
    {
      var stored := FindManga(catalog, from.sourceId, from.id);
      var storedNew := FindManga(catalog, to.sourceId, to.id);
      if !SameIdentity(from, to) && storedNew.Some? {
        var t := storedNew.value;
        catalog := catalog[t := Load(catalog[t], to)];
        catalog := RemoveManga(catalog, from.sourceId, from.id);
      } else if stored.Some? {
        var t := stored.value;
        catalog := catalog[t := Load(catalog[t], to)];
      }
    }

    /** The chapter and history step. */
    method MigrateMangaHistory(from: Manga, to: Manga, newChapters: seq<Chapter>)
      modifies this`chapters, this`history
      ensures chapters == MigrateChapters(old(chapters), from, to, newChapters)
      ensures history == MigrateHistory(old(history), from, newChapters)
    {
      var maxChapterRead := MaxChapterRead(history, from.sourceId, from.id);
      chapters := chapters - {KeyOf(from)};
      history := RemoveHistory(history, from.sourceId, from.id);
      chapters := chapters[KeyOf(to) := newChapters];
      if maxChapterRead.Some? {
        history := SetCompleted(history, ChaptersToComplete(newChapters, maxChapterRead.value));
      }
    }

    /** The tracker step: rebind each link of the old manga in place unless the destination already has that tracker. */
    method MigrateMangaTracks(from: Manga, to: Manga)
      modifies this`tracks
      ensures tracks == MigrateTracks(old(tracks), from, to)
    {
      var i := 0;
      while i < |tracks|
        invariant 0 <= i <= |tracks| == |old(tracks)|
        invariant tracks == RebindTracks(old(tracks), i, from, to)
      {
        RebindOnlyMoves(old(tracks), i, from, to);
        var item := tracks[i];
        if IsTrackOf(item, from.sourceId, from.id) && item.trackerId.Some?
           && !HasTrack(tracks, item.trackerId.value, to.sourceId, to.id)
        {
          tracks := tracks[i := item.(sourceId := to.sourceId, mangaId := to.id)];
        }
        i := i + 1;
      }
    }
  }
}
