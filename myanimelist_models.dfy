/**
 * The MyAnimeList list-status record and the form body it is sent as
 * when a manga's list status is updated (MyAnimeList API v2).
 */
module MyAnimeListModels {
  import opened Wrappers
  import opened Text

  /** `MyAnimeListMangaStatus`: nine optional fields. Dates are kept as the strings the API uses. */
  datatype MangaStatus = MangaStatus(
    isRereading: Option<bool>,
    numVolumesRead: Option<int>,
    numChaptersRead: Option<int>,
    startDate: Option<string>,
    finishDate: Option<string>,
    updatedAt: Option<string>,
    status: Option<string>,
    score: Option<int>,
    comments: Option<string>)

  /** `MyAnimeListMangaStatus.CodingKeys`: one case per stored property. */
  datatype CodingKey =
    | IsRereading | NumVolumesRead | NumChaptersRead | StartDate | FinishDate
    | UpdatedAt | Status | Score | Comments

  /** The wire name of each key (its raw value); cases without an explicit raw value use their own name. */
  function RawValue(k: CodingKey): (r: string)
    ensures |r| > 0
    ensures forall i :: 0 <= i < |r| ==> 'a' <= r[i] <= 'z' || r[i] == '_'
  {
    match k
    case IsRereading => "is_rereading"
    case NumVolumesRead => "num_volumes_read"
    case NumChaptersRead => "num_chapters_read"
    case StartDate => "start_date"
    case FinishDate => "finish_date"
    case UpdatedAt => "updated_at"
    case Status => "status"
    case Score => "score"
    case Comments => "comments"
  }

  /** Distinct keys have distinct wire names, so a name identifies its field. */
  lemma RawValueInjective(k1: CodingKey, k2: CodingKey)
    ensures RawValue(k1) == RawValue(k2) <==> k1 == k2
  {
  }

  /** The keys the form body carries, in the order they are emitted. */
  const FormKeys: seq<CodingKey> := [IsRereading, NumVolumesRead, NumChaptersRead, StartDate, FinishDate, Score]

  /** The field named by `k`, rendered as string interpolation renders it; `None` when the field is nil. */
  function Rendered(s: MangaStatus, k: CodingKey): Option<string> {
    match k
    case IsRereading => if s.isRereading.Some? then Some(BoolToString(s.isRereading.value)) else None
    case NumVolumesRead => if s.numVolumesRead.Some? then Some(IntToString(s.numVolumesRead.value)) else None
    case NumChaptersRead => if s.numChaptersRead.Some? then Some(IntToString(s.numChaptersRead.value)) else None
    case StartDate => s.startDate
    case FinishDate => s.finishDate
    case UpdatedAt => s.updatedAt
    case Status => s.status
    case Score => if s.score.Some? then Some(IntToString(s.score.value)) else None
    case Comments => s.comments
  }

  /** One form parameter: the field's key and its unescaped rendered value. */
  datatype Param = Param(key: CodingKey, value: string)

  /** `name=value`, the name being the key's wire name and the value not escaped. */
  function ParamText(p: Param): string {
    RawValue(p.key) + "=" + p.value
  }

  function ParamTexts(ps: seq<Param>): (r: seq<string>)
    ensures |r| == |ps|
    ensures forall i :: 0 <= i < |ps| ==> r[i] == ParamText(ps[i])
  {
    if ps == [] then [] else [ParamText(ps[0])] + ParamTexts(ps[1..])
  }

  /** The parameter for key `k`: one when the field is set, none when it is nil. */
  function Slot(s: MangaStatus, k: CodingKey): seq<Param> {
    if Rendered(s, k).Some? then [Param(k, Rendered(s, k).value)] else []
  }

  /** Declaration order of the keys in `CodingKeys`. */
  function Rank(k: CodingKey): nat {
    match k
    case IsRereading => 0
    case NumVolumesRead => 1
    case NumChaptersRead => 2
    case StartDate => 3
    case FinishDate => 4
    case UpdatedAt => 5
    case Status => 6
    case Score => 7
    case Comments => 8
  }

  /** `keys` is listed in strictly increasing declaration order (so without repetition). */
  predicate Ascending(keys: seq<CodingKey>) {
    forall i, j :: 0 <= i < j < |keys| ==> Rank(keys[i]) < Rank(keys[j])
  }

  /** The parameters for the set fields among `keys`, in the order of `keys`. */
  function ParamsFor(s: MangaStatus, keys: seq<CodingKey>): seq<Param> {
    if keys == [] then [] else Slot(s, keys[0]) + ParamsFor(s, keys[1..])
  }

  /** The keys of `ps` come in strictly increasing declaration order. */
  predicate InKeyOrder(ps: seq<Param>) {
    forall i, j :: 0 <= i < j < |ps| ==> Rank(ps[i].key) < Rank(ps[j].key)
  }

  /**
   * Each parameter names a key of `keys` and carries that field's rendered
   * value; every set field among `keys` has a parameter; and when `keys` is
   * ascending the parameters are too (hence one parameter per field).
   */
  lemma {:induction false} ParamsForSpec(s: MangaStatus, keys: seq<CodingKey>)
    ensures var ps := ParamsFor(s, keys);
      && (forall i :: 0 <= i < |ps| ==> ps[i].key in keys && Rendered(s, ps[i].key) == Some(ps[i].value))
      && (forall k :: k in keys && Rendered(s, k).Some? ==> exists i :: 0 <= i < |ps| && ps[i].key == k)
      && (Ascending(keys) ==> InKeyOrder(ps))
  {
    if keys != [] {
      ParamsForSpec(s, keys[1..]);
      var head, rest := Slot(s, keys[0]), ParamsFor(s, keys[1..]);
      var ps := head + rest;
      assert ps == ParamsFor(s, keys);
      forall k | k in keys && Rendered(s, k).Some?
        ensures exists i :: 0 <= i < |ps| && ps[i].key == k
      {
        if k == keys[0] {
          assert ps[0].key == k;
        } else {
          assert k in keys[1..];
          var j :| 0 <= j < |rest| && rest[j].key == k;
          assert ps[|head| + j].key == k;
        }
      }
      if Ascending(keys) {
        assert Ascending(keys[1..]);
        forall i, j | 0 <= i < j < |ps| ensures Rank(ps[i].key) < Rank(ps[j].key) {
          if i < |head| {
            assert i == 0 && ps[i].key == keys[0];
            var k := ps[j].key;
            assert k in keys[1..];
            var m :| 0 <= m < |keys[1..]| && keys[1..][m] == k;
            assert keys[m + 1] == k;
          }
        }
      }
    }
  }

  /**
   * The form parameters of a status: exactly one per non-nil field among
   * is_rereading, num_volumes_read, num_chapters_read, start_date,
   * finish_date and score, in that order, each carrying the field's value;
   * `updatedAt`, `status` and `comments` never appear.
   */
  function FormParams(s: MangaStatus): (ps: seq<Param>)
    ensures forall i :: 0 <= i < |ps| ==> ps[i].key in FormKeys && Rendered(s, ps[i].key) == Some(ps[i].value)
    ensures forall k :: k in FormKeys && Rendered(s, k).Some? ==> exists i :: 0 <= i < |ps| && ps[i].key == k
    ensures InKeyOrder(ps)
    ensures forall i :: 0 <= i < |ps| ==> ps[i].key != UpdatedAt && ps[i].key != Status && ps[i].key != Comments
  {
    ParamsForSpec(s, FormKeys);
    ParamsFor(s, FormKeys)
  }

  /** The form body: the parameters joined by `&`. */
  function FormBody(s: MangaStatus): (r: string)
    ensures FormParams(s) == [] ==> r == []
    ensures |FormParams(s)| == 1 ==> r == RawValue(FormParams(s)[0].key) + "=" + FormParams(s)[0].value
  {
    Join(ParamTexts(FormParams(s)), '&')
  }

  /**
   * `percentEncoded`: six conditional appends in a fixed order, then a join.
   * The UTF-8 conversion to `Data` is left out; the body is kept as a string.
   */
  method PercentEncoded(s: MangaStatus) returns (body: string)
    ensures body == FormBody(s)
  {
    var params: seq<string> := [];
    if s.isRereading.Some? { params := params + ["is_rereading=" + BoolToString(s.isRereading.value)]; }
    assert params == (if s.isRereading.Some? then ["is_rereading=" + BoolToString(s.isRereading.value)] else []);
    ghost var sofar := params;
    if s.numVolumesRead.Some? { params := params + ["num_volumes_read=" + IntToString(s.numVolumesRead.value)]; }
    assert params == sofar + (if s.numVolumesRead.Some? then ["num_volumes_read=" + IntToString(s.numVolumesRead.value)] else []);
    sofar := params;
    if s.numChaptersRead.Some? { params := params + ["num_chapters_read=" + IntToString(s.numChaptersRead.value)]; }
    assert params == sofar + (if s.numChaptersRead.Some? then ["num_chapters_read=" + IntToString(s.numChaptersRead.value)] else []);
    sofar := params;
    if s.startDate.Some? { params := params + ["start_date=" + s.startDate.value]; }
    assert params == sofar + (if s.startDate.Some? then ["start_date=" + s.startDate.value] else []);
    sofar := params;
    if s.finishDate.Some? { params := params + ["finish_date=" + s.finishDate.value]; }
    assert params == sofar + (if s.finishDate.Some? then ["finish_date=" + s.finishDate.value] else []);
    sofar := params;
    if s.score.Some? { params := params + ["score=" + IntToString(s.score.value)]; }
    assert params == sofar + (if s.score.Some? then ["score=" + IntToString(s.score.value)] else []);
    FormTexts(s);
    body := Join(params, '&');
  }

  /** The rendered form parameters are the six conditional appends, in order. */
  lemma FormTexts(s: MangaStatus)
    ensures ParamTexts(ParamsFor(s, FormKeys)) ==
      (if s.isRereading.Some? then ["is_rereading=" + BoolToString(s.isRereading.value)] else [])
      + (if s.numVolumesRead.Some? then ["num_volumes_read=" + IntToString(s.numVolumesRead.value)] else [])
      + (if s.numChaptersRead.Some? then ["num_chapters_read=" + IntToString(s.numChaptersRead.value)] else [])
      + (if s.startDate.Some? then ["start_date=" + s.startDate.value] else [])
      + (if s.finishDate.Some? then ["finish_date=" + s.finishDate.value] else [])
      + (if s.score.Some? then ["score=" + IntToString(s.score.value)] else [])
  {
    FormParamsSlots(s);
    var t0, t1, t2 := ParamTexts(Slot(s, IsRereading)), ParamTexts(Slot(s, NumVolumesRead)), ParamTexts(Slot(s, NumChaptersRead));
    var t3, t4, t5 := ParamTexts(Slot(s, StartDate)), ParamTexts(Slot(s, FinishDate)), ParamTexts(Slot(s, Score));
    assert t0 == (if s.isRereading.Some? then ["is_rereading=" + BoolToString(s.isRereading.value)] else []) by {
      assert RawValue(IsRereading) + "=" == "is_rereading=";
    }
    assert t1 == (if s.numVolumesRead.Some? then ["num_volumes_read=" + IntToString(s.numVolumesRead.value)] else []) by {
      assert RawValue(NumVolumesRead) + "=" == "num_volumes_read=";
    }
    assert t2 == (if s.numChaptersRead.Some? then ["num_chapters_read=" + IntToString(s.numChaptersRead.value)] else []) by {
      assert RawValue(NumChaptersRead) + "=" == "num_chapters_read=";
    }
    assert t3 == (if s.startDate.Some? then ["start_date=" + s.startDate.value] else []) by {
      assert RawValue(StartDate) + "=" == "start_date=";
    }
    assert t4 == (if s.finishDate.Some? then ["finish_date=" + s.finishDate.value] else []) by {
      assert RawValue(FinishDate) + "=" == "finish_date=";
    }
    assert t5 == (if s.score.Some? then ["score=" + IntToString(s.score.value)] else []) by {
      assert RawValue(Score) + "=" == "score=";
    }
    var p0, p1, p2 := Slot(s, IsRereading), Slot(s, NumVolumesRead), Slot(s, NumChaptersRead);
    var p3, p4, p5 := Slot(s, StartDate), Slot(s, FinishDate), Slot(s, Score);
    ParamTextsAppend(p0, p1);
    ParamTextsAppend(p0 + p1, p2);
    ParamTextsAppend(p0 + p1 + p2, p3);
    ParamTextsAppend(p0 + p1 + p2 + p3, p4);
    ParamTextsAppend(p0 + p1 + p2 + p3 + p4, p5);
  }

  /** The form parameters are the six slots in form-key order. */
  lemma FormParamsSlots(s: MangaStatus)
    ensures ParamsFor(s, FormKeys) == Slot(s, IsRereading) + Slot(s, NumVolumesRead) + Slot(s, NumChaptersRead)
                             + Slot(s, StartDate) + Slot(s, FinishDate) + Slot(s, Score)
  {
    var k5: seq<CodingKey> := [Score];
    var k4 := [FinishDate] + k5;
    var k3 := [StartDate] + k4;
    var k2 := [NumChaptersRead] + k3;
    var k1 := [NumVolumesRead] + k2;
    var k0 := [IsRereading] + k1;
    assert k0 == FormKeys;
    ParamsForCons(s, Score, []);
    ParamsForCons(s, FinishDate, k5);
    ParamsForCons(s, StartDate, k4);
    ParamsForCons(s, NumChaptersRead, k3);
    ParamsForCons(s, NumVolumesRead, k2);
    ParamsForCons(s, IsRereading, k1);
  }

  /** One key in front adds that key's slot in front. */
  lemma ParamsForCons(s: MangaStatus, k: CodingKey, keys: seq<CodingKey>)
    ensures ParamsFor(s, [k] + keys) == Slot(s, k) + ParamsFor(s, keys)
  {
    assert ([k] + keys)[1..] == keys;
  }

  lemma ParamTextsAppend(ps: seq<Param>, qs: seq<Param>)
    ensures ParamTexts(ps + qs) == ParamTexts(ps) + ParamTexts(qs)
  {
  }

  // ----- counting and separators -----

  /** How many of the six form fields are non-nil. */
  function SetFieldCount(s: MangaStatus): nat {
    (if s.isRereading.Some? then 1 else 0) + (if s.numVolumesRead.Some? then 1 else 0)
    + (if s.numChaptersRead.Some? then 1 else 0) + (if s.startDate.Some? then 1 else 0)
    + (if s.finishDate.Some? then 1 else 0) + (if s.score.Some? then 1 else 0)
  }

  lemma FormParamsCount(s: MangaStatus)
    ensures |FormParams(s)| == SetFieldCount(s)
  {
    FormParamsSlots(s);
  }

  /** Neither date contains `c`. */
  predicate DatesFree(s: MangaStatus, c: char) {
    && (s.startDate.Some? ==> c !in s.startDate.value)
    && (s.finishDate.Some? ==> c !in s.finishDate.value)
  }

  lemma RawValuePlain(k: CodingKey)
    ensures RawValue(k) != [] && '&' !in RawValue(k) && '=' !in RawValue(k)
  {
  }

  /** With separator-free dates, no form value contains the separator `c`. */
  lemma FormValuesFree(s: MangaStatus, c: char)
    requires c == '&' || c == '='
    requires DatesFree(s, c)
    ensures forall i :: 0 <= i < |FormParams(s)| ==> c !in FormParams(s)[i].value
  {
    var ps := FormParams(s);
    forall i | 0 <= i < |ps| ensures c !in ps[i].value {
      var k := ps[i].key;
      if k == IsRereading {
      } else if k == NumVolumesRead || k == NumChaptersRead || k == Score {
        var n := if k == NumVolumesRead then s.numVolumesRead.value
                 else if k == NumChaptersRead then s.numChaptersRead.value else s.score.value;
        assert ps[i].value == IntToString(n);
        IntToStringPlain(n);
      }
    }
  }

  lemma FormTextsFree(s: MangaStatus)
    requires DatesFree(s, '&')
    ensures FreeOf(ParamTexts(FormParams(s)), '&')
  {
    FormValuesFree(s, '&');
    var ps := FormParams(s);
    forall i | 0 <= i < |ps| ensures '&' !in ParamText(ps[i]) {
      RawValuePlain(ps[i].key);
    }
  }

  /**
   * The body holds one `&` fewer than there are non-nil form fields, and
   * none when no form field is set (dates are not escaped, so an `&` inside
   * a date would add to the count).
   */
  lemma SeparatorCount(s: MangaStatus)
    requires DatesFree(s, '&')
    ensures Count(FormBody(s), '&') == if SetFieldCount(s) == 0 then 0 else SetFieldCount(s) - 1
  {
    FormParamsCount(s);
    FormTextsFree(s);
    JoinCount(ParamTexts(FormParams(s)), '&');
  }

  /** The body is empty exactly when all six form fields are nil. */
  lemma EmptyBody(s: MangaStatus)
    ensures FormBody(s) == [] <==> SetFieldCount(s) == 0
  {
    FormParamsCount(s);
    var texts := ParamTexts(FormParams(s));
    if texts != [] {
      RawValuePlain(FormParams(s)[0].key);
      assert texts[0] != [];
      assert |texts| > 1 ==> Join(texts, '&') == texts[0] + ['&'] + Join(texts[1..], '&');
    }
  }

  /** `updatedAt`, `status` and `comments` have no influence on the body. */
  lemma UnsentFieldsIgnored(s: MangaStatus, updatedAt: Option<string>, status: Option<string>, comments: Option<string>)
    ensures FormBody(s.(updatedAt := updatedAt, status := status, comments := comments)) == FormBody(s)
  {
    var t := s.(updatedAt := updatedAt, status := status, comments := comments);
    ParamsForAgree(s, t, FormKeys);
  }

  lemma {:induction false} ParamsForAgree(s: MangaStatus, t: MangaStatus, keys: seq<CodingKey>)
    requires forall i :: 0 <= i < |keys| ==> Rendered(s, keys[i]) == Rendered(t, keys[i])
    ensures ParamsFor(s, keys) == ParamsFor(t, keys)
  {
    if keys != [] {
      ParamsForAgree(s, t, keys[1..]);
    }
  }

  // ----- reading a body back -----

  /** One parameter split at `=` into name and value; `None` unless there is exactly one `=`. */
  function ParsePair(part: string): Option<(string, string)> {
    var kv := Split(part, '=');
    if |kv| == 2 then Some((kv[0], kv[1])) else None
  }

  function ParsePairs(parts: seq<string>): Option<seq<(string, string)>> {
    if parts == [] then Some([])
    else match (ParsePair(parts[0]), ParsePairs(parts[1..]))
      case (Some(kv), Some(rest)) => Some([kv] + rest)
      case _ => None
  }

  /** Split a body on `&`, then each parameter on `=`; the empty body has no parameters. */
  function ParseForm(body: string): Option<seq<(string, string)>> {
    if body == [] then Some([]) else ParsePairs(Split(body, '&'))
  }

  /** The (name, value) pairs a parameter list is written as. */
  function Named(ps: seq<Param>): (r: seq<(string, string)>)
    ensures |r| == |ps|
    ensures forall i :: 0 <= i < |ps| ==> r[i] == (RawValue(ps[i].key), ps[i].value)
  {
    if ps == [] then [] else [(RawValue(ps[0].key), ps[0].value)] + Named(ps[1..])
  }

  lemma {:induction false} ParsePairsTexts(ps: seq<Param>)
    requires forall i :: 0 <= i < |ps| ==> '=' !in ps[i].value
    ensures ParsePairs(ParamTexts(ps)) == Some(Named(ps))
  {
    if ps != [] {
      var p := ps[0];
      RawValuePlain(p.key);
      assert ParamText(p) == RawValue(p.key) + ['='] + p.value;
      SplitAt(RawValue(p.key), p.value, '=');
      SplitFree(p.value, '=');
      ParsePairsTexts(ps[1..]);
      assert ParamTexts(ps)[1..] == ParamTexts(ps[1..]);
    }
  }

  /**
   * Splitting the body on `&` and then on `=` gives back exactly the
   * non-nil form fields, as (wire name, value) pairs in form order, when the
   * dates contain neither `&` nor `=`.
   */
  lemma ParseFormBody(s: MangaStatus)
    requires DatesFree(s, '&') && DatesFree(s, '=')
    ensures ParseForm(FormBody(s)) == Some(Named(FormParams(s)))
  {
    var ps := FormParams(s);
    var texts := ParamTexts(ps);
    FormValuesFree(s, '=');
    ParsePairsTexts(ps);
    if ps != [] {
      FormTextsFree(s);
      SplitJoin(texts, '&');
      EmptyBody(s);
      FormParamsCount(s);
    }
  }

  /** The key whose wire name is `name`. */
  function KeyNamed(name: string): (r: Option<CodingKey>)
    ensures r.Some? ==> RawValue(r.value) == name
  {
    if name == "is_rereading" then Some(IsRereading)
    else if name == "num_volumes_read" then Some(NumVolumesRead)
    else if name == "num_chapters_read" then Some(NumChaptersRead)
    else if name == "start_date" then Some(StartDate)
    else if name == "finish_date" then Some(FinishDate)
    else if name == "updated_at" then Some(UpdatedAt)
    else if name == "status" then Some(Status)
    else if name == "score" then Some(Score)
    else if name == "comments" then Some(Comments)
    else None
  }

  lemma KeyNamedRawValue(k: CodingKey)
    ensures KeyNamed(RawValue(k)) == Some(k)
  {
  }

  /** A status with every field nil. */
  const Blank := MangaStatus(None, None, None, None, None, None, None, None, None)

  /** Store a form value into its field; `None` for a key the form does not carry or a value that does not parse. */
  function Assign(acc: MangaStatus, k: CodingKey, value: string): Option<MangaStatus> {
    match k
    case IsRereading =>
      (match ParseBool(value) case Some(b) => Some(acc.(isRereading := Some(b))) case None => None)
    case NumVolumesRead =>
      (match ParseInt(value) case Some(n) => Some(acc.(numVolumesRead := Some(n))) case None => None)
    case NumChaptersRead =>
      (match ParseInt(value) case Some(n) => Some(acc.(numChaptersRead := Some(n))) case None => None)
    case StartDate => Some(acc.(startDate := Some(value)))
    case FinishDate => Some(acc.(finishDate := Some(value)))
    case Score =>
      (match ParseInt(value) case Some(n) => Some(acc.(score := Some(n))) case None => None)
    case _ => None
  }

  function DecodeFrom(acc: MangaStatus, pairs: seq<(string, string)>): Option<MangaStatus>
    decreases pairs
  {
    if pairs == [] then Some(acc)
    else match KeyNamed(pairs[0].0)
      case None => None
      case Some(k) =>
        match Assign(acc, k, pairs[0].1)
        case None => None
        case Some(next) => DecodeFrom(next, pairs[1..])
  }

  /** Read a form body back into a status; `None` if it is not a well-formed form body. */
  function DecodeForm(body: string): Option<MangaStatus> {
    match ParseForm(body)
    case None => None
    case Some(pairs) => DecodeFrom(Blank, pairs)
  }

  /** `acc` with field `k` taken from `s` when it is set there. */
  function Copy(acc: MangaStatus, s: MangaStatus, k: CodingKey): MangaStatus {
    match k
    case IsRereading => if s.isRereading.Some? then acc.(isRereading := s.isRereading) else acc
    case NumVolumesRead => if s.numVolumesRead.Some? then acc.(numVolumesRead := s.numVolumesRead) else acc
    case NumChaptersRead => if s.numChaptersRead.Some? then acc.(numChaptersRead := s.numChaptersRead) else acc
    case StartDate => if s.startDate.Some? then acc.(startDate := s.startDate) else acc
    case FinishDate => if s.finishDate.Some? then acc.(finishDate := s.finishDate) else acc
    case UpdatedAt => if s.updatedAt.Some? then acc.(updatedAt := s.updatedAt) else acc
    case Status => if s.status.Some? then acc.(status := s.status) else acc
    case Score => if s.score.Some? then acc.(score := s.score) else acc
    case Comments => if s.comments.Some? then acc.(comments := s.comments) else acc
  }

  function Overlay(acc: MangaStatus, s: MangaStatus, keys: seq<CodingKey>): MangaStatus
    decreases keys
  {
    if keys == [] then acc else Overlay(Copy(acc, s, keys[0]), s, keys[1..])
  }

  lemma AssignRendered(acc: MangaStatus, s: MangaStatus, k: CodingKey)
    requires k in FormKeys && Rendered(s, k).Some?
    ensures Assign(acc, k, Rendered(s, k).value) == Some(Copy(acc, s, k))
  {
    match k
    case IsRereading => ParseBoolToString(s.isRereading.value);
    case NumVolumesRead => ParseIntToString(s.numVolumesRead.value);
    case NumChaptersRead => ParseIntToString(s.numChaptersRead.value);
    case Score => ParseIntToString(s.score.value);
    case _ =>
  }

  lemma {:induction false} DecodeParams(acc: MangaStatus, s: MangaStatus, keys: seq<CodingKey>)
    requires forall i :: 0 <= i < |keys| ==> keys[i] in FormKeys
    ensures DecodeFrom(acc, Named(ParamsFor(s, keys))) == Some(Overlay(acc, s, keys))
    decreases keys
  {
    if keys != [] {
      var k := keys[0];
      var rest := ParamsFor(s, keys[1..]);
      assert ParamsFor(s, keys) == Slot(s, k) + rest;
      if Rendered(s, k).Some? {
        var pairs := Named(ParamsFor(s, keys));
        assert pairs[0] == (RawValue(k), Rendered(s, k).value);
        assert pairs[1..] == Named(rest);
        KeyNamedRawValue(k);
        AssignRendered(acc, s, k);
        DecodeParams(Copy(acc, s, k), s, keys[1..]);
      } else {
        assert Copy(acc, s, k) == acc;
        assert ParamsFor(s, keys) == rest;
        DecodeParams(acc, s, keys[1..]);
      }
    }
  }

  /** What the form can carry of `s`: `s` with `updatedAt`, `status` and `comments` cleared. */
  function Sent(s: MangaStatus): MangaStatus {
    s.(updatedAt := None, status := None, comments := None)
  }

  lemma OverlayFormKeys(s: MangaStatus)
    ensures Overlay(Blank, s, FormKeys) == Sent(s)
  {
    var k5: seq<CodingKey> := [Score];
    var k4 := [FinishDate] + k5;
    var k3 := [StartDate] + k4;
    var k2 := [NumChaptersRead] + k3;
    var k1 := [NumVolumesRead] + k2;
    var k0 := [IsRereading] + k1;
    assert k0 == FormKeys;
    var a0 := Copy(Blank, s, IsRereading);
    var a1 := Copy(a0, s, NumVolumesRead);
    var a2 := Copy(a1, s, NumChaptersRead);
    var a3 := Copy(a2, s, StartDate);
    var a4 := Copy(a3, s, FinishDate);
    var a5 := Copy(a4, s, Score);
    assert Overlay(a5, s, []) == a5;
    assert Overlay(a4, s, k5) == a5 by { assert k5[1..] == []; }
    assert Overlay(a3, s, k4) == a5 by { assert k4[1..] == k5; }
    assert Overlay(a2, s, k3) == a5 by { assert k3[1..] == k4; }
    assert Overlay(a1, s, k2) == a5 by { assert k2[1..] == k3; }
    assert Overlay(a0, s, k1) == a5 by { assert k1[1..] == k2; }
    assert Overlay(Blank, s, k0) == a5 by { assert k0[1..] == k1; }
  }

  /**
   * Round trip: when neither date contains `&` or `=`, decoding the body
   * recovers every form field of the status exactly (the three fields the
   * form does not carry come back nil).
   */
  lemma FormRoundTrip(s: MangaStatus)
    requires DatesFree(s, '&') && DatesFree(s, '=')
    ensures DecodeForm(FormBody(s)) == Some(Sent(s))
  {
    ParseFormBody(s);
    assert forall i :: 0 <= i < |FormKeys| ==> FormKeys[i] in FormKeys;
    DecodeParams(Blank, s, FormKeys);
    OverlayFormKeys(s);
  }
}
