/**
 * The YouTube speed string of a video module: `create_youtube_string` turns the
 * four per-speed YouTube ids of a module into "speed:id" entries joined by ",",
 * for the speeds 0.75, 1.00, 1.25 and 1.50 in that order, skipping the speeds
 * whose id is missing or empty.
 */
module VideoUtils {
  import opened Results
  import opened Strings

  /** The four YouTube id fields of a video module (`youtube_id_0_75` ...). */
  datatype YoutubeIds = YoutubeIds(
    id075: Option<string>,
    id100: Option<string>,
    id125: Option<string>,
    id150: Option<string>)

  const YOUTUBE_SPEEDS: seq<string> := ["0.75", "1.00", "1.25", "1.50"]

  /** The ids in the order of YOUTUBE_SPEEDS. */
  function IdList(m: YoutubeIds): (r: seq<Option<string>>)
    ensures |r| == |YOUTUBE_SPEEDS|
  {
    [m.id075, m.id100, m.id125, m.id150]
  }

  /** Python truthiness of an id: present and not the empty string. */
  predicate Truthy(id: Option<string>) {
    id.Some? && id.value != []
  }

  /** The "speed:id" entries of `zip(speeds, ids)` whose id is truthy. */
  function Entries(speeds: seq<string>, ids: seq<Option<string>>): seq<string>
    decreases |speeds|
  {
    if speeds == [] || ids == [] then []
    else
      (if Truthy(ids[0]) then [speeds[0] + [':'] + ids[0].value] else [])
      + Entries(speeds[1..], ids[1..])
  }

  /** `create_youtube_string`: empty exactly when every id is missing or empty. */
  function CreateYoutubeString(m: YoutubeIds): (r: string)
    ensures r == [] <==> !Truthy(m.id075) && !Truthy(m.id100) && !Truthy(m.id125) && !Truthy(m.id150)
  {
    var es := Entries(YOUTUBE_SPEEDS, IdList(m));
    EntriesCount(YOUTUBE_SPEEDS, IdList(m));
    CountTruthyOfIds(m);
    EntriesNonEmpty(YOUTUBE_SPEEDS, IdList(m));
    JoinIsEmpty(es, ',');
    Join(es, ',')
  }

  /** Number of truthy ids. */
  function CountTruthy(ids: seq<Option<string>>): nat
    decreases |ids|
  {
    if ids == [] then 0 else (if Truthy(ids[0]) then 1 else 0) + CountTruthy(ids[1..])
  }

  /** One entry per truthy id. */
  lemma {:induction false} EntriesCount(speeds: seq<string>, ids: seq<Option<string>>)
    requires |speeds| == |ids|
    ensures |Entries(speeds, ids)| == CountTruthy(ids)
    decreases |speeds|
  {
    if speeds != [] {
      EntriesCount(speeds[1..], ids[1..]);
    }
  }

  /** The entry a single speed contributes. */
  function Entry(speed: string, id: Option<string>): seq<string> {
    if Truthy(id) then [speed + [':'] + id.value] else []
  }

  /** The entries appear in the fixed speed order, each with the id of its speed. */
  lemma EntriesInSpeedOrder(m: YoutubeIds)
    ensures Entries(YOUTUBE_SPEEDS, IdList(m))
         == Entry("0.75", m.id075) + Entry("1.00", m.id100)
          + Entry("1.25", m.id125) + Entry("1.50", m.id150)
  {
    var s, ids := YOUTUBE_SPEEDS, IdList(m);
    assert s[1..][1..][1..][1..] == [];
    assert Entries(s[1..][1..][1..], ids[1..][1..][1..]) == Entry("1.50", m.id150);
  }

  /** The count of truthy ids, field by field. */
  lemma CountTruthyOfIds(m: YoutubeIds)
    ensures CountTruthy(IdList(m)) ==
      (if Truthy(m.id075) then 1 else 0) + (if Truthy(m.id100) then 1 else 0)
      + (if Truthy(m.id125) then 1 else 0) + (if Truthy(m.id150) then 1 else 0)
  {
    var ids := IdList(m);
    var t1, t2, t3 := ids[1..], ids[1..][1..], ids[1..][1..][1..];
    assert t3[1..] == [];
    assert CountTruthy(t3) == (if Truthy(m.id150) then 1 else 0);
    assert CountTruthy(t2) == (if Truthy(m.id125) then 1 else 0) + CountTruthy(t3);
    assert CountTruthy(t1) == (if Truthy(m.id100) then 1 else 0) + CountTruthy(t2);
    assert CountTruthy(ids) == (if Truthy(m.id075) then 1 else 0) + CountTruthy(t1);
  }

  /** The string has one entry per truthy id. */
  lemma EntryCountOfString(m: YoutubeIds)
    requires FreeOfComma(m)
    requires CountTruthy(IdList(m)) > 0
    ensures |Split(CreateYoutubeString(m), ',')| == CountTruthy(IdList(m))
  {
    EntriesCount(YOUTUBE_SPEEDS, IdList(m));
    SplitCreate(m);
  }

  /** No id contains a comma. */
  predicate FreeOfComma(m: YoutubeIds) {
    forall i :: 0 <= i < 4 ==> (IdList(m)[i].Some? ==> ',' !in IdList(m)[i].value)
  }

  /** Entries are never empty: each holds at least the ":". */
  lemma {:induction false} EntriesNonEmpty(speeds: seq<string>, ids: seq<Option<string>>)
    ensures forall i :: 0 <= i < |Entries(speeds, ids)| ==> Entries(speeds, ids)[i] != []
    decreases |speeds|
  {
    if speeds != [] && ids != [] {
      EntriesNonEmpty(speeds[1..], ids[1..]);
      var head := if Truthy(ids[0]) then [speeds[0] + [':'] + ids[0].value] else [];
      var tail := Entries(speeds[1..], ids[1..]);
      forall i | 0 <= i < |head + tail| ensures (head + tail)[i] != [] {
        if i >= |head| { assert (head + tail)[i] == tail[i - |head|]; }
      }
    }
  }

  /** Entries never contain a comma when no speed and no id does. */
  lemma {:induction false} EntriesFreeOfComma(speeds: seq<string>, ids: seq<Option<string>>)
    requires forall i :: 0 <= i < |speeds| ==> ',' !in speeds[i]
    requires forall i :: 0 <= i < |ids| ==> (ids[i].Some? ==> ',' !in ids[i].value)
    ensures FreeOf(Entries(speeds, ids), ',')
    decreases |speeds|
  {
    if speeds != [] && ids != [] {
      EntriesFreeOfComma(speeds[1..], ids[1..]);
      var head := if Truthy(ids[0]) then [speeds[0] + [':'] + ids[0].value] else [];
      var tail := Entries(speeds[1..], ids[1..]);
      if Truthy(ids[0]) {
        assert ',' !in speeds[0] + [':'] + ids[0].value;
        forall i | 0 <= i < |head + tail| ensures ',' !in (head + tail)[i] {
          if i > 0 { assert (head + tail)[i] == tail[i - 1]; }
        }
      } else {
        assert head + tail == tail;
      }
    }
  }

  /** Splitting the string on "," gives back exactly the entries: no leading,
      trailing or doubled comma, and every field non-empty. */
  lemma SplitCreate(m: YoutubeIds)
    requires FreeOfComma(m)
    requires CountTruthy(IdList(m)) > 0
    ensures Split(CreateYoutubeString(m), ',') == Entries(YOUTUBE_SPEEDS, IdList(m))
    ensures forall i :: 0 <= i < |Split(CreateYoutubeString(m), ',')| ==>
              Split(CreateYoutubeString(m), ',')[i] != []
  {
    EntriesCount(YOUTUBE_SPEEDS, IdList(m));
    EntriesFreeOfComma(YOUTUBE_SPEEDS, IdList(m));
    EntriesNonEmpty(YOUTUBE_SPEEDS, IdList(m));
    SplitJoin(Entries(YOUTUBE_SPEEDS, IdList(m)), ',');
  }

  // A reader of the speed string, used only to state that the string determines
  // the ids it was built from.

  /** The ids with empty ones made absent: all that the string can carry. */
  function Normalized(m: YoutubeIds): YoutubeIds {
    YoutubeIds(
      if Truthy(m.id075) then m.id075 else None,
      if Truthy(m.id100) then m.id100 else None,
      if Truthy(m.id125) then m.id125 else None,
      if Truthy(m.id150) then m.id150 else None)
  }

  const NO_IDS := YoutubeIds(None, None, None, None)

  /** Reads one "speed:id" entry into the field of its speed. */
  ghost function ReadEntry(acc: YoutubeIds, e: string): YoutubeIds {
    var (speed, id) := Partition(e, ':');
    if speed == "0.75" then acc.(id075 := Some(id))
    else if speed == "1.00" then acc.(id100 := Some(id))
    else if speed == "1.25" then acc.(id125 := Some(id))
    else if speed == "1.50" then acc.(id150 := Some(id))
    else acc
  }

  ghost function ReadEntries(acc: YoutubeIds, es: seq<string>): YoutubeIds
    decreases |es|
  {
    if es == [] then acc else ReadEntries(ReadEntry(acc, es[0]), es[1..])
  }

  ghost function ParseYoutubeString(s: string): YoutubeIds {
    if s == [] then NO_IDS else ReadEntries(NO_IDS, Split(s, ','))
  }

  lemma {:induction false} ReadEntriesAppend(acc: YoutubeIds, a: seq<string>, b: seq<string>)
    ensures ReadEntries(acc, a + b) == ReadEntries(ReadEntries(acc, a), b)
    decreases |a|
  {
    if a == [] {
      assert a + b == b;
    } else {
      assert (a + b)[1..] == a[1..] + b;
      ReadEntriesAppend(ReadEntry(acc, a[0]), a[1..], b);
    }
  }

  lemma ReadSpeedEntry(acc: YoutubeIds, speed: string, id: string)
    requires ':' !in speed
    ensures ReadEntry(acc, speed + [':'] + id) ==
      if speed == "0.75" then acc.(id075 := Some(id))
      else if speed == "1.00" then acc.(id100 := Some(id))
      else if speed == "1.25" then acc.(id125 := Some(id))
      else if speed == "1.50" then acc.(id150 := Some(id))
      else acc
  {
    PartitionCons(speed, id, ':');
  }

  /** Round trip: reading the speed string back gives every truthy id at its
      own speed, provided no id contains a comma. */
  lemma ParseCreate(m: YoutubeIds)
    requires FreeOfComma(m)
    ensures ParseYoutubeString(CreateYoutubeString(m)) == Normalized(m)
  {
    EntriesInSpeedOrder(m);
    var e1, e2, e3, e4 := Entry("0.75", m.id075), Entry("1.00", m.id100),
                          Entry("1.25", m.id125), Entry("1.50", m.id150);
    CountTruthyOfIds(m);
    if CountTruthy(IdList(m)) != 0 {
      SplitCreate(m);
      EntriesCount(YOUTUBE_SPEEDS, IdList(m));
      var es := e1 + e2 + e3 + e4;
      ReadEntriesAppend(NO_IDS, e1 + e2 + e3, e4);
      ReadEntriesAppend(NO_IDS, e1 + e2, e3);
      ReadEntriesAppend(NO_IDS, e1, e2);
      var a1 := ReadEntries(NO_IDS, e1);
      var a2 := ReadEntries(a1, e2);
      var a3 := ReadEntries(a2, e3);
      if Truthy(m.id075) { ReadSpeedEntry(NO_IDS, "0.75", m.id075.value); }
      if Truthy(m.id100) { ReadSpeedEntry(a1, "1.00", m.id100.value); }
      if Truthy(m.id125) { ReadSpeedEntry(a2, "1.25", m.id125.value); }
      if Truthy(m.id150) { ReadSpeedEntry(a3, "1.50", m.id150.value); }
    }
  }
}
