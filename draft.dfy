/**
 * The draft layer of the Mongo module store
 * (common/lib/xmodule/xmodule/modulestore/mongo/draft.py).
 *
 * Every location of a course can have two documents in the collection: the
 * published one, whose location has no revision, and the draft one, whose
 * location has revision "draft". Reads prefer the draft, edits go to the
 * draft, `publish` promotes the draft and `unpublish` demotes the published
 * document. Categories listed in DIRECT_ONLY_CATEGORIES never get a draft from
 * the store: their writes go to the location the block carries.
 *
 * The collection is a map from location (revision included) to document.
 * The operations of the underlying (non-draft) store are plain map
 * operations: a lookup, an upsert, a removal of one key, a selection of keys,
 * and the parent query "which documents list this child".
 */
module DraftStore {
  import opened Results

  const DRAFT: string := "draft"
  /** Categories that are always written straight to the published slot. */
  const DIRECT_ONLY_CATEGORIES: seq<string> :=
    ["course", "chapter", "sequential", "about", "static_tab", "course_info"]

  /** A usage location; `course` stands for the whole course key. */
  datatype Location = Location(course: string, category: string, name: string, revision: Option<string>)

  /** The stored part of an xblock: its children, its other fields, and the
      publication stamp. */
  datatype Document = Document(
    children: seq<Location>,
    fields: map<string, string>,
    publishedDate: Option<int>,
    publishedBy: Option<int>)

  /** An xblock as the store hands it out: its location, its `is_draft` flag
      (false when the attribute was never set) and its content. */
  datatype Item = Item(location: Location, isDraft: bool, doc: Document)

  datatype StoreError =
    | ItemNotFound(location: Location)
    | InvalidVersion(location: Location)
    | DuplicateItem(location: Location)

  datatype PublishState = Private | Draft | Public

  type Collection = map<Location, Document>

  predicate DirectOnly(category: string) {
    category in DIRECT_ONLY_CATEGORIES
  }

  /** Two locations name the same usage, whatever their revisions. */
  predicate SameUsage(a: Location, b: Location) {
    a.course == b.course && a.category == b.category && a.name == b.name
  }

  // Location helpers.

  /** `as_draft`: the same usage with revision "draft". */
  function AsDraft(loc: Location): (r: Location)
    ensures r.revision == Some(DRAFT) && SameUsage(r, loc)
  {
    loc.(revision := Some(DRAFT))
  }

  /** `as_published`: the same usage without a revision. */
  function AsPublished(loc: Location): (r: Location)
    ensures r.revision == None && SameUsage(r, loc)
  {
    loc.(revision := None)
  }

  /** Each helper forgets the revision it replaces, so they absorb each other. */
  lemma LocationForms(l: Location)
    ensures AsPublished(AsDraft(l)) == AsPublished(l)
    ensures AsDraft(AsPublished(l)) == AsDraft(l)
    ensures AsDraft(AsDraft(l)) == AsDraft(l) && AsPublished(AsPublished(l)) == AsPublished(l)
    ensures AsDraft(l) != AsPublished(l)
    ensures l.revision == None ==> AsPublished(l) == l
    ensures l.revision == Some(DRAFT) ==> AsDraft(l) == l
  {
  }

  /** `wrap_draft`: the item moves to its published location and is flagged a
      draft exactly when it was read from a draft location. */
  function WrapDraft(item: Item): (r: Item)
    ensures r.location.revision == None && SameUsage(r.location, item.location)
    ensures r.isDraft <==> item.location.revision == Some(DRAFT)
    ensures r.doc == item.doc
  {
    Item(AsPublished(item.location), item.location.revision == Some(DRAFT), item.doc)
  }

  /** The underlying store's `get_item` on a present key: the document at
      exactly that key, with no `is_draft` flag. */
  function Load(c: Collection, key: Location): Item
    requires key in c
  {
    Item(key, false, c[key])
  }

  // Reads.

  /**
   * `get_item`. On the draft branch, for a category that can have drafts, the
   * draft document wins, the key as given is the fallback, and either way the
   * item comes back at its published location; otherwise only the key as
   * given is consulted.
   */
  function GetItem(c: Collection, key: Location, draftBranch: bool): (r: Result<Item, StoreError>)
    ensures r.Err? ==> r.error == ItemNotFound(key)
    ensures draftBranch && !DirectOnly(key.category) ==>
              (r.Err? <==> AsDraft(key) !in c && key !in c)
    ensures draftBranch && !DirectOnly(key.category) && AsDraft(key) in c ==>
              r == Ok(Item(AsPublished(key), true, c[AsDraft(key)]))
    ensures draftBranch && !DirectOnly(key.category) && AsDraft(key) !in c && key in c ==>
              r.Ok? && r.value.location == AsPublished(key) && r.value.doc == c[key]
              && (r.value.isDraft <==> key.revision == Some(DRAFT))
    ensures !(draftBranch && !DirectOnly(key.category)) ==>
              r == if key in c then Ok(Item(key, false, c[key])) else Err(ItemNotFound(key))
  {
    if draftBranch && !DirectOnly(key.category) then
      if AsDraft(key) in c then Ok(WrapDraft(Load(c, AsDraft(key))))
      else if key in c then Ok(WrapDraft(Load(c, key)))
      else Err(ItemNotFound(key))
    else if key in c then Ok(Load(c, key))
    else Err(ItemNotFound(key))
  }

  /** `create_xmodule`: a new, unsaved xblock at the draft location when its
      category can have drafts, else at the location given. */
  function CreateXModule(loc: Location, doc: Document): (r: Item)
    ensures DirectOnly(loc.category) ==> r.location == loc
    ensures !DirectOnly(loc.category) ==> r.location.revision == Some(DRAFT) && SameUsage(r.location, loc)
    ensures !r.isDraft && r.doc == doc
  {
    if DirectOnly(loc.category) then Item(loc, false, doc) else Item(AsDraft(loc), false, doc)
  }

  /** The keys the underlying `get_items` selects: the course, the revision
      and the remaining qualifiers (`query`) all match. */
  function Selected(c: Collection, course: string, revision: Option<string>,
                    query: (Location, Document) -> bool): set<Location>
  {
    set k | k in c && k.course == course && k.revision == revision && query(k, c[k])
  }

  /** An element of `get_items` that came from a selected draft document. */
  predicate DraftEntry(c: Collection, course: string, query: (Location, Document) -> bool, it: Item) {
    && it.isDraft
    && it.location.revision == None
    && AsDraft(it.location) in Selected(c, course, Some(DRAFT), query)
    && it.doc == c[AsDraft(it.location)]
  }

  /** An element of `get_items` that came from a selected published document
      not shadowed by a selected draft. */
  predicate PublishedEntry(c: Collection, course: string, query: (Location, Document) -> bool,
                           draftBranch: bool, it: Item) {
    && !it.isDraft
    && it.location in Selected(c, course, None, query)
    && it.doc == c[it.location]
    && !(draftBranch && AsDraft(it.location) in Selected(c, course, Some(DRAFT), query))
  }

  function ComputePublishStateOf(isDraft: bool, publishedExists: bool): PublishState {
    if !isDraft then Public else if publishedExists then Draft else Private
  }

  /** `compute_publish_state`: private for a draft never published, draft for
      a draft with a published version, public for anything else. */
  function ComputePublishState(c: Collection, item: Item): (r: PublishState)
    ensures r == Private <==> item.isDraft && AsPublished(item.location) !in c
    ensures r == Draft <==> item.isDraft && AsPublished(item.location) in c
    ensures r == Public <==> !item.isDraft
  {
    ComputePublishStateOf(item.isDraft, AsPublished(item.location) in c)
  }

  // Writes, as functions from the collection before to the collection after.

  /** `a` holds a subset of the entries of `b`, unchanged. */
  predicate SubCollection(a: Collection, b: Collection) {
    forall k :: k in a ==> k in b && a[k] == b[k]
  }

  /** `b` is `a` with at most the entry at `key` added or replaced. */
  ghost predicate SameExcept(a: Collection, b: Collection, key: Location) {
    forall k :: k != key ==> (k in a <==> k in b) && (k in a ==> a[k] == b[k])
  }

  /** `delete_item`: a direct-only location loses its published document;
      any other loses its draft, and its published document too when all
      versions are asked for. */
  function AfterDeleteItem(c: Collection, loc: Location, allVersions: bool): (r: Collection)
    ensures SubCollection(r, c)
    ensures DirectOnly(loc.category) ==> forall k :: k in c ==> (k in r <==> k != AsPublished(loc))
    ensures !DirectOnly(loc.category) ==>
              forall k :: k in c ==> (k in r <==> k != AsDraft(loc) && (allVersions ==> k != AsPublished(loc)))
  {
    if DirectOnly(loc.category) then c - {AsPublished(loc)}
    else
      var withoutDraft := c - {AsDraft(loc)};
      if allVersions then withoutDraft - {AsPublished(loc)} else withoutDraft
  }

  /** `convert_to_draft`: the draft slot gets a copy of the published
      document, which stays; refused for direct-only categories, for a
      missing published document and for an existing draft. */
  function AfterConvertToDraft(c: Collection, loc: Location): (r: Result<Collection, StoreError>)
    ensures DirectOnly(loc.category) ==> r == Err(InvalidVersion(loc))
    ensures !DirectOnly(loc.category) && loc !in c ==> r == Err(ItemNotFound(loc))
    ensures !DirectOnly(loc.category) && loc in c && AsDraft(loc) in c ==> r == Err(DuplicateItem(AsDraft(loc)))
    ensures r.Ok? <==> !DirectOnly(loc.category) && loc in c && AsDraft(loc) !in c
    ensures r.Ok? ==> AsDraft(loc) in r.value && r.value[AsDraft(loc)] == c[loc]
                      && SameExcept(c, r.value, AsDraft(loc))
  {
    if DirectOnly(loc.category) then Err(InvalidVersion(loc))
    else if loc !in c then Err(ItemNotFound(loc))
    else if AsDraft(loc) in c then Err(DuplicateItem(AsDraft(loc)))
    else Ok(c[AsDraft(loc) := c[loc]])
  }

  /** `update_item`: a direct-only xblock is written at its own location; any
      other is written to its draft slot only (made from the published
      document first when there is no draft), failing when neither exists
      unless that is allowed. */
  function AfterUpdateItem(c: Collection, item: Item, allowNotFound: bool): (r: Result<Collection, StoreError>)
    ensures DirectOnly(item.location.category) ==>
              r.Ok? && item.location in r.value && r.value[item.location] == item.doc
              && SameExcept(c, r.value, item.location)
    ensures !DirectOnly(item.location.category) ==>
              (r.Err? <==> AsDraft(item.location) !in c && item.location !in c && !allowNotFound)
    ensures r.Err? ==> r.error == ItemNotFound(item.location)
    ensures !DirectOnly(item.location.category) && r.Ok? ==>
              AsDraft(item.location) in r.value && r.value[AsDraft(item.location)] == item.doc
              && SameExcept(c, r.value, AsDraft(item.location))
  {
    if DirectOnly(item.location.category) then Ok(c[item.location := item.doc])
    else
      var draftLoc := AsDraft(item.location);
      if draftLoc !in c && item.location !in c && !allowNotFound then Err(ItemNotFound(item.location))
      else Ok(c[draftLoc := item.doc])
  }

  /** The underlying `get_parent_locations`: every stored location whose
      document lists `child`. */
  function GetParentLocations(c: Collection, child: Location): set<Location> {
    set k | k in c && child in c[k].children
  }

  /** The child-pruning loop of `publish`, in order: a child of the old
      published version that the draft no longer lists and whose only parent
      is `loc` has all its versions deleted. Pruning only ever deletes
      entries. */
  function PruneOrphans(c: Collection, loc: Location, cs: seq<Location>, keep: seq<Location>): (r: Collection)
    ensures SubCollection(r, c)
    decreases |cs|
  {
    if cs == [] then c
    else
      var child := cs[0];
      var next := if child !in keep && GetParentLocations(c, child) == {loc}
                  then AfterDeleteItem(c, child, true) else c;
      PruneOrphans(next, loc, cs[1..], keep)
  }

  /** The draft's document stamped with the publication date and user. */
  function Stamp(doc: Document, user: Option<int>, now: int): Document {
    doc.(publishedDate := Some(now), publishedBy := user)
  }

  /**
   * `publish`: nothing for a direct-only category; otherwise the item read on
   * the draft branch (failing when there is neither draft nor published
   * document), the orphaned children pruned, the stamped document written to
   * the published slot and the draft deleted. It fails exactly when there is
   * nothing to read, and a direct-only category is left alone.
   */
  function AfterPublish(c: Collection, loc: Location, user: Option<int>, now: int): (r: Result<Collection, StoreError>)
    ensures DirectOnly(loc.category) ==> r == Ok(c)
    ensures !DirectOnly(loc.category) ==> (r.Err? <==> AsDraft(loc) !in c && loc !in c)
    ensures r.Err? ==> r.error == ItemNotFound(loc)
  {
    if DirectOnly(loc.category) then Ok(c)
    else match GetItem(c, loc, true)
      case Err(e) => Err(e)
      case Ok(draft) =>
        var pruned := if loc in c then PruneOrphans(c, loc, c[loc].children, draft.doc.children) else c;
        Ok(AfterDeleteItem(pruned[draft.location := Stamp(draft.doc, user, now)], loc, false))
  }

  /** `unpublish`: convert to a draft, then remove the published document. */
  function AfterUnpublish(c: Collection, loc: Location): (r: Result<Collection, StoreError>)
    ensures r.Err? <==> AfterConvertToDraft(c, loc).Err?
    ensures r.Err? ==> r.error == AfterConvertToDraft(c, loc).error
    ensures r.Ok? <==> !DirectOnly(loc.category) && loc in c && AsDraft(loc) !in c
  {
    match AfterConvertToDraft(c, loc)
      case Err(e) => Err(e)
      case Ok(converted) => Ok(converted - {loc})
  }

  // What the writes mean.

  /** Pruning deletes nothing but the slots of children the draft dropped. */
  lemma {:induction false} PruneDeletesOnlyDroppedChildren(c: Collection, loc: Location, cs: seq<Location>, keep: seq<Location>)
    ensures forall k :: k in c && k !in PruneOrphans(c, loc, cs, keep) ==>
              exists j :: 0 <= j < |cs| && cs[j] !in keep && (k == AsPublished(cs[j]) || k == AsDraft(cs[j]))
    decreases |cs|
  {
    if cs != [] {
      var child := cs[0];
      var next := if child !in keep && GetParentLocations(c, child) == {loc}
                  then AfterDeleteItem(c, child, true) else c;
      PruneDeletesOnlyDroppedChildren(next, loc, cs[1..], keep);
      var p := PruneOrphans(c, loc, cs, keep);
      assert p == PruneOrphans(next, loc, cs[1..], keep);
      forall k | k in c && k !in p
        ensures exists j :: 0 <= j < |cs| && cs[j] !in keep && (k == AsPublished(cs[j]) || k == AsDraft(cs[j]))
      {
        if k in next {
          var j :| 0 <= j < |cs[1..]| && cs[1..][j] !in keep && (k == AsPublished(cs[1..][j]) || k == AsDraft(cs[1..][j]));
          assert cs[j + 1] == cs[1..][j];
        } else {
          assert cs[0] !in keep && (k == AsPublished(cs[0]) || k == AsDraft(cs[0]));
        }
      }
    }
  }

  /** Deleting entries can only lose parents, and a parent that stays is
      still found. */
  lemma ParentsOfSubCollection(a: Collection, b: Collection, child: Location, loc: Location)
    requires SubCollection(a, b)
    requires GetParentLocations(b, child) == {loc}
    requires loc in a
    ensures GetParentLocations(a, child) == {loc}
  {
    assert loc in GetParentLocations(b, child);
    assert loc in GetParentLocations(a, child);
  }

  /**
   * Every child the draft dropped whose only parent, in the collection before
   * publishing, is `loc` has all its versions gone afterwards — provided
   * `loc` is a published location that none of its children stands for, so
   * that `loc` itself survives the pruning.
   */
  lemma {:induction false} PruneRemovesOrphans(c: Collection, loc: Location, cs: seq<Location>, keep: seq<Location>)
    requires loc in c && loc.revision == None
    requires forall j :: 0 <= j < |cs| ==> AsPublished(cs[j]) != loc
    ensures forall j :: 0 <= j < |cs| && cs[j] !in keep && GetParentLocations(c, cs[j]) == {loc} ==>
              AsPublished(cs[j]) !in PruneOrphans(c, loc, cs, keep)
              && (!DirectOnly(cs[j].category) ==> AsDraft(cs[j]) !in PruneOrphans(c, loc, cs, keep))
    decreases |cs|
  {
    if cs != [] {
      var child := cs[0];
      var next := if child !in keep && GetParentLocations(c, child) == {loc}
                  then AfterDeleteItem(c, child, true) else c;
      var p := PruneOrphans(c, loc, cs, keep);
      assert p == PruneOrphans(next, loc, cs[1..], keep);
      assert SubCollection(next, c);
      assert loc in next by {
        LocationForms(child);
      }
      assert forall j :: 0 <= j < |cs[1..]| ==> AsPublished(cs[1..][j]) != loc by {
        forall j | 0 <= j < |cs[1..]| ensures AsPublished(cs[1..][j]) != loc {
          assert cs[1..][j] == cs[j + 1];
        }
      }
      PruneRemovesOrphans(next, loc, cs[1..], keep);
      forall j | 0 <= j < |cs| && cs[j] !in keep && GetParentLocations(c, cs[j]) == {loc}
        ensures AsPublished(cs[j]) !in p && (!DirectOnly(cs[j].category) ==> AsDraft(cs[j]) !in p)
      {
        if j == 0 {
          assert AsPublished(child) !in next;
          assert !DirectOnly(child.category) ==> AsDraft(child) !in next;
        } else {
          ParentsOfSubCollection(next, c, cs[j], loc);
          assert cs[1..][j - 1] == cs[j];
        }
      }
    }
  }

  /**
   * The other half of the only-parent test: a child that is still listed by a
   * parent other than `loc`, one that survives the pruning, was moved rather
   * than orphaned, and none of its versions is deleted. Children are stored
   * without a revision.
   */
  lemma {:induction false} PruneKeepsMovedChildren(c: Collection, loc: Location, cs: seq<Location>, keep: seq<Location>, x: Location, p: Location)
    requires forall i :: 0 <= i < |cs| ==> cs[i].revision == None
    requires x.revision == None
    requires p in c && x in c[p].children && p != loc
    requires p in PruneOrphans(c, loc, cs, keep)
    ensures forall k :: k in c && (k == x || k == AsDraft(x)) ==> k in PruneOrphans(c, loc, cs, keep)
    decreases |cs|
  {
    if cs != [] {
      var child := cs[0];
      var next := if child !in keep && GetParentLocations(c, child) == {loc}
                  then AfterDeleteItem(c, child, true) else c;
      var r := PruneOrphans(c, loc, cs, keep);
      assert r == PruneOrphans(next, loc, cs[1..], keep);
      assert p in next && next[p] == c[p];
      assert forall i :: 0 <= i < |cs[1..]| ==> cs[1..][i].revision == None by {
        forall i | 0 <= i < |cs[1..]| ensures cs[1..][i].revision == None {
          assert cs[1..][i] == cs[i + 1];
        }
      }
      PruneKeepsMovedChildren(next, loc, cs[1..], keep, x, p);
      if next != c {
        assert p in GetParentLocations(c, x);
        assert child != x;
        assert AsDraft(child) != AsDraft(x);
      }
    }
  }

  /** What `publish` reads as the draft: the draft document when there is
      one, else the document at the location given. */
  function DraftDocument(c: Collection, loc: Location): Document
    requires AsDraft(loc) in c || loc in c
  {
    if AsDraft(loc) in c then c[AsDraft(loc)] else c[loc]
  }

  /**
   * After a successful `publish` of a category that can have drafts, the
   * published slot holds the draft's content with the publication stamp, the
   * draft slot is empty, and every other entry is either unchanged or a
   * deleted version of a child the draft dropped.
   */
  lemma PublishMovesDraft(c: Collection, loc: Location, user: Option<int>, now: int)
    requires !DirectOnly(loc.category)
    requires AfterPublish(c, loc, user, now).Ok?
    ensures var after := AfterPublish(c, loc, user, now).value;
      && AsPublished(loc) in after
      && after[AsPublished(loc)] == Stamp(DraftDocument(c, loc), user, now)
      && AsDraft(loc) !in after
      && (forall k :: k in after && k != AsPublished(loc) ==> k in c && after[k] == c[k])
      && (forall k :: k in c && k !in after && k != AsPublished(loc) && k != AsDraft(loc) ==>
            loc in c && exists j :: 0 <= j < |c[loc].children| && c[loc].children[j] !in DraftDocument(c, loc).children
                                    && (k == AsPublished(c[loc].children[j]) || k == AsDraft(c[loc].children[j])))
  {
    var draft := GetItem(c, loc, true).value;
    assert draft.location == AsPublished(loc);
    assert draft.doc == DraftDocument(c, loc);
    var pruned := if loc in c then PruneOrphans(c, loc, c[loc].children, draft.doc.children) else c;
    if loc in c {
      PruneDeletesOnlyDroppedChildren(c, loc, c[loc].children, draft.doc.children);
    }
    var written := pruned[draft.location := Stamp(draft.doc, user, now)];
    assert AfterPublish(c, loc, user, now).value == AfterDeleteItem(written, loc, false);
    LocationForms(loc);
  }

  /** After a successful `publish` of a published location that none of its
      children stands for, each child dropped from the draft whose only
      parent was that location has no version left. */
  lemma PublishDeletesOrphans(c: Collection, loc: Location, user: Option<int>, now: int)
    requires !DirectOnly(loc.category)
    requires loc in c && loc.revision == None
    requires forall j :: 0 <= j < |c[loc].children| ==> AsPublished(c[loc].children[j]) != loc
    requires AfterPublish(c, loc, user, now).Ok?
    ensures var after := AfterPublish(c, loc, user, now).value;
      forall j :: 0 <= j < |c[loc].children| && c[loc].children[j] !in DraftDocument(c, loc).children
                  && GetParentLocations(c, c[loc].children[j]) == {loc} ==>
        AsPublished(c[loc].children[j]) !in after
        && (!DirectOnly(c[loc].children[j].category) ==> AsDraft(c[loc].children[j]) !in after)
  {
    var cs := c[loc].children;
    var draft := GetItem(c, loc, true).value;
    assert draft.location == AsPublished(loc) == loc;
    assert draft.doc == DraftDocument(c, loc);
    var pruned := PruneOrphans(c, loc, cs, draft.doc.children);
    PruneRemovesOrphans(c, loc, cs, draft.doc.children);
    var written := pruned[loc := Stamp(draft.doc, user, now)];
    var after := AfterPublish(c, loc, user, now).value;
    assert after == AfterDeleteItem(written, loc, false);
    forall j | 0 <= j < |cs| && cs[j] !in draft.doc.children && GetParentLocations(c, cs[j]) == {loc}
      ensures AsPublished(cs[j]) !in after && (!DirectOnly(cs[j].category) ==> AsDraft(cs[j]) !in after)
    {
      assert AsPublished(cs[j]) !in pruned;
      assert AsDraft(cs[j]) != loc;
    }
  }

  /**
   * After a successful `publish`, a child stored without a revision that is
   * still listed by another parent, one that is itself still there after the
   * publish, keeps every version it had (those that are not versions of
   * `loc`): a moved child is not deleted.
   */
  lemma PublishKeepsMovedChildren(c: Collection, loc: Location, user: Option<int>, now: int, x: Location, p: Location)
    requires !DirectOnly(loc.category)
    requires AfterPublish(c, loc, user, now).Ok?
    requires loc in c ==> forall i :: 0 <= i < |c[loc].children| ==> c[loc].children[i].revision == None
    requires x.revision == None
    requires p in c && x in c[p].children && p != loc && p != AsPublished(loc)
    requires p in AfterPublish(c, loc, user, now).value
    ensures var after := AfterPublish(c, loc, user, now).value;
      forall k :: k in c && (k == x || k == AsDraft(x)) && k != AsPublished(loc) && k != AsDraft(loc) ==>
        k in after && after[k] == c[k]
  {
    var draft := GetItem(c, loc, true).value;
    assert draft.location == AsPublished(loc);
    var pruned := if loc in c then PruneOrphans(c, loc, c[loc].children, draft.doc.children) else c;
    var written := pruned[draft.location := Stamp(draft.doc, user, now)];
    var after := AfterPublish(c, loc, user, now).value;
    assert after == AfterDeleteItem(written, loc, false);
    assert p in pruned;
    if loc in c {
      PruneKeepsMovedChildren(c, loc, c[loc].children, draft.doc.children, x, p);
    }
  }

  /** Unpublishing a published item of a category that can have drafts, and
      that has no draft yet, succeeds: the former published content is the
      draft and the published document is gone. */
  lemma UnpublishMovesPublished(c: Collection, loc: Location)
    requires !DirectOnly(loc.category) && loc in c && AsDraft(loc) !in c
    ensures AfterUnpublish(c, loc).Ok?
    ensures var after := AfterUnpublish(c, loc).value;
      && loc !in after
      && AsDraft(loc) in after && after[AsDraft(loc)] == c[loc]
      && (forall k :: k != loc && k != AsDraft(loc) ==> (k in after <==> k in c) && (k in c ==> after[k] == c[k]))
  {
  }

  // The publish state through the life of an item.

  /** A fresh draft of a published item reads as a draft with a published
      version; the published branch still sees the published document. */
  lemma ConvertedReadsAsDraft(c: Collection, loc: Location)
    requires loc.revision == None
    requires !DirectOnly(loc.category) && loc in c && AsDraft(loc) !in c
    ensures AfterConvertToDraft(c, loc).Ok?
    ensures var after := AfterConvertToDraft(c, loc).value;
      && GetItem(after, loc, true) == Ok(Item(loc, true, c[loc]))
      && ComputePublishState(after, GetItem(after, loc, true).value) == Draft
      && GetItem(after, loc, false) == Ok(Item(loc, false, c[loc]))
  {
    LocationForms(loc);
  }

  /** After publishing, the draft branch reads the published document, which
      is public, and the published branch finds it. */
  lemma PublishedReadsAsPublic(c: Collection, loc: Location, user: Option<int>, now: int)
    requires loc.revision == None && !DirectOnly(loc.category)
    requires AfterPublish(c, loc, user, now).Ok?
    ensures var after := AfterPublish(c, loc, user, now).value;
      && GetItem(after, loc, true) == Ok(Item(loc, false, Stamp(DraftDocument(c, loc), user, now)))
      && ComputePublishState(after, GetItem(after, loc, true).value) == Public
      && GetItem(after, loc, false).Ok?
  {
    PublishMovesDraft(c, loc, user, now);
    LocationForms(loc);
  }

  /** After unpublishing, the draft branch reads a private draft and the
      published branch finds nothing. */
  lemma UnpublishedReadsAsPrivate(c: Collection, loc: Location)
    requires loc.revision == None
    requires !DirectOnly(loc.category) && loc in c && AsDraft(loc) !in c
    ensures AfterUnpublish(c, loc).Ok?
    ensures var after := AfterUnpublish(c, loc).value;
      && GetItem(after, loc, true) == Ok(Item(loc, true, c[loc]))
      && ComputePublishState(after, GetItem(after, loc, true).value) == Private
      && GetItem(after, loc, false) == Err(ItemNotFound(loc))
  {
    UnpublishMovesPublished(c, loc);
    LocationForms(loc);
  }

  /** Editing an item that has a published version changes what the draft
      branch reads and leaves what the published branch reads alone. */
  lemma UpdateLeavesPublishedAlone(c: Collection, loc: Location, isDraft: bool, doc: Document)
    requires loc.revision == None && !DirectOnly(loc.category) && loc in c
    ensures AfterUpdateItem(c, Item(loc, isDraft, doc), false).Ok?
    ensures var after := AfterUpdateItem(c, Item(loc, isDraft, doc), false).value;
      && GetItem(after, loc, false) == Ok(Item(loc, false, c[loc]))
      && GetItem(after, loc, true) == Ok(Item(loc, true, doc))
  {
    LocationForms(loc);
  }

  // Direct-only categories never get a draft, as long as no caller hands in a
  // direct-only block already addressed at a draft location.

  predicate NoDirectOnlyDrafts(c: Collection) {
    forall k :: k in c && DirectOnly(k.category) ==> k.revision != Some(DRAFT)
  }

  lemma ConvertKeepsNoDirectOnlyDrafts(c: Collection, loc: Location)
    requires NoDirectOnlyDrafts(c)
    requires AfterConvertToDraft(c, loc).Ok?
    ensures NoDirectOnlyDrafts(AfterConvertToDraft(c, loc).value)
  {
  }

  lemma UpdateKeepsNoDirectOnlyDrafts(c: Collection, item: Item, allowNotFound: bool)
    requires NoDirectOnlyDrafts(c)
    requires DirectOnly(item.location.category) ==> item.location.revision != Some(DRAFT)
    requires AfterUpdateItem(c, item, allowNotFound).Ok?
    ensures NoDirectOnlyDrafts(AfterUpdateItem(c, item, allowNotFound).value)
  {
  }

  lemma PublishKeepsNoDirectOnlyDrafts(c: Collection, loc: Location, user: Option<int>, now: int)
    requires NoDirectOnlyDrafts(c)
    requires AfterPublish(c, loc, user, now).Ok?
    ensures NoDirectOnlyDrafts(AfterPublish(c, loc, user, now).value)
  {
    if !DirectOnly(loc.category) {
      PublishMovesDraft(c, loc, user, now);
    }
  }

  lemma UnpublishKeepsNoDirectOnlyDrafts(c: Collection, loc: Location)
    requires NoDirectOnlyDrafts(c)
    requires AfterUnpublish(c, loc).Ok?
    ensures NoDirectOnlyDrafts(AfterUnpublish(c, loc).value)
  {
    UnpublishMovesPublished(c, loc);
  }

  /** The items read from the draft keys of `get_items` are its draft entries,
      and each selected draft is among them. */
  lemma DraftItemsAreEntries(c: Collection, course: string, query: (Location, Document) -> bool,
                             draftBranch: bool, draftKeys: seq<Location>, draftItems: seq<Item>)
    requires draftBranch ==> (forall k :: k in draftKeys <==> k in Selected(c, course, Some(DRAFT), query))
    requires forall i :: 0 <= i < |draftKeys| ==> draftKeys[i] in c && draftKeys[i].revision == Some(DRAFT)
    requires |draftItems| == |draftKeys|
    requires forall i :: 0 <= i < |draftKeys| ==> draftItems[i] == WrapDraft(Load(c, draftKeys[i]))
    requires !draftBranch ==> draftKeys == []
    requires forall i, j :: 0 <= i < j < |draftKeys| ==> draftKeys[i] != draftKeys[j]
    ensures forall i :: 0 <= i < |draftItems| ==> draftBranch && DraftEntry(c, course, query, draftItems[i])
    ensures forall i, j :: 0 <= i < j < |draftItems| ==> draftItems[i].location != draftItems[j].location
    ensures draftBranch ==> forall k :: k in Selected(c, course, Some(DRAFT), query) ==>
              Item(AsPublished(k), true, c[k]) in draftItems
  {
    forall i | 0 <= i < |draftItems| ensures draftBranch && DraftEntry(c, course, query, draftItems[i]) {
      LocationForms(draftKeys[i]);
      assert draftKeys[i] in draftKeys;
    }
    forall i, j | 0 <= i < j < |draftItems| ensures draftItems[i].location != draftItems[j].location {
      LocationForms(draftKeys[i]);
      LocationForms(draftKeys[j]);
    }
    if draftBranch {
      forall k | k in Selected(c, course, Some(DRAFT), query) ensures Item(AsPublished(k), true, c[k]) in draftItems {
        var i :| 0 <= i < |draftKeys| && draftKeys[i] == k;
        assert draftItems[i] == Item(AsPublished(k), true, c[k]);
      }
    }
  }

  /** A published key is shadowed, that is among the locations of the draft
      items, exactly when its draft is selected on the draft branch. */
  lemma DraftLocationsShadow(c: Collection, course: string, query: (Location, Document) -> bool,
                             draftBranch: bool, draftKeys: seq<Location>, draftItems: seq<Item>)
    requires forall i :: 0 <= i < |draftItems| ==> draftBranch && DraftEntry(c, course, query, draftItems[i])
    requires draftBranch ==> forall k :: k in Selected(c, course, Some(DRAFT), query) ==>
               Item(AsPublished(k), true, c[k]) in draftItems
    ensures forall k :: k in Selected(c, course, None, query) ==>
              (k in (set it | it in draftItems :: it.location) <==>
               draftBranch && AsDraft(k) in Selected(c, course, Some(DRAFT), query))
  {
    var draftLocations := set it | it in draftItems :: it.location;
    forall k | k in Selected(c, course, None, query)
      ensures k in draftLocations <==> draftBranch && AsDraft(k) in Selected(c, course, Some(DRAFT), query)
    {
      LocationForms(k);
      if k in draftLocations {
        var it :| it in draftItems && it.location == k;
      }
    }
  }

  /** Draft items at distinct locations followed by items at distinct
      locations outside theirs have distinct locations. */
  lemma DistinctLocations(first: seq<Item>, second: seq<Item>, firstLocations: set<Location>)
    requires firstLocations == set it | it in first :: it.location
    requires forall i, j :: 0 <= i < j < |first| ==> first[i].location != first[j].location
    requires forall i, j :: 0 <= i < j < |second| ==> second[i].location != second[j].location
    requires forall i :: 0 <= i < |second| ==> second[i].location !in firstLocations
    ensures forall i, j :: 0 <= i < j < |first + second| ==> (first + second)[i].location != (first + second)[j].location
  {
    var items := first + second;
    forall i, j | 0 <= i < j < |items| ensures items[i].location != items[j].location {
      if j >= |first| && i < |first| {
        assert items[j] == second[j - |first|];
        assert items[i] in first;
      }
    }
  }

  /** The filtering comprehension of `get_items`: the keys not shadowed, each
      loaded once. */
  method KeepUnshadowed(c: Collection, keys: seq<Location>, shadowed: set<Location>) returns (kept: seq<Item>)
    requires forall j :: 0 <= j < |keys| ==> keys[j] in c
    requires forall i, j :: 0 <= i < j < |keys| ==> keys[i] != keys[j]
    ensures forall i :: 0 <= i < |kept| ==>
              kept[i].location in keys && kept[i].location !in shadowed && kept[i] == Load(c, kept[i].location)
    ensures forall i, j :: 0 <= i < j < |kept| ==> kept[i].location != kept[j].location
    ensures forall j :: 0 <= j < |keys| && keys[j] !in shadowed ==> Load(c, keys[j]) in kept
  {
    kept := [];
    var n := 0;
    while n < |keys|
      invariant 0 <= n <= |keys|
      invariant forall i :: 0 <= i < |kept| ==>
                  kept[i].location in keys[..n] && kept[i].location !in shadowed && kept[i] == Load(c, kept[i].location)
      invariant forall i, j :: 0 <= i < j < |kept| ==> kept[i].location != kept[j].location
      invariant forall j :: 0 <= j < n && keys[j] !in shadowed ==> Load(c, keys[j]) in kept
    {
      var key := keys[n];
      if key !in shadowed {
        assert key !in keys[..n];
        kept := kept + [Load(c, key)];
      }
      assert keys[..n + 1] == keys[..n] + [key];
      n := n + 1;
    }
    assert keys[..n] == keys;
  }

  /** The draft-aware store over one collection. */
  class DraftModuleStore {
    var collection: Collection

    constructor(initial: Collection)
      ensures collection == initial
    {
      collection := initial;
    }

    /** The underlying `get_items`: the selected keys, each once, in some
        order the database chooses. */
    method BaseGetItems(course: string, revision: Option<string>, query: (Location, Document) -> bool)
      returns (keys: seq<Location>)
      ensures forall k :: k in keys <==> k in Selected(collection, course, revision, query)
      ensures forall i :: 0 <= i < |keys| ==> keys[i] in collection && keys[i].revision == revision
      ensures forall i, j :: 0 <= i < j < |keys| ==> keys[i] != keys[j]
    {
      var remaining := Selected(collection, course, revision, query);
      keys := [];
      while remaining != {}
        invariant remaining <= Selected(collection, course, revision, query)
        invariant forall k :: k in keys ==> k in Selected(collection, course, revision, query) && k !in remaining
        invariant forall k :: k in Selected(collection, course, revision, query) ==> k in keys || k in remaining
        invariant forall i, j :: 0 <= i < j < |keys| ==> keys[i] != keys[j]
        invariant forall i :: 0 <= i < |keys| ==> keys[i] in collection && keys[i].revision == revision
        decreases |remaining|
      {
        var k :| k in remaining;
        keys := keys + [k];
        remaining := remaining - {k};
      }
    }

    /**
     * `get_items`: on the draft branch, every selected draft (at its
     * published location, flagged a draft) and then every selected published
     * document that no selected draft shadows; on the published branch only
     * the published documents. No location appears twice.
     */
    method GetItems(course: string, query: (Location, Document) -> bool, draftBranch: bool)
      returns (items: seq<Item>)
      ensures forall i :: 0 <= i < |items| && items[i].isDraft ==> draftBranch && DraftEntry(collection, course, query, items[i])
      ensures forall i :: 0 <= i < |items| && !items[i].isDraft ==> PublishedEntry(collection, course, query, draftBranch, items[i])
      ensures forall i, j :: 0 <= i < j < |items| && !items[i].isDraft ==> !items[j].isDraft
      ensures forall i, j :: 0 <= i < j < |items| ==> items[i].location != items[j].location
      ensures draftBranch ==> forall k :: k in Selected(collection, course, Some(DRAFT), query) ==>
                Item(AsPublished(k), true, collection[k]) in items
      ensures forall k :: (k in Selected(collection, course, None, query) &&
                           !(draftBranch && AsDraft(k) in Selected(collection, course, Some(DRAFT), query))) ==>
                Item(k, false, collection[k]) in items
    {
      var c := collection;
      var draftSel := Selected(c, course, Some(DRAFT), query);
      var draftItems: seq<Item> := [];
      var draftKeys: seq<Location> := [];
      if draftBranch {
        draftKeys := BaseGetItems(course, Some(DRAFT), query);
        draftItems := seq(|draftKeys|, i requires 0 <= i < |draftKeys| && draftKeys[i] in c =>
                            WrapDraft(Load(c, draftKeys[i])));
      }
      DraftItemsAreEntries(c, course, query, draftBranch, draftKeys, draftItems);
      var draftLocations := set it | it in draftItems :: it.location;
      DraftLocationsShadow(c, course, query, draftBranch, draftKeys, draftItems);
      var pubKeys := BaseGetItems(course, None, query);
      var nonDraftItems := KeepUnshadowed(c, pubKeys, draftLocations);
      items := draftItems + nonDraftItems;
      DistinctLocations(draftItems, nonDraftItems, draftLocations);
      forall k | k in Selected(c, course, None, query) && !(draftBranch && AsDraft(k) in draftSel)
        ensures Item(k, false, c[k]) in items
      {
        var j :| 0 <= j < |pubKeys| && pubKeys[j] == k;
        assert Load(c, k) in nonDraftItems;
      }
    }

    /** `convert_to_draft`: returns the new draft at its published location. */
    method ConvertToDraft(loc: Location) returns (r: Result<Item, StoreError>)
      modifies this
      ensures r.Err? <==> AfterConvertToDraft(old(collection), loc).Err?
      ensures r.Err? ==> r.error == AfterConvertToDraft(old(collection), loc).error && collection == old(collection)
      ensures r.Ok? ==> collection == AfterConvertToDraft(old(collection), loc).value
                        && r.value == Item(AsPublished(loc), true, old(collection)[loc])
    {
      if DirectOnly(loc.category) {
        return Err(InvalidVersion(loc));
      }
      if loc !in collection {
        return Err(ItemNotFound(loc));
      }
      var original := collection[loc];
      var draftLocation := AsDraft(loc);
      if draftLocation in collection {
        return Err(DuplicateItem(draftLocation));
      }
      collection := collection[draftLocation := original];
      return Ok(WrapDraft(Item(draftLocation, false, original)));
    }

    /** `update_item`: returns the xblock, moved to its published location
        when it went to the draft slot. */
    method UpdateItem(xblock: Item, allowNotFound: bool) returns (r: Result<Item, StoreError>)
      modifies this
      ensures r.Err? <==> AfterUpdateItem(old(collection), xblock, allowNotFound).Err?
      ensures r.Err? ==> r.error == ItemNotFound(xblock.location) && collection == old(collection)
      ensures r.Ok? ==> collection == AfterUpdateItem(old(collection), xblock, allowNotFound).value
      ensures r.Ok? && DirectOnly(xblock.location.category) ==> r.value == xblock
      ensures r.Ok? && !DirectOnly(xblock.location.category) ==>
                r.value == xblock.(location := AsPublished(xblock.location))
    {
      if DirectOnly(xblock.location.category) {
        collection := collection[xblock.location := xblock.doc];
        return Ok(xblock);
      }
      var draftLocation := AsDraft(xblock.location);
      if draftLocation !in collection {
        var converted := ConvertToDraft(xblock.location);
        if converted.Err? && !allowNotFound {
          return Err(converted.error);
        }
      }
      var block := xblock.(location := draftLocation);
      collection := collection[block.location := block.doc];
      block := block.(location := AsPublished(block.location));
      LocationForms(xblock.location);
      return Ok(block);
    }

    /** `delete_item`. */
    method DeleteItem(loc: Location, allVersions: bool)
      modifies this
      ensures collection == AfterDeleteItem(old(collection), loc, allVersions)
    {
      if DirectOnly(loc.category) {
        collection := collection - {AsPublished(loc)};
        return;
      }
      collection := collection - {AsDraft(loc)};
      if allVersions {
        collection := collection - {AsPublished(loc)};
      }
    }

    /** `publish`, with `now` for the clock. */
    method Publish(loc: Location, user: Option<int>, now: int) returns (r: Result<(), StoreError>)
      modifies this
      ensures r.Err? <==> AfterPublish(old(collection), loc, user, now).Err?
      ensures r.Err? ==> r.error == AfterPublish(old(collection), loc, user, now).error && collection == old(collection)
      ensures r.Ok? ==> collection == AfterPublish(old(collection), loc, user, now).value
    {
      if DirectOnly(loc.category) {
        return Ok(());
      }
      var originalPublished: Option<Document> := if loc in collection then Some(collection[loc]) else None;
      var got := GetItem(collection, loc, true);
      if got.Err? {
        return Err(got.error);
      }
      var draft := got.value;
      draft := draft.(doc := Stamp(draft.doc, user, now));
      if originalPublished.Some? {
        var children := originalPublished.value.children;
        ghost var c0 := collection;
        ghost var keep := got.value.doc.children;
        assert draft.doc.children == keep;
        var i := 0;
        while i < |children|
          invariant 0 <= i <= |children|
          invariant PruneOrphans(collection, loc, children[i..], keep) == PruneOrphans(c0, loc, children, keep)
        {
          var child := children[i];
          assert children[i..][1..] == children[i + 1..];
          if child !in draft.doc.children {
            var rents := GetParentLocations(collection, child);
            if rents == {loc} {
              DeleteItem(child, true);
            }
          }
          i := i + 1;
        }
      }
      collection := collection[draft.location := draft.doc];
      DeleteItem(loc, false);
      return Ok(());
    }

    /** `unpublish`. */
    method Unpublish(loc: Location) returns (r: Result<(), StoreError>)
      modifies this
      ensures r.Err? <==> AfterUnpublish(old(collection), loc).Err?
      ensures r.Err? ==> r.error == AfterUnpublish(old(collection), loc).error && collection == old(collection)
      ensures r.Ok? ==> collection == AfterUnpublish(old(collection), loc).value
    {
      var converted := ConvertToDraft(loc);
      if converted.Err? {
        return Err(converted.error);
      }
      collection := collection - {loc};
      return Ok(());
    }
  }
}
