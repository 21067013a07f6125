# edx-platform core, modelled in Dafny

This project models four pieces of edx-platform and proves properties of them:

- **The draft layer of the Mongo module store**
  (`common/lib/xmodule/xmodule/modulestore/mongo/draft.py`, module `DraftStore`).
  - Each location has at most two documents: a published one (no revision) and a draft one (revision `"draft"`).
  - Reads prefer the draft on the draft branch.
  - Edits go to the draft.
  - `publish` promotes the draft and prunes children that lost their only parent.
  - `unpublish` turns the published document back into a draft.
  - Categories in `DIRECT_ONLY_CATEGORIES` never get a draft from the store itself. A direct-only block that is already addressed at a draft location is written there as given.
  - The collection is a `map<Location, Document>` field of the class `DraftModuleStore`.
  - Each mutating method is proved equal to a function `After*` from the old collection to the new one, and lemmas state what those functions mean.
- **The access-restriction middleware** (`common/djangoapps/restrict_access/middleware.py`, modules `RestrictAccess` and `IPv4`).
  - When an allow list is configured, an anonymous request is let through only when its client address lies in one of the allowed networks and in none of the denied ones. Without an allow list every request goes on.
  - Any unparseable address or network denies the request.
  - A denial is a redirect or a 403.
  - The `ipaddr` library's IPv4 parsing and containment are modelled in `IPv4`.
  - `RestrictAccessCases` replays the middleware's unit tests as lemmas.
- **`create_youtube_string`** (`common/lib/xmodule/xmodule/video_module/video_utils.py`, module `VideoUtils`).
  - It builds the `"speed:id"` list of a video joined by `,`.
  - Its partner is a reader that gets the ids back.
  - Python's `split`/`join`/`partition` are in `Strings`.
- **The thread-local branch setting** (`common/lib/xmodule/xmodule/modulestore/branch_setting.py`, module `BranchSettings`).
  - It is a memoised cell holding `"draft"` or `"published"`.
  - On first use it is filled from the request's hostname mapping, or else from the configured default.
  - The cell is the one field of the class `BranchSetting`.

External inputs are parameters:

- **Django settings:** `AccessSettings` and `Context`.
- **The request:** `Request`, and a hostname in `Context`.
- **`re.match`:** the function `Context.matches`.
- **The clock:** `now` in `Publish`.
- **The acting user:** `user`.
- **The store's branch setting:** `draftBranch` in reads.

`Option` and `Result` are in `Results`.

## Model

| member | source | states |
|---|---|---|
| DraftStore.AsDraft | common/lib/xmodule/xmodule/modulestore/mongo/draft.py:25-29 | the draft location has revision "draft" and names the same usage |
| DraftStore.AsPublished | common/lib/xmodule/xmodule/modulestore/mongo/draft.py:32-36 | the published location has no revision and names the same usage |
| DraftStore.LocationForms | common/lib/xmodule/xmodule/modulestore/mongo/draft.py:25-36 | as_draft and as_published absorb each other and are idempotent; the draft and published forms of a location differ; each is the identity on its own form |
| DraftStore.WrapDraft | common/lib/xmodule/xmodule/modulestore/mongo/draft.py:39-47 | the item moves to its published location; is_draft holds iff it was read at a draft location; content unchanged |
| DraftStore.GetItem | common/lib/xmodule/xmodule/modulestore/mongo/draft.py:82-88 | on the draft branch, for non-direct-only categories: the draft wins; otherwise the key as given is the fallback; the result is at the published location; it fails (ItemNotFound) iff neither exists. Otherwise: exactly the key as given, no draft flag |
| DraftStore.CreateXModule | common/lib/xmodule/xmodule/modulestore/mongo/draft.py:100-104 | a new block sits at the draft location unless its category is direct-only; content as given; not flagged |
| DraftStore.DraftModuleStore.BaseGetItems | common/lib/xmodule/xmodule/modulestore/mongo/draft.py:130-137 | the underlying query returns exactly the selected keys (course, revision, qualifiers), each once |
| DraftStore.DraftItemsAreEntries | common/lib/xmodule/xmodule/modulestore/mongo/draft.py:128-133 | the wrapped draft items are exactly the selected drafts, at distinct published locations |
| DraftStore.DraftLocationsShadow | common/lib/xmodule/xmodule/modulestore/mongo/draft.py:134-140 | a published key is filtered out iff its draft is selected on the draft branch |
| DraftStore.KeepUnshadowed | common/lib/xmodule/xmodule/modulestore/mongo/draft.py:135-140 | the filtering comprehension keeps exactly the keys outside the shadow set, each loaded once |
| DraftStore.DraftModuleStore.GetItems | common/lib/xmodule/xmodule/modulestore/mongo/draft.py:106-141 | every result is a selected draft (flagged, at its published location) or an unshadowed selected published document; drafts come first; no location repeats; every selected draft (draft branch) and every unshadowed published document is present |
| DraftStore.ComputePublishState | common/lib/xmodule/xmodule/modulestore/mongo/draft.py:291-301 | private iff a draft with no published version; draft iff a draft with a published version; public iff not a draft |
| DraftStore.AfterConvertToDraft | common/lib/xmodule/xmodule/modulestore/mongo/draft.py:151-165 | errors, in the source's order: InvalidVersion for direct-only, ItemNotFound without a published document, DuplicateItem when the draft exists; it succeeds in every other case. On success the draft slot holds a copy of the published document and nothing else changes |
| DraftStore.DraftModuleStore.ConvertToDraft | common/lib/xmodule/xmodule/modulestore/mongo/draft.py:143-165 | the new collection and error are those of AfterConvertToDraft; returns the copy flagged as draft at the published location |
| DraftStore.AfterUpdateItem | common/lib/xmodule/xmodule/modulestore/mongo/draft.py:175-189 | direct-only blocks are written at their own location; others are written to the draft slot only; fails with ItemNotFound iff neither a draft nor a published document exists and that is not allowed; nothing else changes |
| DraftStore.DraftModuleStore.UpdateItem | common/lib/xmodule/xmodule/modulestore/mongo/draft.py:167-189 | the new collection and error are those of AfterUpdateItem; the block comes back at its published location |
| DraftStore.AfterDeleteItem | common/lib/xmodule/xmodule/modulestore/mongo/draft.py:199-206 | deletes only: the published key of a direct-only location; otherwise the draft key, plus the published key when all versions are asked for |
| DraftStore.DraftModuleStore.DeleteItem | common/lib/xmodule/xmodule/modulestore/mongo/draft.py:191-206 | the new collection is AfterDeleteItem of the old one |
| DraftStore.GetParentLocations | common/lib/xmodule/xmodule/modulestore/mongo/draft.py:234 | the parent query: every stored location, of either revision, whose document lists the child |
| DraftStore.ParentsOfSubCollection | common/lib/xmodule/xmodule/modulestore/mongo/draft.py:234-235 | deleting other entries keeps a sole parent the sole parent, as long as it is itself kept |
| DraftStore.PruneOrphans | common/lib/xmodule/xmodule/modulestore/mongo/draft.py:227-236 | the child-pruning loop, in order, only removes entries (the meaning of what it removes is in the next two rows) |
| DraftStore.PruneDeletesOnlyDroppedChildren | common/lib/xmodule/xmodule/modulestore/mongo/draft.py:232-236 | every removed entry is a version of a child the draft no longer lists |
| DraftStore.PruneKeepsMovedChildren | common/lib/xmodule/xmodule/modulestore/mongo/draft.py:229-236 | the other side of the only-parent test: a child still listed by a surviving parent other than the published location is a moved child, and every version of it is kept |
| DraftStore.PruneRemovesOrphans | common/lib/xmodule/xmodule/modulestore/mongo/draft.py:232-236 | every dropped child whose only parent was the published location loses all its versions |
| DraftStore.AfterPublish | common/lib/xmodule/xmodule/modulestore/mongo/draft.py:208-238 | direct-only: no change; otherwise fails (ItemNotFound) iff there is neither a draft nor a published document; what a success writes is in PublishMovesDraft and PublishDeletesOrphans |
| DraftStore.PublishMovesDraft | common/lib/xmodule/xmodule/modulestore/mongo/draft.py:223-238 | after publishing, the published slot holds the draft's content stamped with date and user, and the draft slot is empty; every other entry is unchanged or is a removed version of a dropped child; which dropped children stay is in PublishKeepsMovedChildren and which go in PublishDeletesOrphans |
| DraftStore.PublishKeepsMovedChildren | common/lib/xmodule/xmodule/modulestore/mongo/draft.py:208-238 | after publishing, a child stored without a revision that another surviving parent still lists keeps every version it had, unchanged |
| DraftStore.PublishDeletesOrphans | common/lib/xmodule/xmodule/modulestore/mongo/draft.py:227-238 | after publishing, no version is left of a dropped child whose only parent was the location |
| DraftStore.DraftModuleStore.Publish | common/lib/xmodule/xmodule/modulestore/mongo/draft.py:208-238 | the loop over the old children leaves the collection and error of AfterPublish; errors change nothing |
| DraftStore.AfterUnpublish | common/lib/xmodule/xmodule/modulestore/mongo/draft.py:246-247 | fails exactly when, and with the error with which, convert_to_draft fails, so it succeeds iff the category can have drafts, the published document exists and there is no draft yet |
| DraftStore.UnpublishMovesPublished | common/lib/xmodule/xmodule/modulestore/mongo/draft.py:240-247 | unpublishing a published item that can have drafts and has no draft yet succeeds; afterwards the draft slot holds the former published content, the published key is gone, and nothing else changes |
| DraftStore.DraftModuleStore.Unpublish | common/lib/xmodule/xmodule/modulestore/mongo/draft.py:240-247 | the new collection and error are those of AfterUnpublish |
| DraftStore.ConvertedReadsAsDraft | common/lib/xmodule/xmodule/modulestore/mongo/draft.py:282-301 | convert_to_draft of a published item that can have drafts and has no draft yet succeeds; afterwards the draft branch reads the copy as a draft whose state is "draft"; the published branch reads the published document |
| DraftStore.PublishedReadsAsPublic | cms/djangoapps/contentstore/views/tests/test_item.py:513-522 | after publish, the published branch finds the item; the draft branch reads the stamped content as public |
| DraftStore.UnpublishedReadsAsPrivate | cms/djangoapps/contentstore/views/tests/test_item.py:524-538 | unpublish of a published item that can have drafts and has no draft yet succeeds; afterwards the published branch raises ItemNotFound; the draft branch reads a private draft of the former content |
| DraftStore.UpdateLeavesPublishedAlone | cms/djangoapps/contentstore/views/tests/test_item.py:540-561 | editing a published item changes what the draft branch reads and leaves what the published branch reads unchanged |
| DraftStore.ConvertKeepsNoDirectOnlyDrafts | common/lib/xmodule/xmodule/modulestore/mongo/draft.py:21-22 | convert_to_draft never creates a draft of a direct-only category |
| DraftStore.UpdateKeepsNoDirectOnlyDrafts | common/lib/xmodule/xmodule/modulestore/mongo/draft.py:21-22 | update_item of a block not itself addressed at a draft location never creates a draft of a direct-only category |
| DraftStore.PublishKeepsNoDirectOnlyDrafts | common/lib/xmodule/xmodule/modulestore/mongo/draft.py:21-22 | publish never creates a draft of a direct-only category |
| DraftStore.UnpublishKeepsNoDirectOnlyDrafts | common/lib/xmodule/xmodule/modulestore/mongo/draft.py:21-22 | unpublish never creates a draft of a direct-only category |
| RestrictAccess.GetClientIp | common/djangoapps/restrict_access/middleware.py:100-112 | fails (KeyError) iff REMOTE_ADDR is missing, even behind a proxy; with X-Forwarded-For, the text before its first comma; otherwise REMOTE_ADDR |
| RestrictAccess.DenyRequest | common/djangoapps/restrict_access/middleware.py:119-123 | a redirect to the URL iff a non-empty redirect URL is set, otherwise 403 "Access Denied" |
| RestrictAccess.ParseNetworks | common/djangoapps/restrict_access/middleware.py:69-71 | the list parses iff every entry does, and then entry by entry |
| RestrictAccess.ScanNetworks | common/djangoapps/restrict_access/middleware.py:78-89 | the flag loop ends true iff some allowed network contains the address and, when deny is set, no denied network does |
| RestrictAccess.ProcessRequest | common/djangoapps/restrict_access/middleware.py:53-92 | the middleware's answer equals the decision Decide |
| RestrictAccess.AuthenticatedProceeds | common/djangoapps/restrict_access/middleware.py:55-57 | authenticated users always go on |
| RestrictAccess.DisabledProceeds | common/djangoapps/restrict_access/middleware.py:59-62 | without an allow list every request goes on, whatever the deny list says |
| RestrictAccess.Decide | common/djangoapps/restrict_access/middleware.py:53-92 | the decision as one expression: any response is the deny_request response; a KeyError happens iff the check is on, the user is anonymous and REMOTE_ADDR is missing; its allow/deny meaning is in AllowedIff and ParseFailureDenies |
| RestrictAccess.ParseFailureDenies | common/djangoapps/restrict_access/middleware.py:67-75 | an unparseable client address, allow entry or deny entry denies the request |
| RestrictAccess.AllowedIff | common/djangoapps/restrict_access/middleware.py:77-92 | when everything parses, the request goes on iff some allowed entry contains the address and no denied entry does (deny wins); otherwise it is denied |
| IPv4.ParseNetwork | common/djangoapps/restrict_access/middleware.py:69 | a network written without "/" is a /32 |
| IPv4.ParseHostNetwork | common/djangoapps/restrict_access/middleware.py:69 | an entry without "/" parses iff it is an address, and then it is that single address |
| IPv4.ParseCidrNetwork | common/djangoapps/restrict_access/middleware.py:69 | "address/n" with 0 <= n <= 32 parses to that address and prefix |
| IPv4.CidrNetworkShape | common/djangoapps/restrict_access/middleware.py:69 | text with "/" parses exactly when the part before the first "/" is an address and the rest is one prefix length from 0 to 32, to that network; an empty, non-digit or over-32 prefix, or a second "/", is rejected |
| IPv4.ParseAddress | common/djangoapps/restrict_access/middleware.py:68 | the dotted-quad reader: four octets of decimal digits, no leading zero, at most 255; its two round trips are ParseFormatAddress and PrintParsedAddress |
| IPv4.PrintParsedAddress | common/djangoapps/restrict_access/middleware.py:68 | the converse round trip: a text that parses is exactly the dotted-quad text of its address, so only canonical dotted quads are accepted |
| IPv4.ParseDotted | common/djangoapps/restrict_access/middleware.py:68 | four valid octets joined by "." parse to the address of those octets |
| IPv4.ParseFormatAddress | common/djangoapps/restrict_access/middleware.py:68 | round trip: the dotted-quad text of any address parses back to it |
| IPv4.Contains | common/djangoapps/restrict_access/middleware.py:82 | `network.Contains(address)`: between the network address (host bits cleared) and the broadcast address (host bits set); its meaning is ContainsIffSamePrefix |
| IPv4.ContainsIffSamePrefix | common/djangoapps/restrict_access/middleware.py:82 | a network contains an address iff they agree on the first prefix-length bits |
| IPv4.Prefix32IsExact | common/djangoapps/restrict_access/test.py:114-120 | a /32 network contains exactly its own address |
| IPv4.Prefix24IsLastOctet | common/djangoapps/restrict_access/test.py:122-128 | a /24 network contains exactly the addresses that differ from its own only in the last octet |
| IPv4.Prefix0HoldsAll | common/djangoapps/restrict_access/middleware.py:82 | a /0 network contains every address |
| RestrictAccessCases.AuthenticatedCase | common/djangoapps/restrict_access/test.py:28-40 | an authenticated request goes on despite the deny list |
| RestrictAccessCases.DisabledCase | common/djangoapps/restrict_access/test.py:42-47 | with no settings, the request goes on |
| RestrictAccessCases.InvalidAllowCase | common/djangoapps/restrict_access/test.py:49-55 | an empty allow entry is invalid, so the request is denied |
| RestrictAccessCases.AllowOwnAddressCase | common/djangoapps/restrict_access/test.py:57-63 | the client's own address in the allow list lets it through |
| RestrictAccessCases.ProxyCase | common/djangoapps/restrict_access/test.py:65-78 | behind a proxy, the forwarded address decides |
| RestrictAccessCases.UnknownAddressCase | common/djangoapps/restrict_access/test.py:80-86 | another address in the allow list denies the request |
| RestrictAccessCases.DisabledWithDenyCase | common/djangoapps/restrict_access/test.py:88-94 | a deny list alone does not enable the check |
| RestrictAccessCases.AllowAndDenyCase | common/djangoapps/restrict_access/test.py:96-103 | an address both allowed and denied is denied |
| RestrictAccessCases.InvalidDenyCase | common/djangoapps/restrict_access/test.py:105-112 | an invalid deny entry denies the request |
| RestrictAccessCases.Network32Case | common/djangoapps/restrict_access/test.py:114-120 | 10.0.2.2 is outside 10.0.2.0/32 |
| RestrictAccessCases.Network24Case | common/djangoapps/restrict_access/test.py:122-128 | 10.0.2.2 is inside 10.0.2.0/24 |
| RestrictAccessCases.Network24WithDenyCase | common/djangoapps/restrict_access/test.py:130-137 | inside the allowed /24 but in the denied /32, the request is denied with a 403 |
| RestrictAccessCases.Network24WithDenyAndRedirectCase | common/djangoapps/restrict_access/test.py:139-149 | the same denial is a redirect to the configured URL |
| VideoUtils.CreateYoutubeString | common/lib/xmodule/xmodule/video_module/video_utils.py:8-27 | the string is empty iff every id is missing or empty; ParseCreate reads the ids back from it |
| VideoUtils.EntriesInSpeedOrder | common/lib/xmodule/xmodule/video_module/video_utils.py:15-27 | the entries are, in the order 0.75, 1.00, 1.25, 1.50, "speed:id" for each speed whose id is truthy |
| VideoUtils.EntriesCount | common/lib/xmodule/xmodule/video_module/video_utils.py:22-27 | one entry per truthy id |
| VideoUtils.SplitCreate | common/lib/xmodule/xmodule/video_module/video_utils.py:22-27 | splitting the string at commas gives back exactly the entries, none of them empty |
| VideoUtils.EntryCountOfString | common/lib/xmodule/xmodule/video_module/video_utils.py:22-27 | the string has as many comma-separated fields as there are truthy ids |
| VideoUtils.ParseCreate | common/lib/xmodule/xmodule/video_module/video_utils.py:8-27 | round trip: reading the string back gives every truthy id at its own speed, and nothing for the others |
| BranchSettings.RequestBranch | common/lib/xmodule/xmodule/modulestore/branch_setting.py:57-69 | without a hostname, or when no pattern matches, the default; otherwise the value of the first matching mapping |
| BranchSettings.GetBranchFromRequest | common/lib/xmodule/xmodule/modulestore/branch_setting.py:52-69 | the loop over the mappings returns RequestBranch |
| BranchSettings.ComputeBranch | common/lib/xmodule/xmodule/modulestore/branch_setting.py:22-27 | a value that passes the assertion is one of TYPES, and a failed assertion carries None or a value outside TYPES |
| BranchSettings.MappingTakesPrecedence | common/lib/xmodule/xmodule/modulestore/branch_setting.py:22-26 | a matching hostname mapping with a value decides the branch, whatever the configured default: that value when it is in TYPES, the failed assertion on it otherwise |
| BranchSettings.DefaultWhenUnmapped | common/lib/xmodule/xmodule/modulestore/branch_setting.py:22-27 | when the request yields nothing (no hostname, no match, or a first match mapped to None), the configured default decides, and the assertion passes iff the default is in TYPES |
| BranchSettings.BranchSetting.Value | common/lib/xmodule/xmodule/modulestore/branch_setting.py:18-29 | a set cell is returned as it is |
| BranchSettings.BranchSetting.constructor | common/lib/xmodule/xmodule/modulestore/branch_setting.py:15 | a thread starts with no branch |
| BranchSettings.BranchSetting.GetValue | common/lib/xmodule/xmodule/modulestore/branch_setting.py:18-29 | returns Value of the old state; a set cell is kept; an empty cell is filled with the computed value when the assertion passes |
| BranchSettings.BranchSetting.SetDraft | common/lib/xmodule/xmodule/modulestore/branch_setting.py:32-33 | the cell holds "draft" |
| BranchSettings.BranchSetting.SetPublished | common/lib/xmodule/xmodule/modulestore/branch_setting.py:36-37 | the cell holds "published" |
| BranchSettings.BranchSetting.Reset | common/lib/xmodule/xmodule/modulestore/branch_setting.py:40-41 | the cell is empty |
| BranchSettings.BranchSetting.IsDraft | common/lib/xmodule/xmodule/modulestore/branch_setting.py:44-45 | true iff get_value yields "draft"; an assertion failure passes through |
| BranchSettings.BranchSetting.IsPublished | common/lib/xmodule/xmodule/modulestore/branch_setting.py:48-49 | true iff get_value yields "published"; an assertion failure passes through |
| BranchSettings.BranchSetting.GetValueTwice | common/lib/xmodule/xmodule/modulestore/branch_setting.py:18-29 | once get_value has succeeded, a later call in any context returns the same value |
| BranchSettings.BranchSetting.SetDraftThenQuery | common/lib/xmodule/xmodule/modulestore/branch_setting.py:32-49 | after set_draft, is_draft is true and is_published false whatever the request |
| BranchSettings.BranchSetting.SetPublishedThenQuery | common/lib/xmodule/xmodule/modulestore/branch_setting.py:36-49 | after set_published, is_published is true and is_draft false |
| BranchSettings.BranchSetting.ResetThenGet | common/lib/xmodule/xmodule/modulestore/branch_setting.py:18-41 | after reset, get_value recomputes from the request and settings |
| BranchSettings.BranchSetting.DraftXorPublished | common/lib/xmodule/xmodule/modulestore/branch_setting.py:44-49 | when the value passes the assertion, exactly one of is_draft and is_published holds |

## Left out

- The underlying `MongoModuleStore` is not part of this model. Its operations are plain map operations:
  - `get_item`: a lookup at the exact key;
  - `update_item`: an upsert at the block's location;
  - `delete_item`: removing one key;
  - `get_items`: the keys matching course, revision and an abstract qualifier predicate;
  - `get_parent_locations`: every stored key, of either revision, whose document lists the child.
- Deleting a `static_tab` (a direct-only category, so its deletion goes straight to the base store) also removes the tab from the course's `tabs` and saves the course document in the base store. The model leaves this out: `AfterDeleteItem` removes only the tab's own key.
- The metadata-inheritance cache (`refresh_cached_metadata_inheritance_tree`) and `_query_children_for_cache_children` are left out. They change no stored document.
- The `depth` prefetch argument of `get_item` is left out. It only warms a cache.
- XBlocks are values (`Item`), so aliasing of a block object is not modelled. `wrap_draft` and `update_item` return the changed block instead of mutating the caller's.
- Only the stored part of a block is modelled (`Document`: children, other fields, publication stamp).
- `draft.has_children` in `publish`: the model runs the pruning loop over the old published children whatever the category. A category without children has an empty child list.
- The `assert BranchSetting.is_draft()` guards at the top of the draft store's mutators are not modelled. Those operations are modelled as they behave on the draft branch. Reads take the branch as the parameter `draftBranch`.
- `datetime.now(UTC)` is the parameter `now`, and the user id is `user`.
- DraftStore.UpdateKeepsNoDirectOnlyDrafts: proved only for a block not addressed at a draft location. `update_item` writes a direct-only block at the location it carries (draft.py:175-176), so a chapter addressed at its draft location is stored as a direct-only draft.
- DraftStore.PruneKeepsMovedChildren and DraftStore.PublishKeepsMovedChildren: proved for children stored without a revision, and for a parent that itself survives the publish. A child listed with a revision shares its draft slot with the revision-free child of the same usage. A parent can be deleted as an orphan in the same loop.
- DraftStore.PruneRemovesOrphans: proved only for a location stored without a revision and none of whose children stands for it. Without these hypotheses, pruning a child could delete the location itself and change later parent checks.
- DraftStore.PublishDeletesOrphans: proved under the same two hypotheses.
- IPv4 only: `ipaddr`'s IPv6 parsing, netmask and hostmask forms after "/", and its other address types are left out.
  - Octets follow IPv4 dotted-decimal: non-empty decimal digits, no leading zero, at most 255.
  - The prefix after "/" must be decimal digits and at most 32.
- The request's `user` attribute is the flag `Request.authenticated`. A missing `user` is `false`.
- Django settings are values. An absent setting and an empty one are both the empty list or string, since the source treats both as false.
- Responses are the datatype `Response`. A missing `REMOTE_ADDR` raises `KeyError`, which the middleware does not catch; the model returns the outcome `MissingRemoteAddr` for it.
- `get_video_from_cdn` is left out. It is an HTTP request and a JSON decode, and not part of the string logic.
- The YouTube reader `ParseYoutubeString` is not in the source. It exists only to state that the string determines the ids.
- VideoUtils.ParseCreate: proved only for ids without commas. An id containing "," makes the string ambiguous.
- VideoUtils.SplitCreate and VideoUtils.EntryCountOfString: proved only for ids without commas and at least one non-empty id. Python's `''.split(',')` is `['']`, one field for no entries.
- The branch cell is one object per thread. Threading and `threading.local` are left out.
- `re.match` is the abstract function `Context.matches`.
- The hostname mapping dictionary is a sequence in its iteration order.
- `settings.MODULESTORE_BRANCH` (`_get_branch_from_setting`) is the field `Context.defaultBranch`.
- `get_current_request_hostname` is the field `Context.hostname`.
- The module-level helper `Strings` models Python `str.split`, `str.join` and `str.partition` on a single-character separator only.
