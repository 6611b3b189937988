# bemoresmart: search, filters, bookmarks and ids, modelled in Dafny

bemoresmart is a static study-resources site. Its `script.js` does four things that this project models:

- It decides what is shown. A search box and two selects (course and resource type) decide which resource items, topics and courses are visible. Each run recomputes every display flag from the inputs.
- It keeps two bookmark lists in local storage. One holds topic ids and one holds resource ids. A toggle appends an absent id or splices out its first occurrence. The panel's Remove button filters every occurrence out.
- It renders the bookmark panel. The panel shows an empty message, or a "Saved Topics" list and a "Saved Resources" list. Each list holds the stored ids, in stored order, whose element is still on the page.
- It assigns ids at start-up. Topics without an `id` get `topic-<n>`. A linked item that has no save button yet gets one, and if it also has no `data-resource-id` it gets `resource-<n>`. Items without a link, and items that already carry a save button, are left as they are. Here `n` is the element's 1-based position on the whole page.

The page is a tree of values: `Dom.Course`, `Dom.Topic` and `Dom.Resource`. Each node has a `shown` flag that stands for its `style.display`. The live document is `Dom.Page`, a class with one field `courses`, and the loops that rewrite it are methods with `modifies page`. Each such method is proved equal to a specification function on the old tree (`Filter.Filtered`, `Ids.WithTopicIds`, `Ids.WithSaveButtons`). The lemmas state what the script promises about those functions.

Local storage is a map from key to `Bookmarks.Stored`, held by the class `Bookmarks.BookmarkStore`. Strings are `seq<char>`.

Files (one module each):

- `wrappers.dfy`: `Option`.
- `text.dfy`: `trim`, `toLowerCase`, `includes`, `join` and decimal printing.
- `dom.dfy`: the page tree, `querySelector` lookups and page-wide positions.
- `filter.dfy`: `applySearchAndFilters` and `populateCourseFilter`.
- `bookmarks.dfy`: the bookmark store.
- `panel.dfy`: `renderBookmarks`.
- `ids.dfy`: `ensureTopicIds` and `addResourceBookmarkButtons`.

## Model

| member | source | states |
|---|---|---|
| Text.TrimSpec | script.js:158 | `trim()` returns the piece of its input left once the white space at both ends is dropped: only white space lies before and after it, it has no white space at either end, and an all-white-space input becomes "" |
| Text.IncludesSpec | script.js:171 | `includes(q)` holds exactly when `q` occurs at some index of the text |
| Text.JoinIncludesPart | script.js:170 | every part is included in the text joined from the parts |
| Text.DecimalInjective | script.js:398 | different positions print as different decimal strings |
| Dom.FindTopic | script.js:321-322 | the topic lookup by `data-topic-id` finds a topic exactly when the id is non-empty and some topic carries it, and what it finds carries that id |
| Dom.FindResource | script.js:365-366 | the item lookup by `data-resource-id` finds an item exactly when the id is non-empty and some item carries it |
| Dom.FindTopicFirst | script.js:321 | `querySelector` returns the first topic in document order that carries the id |
| Dom.FindResourceFirst | script.js:365 | `querySelector` returns the first item in document order that carries the id |
| Dom.TopicPositionsDistinct | script.js:397 | two different topics have different page-wide indices in the `section.topic` walk |
| Dom.ItemPositionsDistinct | script.js:424 | two different items have different page-wide indices in the `section.topic li` walk |
| Filter.Selection | script.js:159-160 | an empty or missing select value falls back to "all", any other value is kept, and the result is never empty |
| Filter.FilterItems | script.js:174-182 | each item is shown exactly when it passes the type select, and the flag reports whether any item did |
| Filter.FilterOneTopic | script.js:169-185 | one topic's items and its own flag are set exactly as the visibility rules say |
| Filter.FilterTopics | script.js:163-190 | the loop over a course's topics yields that course with every flag set by the rules, the course shown exactly when one of its topics is |
| Filter.ApplySearchAndFilters | script.js:157-192 | after a run the page is the specification `Filtered` of the old page and the normalised inputs |
| Filter.FilteredFlagsConsistent | script.js:175-190 | after a run a course is shown iff one of its topics is, a shown topic has a shown item, and an item is shown iff it passes the type select |
| Filter.FilteredKeepsContent | script.js:162-191 | a run changes display flags only |
| Filter.FilteredIgnoresFlags | script.js:162-191 | the result does not depend on the flags the page had before |
| Filter.FilteredIdempotent | script.js:157-192 | running twice with the same inputs gives the same flags as running once |
| Filter.AllOpenShowsTopicsWithItems | script.js:171-184 | with an empty query and both selects on "all", a topic is shown exactly when it has an item |
| Filter.EmptyTopicHidden | script.js:174-185 | a topic without items is hidden whatever the inputs |
| Filter.UnmatchedQueryHidesAll | script.js:171-190 | a query that matches no topic hides every course |
| Filter.ShownTopicPassesSelects | script.js:164-184 | a shown topic lies in the selected course and has an item whose trimmed badge is the selected type |
| Filter.LinkTextInResourcesText | script.js:170 | the lower-cased text of every linked item is one of the parts of the searched text |
| Filter.QueryInLinkMatches | script.js:170-171 | a query found in one link's lower-cased text matches the topic |
| Filter.BlankQueryMatchesAll | script.js:158 | a query box holding only white space matches every topic |
| Filter.CourseNames | script.js:147-149 | the names listed are exactly the non-empty course names, in page order |
| Filter.CourseNamesOne | script.js:147-153 | one course adds one option carrying its name when the name is non-empty, and none otherwise |
| Filter.CourseNamesAppend | script.js:147-153 | the options for two runs of courses are those of the first followed by those of the second: one option per named course, in page order |
| Filter.PopulateCourseFilter | script.js:141-155 | the select gets "All Courses" first and then one option per named course, value and text both the name |
| Bookmarks.Other | script.js:205-206 | the two namespaces use different storage keys |
| Bookmarks.ReadList | script.js:208-215 | a missing key, stored "" and unparsable text all read as the empty list, and a stored array reads as itself |
| Bookmarks.WriteThenRead | script.js:217-219 | a saved list reads back as written, and the other key's list is unchanged |
| Bookmarks.IndexOfSpec | script.js:247 | `indexOf` is -1 exactly for an absent id, and otherwise it is the index of the first occurrence |
| Bookmarks.ToggledSpec | script.js:247-250 | a toggle pushes an absent id, and otherwise splices out the first occurrence |
| Bookmarks.Without | script.js:342 | the filtered list holds exactly the ids other than the removed one |
| Bookmarks.WithoutKeepsCounts | script.js:342 | filtering keeps every other id as many times as before, and drops all copies of the removed id |
| Bookmarks.WithoutNotIn | script.js:342 | filtering out an absent id leaves the list as it was |
| Bookmarks.WithoutKeepsNoDup | script.js:342-343 | Remove keeps a duplicate-free list duplicate-free |
| Bookmarks.SpliceKeepsNoDup | script.js:250 | splicing one index out keeps a list duplicate-free and removes exactly that element's id |
| Bookmarks.ToggledKeepsOther | script.js:249-250 | a toggle never changes whether another id is saved |
| Bookmarks.ToggledFlipsId | script.js:247-250 | on a duplicate-free list a toggle flips whether the id is saved and keeps the list duplicate-free |
| Bookmarks.ToggledFlipsMembership | script.js:247-250 | toggle flips the id, keeps every other id, and keeps the list duplicate-free |
| Bookmarks.ToggledKeepsOthersInOrder | script.js:247-250 | apart from the toggled id, the ids and their relative order are unchanged |
| Bookmarks.ToggleTwiceRestoresAbsent | script.js:247-250 | toggling an absent id twice gives back exactly the original list |
| Bookmarks.ToggleTwiceRestoresMembership | script.js:247-250 | toggling twice, on a duplicate-free list, gives back the same set of ids |
| Bookmarks.ToggledTimesFromAbsent | script.js:247-250 | from a list without the id, an even number of toggles gives the list back and an odd number appends the id once |
| Bookmarks.ToggledTimesFromPresent | script.js:247-250 | from a duplicate-free list holding the id, an odd number of toggles removes it and an even number brings it back |
| Bookmarks.ToggledTimesParity | script.js:247-250 | an even number of toggles leaves the id saved or not as it was, and an odd number flips it |
| Bookmarks.RemoveSingle | script.js:342 | filtering out an id that occurs once is the splice at its index |
| Bookmarks.NoDupTail | script.js:247 | in a duplicate-free list no later id repeats the one at a given index |
| Bookmarks.RemoveAgreesWithToggle | script.js:341-343 | on a duplicate-free list holding the id, the panel's Remove writes the same list as a toggle would |
| Bookmarks.BookmarkStore.Toggle | script.js:242-252 | an empty id changes nothing. Otherwise the new stored list is the toggled list: the id's saved state flips, other ids keep theirs, no-duplicates is kept, and the other list is untouched |
| Bookmarks.BookmarkStore.Remove | script.js:341-343 | the stored list is filtered: the id is no longer saved, other ids keep theirs, no-duplicates is kept, and the other list is untouched |
| BookmarkPanel.ListedTopics | script.js:320-351 | the topic list holds exactly the stored ids whose topic is on the page, each line with that topic's title and `#id` link |
| BookmarkPanel.ListedResources | script.js:364-390 | the resource list holds exactly the stored ids whose item is on the page, each line with that item's link text and target |
| BookmarkPanel.ListedTopicsOne | script.js:320-351 | a single stored topic id gives one line, with its topic's title and link, when the topic is on the page, and none otherwise |
| BookmarkPanel.ListedTopicsAppend | script.js:320-351 | the lines for two runs of stored ids are those of the first followed by those of the second: stored order, one line per stored occurrence |
| BookmarkPanel.ListedResourcesOne | script.js:364-390 | a single stored item id gives one line, with its item's link, when the item is on the page, and none otherwise |
| BookmarkPanel.ListedResourcesAppend | script.js:364-390 | the lines for two runs of stored ids are those of the first followed by those of the second: stored order, one line per stored occurrence |
| BookmarkPanel.ListTopics | script.js:320-351 | the `forEach` over saved topic ids builds exactly `ListedTopics` |
| BookmarkPanel.ListResources | script.js:364-390 | the `forEach` over saved resource ids builds exactly `ListedResources` |
| BookmarkPanel.RenderBookmarks | script.js:292-394 | the panel is the empty message iff both lists are empty. Otherwise each section is present iff its list is non-empty, and it holds that list's lines |
| BookmarkPanel.AllPresentAllListed | script.js:320-322 | when every saved topic is on the page, the panel lists them all, in stored order |
| BookmarkPanel.BookmarkThenRemove | script.js:341-344 | a topic bookmarked by a toggle is listed; after Remove it is neither saved nor listed |
| Ids.PrefixedDecimalInjective | script.js:398 | generated ids with the same prefix are equal only for equal positions |
| Ids.AssignTopicId | script.js:398-399 | a topic ends with a non-empty `id` and `data-topic-id`. An existing `id` or `data-topic-id` is kept, a missing `id` becomes `topic-<pos>`, and a missing `data-topic-id` copies the `id`. Nothing else changes |
| Ids.AssignOneTopicId | script.js:397-400 | the callback for one topic performs exactly the one-step update at its 1-based index |
| Ids.AssignCourseTopicIds | script.js:397-400 | the walk over one course's topics applies the update at each topic's page-wide index |
| Ids.EnsureTopicIds | script.js:396-401 | after the walk the page is the specification `WithTopicIds` of the old page |
| Ids.TopicIdAt | script.js:397-399 | each topic after the walk is its one-step update at its page-wide position |
| Ids.TopicIdsKeptAndCompleted | script.js:398-399 | after `ensureTopicIds` every topic has both ids, existing ids are kept, and a missing `id` is `topic-<position>` |
| Ids.CourseTopicIdsIdempotent | script.js:396-401 | a second walk over one course changes nothing, whatever index it starts from |
| Ids.TopicIdsIdempotent | script.js:396-401 | running `ensureTopicIds` again changes nothing |
| Ids.GeneratedTopicIdsDistinct | script.js:397-398 | two topics that both received a generated `id` received different ones |
| Ids.TopicIdCollision | script.js:397-399 | a topic whose `id` is `topic-2` followed by a topic without ids: both end with `data-topic-id` `topic-2`, and the lookup of that id finds the first |
| Ids.TopicIdsUniqueWhenPresetIdsFresh | script.js:397-399 | when the ids already on the page are not of the form `topic-<n>` and differ from each other, any two topics end with different `data-topic-id`s |
| Ids.MarkOneItem | script.js:425-443 | the callback for one item performs exactly the one-step update at its 1-based index |
| Ids.MarkTopicItems | script.js:424-445 | the walk over one topic's items applies the update at each item's page-wide index |
| Ids.MarkCourseAt | script.js:424 | topic `j` of a marked course is marked from the course start plus the items before it |
| Ids.MarkCourseItems | script.js:424-445 | the walk over one course's items gives the marked course and moves the index past all its items |
| Ids.AddResourceBookmarkButtons | script.js:423-446 | after the walk the page is the specification `WithSaveButtons` of the old page |
| Ids.SaveButtonAt | script.js:424-434 | each item after the walk is its one-step update at its page-wide position |
| Ids.SaveButtonsKeepIds | script.js:425-434 | every linked item has a save button, an existing `data-resource-id` is kept, and a new one is `resource-<position>` |
| Ids.MarkItemsIdempotent | script.js:428-429 | a second walk over one topic's items changes nothing |
| Ids.MarkCourseIdempotent | script.js:428-429 | a second walk over one course's items changes nothing |
| Ids.SaveButtonsIdempotent | script.js:428-429 | running `addResourceBookmarkButtons` again changes nothing |
| Ids.GeneratedResourceIdsDistinct | script.js:424-434 | two items that both received a generated `data-resource-id` received different ones |
| Ids.ResourceIdCollision | script.js:424-434 | an item whose `data-resource-id` is `resource-2` followed by a linked item without one: both end with `resource-2`, and the lookup of that id finds the first |
| Ids.ResourceIdsUniqueWhenPresetIdsFresh | script.js:424-434 | when the item ids already on the page are not of the form `resource-<n>` and differ from each other, any two items the walk equips end with different `data-resource-id`s |

## Left out

- Collapsible sections, smooth scrolling, back-to-top and the highlight timeout (script.js:4-23, 43-55, 70-78, 121-125, 331-336): these only wire up DOM events.
- The random featured resource, random article and daily recommendation: they depend on randomness and the clock.
- The theme toggle: it only sets a class and one storage key, which no modelled code reads.
- The earlier query-only search handler (script.js:28-39): it is an event-ordering quirk, and only `applySearchAndFilters` is modelled.
- `addBookmarkButtons`, button text and `aria-pressed`: the button's pressed state is `BookmarkStore.IsBookmarked`, and the DOM work is not modelled.
- Creating panel and button DOM nodes and their click handlers: the model returns the panel's content as a value.
- `BookmarkStore.Toggle` and `BookmarkStore.Remove` do not re-render the panel or update the button. In the script they call `renderBookmarks`; here that is the separate method `RenderBookmarks`, which reads the storage they write.
- JSON parsing itself: text that parses to something other than an array of strings is not modelled. Stored text is an id list, "" or unparsable.
- Storage write failures (quota) and changes made by other tabs.
- `toLowerCase` is modelled on ASCII letters only; Unicode case mapping is not modelled.
- A missing search box or select is the same as an empty value (`Filter.Selection`, `Filter.NormalizedQuery`). A missing panel container (script.js:293-294) is not modelled.
- Only topics inside `article.course` are on the page. The panel's lookups search the same topics and items as the filters. The searched text takes the links of the topic's items, not anchors elsewhere in the topic.
- Each item's first `a` is its only modelled link (`li.querySelector("a")`). A second anchor inside the same item is not modelled, so it is not part of the text the search joins over all the topic's anchors.
- Dom.FindTopic: a stored id of "" never matches, while the CSS selector would match an element whose attribute is present but empty. Absent and empty attributes are one value here, and neither toggle ever stores "".
- Selector quoting of ids that contain `"` or `\` is not modelled: the lookup compares ids as strings.
- BookmarkPanel.ListedResources: the line's target is the raw `href` attribute, while the script uses the resolved absolute URL `link.href`.
- Display writes are modelled as reassigning the `courses` field of `Page`. Node identity and aliasing between DOM nodes are not modelled.

## Findings

| source | as written | input that shows it | evidently intended | confidence | as-written member | corrected member |
|---|---|---|---|---|---|---|
| script.js:397-399 | a topic without an `id` gets `topic-<idx+1>` without checking whether another topic already uses that id | a course whose first topic has `id="topic-2"` and whose second has no ids: both end with `data-topic-id` `topic-2`, so a bookmark of the second topic is listed under the first topic's title and link | every topic ends with its own `data-topic-id`; this holds whenever the ids already on the page are distinct and not of the form `topic-<n>` | not executed | Ids.TopicIdCollision | Ids.TopicIdsUniqueWhenPresetIdsFresh |
| script.js:432-434 | an item without a `data-resource-id` gets `resource-<idx+1>` without checking whether another item already uses that id | a topic whose first item has `data-resource-id="resource-2"` and whose second linked item has none: both end with `resource-2`, so a bookmark of the second item is listed with the first item's link | every equipped item ends with its own `data-resource-id`; this holds whenever the item ids already on the page are distinct and not of the form `resource-<n>` | not executed | Ids.ResourceIdCollision | Ids.ResourceIdsUniqueWhenPresetIdsFresh |
