/**
  The bookmark panel, rebuilt from storage on every change: an explicit empty
  message when both lists are empty, otherwise a "Saved Topics" section when the
  topic list is non-empty and a "Saved Resources" section when the resource list
  is non-empty, each listing, in stored order, the ids whose element is still on
  the page.
 */
module BookmarkPanel {
  import opened Wrappers
  import opened Dom
  import opened Bookmarks

  /** One panel line: the bookmarked id, the link text and the link target. */
  datatype Entry = Entry(id: string, title: string, href: string)

  /** The panel's content below its heading. */
  datatype Panel =
    | EmptyMessage
    | Listing(topics: Option<seq<Entry>>, resources: Option<seq<Entry>>)

  /** The ids of a run of entries. */
  function EntryIds(es: seq<Entry>): (ids: seq<string>)
    ensures |ids| == |es| && forall k :: 0 <= k < |es| ==> ids[k] == es[k].id
  {
    seq(|es|, k requires 0 <= k < |es| => es[k].id)
  }

  /** A saved topic's line: `data-topic-name`, else the `h3` text, else "Topic"; links to `#id`. */
  function TopicEntry(id: string, t: Topic): Entry {
    var title :=
      if t.topicName != "" then t.topicName
      else if t.heading.Some? && t.heading.value != "" then t.heading.value
      else "Topic";
    Entry(id, title, "#" + t.elementId)
  }

  /** A saved resource's line: the link text, else "Resource"; the link target, else "#". */
  function ResourceEntry(id: string, r: Resource): Entry {
    var title := if r.link.Some? && r.link.value.text != "" then r.link.value.text else "Resource";
    var href := if r.link.Some? && r.link.value.href != "" then r.link.value.href else "#";
    Entry(id, title, href)
  }

  /** The lines of the "Saved Topics" list: one per stored id whose topic is on the page, in stored order. */
  function ListedTopics(ids: seq<string>, ts: seq<Topic>): (es: seq<Entry>)
    ensures |es| <= |ids|
    ensures forall x :: x in EntryIds(es) <==> x in ids && FindTopic(ts, x).Some?
    ensures forall k :: 0 <= k < |es| ==> es[k] == TopicEntry(es[k].id, FindTopic(ts, es[k].id).value)
  {
    if ids == [] then []
    else
      var init := ListedTopics(ids[..|ids| - 1], ts);
      var id := ids[|ids| - 1];
      assert ids == ids[..|ids| - 1] + [id];
      match FindTopic(ts, id)
      case None => init
      case Some(t) =>
        assert EntryIds(init + [TopicEntry(id, t)]) == EntryIds(init) + [id];
        init + [TopicEntry(id, t)]
  }

  /** The lines of the "Saved Resources" list: one per stored id whose item is on the page, in stored order. */
  function ListedResources(ids: seq<string>, rs: seq<Resource>): (es: seq<Entry>)
    ensures |es| <= |ids|
    ensures forall x :: x in EntryIds(es) <==> x in ids && FindResource(rs, x).Some?
    ensures forall k :: 0 <= k < |es| ==> es[k] == ResourceEntry(es[k].id, FindResource(rs, es[k].id).value)
  {
    if ids == [] then []
    else
      var init := ListedResources(ids[..|ids| - 1], rs);
      var id := ids[|ids| - 1];
      assert ids == ids[..|ids| - 1] + [id];
      match FindResource(rs, id)
      case None => init
      case Some(r) =>
        assert EntryIds(init + [ResourceEntry(id, r)]) == EntryIds(init) + [id];
        init + [ResourceEntry(id, r)]
  }

  /** One stored topic id gives one line when its topic is on the page, and none otherwise. */
  lemma ListedTopicsOne(id: string, ts: seq<Topic>)
    ensures ListedTopics([id], ts) == match FindTopic(ts, id)
      case None => []
      case Some(t) => [TopicEntry(id, t)]
  {
    assert [id][..0] == [];
  }

  /** The topic lines of two runs of stored ids are those of the first run followed by those of the second. */
  lemma {:induction false} ListedTopicsAppend(a: seq<string>, b: seq<string>, ts: seq<Topic>)
    ensures ListedTopics(a + b, ts) == ListedTopics(a, ts) + ListedTopics(b, ts)
  {
    if b == [] {
      assert a + b == a;
    } else {
      var init, id := b[..|b| - 1], b[|b| - 1];
      ListedTopicsAppend(a, init, ts);
      assert (a + b)[..|a + b| - 1] == a + init;
      assert (a + b)[|a + b| - 1] == id;
      var front, rest := ListedTopics(a, ts), ListedTopics(init, ts);
      assert ListedTopics(a + init, ts) == front + rest;
      match FindTopic(ts, id)
      case None =>
        assert ListedTopics(a + b, ts) == front + rest;
        assert ListedTopics(b, ts) == rest;
      case Some(x) =>
        assert ListedTopics(a + b, ts) == (front + rest) + [TopicEntry(id, x)];
        assert ListedTopics(b, ts) == rest + [TopicEntry(id, x)];
    }
  }


  /** One stored resource id gives one line when its item is on the page, and none otherwise. */
  lemma ListedResourcesOne(id: string, rs: seq<Resource>)
    ensures ListedResources([id], rs) == match FindResource(rs, id)
      case None => []
      case Some(r) => [ResourceEntry(id, r)]
  {
    assert [id][..0] == [];
  }

  /** The resource lines of two runs of stored ids are those of the first run followed by those of the second. */
  lemma {:induction false} ListedResourcesAppend(a: seq<string>, b: seq<string>, rs: seq<Resource>)
    ensures ListedResources(a + b, rs) == ListedResources(a, rs) + ListedResources(b, rs)
  {
    if b == [] {
      assert a + b == a;
    } else {
      var init, id := b[..|b| - 1], b[|b| - 1];
      ListedResourcesAppend(a, init, rs);
      assert (a + b)[..|a + b| - 1] == a + init;
      assert (a + b)[|a + b| - 1] == id;
      var front, rest := ListedResources(a, rs), ListedResources(init, rs);
      assert ListedResources(a + init, rs) == front + rest;
      match FindResource(rs, id)
      case None =>
        assert ListedResources(a + b, rs) == front + rest;
        assert ListedResources(b, rs) == rest;
      case Some(x) =>
        assert ListedResources(a + b, rs) == (front + rest) + [ResourceEntry(id, x)];
        assert ListedResources(b, rs) == rest + [ResourceEntry(id, x)];
    }
  }


  /** The `forEach` over the saved topic ids, skipping ids whose topic is gone. */
  method ListTopics(ids: seq<string>, ts: seq<Topic>) returns (entries: seq<Entry>)
    ensures entries == ListedTopics(ids, ts)
  {
    entries := [];
    var k := 0;
    while k < |ids|
      invariant 0 <= k <= |ids|
      invariant entries == ListedTopics(ids[..k], ts)
    {
      assert ids[..k + 1][..k] == ids[..k];
      var found := FindTopic(ts, ids[k]);
      if found.Some? {
        entries := entries + [TopicEntry(ids[k], found.value)];
      }
      k := k + 1;
    }
    assert ids[..k] == ids;
  }

  /** The `forEach` over the saved resource ids, skipping ids whose item is gone. */
  method ListResources(ids: seq<string>, rs: seq<Resource>) returns (entries: seq<Entry>)
    ensures entries == ListedResources(ids, rs)
  {
    entries := [];
    var k := 0;
    while k < |ids|
      invariant 0 <= k <= |ids|
      invariant entries == ListedResources(ids[..k], rs)
    {
      assert ids[..k + 1][..k] == ids[..k];
      var found := FindResource(rs, ids[k]);
      if found.Some? {
        entries := entries + [ResourceEntry(ids[k], found.value)];
      }
      k := k + 1;
    }
    assert ids[..k] == ids;
  }

  /** `renderBookmarks`: rebuilds the panel from the two stored lists and the page. */
  method RenderBookmarks(storage: map<string, Stored>, cs: seq<Course>) returns (panel: Panel)
    ensures var topicIds, resourceIds := ReadList(storage, BookmarkKey), ReadList(storage, ResourceKey);
      && (panel == EmptyMessage <==> topicIds == [] && resourceIds == [])
      && (panel.Listing? ==>
            && (panel.topics.Some? <==> topicIds != [])
            && (panel.resources.Some? <==> resourceIds != [])
            && (panel.topics.Some? ==> panel.topics.value == ListedTopics(topicIds, AllTopics(cs)))
            && (panel.resources.Some? ==>
                  panel.resources.value == ListedResources(resourceIds, ResourcesOf(AllTopics(cs)))))
  {
    var topicBookmarks := ReadList(storage, BookmarkKey);
    var resourceBookmarks := ReadList(storage, ResourceKey);
    if |topicBookmarks| == 0 && |resourceBookmarks| == 0 {
      return EmptyMessage;
    }
    var topics: Option<seq<Entry>> := None;
    if |topicBookmarks| > 0 {
      var entries := ListTopics(topicBookmarks, AllTopics(cs));
      topics := Some(entries);
    }
    var resources: Option<seq<Entry>> := None;
    if |resourceBookmarks| > 0 {
      var entries := ListResources(resourceBookmarks, ResourcesOf(AllTopics(cs)));
      resources := Some(entries);
    }
    panel := Listing(topics, resources);
  }

  /** When every saved topic is still on the page, the panel lists all of them, in stored order. */
  lemma {:induction false} AllPresentAllListed(ids: seq<string>, ts: seq<Topic>)
    requires forall k :: 0 <= k < |ids| ==> FindTopic(ts, ids[k]).Some?
    ensures EntryIds(ListedTopics(ids, ts)) == ids
  {
    if ids != [] {
      var init := ids[..|ids| - 1];
      AllPresentAllListed(init, ts);
      var id := ids[|ids| - 1];
      var t := FindTopic(ts, id).value;
      assert EntryIds(ListedTopics(init, ts) + [TopicEntry(id, t)]) == EntryIds(ListedTopics(init, ts)) + [id];
      assert init + [id] == ids;
    }
  }

  /**
    A topic bookmarked by a toggle and read back from storage alone is listed,
    provided its topic is on the page; after the panel's Remove it is not listed
    and its button no longer shows as pressed.
   */
  lemma BookmarkThenRemove(storage: map<string, Stored>, ts: seq<Topic>, id: string)
    requires id != "" && id !in ReadList(storage, BookmarkKey)
    requires FindTopic(ts, id).Some?
    ensures var saved := storage[BookmarkKey := IdList(Toggled(ReadList(storage, BookmarkKey), id))];
      && id in EntryIds(ListedTopics(ReadList(saved, BookmarkKey), ts))
      && var removed := saved[BookmarkKey := IdList(Without(ReadList(saved, BookmarkKey), id))];
      && id !in ReadList(removed, BookmarkKey)
      && id !in EntryIds(ListedTopics(ReadList(removed, BookmarkKey), ts))
  {
    ToggledSpec(ReadList(storage, BookmarkKey), id);
  }
}
