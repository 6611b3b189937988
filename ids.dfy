/**
  Id assignment at start-up. `ensureTopicIds` gives every topic without an `id`
  the id `topic-<n>`, n its 1-based position among all topics of the page, and
  copies the `id` into a missing `data-topic-id`. `addResourceBookmarkButtons`
  walks every `li` of every topic with one page-wide index, skips items without
  a link or that already carry a save button, gives the others a missing
  `data-resource-id` of `resource-<n>` and adds the button. Neither touches an
  id that is already there.
 */
module Ids {
  import opened Wrappers
  import opened Text
  import opened Dom

  /** The id generated for the topic at 1-based position `pos`. */
  function TopicIdFor(pos: nat): string {
    "topic-" + Decimal(pos)
  }

  /** The id generated for the item at 1-based position `pos`. */
  function ResourceIdFor(pos: nat): string {
    "resource-" + Decimal(pos)
  }

  /** Generated ids with a common prefix are equal only for equal positions. */
  lemma PrefixedDecimalInjective(prefix: string, a: nat, b: nat)
    requires prefix + Decimal(a) == prefix + Decimal(b)
    ensures a == b
  {
    assert (prefix + Decimal(a))[|prefix|..] == Decimal(a);
    assert (prefix + Decimal(b))[|prefix|..] == Decimal(b);
    DecimalInjective(a, b);
  }

  /** One step of `ensureTopicIds` on the topic at position `pos`. */
  function AssignTopicId(t: Topic, pos: nat): (r: Topic)
    ensures r.elementId != "" && r.topicId != ""
    ensures t.elementId != "" ==> r.elementId == t.elementId
    ensures t.elementId == "" ==> r.elementId == TopicIdFor(pos)
    ensures r.topicId == if t.topicId != "" then t.topicId else r.elementId
    ensures r.(elementId := t.elementId, topicId := t.topicId) == t
  {
    var elementId := if t.elementId == "" then TopicIdFor(pos) else t.elementId;
    t.(elementId := elementId, topicId := if t.topicId == "" then elementId else t.topicId)
  }

  /** A course's topics after `ensureTopicIds`, the course's first topic being at position `before + 1`. */
  function CourseTopicIds(c: Course, before: nat): (c': Course)
    ensures |c'.topics| == |c.topics|
  {
    c.(topics := seq(|c.topics|, j requires 0 <= j < |c.topics| => AssignTopicId(c.topics[j], before + j + 1)))
  }

  /** The page after `ensureTopicIds`. */
  function WithTopicIds(cs: seq<Course>): (cs': seq<Course>)
    ensures |cs'| == |cs|
    ensures forall i :: 0 <= i < |cs| ==> |cs'[i].topics| == |cs[i].topics|
  {
    seq(|cs|, i requires 0 <= i < |cs| => CourseTopicIds(cs[i], Sum(TopicCounts(cs)[..i])))
  }

  /** The body of the `ensureTopicIds` callback for one topic, `idx` being its 0-based index. */
  method AssignOneTopicId(topic: Topic, idx: nat) returns (t: Topic)
    ensures t == AssignTopicId(topic, idx + 1)
  {
    t := topic;
    if t.elementId == "" {
      t := t.(elementId := "topic-" + Decimal(idx + 1));
    }
    if t.topicId == "" {
      t := t.(topicId := t.elementId);
    }
  }

  /** The callback of `ensureTopicIds` over one course's topics, continuing the page-wide index. */
  method AssignCourseTopicIds(course: Course, start: nat) returns (topics: seq<Topic>)
    ensures topics == CourseTopicIds(course, start).topics
  {
    topics := course.topics;
    var idx := start;
    var j := 0;
    while j < |topics|
      invariant 0 <= j <= |topics| == |course.topics|
      invariant idx == start + j
      invariant forall j' :: 0 <= j' < j ==> topics[j'] == AssignTopicId(course.topics[j'], start + j' + 1)
      invariant forall j' :: j <= j' < |topics| ==> topics[j'] == course.topics[j']
    {
      var topic := AssignOneTopicId(topics[j], idx);
      topics := topics[j := topic];
      idx := idx + 1;
      j := j + 1;
    }
    CourseTopicIdsPointwise(course, start, topics);
  }

  /** A sequence agreeing with the one-step update at every index is the course's new topics. */
  lemma CourseTopicIdsPointwise(course: Course, start: nat, topics: seq<Topic>)
    requires |topics| == |course.topics|
    requires forall j :: 0 <= j < |topics| ==> topics[j] == AssignTopicId(course.topics[j], start + j + 1)
    ensures topics == CourseTopicIds(course, start).topics
  {
  }

  /** `ensureTopicIds`: one pass over all topics, in document order, with their running index. */
  method EnsureTopicIds(page: Page)
    modifies page
    ensures page.courses == WithTopicIds(old(page.courses))
  {
    ghost var before := page.courses;
    var idx := 0;
    var i := 0;
    while i < |page.courses|
      invariant 0 <= i <= |page.courses| == |before|
      invariant idx == Sum(TopicCounts(before)[..i])
      invariant forall i' :: 0 <= i' < i ==> page.courses[i'] == WithTopicIds(before)[i']
      invariant forall i' :: i <= i' < |before| ==> page.courses[i'] == before[i']
    {
      var course := page.courses[i];
      var topics := AssignCourseTopicIds(course, idx);
      SumStep(TopicCounts(before), i);
      page.courses := page.courses[i := course.(topics := topics)];
      idx := idx + |topics|;
      i := i + 1;
    }
  }

  /** The topic at position (`i`, `j`) after `ensureTopicIds` is the one-step update at its page-wide position. */
  lemma TopicIdAt(cs: seq<Course>, i: nat, j: nat)
    requires i < |cs| && j < |cs[i].topics|
    ensures var after := WithTopicIds(cs);
      j < |after[i].topics| && after[i].topics[j] == AssignTopicId(cs[i].topics[j], TopicPosition(cs, i, j))
  {
    var c := CourseTopicIds(cs[i], Sum(TopicCounts(cs)[..i]));
    assert WithTopicIds(cs)[i] == c;
  }

  /** `ensureTopicIds` keeps every id already present and gives every topic both ids. */
  lemma TopicIdsKeptAndCompleted(cs: seq<Course>, i: nat, j: nat)
    requires i < |cs| && j < |cs[i].topics|
    ensures var after := WithTopicIds(cs);
      j < |after[i].topics| &&
      var t, t' := cs[i].topics[j], after[i].topics[j];
      && t'.elementId != "" && t'.topicId != ""
      && (t.elementId != "" ==> t'.elementId == t.elementId)
      && (t.topicId != "" ==> t'.topicId == t.topicId)
      && (t.elementId == "" ==> t'.elementId == TopicIdFor(TopicPosition(cs, i, j)))
  {
    TopicIdAt(cs, i, j);
  }

  /** A second pass over a course's topics changes nothing, whatever positions it uses. */
  lemma CourseTopicIdsIdempotent(c: Course, before: nat, before2: nat)
    ensures CourseTopicIds(CourseTopicIds(c, before), before2) == CourseTopicIds(c, before)
  {
    var once := CourseTopicIds(c, before);
    var twice := CourseTopicIds(once, before2);
    forall j | 0 <= j < |once.topics| ensures twice.topics[j] == once.topics[j] {
      var t := once.topics[j];
      assert AssignTopicId(t, before2 + j + 1) == t;
    }
    assert twice.topics == once.topics;
  }

  /** Running `ensureTopicIds` again changes nothing. */
  lemma {:induction false} TopicIdsIdempotent(cs: seq<Course>)
    ensures WithTopicIds(WithTopicIds(cs)) == WithTopicIds(cs)
  {
    var once := WithTopicIds(cs);
    forall i | 0 <= i < |cs|
      ensures CourseTopicIds(once[i], Sum(TopicCounts(once)[..i])) == once[i]
    {
      CourseTopicIdsIdempotent(cs[i], Sum(TopicCounts(cs)[..i]), Sum(TopicCounts(once)[..i]));
    }
  }

  /** Two topics that both lacked an `id` receive different ids. */
  lemma GeneratedTopicIdsDistinct(cs: seq<Course>, i: nat, j: nat, i2: nat, j2: nat)
    requires i < |cs| && j < |cs[i].topics| && i2 < |cs| && j2 < |cs[i2].topics|
    requires (i, j) != (i2, j2)
    requires cs[i].topics[j].elementId == "" && cs[i2].topics[j2].elementId == ""
    ensures var after := WithTopicIds(cs);
      j < |after[i].topics| && j2 < |after[i2].topics| &&
      after[i].topics[j].elementId != after[i2].topics[j2].elementId
  {
    TopicIdAt(cs, i, j);
    TopicIdAt(cs, i2, j2);
    var p, p2 := TopicPosition(cs, i, j), TopicPosition(cs, i2, j2);
    TopicPositionsDistinct(cs, i, j, i2, j2);
    if TopicIdFor(p) == TopicIdFor(p2) {
      PrefixedDecimalInjective("topic-", p, p2);
    }
  }

  /** The `data-topic-id` a topic ends with unless one has to be generated: its own, else its `id`. */
  function PresetTopicId(t: Topic): string {
    if t.topicId != "" then t.topicId else t.elementId
  }

  /**
    As written, a generated id can collide with one already on the page: a topic
    whose `id` is `topic-2` followed by a topic without ids both end with
    `data-topic-id` `topic-2`, and the lookup of that id finds the first, so the
    second topic's bookmark is listed under the first topic's title.
   */
  lemma TopicIdCollision()
    ensures var first := Topic("topic-2", "", "Alpha", None, [], true);
      var second := Topic("", "", "Beta", None, [], true);
      var after := WithTopicIds([Course("c", [first, second], true)]);
      && |after| == 1 && |after[0].topics| == 2
      && after[0].topics[0].topicId == "topic-2"
      && after[0].topics[1].topicId == "topic-2"
      && after[0].topics[1].topicName == "Beta"
      && FindTopic(AllTopics(after), "topic-2") == Some(after[0].topics[0])
      && after[0].topics[0].topicName == "Alpha"
  {
  }

  /**
    The intended page-wide uniqueness holds when the ids already on the page are
    not of the generated form and differ from each other: then any two topics end
    with different `data-topic-id`s.
   */
  lemma TopicIdsUniqueWhenPresetIdsFresh(cs: seq<Course>, i: nat, j: nat, i2: nat, j2: nat)
    requires i < |cs| && j < |cs[i].topics| && i2 < |cs| && j2 < |cs[i2].topics|
    requires (i, j) != (i2, j2)
    requires forall p: nat :: PresetTopicId(cs[i].topics[j]) != TopicIdFor(p)
    requires forall p: nat :: PresetTopicId(cs[i2].topics[j2]) != TopicIdFor(p)
    requires PresetTopicId(cs[i].topics[j]) == "" || PresetTopicId(cs[i].topics[j]) != PresetTopicId(cs[i2].topics[j2])
    ensures var after := WithTopicIds(cs);
      j < |after[i].topics| && j2 < |after[i2].topics| &&
      after[i].topics[j].topicId != after[i2].topics[j2].topicId
  {
    var t, t2 := cs[i].topics[j], cs[i2].topics[j2];
    var p, p2 := TopicPosition(cs, i, j), TopicPosition(cs, i2, j2);
    TopicIdAt(cs, i, j);
    TopicIdAt(cs, i2, j2);
    if PresetTopicId(t) == "" && PresetTopicId(t2) == "" {
      TopicPositionsDistinct(cs, i, j, i2, j2);
      if TopicIdFor(p) == TopicIdFor(p2) {
        PrefixedDecimalInjective("topic-", p, p2);
      }
    }
  }

  /** One step of `addResourceBookmarkButtons` on the item at position `pos`. */
  function MarkItem(r: Resource, pos: nat): Resource {
    if r.link.None? || r.hasSaveButton then r
    else r.(resourceId := if r.resourceId == "" then ResourceIdFor(pos) else r.resourceId,
            hasSaveButton := true)
  }

  /** A topic's items after the pass, the topic's first item being at position `before + 1`. */
  function MarkItems(t: Topic, before: nat): (t': Topic)
    ensures |t'.resources| == |t.resources|
  {
    t.(resources := seq(|t.resources|, k requires 0 <= k < |t.resources| =>
                          MarkItem(t.resources[k], before + k + 1)))
  }

  /** Item `k` of a marked topic is its item updated at position `before + k + 1`. */
  lemma MarkItemsAt(t: Topic, before: nat, k: nat)
    requires k < |t.resources|
    ensures k < |MarkItems(t, before).resources|
    ensures MarkItems(t, before).resources[k] == MarkItem(t.resources[k], before + k + 1)
  {
  }

  /** A course's topics after the pass, the course's first item being at position `before + 1`. */
  function MarkCourse(c: Course, before: nat): (c': Course)
    ensures |c'.topics| == |c.topics|
  {
    c.(topics := seq(|c.topics|, j requires 0 <= j < |c.topics| =>
                       MarkItems(c.topics[j], before + Sum(ItemCounts(c.topics)[..j]))))
  }

  /** The page after `addResourceBookmarkButtons`. */
  function WithSaveButtons(cs: seq<Course>): (cs': seq<Course>)
    ensures |cs'| == |cs|
  {
    seq(|cs|, i requires 0 <= i < |cs| => MarkCourse(cs[i], Sum(CourseItemCounts(cs)[..i])))
  }

  /** The body of the `addResourceBookmarkButtons` callback for one `li`, `idx` being its 0-based index. */
  method MarkOneItem(li: Resource, idx: nat) returns (r: Resource)
    ensures r == MarkItem(li, idx + 1)
  {
    r := li;
    if r.link.Some? && !r.hasSaveButton {
      if r.resourceId == "" {
        r := r.(resourceId := "resource-" + Decimal(idx + 1));
      }
      r := r.(hasSaveButton := true);
    }
  }

  /** The callback of `addResourceBookmarkButtons` over one topic's items, continuing the page-wide index. */
  method MarkTopicItems(topic: Topic, start: nat) returns (marked: Topic)
    ensures marked == MarkItems(topic, start)
  {
    var items := topic.resources;
    var idx := start;
    var k := 0;
    while k < |items|
      invariant 0 <= k <= |items| == |topic.resources|
      invariant idx == start + k
      invariant forall k' :: 0 <= k' < k ==> items[k'] == MarkItem(topic.resources[k'], start + k' + 1)
      invariant forall k' :: k <= k' < |items| ==> items[k'] == topic.resources[k']
    {
      var li := MarkOneItem(items[k], idx);
      items := items[k := li];
      idx := idx + 1;
      k := k + 1;
    }
    marked := topic.(resources := items);
  }

  /** Topic `j` of a marked course is its topic marked from the course start plus the items before it. */
  lemma MarkCourseAt(c: Course, before: nat, j: nat)
    requires j < |c.topics|
    ensures var counts := ItemCounts(c.topics);
      && j < |MarkCourse(c, before).topics|
      && MarkCourse(c, before).topics[j] == MarkItems(c.topics[j], before + Sum(counts[..j]))
      && |MarkCourse(c, before).topics[j].resources| == counts[j]
      && Sum(counts[..j + 1]) == Sum(counts[..j]) + counts[j]
  {
    SumStep(ItemCounts(c.topics), j);
  }

  /** The callback of `addResourceBookmarkButtons` over one course's topics, continuing the page-wide index. */
  method MarkCourseItems(course: Course, start: nat) returns (topics: seq<Topic>, next: nat)
    ensures topics == MarkCourse(course, start).topics
    ensures next == start + Sum(ItemCounts(course.topics))
  {
    ghost var marked := MarkCourse(course, start).topics;
    ghost var counts := ItemCounts(course.topics);
    topics := [];
    next := start;
    var j := 0;
    while j < |course.topics|
      invariant 0 <= j <= |course.topics|
      invariant next == start + Sum(counts[..j])
      invariant topics == marked[..j]
    {
      MarkCourseAt(course, start, j);
      var topic := MarkTopicItems(course.topics[j], next);
      assert marked[..j + 1] == marked[..j] + [topic];
      topics := topics + [topic];
      next := next + |topic.resources|;
      j := j + 1;
    }
    assert counts[..j] == counts;
    assert marked[..j] == marked;
  }

  /** `addResourceBookmarkButtons`: one pass over every `section.topic li` with a page-wide index. */
  method AddResourceBookmarkButtons(page: Page)
    modifies page
    ensures page.courses == WithSaveButtons(old(page.courses))
  {
    ghost var before := page.courses;
    var idx := 0;
    var i := 0;
    while i < |page.courses|
      invariant 0 <= i <= |page.courses| == |before|
      invariant idx == Sum(CourseItemCounts(before)[..i])
      invariant forall i' :: 0 <= i' < i ==> page.courses[i'] == WithSaveButtons(before)[i']
      invariant forall i' :: i <= i' < |before| ==> page.courses[i'] == before[i']
    {
      var course := page.courses[i];
      var topics, next := MarkCourseItems(course, idx);
      SumStep(CourseItemCounts(before), i);
      page.courses := page.courses[i := course.(topics := topics)];
      idx := next;
      i := i + 1;
    }
  }

  /** The item at position (`i`, `j`, `k`) after the pass is the one-step update at its page-wide position. */
  lemma SaveButtonAt(cs: seq<Course>, i: nat, j: nat, k: nat)
    requires i < |cs| && j < |cs[i].topics| && k < |cs[i].topics[j].resources|
    ensures var after := WithSaveButtons(cs);
      j < |after[i].topics| && k < |after[i].topics[j].resources| &&
      after[i].topics[j].resources[k] == MarkItem(cs[i].topics[j].resources[k], ItemPosition(cs, i, j, k))
  {
    var courseStart := Sum(CourseItemCounts(cs)[..i]);
    var topicStart := courseStart + Sum(ItemCounts(cs[i].topics)[..j]);
    var c := MarkCourse(cs[i], courseStart);
    assert WithSaveButtons(cs)[i] == c;
    var t := MarkItems(cs[i].topics[j], topicStart);
    assert c.topics[j] == t;
    assert topicStart + k + 1 == ItemPosition(cs, i, j, k);
    MarkItemsAt(cs[i].topics[j], topicStart, k);
  }

  /** After the pass every linked item has a save button, and no id already present was replaced. */
  lemma SaveButtonsKeepIds(cs: seq<Course>, i: nat, j: nat, k: nat)
    requires i < |cs| && j < |cs[i].topics| && k < |cs[i].topics[j].resources|
    ensures var after := WithSaveButtons(cs);
      j < |after[i].topics| && k < |after[i].topics[j].resources| &&
      var r, r' := cs[i].topics[j].resources[k], after[i].topics[j].resources[k];
      && (r.link.Some? ==> r'.hasSaveButton)
      && (r.resourceId != "" ==> r'.resourceId == r.resourceId)
      && (r.link.Some? && !r.hasSaveButton && r.resourceId == "" ==>
            r'.resourceId == ResourceIdFor(ItemPosition(cs, i, j, k)))
  {
    SaveButtonAt(cs, i, j, k);
  }

  /** A second pass over a topic's items changes nothing, whatever positions it uses. */
  lemma MarkItemsIdempotent(t: Topic, before: nat, before2: nat)
    ensures MarkItems(MarkItems(t, before), before2) == MarkItems(t, before)
  {
    var once := MarkItems(t, before);
    forall k | 0 <= k < |t.resources|
      ensures MarkItem(once.resources[k], before2 + k + 1) == once.resources[k]
    {
    }
  }

  /** A second pass over a course's items changes nothing, whatever positions it uses. */
  lemma MarkCourseIdempotent(c: Course, before: nat, before2: nat)
    ensures MarkCourse(MarkCourse(c, before), before2) == MarkCourse(c, before)
  {
    var once := MarkCourse(c, before);
    var twice := MarkCourse(once, before2);
    forall j | 0 <= j < |once.topics| ensures twice.topics[j] == once.topics[j] {
      MarkItemsIdempotent(c.topics[j], before + Sum(ItemCounts(c.topics)[..j]),
                          before2 + Sum(ItemCounts(once.topics)[..j]));
    }
    assert twice.topics == once.topics;
  }

  /** Running `addResourceBookmarkButtons` again changes nothing. */
  lemma {:induction false} SaveButtonsIdempotent(cs: seq<Course>)
    ensures WithSaveButtons(WithSaveButtons(cs)) == WithSaveButtons(cs)
  {
    var once := WithSaveButtons(cs);
    forall i | 0 <= i < |cs|
      ensures MarkCourse(once[i], Sum(CourseItemCounts(once)[..i])) == once[i]
    {
      MarkCourseIdempotent(cs[i], Sum(CourseItemCounts(cs)[..i]), Sum(CourseItemCounts(once)[..i]));
    }
  }

  /** Two items that both received a generated id received different ones. */
  lemma GeneratedResourceIdsDistinct(cs: seq<Course>, i: nat, j: nat, k: nat, i2: nat, j2: nat, k2: nat)
    requires i < |cs| && j < |cs[i].topics| && k < |cs[i].topics[j].resources|
    requires i2 < |cs| && j2 < |cs[i2].topics| && k2 < |cs[i2].topics[j2].resources|
    requires (i, j, k) != (i2, j2, k2)
    requires var r := cs[i].topics[j].resources[k]; r.link.Some? && !r.hasSaveButton && r.resourceId == ""
    requires var r := cs[i2].topics[j2].resources[k2]; r.link.Some? && !r.hasSaveButton && r.resourceId == ""
    ensures var after := WithSaveButtons(cs);
      j < |after[i].topics| && k < |after[i].topics[j].resources| &&
      j2 < |after[i2].topics| && k2 < |after[i2].topics[j2].resources| &&
      after[i].topics[j].resources[k].resourceId != after[i2].topics[j2].resources[k2].resourceId
  {
    var p, p2 := ItemPosition(cs, i, j, k), ItemPosition(cs, i2, j2, k2);
    ItemPositionsDistinct(cs, i, j, k, i2, j2, k2);
    SaveButtonAt(cs, i, j, k);
    SaveButtonAt(cs, i2, j2, k2);
    if ResourceIdFor(p) == ResourceIdFor(p2) {
      PrefixedDecimalInjective("resource-", p, p2);
    }
  }

  /**
    As written, a generated `data-resource-id` can collide with one already on the
    page: an item with id `resource-2` followed by a linked item without one both
    end with `resource-2`, and the lookup of that id finds the first item.
   */
  lemma ResourceIdCollision()
    ensures var first := Resource("resource-2", Some(Link("A", "a")), None, false, true);
      var second := Resource("", Some(Link("B", "b")), None, false, true);
      var after := WithSaveButtons([Course("c", [Topic("t", "t", "", None, [first, second], true)], true)]);
      && |after| == 1 && |after[0].topics| == 1 && |after[0].topics[0].resources| == 2
      && after[0].topics[0].resources[0].resourceId == "resource-2"
      && after[0].topics[0].resources[1].resourceId == "resource-2"
      && after[0].topics[0].resources[1].link == Some(Link("B", "b"))
      && FindResource(ResourcesOf(AllTopics(after)), "resource-2") == Some(after[0].topics[0].resources[0])
      && after[0].topics[0].resources[0].link == Some(Link("A", "a"))
  {
  }

  /**
    The intended page-wide uniqueness holds when the item ids already on the page
    are not of the generated form and differ from each other: then any two items
    the walk equips end with different `data-resource-id`s.
   */
  lemma ResourceIdsUniqueWhenPresetIdsFresh(cs: seq<Course>, i: nat, j: nat, k: nat, i2: nat, j2: nat, k2: nat)
    requires i < |cs| && j < |cs[i].topics| && k < |cs[i].topics[j].resources|
    requires i2 < |cs| && j2 < |cs[i2].topics| && k2 < |cs[i2].topics[j2].resources|
    requires (i, j, k) != (i2, j2, k2)
    requires var r := cs[i].topics[j].resources[k]; r.link.Some? && !r.hasSaveButton
    requires var r := cs[i2].topics[j2].resources[k2]; r.link.Some? && !r.hasSaveButton
    requires forall p: nat :: cs[i].topics[j].resources[k].resourceId != ResourceIdFor(p)
    requires forall p: nat :: cs[i2].topics[j2].resources[k2].resourceId != ResourceIdFor(p)
    requires var id := cs[i].topics[j].resources[k].resourceId;
      id == "" || id != cs[i2].topics[j2].resources[k2].resourceId
    ensures var after := WithSaveButtons(cs);
      j < |after[i].topics| && k < |after[i].topics[j].resources| &&
      j2 < |after[i2].topics| && k2 < |after[i2].topics[j2].resources| &&
      after[i].topics[j].resources[k].resourceId != after[i2].topics[j2].resources[k2].resourceId
  {
    var r, r2 := cs[i].topics[j].resources[k], cs[i2].topics[j2].resources[k2];
    SaveButtonAt(cs, i, j, k);
    SaveButtonAt(cs, i2, j2, k2);
    if r.resourceId == "" && r2.resourceId == "" {
      GeneratedResourceIdsDistinct(cs, i, j, k, i2, j2, k2);
    }
  }
}
