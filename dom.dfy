/**
  The part of the page document the script works on: courses (`article.course`)
  holding topics (`section.topic`) holding resources (the topic's `li` items).
  An attribute that is absent and one that is empty are both the empty string
  here, because the script only ever tests them for truthiness. A node's
  `shown` flag stands for its `style.display` ("" shown, "none" hidden).
 */
module Dom {
  import opened Wrappers

  /** The `a` element inside a resource item. */
  datatype Link = Link(text: string, href: string)

  /** A `li` item: its `data-resource-id`, link, `.resource-badge` text and save button. */
  datatype Resource = Resource(
    resourceId: string,
    link: Option<Link>,
    badge: Option<string>,
    hasSaveButton: bool,
    shown: bool)

  /** A `section.topic`: its `id`, `data-topic-id`, `data-topic-name`, `h3` text and items. */
  datatype Topic = Topic(
    elementId: string,
    topicId: string,
    topicName: string,
    heading: Option<string>,
    resources: seq<Resource>,
    shown: bool)

  /** An `article.course`: its `data-course-name` and topics. */
  datatype Course = Course(name: string, topics: seq<Topic>, shown: bool)

  /** The live document, whose nodes the script rewrites in place. */
  class Page {
    var courses: seq<Course>

    constructor (courses: seq<Course>)
      ensures this.courses == courses
    {
      this.courses := courses;
    }
  }

  /** Every topic of the page, in document order. */
  function AllTopics(cs: seq<Course>): seq<Topic> {
    if cs == [] then [] else cs[0].topics + AllTopics(cs[1..])
  }

  /** Every resource item of the given topics, in document order. */
  function ResourcesOf(ts: seq<Topic>): seq<Resource> {
    if ts == [] then [] else ts[0].resources + ResourcesOf(ts[1..])
  }

  /** `document.querySelector('section.topic[data-topic-id="…"]')`: the first topic carrying `id`. */
  function FindTopic(ts: seq<Topic>, id: string): (r: Option<Topic>)
    ensures r.Some? <==> id != "" && exists k :: 0 <= k < |ts| && ts[k].topicId == id
    ensures r.Some? ==> r.value.topicId == id && r.value in ts
  {
    if ts == [] || id == "" then None
    else if ts[0].topicId == id then Some(ts[0])
    else
      var r := FindTopic(ts[1..], id);
      assert forall k :: 1 <= k < |ts| ==> ts[k] == ts[1..][k - 1];
      r
  }

  /** `document.querySelector('li[data-resource-id="…"]')`: the first item carrying `id`. */
  function FindResource(rs: seq<Resource>, id: string): (r: Option<Resource>)
    ensures r.Some? <==> id != "" && exists k :: 0 <= k < |rs| && rs[k].resourceId == id
    ensures r.Some? ==> r.value.resourceId == id && r.value in rs
  {
    if rs == [] || id == "" then None
    else if rs[0].resourceId == id then Some(rs[0])
    else
      var r := FindResource(rs[1..], id);
      assert forall k :: 1 <= k < |rs| ==> rs[k] == rs[1..][k - 1];
      r
  }

  /** `querySelector` returns the first topic in document order that carries `id`. */
  lemma {:induction false} FindTopicFirst(ts: seq<Topic>, id: string, k: nat)
    requires id != "" && k < |ts| && ts[k].topicId == id
    requires forall k' :: 0 <= k' < k ==> ts[k'].topicId != id
    ensures FindTopic(ts, id) == Some(ts[k])
  {
    if k > 0 {
      assert ts[0].topicId != id;
      assert ts[1..][k - 1] == ts[k];
      FindTopicFirst(ts[1..], id, k - 1);
    }
  }

  /** `querySelector` returns the first item in document order that carries `id`. */
  lemma {:induction false} FindResourceFirst(rs: seq<Resource>, id: string, k: nat)
    requires id != "" && k < |rs| && rs[k].resourceId == id
    requires forall k' :: 0 <= k' < k ==> rs[k'].resourceId != id
    ensures FindResource(rs, id) == Some(rs[k])
  {
    if k > 0 {
      assert rs[0].resourceId != id;
      assert rs[1..][k - 1] == rs[k];
      FindResourceFirst(rs[1..], id, k - 1);
    }
  }

  /** Sum of a sequence of counts, taken from the back so that prefixes grow one step at a time. */
  function Sum(xs: seq<nat>): nat {
    if xs == [] then 0 else Sum(xs[..|xs| - 1]) + xs[|xs| - 1]
  }

  /** Extending a prefix by one element adds that element. */
  lemma SumStep(xs: seq<nat>, n: nat)
    requires n < |xs|
    ensures Sum(xs[..n + 1]) == Sum(xs[..n]) + xs[n]
  {
    assert xs[..n + 1][..n] == xs[..n];
  }

  /** The sum up to index `a`, plus element `a`, never exceeds the sum up to a later index. */
  lemma {:induction false} SumPrefixBound(xs: seq<nat>, a: nat, b: nat)
    requires a < b <= |xs|
    ensures Sum(xs[..a]) + xs[a] <= Sum(xs[..b])
  {
    SumStep(xs, b - 1);
    if a < b - 1 {
      SumPrefixBound(xs, a, b - 1);
    }
  }

  /** Number of topics of each course. */
  function TopicCounts(cs: seq<Course>): (r: seq<nat>)
    ensures |r| == |cs| && forall i :: 0 <= i < |cs| ==> r[i] == |cs[i].topics|
  {
    seq(|cs|, i requires 0 <= i < |cs| => |cs[i].topics|)
  }

  /** Number of `li` items of each topic. */
  function ItemCounts(ts: seq<Topic>): (r: seq<nat>)
    ensures |r| == |ts| && forall j :: 0 <= j < |ts| ==> r[j] == |ts[j].resources|
  {
    seq(|ts|, j requires 0 <= j < |ts| => |ts[j].resources|)
  }

  /** Number of `li` items under each course. */
  function CourseItemCounts(cs: seq<Course>): (r: seq<nat>)
    ensures |r| == |cs| && forall i :: 0 <= i < |cs| ==> r[i] == Sum(ItemCounts(cs[i].topics))
  {
    seq(|cs|, i requires 0 <= i < |cs| => Sum(ItemCounts(cs[i].topics)))
  }

  /** 1-based position of topic `j` of course `i` among all `section.topic` of the page. */
  function TopicPosition(cs: seq<Course>, i: nat, j: nat): nat
    requires i < |cs|
  {
    Sum(TopicCounts(cs)[..i]) + j + 1
  }

  /** 1-based position of item `k` of topic `j` of course `i` among all `section.topic li`. */
  function ItemPosition(cs: seq<Course>, i: nat, j: nat, k: nat): nat
    requires i < |cs| && j <= |cs[i].topics|
  {
    Sum(CourseItemCounts(cs)[..i]) + Sum(ItemCounts(cs[i].topics)[..j]) + k + 1
  }

  /** Two different topics of the page have different positions. */
  lemma TopicPositionsDistinct(cs: seq<Course>, i: nat, j: nat, i2: nat, j2: nat)
    requires i < |cs| && j < |cs[i].topics|
    requires i2 < |cs| && j2 < |cs[i2].topics|
    requires (i, j) != (i2, j2)
    ensures TopicPosition(cs, i, j) != TopicPosition(cs, i2, j2)
  {
    if i < i2 {
      SumPrefixBound(TopicCounts(cs), i, i2);
    } else if i2 < i {
      SumPrefixBound(TopicCounts(cs), i2, i);
    }
  }

  /** An item's position lies within its topic's share of its course's items. */
  lemma ItemPositionInCourse(cs: seq<Course>, i: nat, j: nat, k: nat)
    requires i < |cs| && j < |cs[i].topics| && k < |cs[i].topics[j].resources|
    ensures Sum(CourseItemCounts(cs)[..i]) < ItemPosition(cs, i, j, k)
    ensures ItemPosition(cs, i, j, k) <= Sum(CourseItemCounts(cs)[..i]) + CourseItemCounts(cs)[i]
  {
    var ns := ItemCounts(cs[i].topics);
    assert ns[..|ns|] == ns;
    SumPrefixBound(ns, j, |ns|);
  }

  /** Two different `li` items of the page have different positions. */
  lemma ItemPositionsDistinct(cs: seq<Course>, i: nat, j: nat, k: nat, i2: nat, j2: nat, k2: nat)
    requires i < |cs| && j < |cs[i].topics| && k < |cs[i].topics[j].resources|
    requires i2 < |cs| && j2 < |cs[i2].topics| && k2 < |cs[i2].topics[j2].resources|
    requires (i, j, k) != (i2, j2, k2)
    ensures ItemPosition(cs, i, j, k) != ItemPosition(cs, i2, j2, k2)
  {
    ItemPositionInCourse(cs, i, j, k);
    ItemPositionInCourse(cs, i2, j2, k2);
    if i < i2 {
      SumPrefixBound(CourseItemCounts(cs), i, i2);
    } else if i2 < i {
      SumPrefixBound(CourseItemCounts(cs), i2, i);
    } else if j < j2 {
      SumPrefixBound(ItemCounts(cs[i].topics), j, j2);
    } else if j2 < j {
      SumPrefixBound(ItemCounts(cs[i].topics), j2, j);
    }
  }
}
