/**
  The combined search and filters: every run recomputes, from the query box and
  the course and type selects, which resources, topics and courses are shown.
  A resource is judged by the type select; a topic needs its course selected,
  the query to match it and one shown resource; a course needs one shown topic.
 */
module Filter {
  import opened Wrappers
  import opened Text
  import opened Dom

  /** The query as the script uses it: trimmed and lower-cased; a missing box reads as "". */
  function NormalizedQuery(raw: string): string {
    Lower(Trim(raw))
  }

  /** A select's value, where an empty or missing value falls back to "all". */
  function Selection(raw: string): (r: string)
    ensures r != ""
    ensures raw == "" ==> r == "all"
    ensures raw != "" ==> r == raw
  {
    if raw == "" then "all" else raw
  }

  /** The resource's type: its trimmed badge text, "" when it has no badge. */
  function ResourceType(r: Resource): string {
    match r.badge
    case None => ""
    case Some(b) => Trim(b)
  }

  /** A resource passes the type select. */
  predicate MatchesType(r: Resource, typeFilter: string) {
    typeFilter == "all" || ResourceType(r) == typeFilter
  }

  /** The topic's title: `data-topic-name`, else the `h3` text, else "". */
  function TopicTitle(t: Topic): string {
    if t.topicName != "" then t.topicName
    else match t.heading
      case None => ""
      case Some(h) => h
  }

  /** The lower-cased texts of the topic's links, in document order. */
  function LinkTexts(rs: seq<Resource>): seq<string> {
    if rs == [] then []
    else
      (match rs[0].link
       case None => []
       case Some(l) => [Lower(l.text)])
      + LinkTexts(rs[1..])
  }

  /** The topic's link texts joined by single spaces. */
  function ResourcesText(t: Topic): string {
    Join(LinkTexts(t.resources), " ")
  }

  /** The (normalised) query matches the topic's title or its resources' text. */
  predicate MatchesQuery(t: Topic, q: string) {
    q == "" || Includes(Lower(TopicTitle(t)), q) || Includes(ResourcesText(t), q)
  }

  /** The course passes the course select. */
  predicate CourseMatches(c: Course, courseFilter: string) {
    courseFilter == "all" || c.name == courseFilter
  }

  /** Some resource of the topic passes the type select. */
  predicate HasVisibleResource(t: Topic, typeFilter: string) {
    exists k :: 0 <= k < |t.resources| && MatchesType(t.resources[k], typeFilter)
  }

  /** The rule for showing topic `t` of course `c`. */
  predicate TopicVisible(c: Course, t: Topic, q: string, courseFilter: string, typeFilter: string) {
    CourseMatches(c, courseFilter) && MatchesQuery(t, q) && HasVisibleResource(t, typeFilter)
  }

  /** The rule for showing course `c`. */
  predicate CourseVisible(c: Course, q: string, courseFilter: string, typeFilter: string) {
    exists j :: 0 <= j < |c.topics| && TopicVisible(c, c.topics[j], q, courseFilter, typeFilter)
  }

  /** Topic `t` of course `c` with its own flag and its items' flags set by the rules. */
  function FilterTopic(c: Course, t: Topic, q: string, courseFilter: string, typeFilter: string): Topic {
    t.(resources := seq(|t.resources|, k requires 0 <= k < |t.resources| =>
                          t.resources[k].(shown := MatchesType(t.resources[k], typeFilter))),
       shown := TopicVisible(c, t, q, courseFilter, typeFilter))
  }

  /** Course `c` with every flag beneath it and its own set by the rules. */
  function FilterCourse(c: Course, q: string, courseFilter: string, typeFilter: string): Course {
    c.(topics := seq(|c.topics|, j requires 0 <= j < |c.topics| =>
                       FilterTopic(c, c.topics[j], q, courseFilter, typeFilter)),
       shown := CourseVisible(c, q, courseFilter, typeFilter))
  }

  /** The whole page after one run of the rules. */
  function Filtered(cs: seq<Course>, q: string, courseFilter: string, typeFilter: string): seq<Course> {
    seq(|cs|, i requires 0 <= i < |cs| => FilterCourse(cs[i], q, courseFilter, typeFilter))
  }

  /**
    The inner `forEach` of `applySearchAndFilters` over a topic's `li` items:
    sets each item's flag and reports whether any item passed the type select.
   */
  method FilterItems(topic: Topic, typeFilter: string) returns (items: seq<Resource>, hasVisibleResource: bool)
    ensures |items| == |topic.resources|
    ensures forall k :: 0 <= k < |items| ==>
      items[k] == topic.resources[k].(shown := MatchesType(topic.resources[k], typeFilter))
    ensures hasVisibleResource == HasVisibleResource(topic, typeFilter)
  {
    items := topic.resources;
    hasVisibleResource := false;
    var k := 0;
    while k < |items|
      invariant 0 <= k <= |items| == |topic.resources|
      invariant forall k' :: 0 <= k' < k ==>
        items[k'] == topic.resources[k'].(shown := MatchesType(topic.resources[k'], typeFilter))
      invariant forall k' :: k <= k' < |items| ==> items[k'] == topic.resources[k']
      invariant hasVisibleResource <==>
        exists k' :: 0 <= k' < k && MatchesType(topic.resources[k'], typeFilter)
    {
      var matchesType := MatchesType(items[k], typeFilter);
      items := items[k := items[k].(shown := matchesType)];
      if matchesType {
        hasVisibleResource := true;
      }
      k := k + 1;
    }
  }

  /**
    The body of the middle `forEach` for one topic: its query match, its items'
    flags and its own flag.
   */
  method FilterOneTopic(course: Course, topic: Topic, courseMatches: bool, query: string, courseFilter: string, typeFilter: string)
    returns (filtered: Topic)
    requires courseMatches == CourseMatches(course, courseFilter)
    ensures filtered == FilterTopic(course, topic, query, courseFilter, typeFilter)
  {
    var topicMatchesQuery := MatchesQuery(topic, query);
    var items, hasVisibleResource := FilterItems(topic, typeFilter);
    var topicVisible := courseMatches && topicMatchesQuery && hasVisibleResource;
    filtered := topic.(resources := items, shown := topicVisible);
  }

  /**
    The middle `forEach` of `applySearchAndFilters` over a course's topics, then
    the course's own flag from whether any topic is shown.
   */
  method FilterTopics(course: Course, query: string, courseFilter: string, typeFilter: string)
    returns (filtered: Course)
    ensures filtered == FilterCourse(course, query, courseFilter, typeFilter)
  {
    ghost var spec := FilterCourse(course, query, courseFilter, typeFilter);
    var courseMatches := courseFilter == "all" || course.name == courseFilter;
    var topics := [];
    var courseHasVisibleTopic := false;
    var j := 0;
    while j < |course.topics|
      invariant 0 <= j <= |course.topics|
      invariant topics == spec.topics[..j]
      invariant courseHasVisibleTopic <==>
        exists j' :: 0 <= j' < j && TopicVisible(course, course.topics[j'], query, courseFilter, typeFilter)
    {
      var topic := FilterOneTopic(course, course.topics[j], courseMatches, query, courseFilter, typeFilter);
      assert topic == spec.topics[j];
      assert spec.topics[..j + 1] == spec.topics[..j] + [topic];
      topics := topics + [topic];
      if topic.shown {
        courseHasVisibleTopic := true;
      }
      j := j + 1;
    }
    assert spec.topics[..j] == spec.topics;
    filtered := course.(topics := topics, shown := courseHasVisibleTopic);
  }

  /** `applySearchAndFilters`: walks every course, topic and item and rewrites its display flag. */
  method ApplySearchAndFilters(page: Page, rawQuery: string, rawCourse: string, rawType: string)
    modifies page
    ensures page.courses ==
      Filtered(old(page.courses), NormalizedQuery(rawQuery), Selection(rawCourse), Selection(rawType))
  {
    var query := NormalizedQuery(rawQuery);
    var courseFilter := Selection(rawCourse);
    var typeFilter := Selection(rawType);
    ghost var before := page.courses;
    ghost var spec := Filtered(before, query, courseFilter, typeFilter);

    var i := 0;
    while i < |page.courses|
      invariant 0 <= i <= |page.courses| == |before|
      invariant page.courses == spec[..i] + before[i..]
    {
      var course := FilterTopics(page.courses[i], query, courseFilter, typeFilter);
      assert course == spec[i];
      assert spec[..i + 1] + before[i + 1..] == (spec[..i] + before[i..])[i := course];
      page.courses := page.courses[i := course];
      i := i + 1;
    }
    assert spec[..i] + before[i..] == spec;
  }

  /** A select option: its `value` and its text. */
  datatype SelectOption = SelectOption(value: string, text: string)

  /** The first option of the course select. */
  const AllCourses := SelectOption("all", "All Courses")

  /** The non-empty course names in document order. */
  function CourseNames(cs: seq<Course>): (names: seq<string>)
    ensures forall x :: x in names <==> x != "" && exists i :: 0 <= i < |cs| && cs[i].name == x
    ensures |names| <= |cs|
  {
    if cs == [] then []
    else
      var last := cs[|cs| - 1];
      var init := CourseNames(cs[..|cs| - 1]);
      assert forall i :: 0 <= i < |cs| - 1 ==> cs[..|cs| - 1][i] == cs[i];
      init + (if last.name != "" then [last.name] else [])
  }

  /** A course contributes its own name when it has one, and nothing otherwise. */
  lemma CourseNamesOne(c: Course)
    ensures CourseNames([c]) == if c.name != "" then [c.name] else []
  {
    assert [c][..0] == [];
  }

  /** The names of two runs of courses are the names of the first followed by those of the second. */
  lemma {:induction false} CourseNamesAppend(a: seq<Course>, b: seq<Course>)
    ensures CourseNames(a + b) == CourseNames(a) + CourseNames(b)
  {
    if b == [] {
      assert a + b == a;
    } else {
      var init := b[..|b| - 1];
      CourseNamesAppend(a, init);
      assert (a + b)[..|a + b| - 1] == a + init;
      assert b[..|b| - 1] == init;
    }
  }

  /** `populateCourseFilter`: "All Courses", then one option per named course, in page order. */
  method PopulateCourseFilter(cs: seq<Course>) returns (options: seq<SelectOption>)
    ensures |options| >= 1 && options[0] == AllCourses
    ensures |options| == 1 + |CourseNames(cs)|
    ensures forall k :: 1 <= k < |options| ==>
      options[k].value == options[k].text == CourseNames(cs)[k - 1]
  {
    options := [AllCourses];
    var i := 0;
    while i < |cs|
      invariant 0 <= i <= |cs|
      invariant |options| == 1 + |CourseNames(cs[..i])| && options[0] == AllCourses
      invariant forall k :: 1 <= k < |options| ==>
        options[k].value == options[k].text == CourseNames(cs[..i])[k - 1]
    {
      assert cs[..i + 1][..i] == cs[..i];
      var name := cs[i].name;
      if name != "" {
        options := options + [SelectOption(name, name)];
      }
      i := i + 1;
    }
    assert cs[..|cs|] == cs;
  }

  // ---------------------------------------------------------------------------
  // Properties of the rules.

  /** The page with every display flag cleared: what the rules may read. */
  function Strip(cs: seq<Course>): seq<Course> {
    seq(|cs|, i requires 0 <= i < |cs| => StripCourse(cs[i]))
  }

  function StripCourse(c: Course): Course {
    c.(topics := seq(|c.topics|, j requires 0 <= j < |c.topics| => StripTopic(c.topics[j])), shown := false)
  }

  function StripTopic(t: Topic): Topic {
    t.(resources := seq(|t.resources|, k requires 0 <= k < |t.resources| => t.resources[k].(shown := false)),
       shown := false)
  }

  /** Link texts ignore display flags. */
  lemma {:induction false} LinkTextsIgnoreFlags(rs: seq<Resource>, rs': seq<Resource>)
    requires |rs| == |rs'|
    requires forall k :: 0 <= k < |rs| ==> rs[k].(shown := false) == rs'[k].(shown := false)
    ensures LinkTexts(rs) == LinkTexts(rs')
  {
    if rs != [] {
      assert rs[0].link == rs[0].(shown := false).link;
      assert rs'[0].link == rs'[0].(shown := false).link;
      LinkTextsIgnoreFlags(rs[1..], rs'[1..]);
    }
  }

  /** The rules read nothing but what `Strip` keeps. */
  lemma TopicRulesIgnoreFlags(c: Course, c': Course, t: Topic, t': Topic, q: string, cf: string, tf: string)
    requires c.name == c'.name && StripTopic(t) == StripTopic(t')
    ensures TopicVisible(c, t, q, cf, tf) == TopicVisible(c', t', q, cf, tf)
    ensures FilterTopic(c, t, q, cf, tf) == FilterTopic(c', t', q, cf, tf)
  {
    assert |t.resources| == |StripTopic(t).resources| == |t'.resources|;
    forall k | 0 <= k < |t.resources|
      ensures t.resources[k].(shown := false) == t'.resources[k].(shown := false)
    {
      assert StripTopic(t).resources[k] == StripTopic(t').resources[k];
    }
    LinkTextsIgnoreFlags(t.resources, t'.resources);
    assert TopicTitle(t) == TopicTitle(StripTopic(t)) == TopicTitle(t');
    assert forall k :: 0 <= k < |t.resources| ==> t.resources[k].badge == t'.resources[k].badge by {
      forall k | 0 <= k < |t.resources| ensures t.resources[k].badge == t'.resources[k].badge {
        assert t.resources[k].(shown := false).badge == t'.resources[k].(shown := false).badge;
      }
    }
    assert forall k :: 0 <= k < |t.resources| ==>
      MatchesType(t.resources[k], tf) == MatchesType(t'.resources[k], tf);
    var f, f' := FilterTopic(c, t, q, cf, tf), FilterTopic(c', t', q, cf, tf);
    assert f.resources == f'.resources;
    assert t.(resources := f.resources, shown := f.shown) == f;
    assert StripTopic(t).(resources := f.resources, shown := f.shown) == f;
  }

  /** Course-level rules read nothing but what `Strip` keeps. */
  lemma CourseRulesIgnoreFlags(c: Course, c': Course, q: string, cf: string, tf: string)
    requires StripCourse(c) == StripCourse(c')
    ensures FilterCourse(c, q, cf, tf) == FilterCourse(c', q, cf, tf)
  {
    assert c.name == StripCourse(c).name == c'.name;
    assert |c.topics| == |StripCourse(c).topics| == |c'.topics|;
    forall j | 0 <= j < |c.topics|
      ensures TopicVisible(c, c.topics[j], q, cf, tf) == TopicVisible(c', c'.topics[j], q, cf, tf)
      ensures FilterTopic(c, c.topics[j], q, cf, tf) == FilterTopic(c', c'.topics[j], q, cf, tf)
    {
      assert StripCourse(c).topics[j] == StripCourse(c').topics[j];
      TopicRulesIgnoreFlags(c, c', c.topics[j], c'.topics[j], q, cf, tf);
    }
    var f, f' := FilterCourse(c, q, cf, tf), FilterCourse(c', q, cf, tf);
    assert f.topics == f'.topics;
    assert f.shown == f'.shown;
    assert StripCourse(c).(topics := f.topics, shown := f.shown) == f;
    assert StripCourse(c').(topics := f'.topics, shown := f'.shown) == f';
  }

  /** A run changes nothing but display flags. */
  lemma {:induction false} FilteredKeepsContent(cs: seq<Course>, q: string, cf: string, tf: string)
    ensures Strip(Filtered(cs, q, cf, tf)) == Strip(cs)
  {
    var f := Filtered(cs, q, cf, tf);
    forall i | 0 <= i < |cs| ensures StripCourse(f[i]) == StripCourse(cs[i]) {
      var c := cs[i];
      forall j | 0 <= j < |c.topics| ensures StripTopic(f[i].topics[j]) == StripTopic(c.topics[j]) {
        var t := c.topics[j];
        var ft := f[i].topics[j];
        assert ft == FilterTopic(c, t, q, cf, tf);
        assert StripTopic(ft).resources == StripTopic(t).resources;
      }
      assert StripCourse(f[i]).topics == StripCourse(c).topics;
    }
  }

  /** The outcome of a run depends on the page only through `Strip`. */
  lemma {:induction false} FilteredIgnoresFlags(cs: seq<Course>, cs': seq<Course>, q: string, cf: string, tf: string)
    requires Strip(cs) == Strip(cs')
    ensures Filtered(cs, q, cf, tf) == Filtered(cs', q, cf, tf)
  {
    assert |cs| == |Strip(cs)| == |cs'|;
    forall i | 0 <= i < |cs| ensures FilterCourse(cs[i], q, cf, tf) == FilterCourse(cs'[i], q, cf, tf) {
      assert Strip(cs)[i] == Strip(cs')[i];
      CourseRulesIgnoreFlags(cs[i], cs'[i], q, cf, tf);
    }
  }

  /** Running the filters twice with the same inputs leaves the same flags as running them once. */
  lemma {:induction false} FilteredIdempotent(cs: seq<Course>, q: string, cf: string, tf: string)
    ensures Filtered(Filtered(cs, q, cf, tf), q, cf, tf) == Filtered(cs, q, cf, tf)
  {
    FilteredKeepsContent(cs, q, cf, tf);
    FilteredIgnoresFlags(Filtered(cs, q, cf, tf), cs, q, cf, tf);
  }

  /**
    After a run the flags agree with each other: a course is shown exactly when
    one of its topics is, a shown topic has a shown item, and every item is shown
    exactly when it passes the type select.
   */
  lemma FilteredFlagsConsistent(cs: seq<Course>, q: string, cf: string, tf: string, i: nat)
    requires i < |cs|
    ensures var c := Filtered(cs, q, cf, tf)[i];
      && (c.shown <==> exists j :: 0 <= j < |c.topics| && c.topics[j].shown)
      && (forall j :: 0 <= j < |c.topics| && c.topics[j].shown ==>
            exists k :: 0 <= k < |c.topics[j].resources| && c.topics[j].resources[k].shown)
      && (forall j, k :: 0 <= j < |c.topics| && 0 <= k < |c.topics[j].resources| ==>
            (c.topics[j].resources[k].shown <==> MatchesType(cs[i].topics[j].resources[k], tf)))
  {
    var c := Filtered(cs, q, cf, tf)[i];
    assert c == FilterCourse(cs[i], q, cf, tf);
    forall j | 0 <= j < |c.topics|
      ensures c.topics[j].shown == TopicVisible(cs[i], cs[i].topics[j], q, cf, tf)
    {
    }
    forall j | 0 <= j < |c.topics| && c.topics[j].shown
      ensures exists k :: 0 <= k < |c.topics[j].resources| && c.topics[j].resources[k].shown
    {
      var k :| 0 <= k < |cs[i].topics[j].resources| && MatchesType(cs[i].topics[j].resources[k], tf);
      assert c.topics[j].resources[k].shown;
    }
  }

  /** With an empty query and both selects on "all", exactly the topics with an item are shown. */
  lemma AllOpenShowsTopicsWithItems(cs: seq<Course>, i: nat, j: nat)
    requires i < |cs| && j < |cs[i].topics|
    ensures Filtered(cs, "", "all", "all")[i].topics[j].shown <==> |cs[i].topics[j].resources| > 0
  {
    var t := cs[i].topics[j];
    if |t.resources| > 0 {
      assert MatchesType(t.resources[0], "all");
    }
  }

  /** A topic without items is never shown, whatever the inputs. */
  lemma EmptyTopicHidden(cs: seq<Course>, q: string, cf: string, tf: string, i: nat, j: nat)
    requires i < |cs| && j < |cs[i].topics|
    requires cs[i].topics[j].resources == []
    ensures !Filtered(cs, q, cf, tf)[i].topics[j].shown
  {
  }

  /** A query that matches no topic hides every course. */
  lemma UnmatchedQueryHidesAll(cs: seq<Course>, q: string, cf: string, tf: string)
    requires forall i, j :: 0 <= i < |cs| && 0 <= j < |cs[i].topics| ==> !MatchesQuery(cs[i].topics[j], q)
    ensures forall i :: 0 <= i < |cs| ==> !Filtered(cs, q, cf, tf)[i].shown
  {
  }

  /** A shown topic lies in the selected course and has an item of the selected type. */
  lemma ShownTopicPassesSelects(cs: seq<Course>, q: string, cf: string, tf: string, i: nat, j: nat)
    requires i < |cs| && j < |cs[i].topics|
    requires Filtered(cs, q, cf, tf)[i].topics[j].shown
    ensures cf != "all" ==> cs[i].name == cf
    ensures tf != "all" ==>
      exists k :: 0 <= k < |cs[i].topics[j].resources| && ResourceType(cs[i].topics[j].resources[k]) == tf
  {
  }

  /** A link text of the topic is part of the text the query is searched in. */
  lemma {:induction false} LinkTextInResourcesText(rs: seq<Resource>, k: nat)
    requires k < |rs| && rs[k].link.Some?
    ensures Lower(rs[k].link.value.text) in LinkTexts(rs)
  {
    if k > 0 {
      LinkTextInResourcesText(rs[1..], k - 1);
    }
  }

  /** A query found in the lower-cased text of one of a topic's links matches the topic. */
  lemma QueryInLinkMatches(t: Topic, q: string, k: nat)
    requires k < |t.resources| && t.resources[k].link.Some?
    requires Includes(Lower(t.resources[k].link.value.text), q)
    ensures MatchesQuery(t, q)
  {
    var text := Lower(t.resources[k].link.value.text);
    LinkTextInResourcesText(t.resources, k);
    var parts := LinkTexts(t.resources);
    var n :| 0 <= n < |parts| && parts[n] == text;
    JoinHasPart(parts, " ", n);
    var joined := ResourcesText(t);
    IncludesSpec(text, q);
    IncludesSpec(joined, q);
    var i :| OccursAt(text, q, i);
    var i2 :| OccursAt(joined, text, i2);
    OccursWithin(joined, text, q, i2, i);
  }

  /** A query box holding only white space matches every topic. */
  lemma BlankQueryMatchesAll(raw: string, t: Topic)
    requires forall i :: 0 <= i < |raw| ==> IsSpace(raw[i])
    ensures MatchesQuery(t, NormalizedQuery(raw))
  {
    TrimSpec(raw);
  }
}
