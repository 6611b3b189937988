/**
  The bookmark store: two independent lists of ids, one for topics and one for
  resources, each kept as a serialised array under its own local-storage key and
  read back on every access. Toggling appends an absent id or splices out its
  first occurrence; the panel's Remove filters every occurrence out.
 */
module Bookmarks {

  /** What local storage holds under a key, as far as `JSON.parse` is concerned. */
  datatype Stored =
    | IdList(ids: seq<string>)  // a serialised array of ids
    | EmptyText                 // the empty string, which the script treats as missing
    | Unparsable                // text that `JSON.parse` rejects

  /** The two id namespaces. */
  datatype Namespace = TopicMarks | ResourceMarks

  const BookmarkKey: string := "bemoresmart-bookmarks"
  const ResourceKey: string := "bemoresmart-resource-bookmarks"

  /** The storage key of a namespace. */
  function Key(ns: Namespace): string {
    match ns
    case TopicMarks => BookmarkKey
    case ResourceMarks => ResourceKey
  }

  /** The namespace a toggle or Remove in `ns` leaves alone. */
  function Other(ns: Namespace): (o: Namespace)
    ensures o != ns && Key(o) != Key(ns)
  {
    match ns
    case TopicMarks => ResourceMarks
    case ResourceMarks => TopicMarks
  }

  /**
    `getBookmarks` / `getResourceBookmarks`: the stored list, or `[]` when the key
    is missing, holds the empty string or holds text that does not parse.
   */
  function ReadList(storage: map<string, Stored>, key: string): (r: seq<string>)
    ensures key !in storage || storage[key] == EmptyText || storage[key] == Unparsable ==> r == []
    ensures key in storage && storage[key].IdList? ==> r == storage[key].ids
  {
    if key in storage && storage[key].IdList? then storage[key].ids else []
  }

  /** No id occurs twice. */
  predicate NoDup(s: seq<string>) {
    forall a, b :: 0 <= a < b < |s| ==> s[a] != s[b]
  }

  /** `list.indexOf(id)`: the first index holding `id`, or -1. */
  function IndexOf(list: seq<string>, id: string): (idx: int)
    ensures -1 <= idx < |list|
  {
    if list == [] then -1
    else if list[0] == id then 0
    else
      var rest := IndexOf(list[1..], id);
      if rest == -1 then -1 else rest + 1
  }

  /** `indexOf` is -1 exactly for an absent id, and otherwise the index of its first occurrence. */
  lemma {:induction false} IndexOfSpec(list: seq<string>, id: string)
    ensures var idx := IndexOf(list, id);
      && (idx == -1 <==> id !in list)
      && (idx >= 0 ==> list[idx] == id && id !in list[..idx])
  {
    if list != [] && list[0] != id {
      IndexOfSpec(list[1..], id);
      var rest := IndexOf(list[1..], id);
      assert list == [list[0]] + list[1..];
      if rest != -1 {
        assert list[..rest + 1] == [list[0]] + list[1..][..rest];
      }
    }
  }

  /** The list a toggle writes back: `push` when `id` is absent, `splice(idx, 1)` otherwise. */
  function Toggled(list: seq<string>, id: string): seq<string> {
    var idx := IndexOf(list, id);
    if idx == -1 then list + [id] else list[..idx] + list[idx + 1..]
  }

  /** A toggle appends an absent id, and splices out the first occurrence of a present one. */
  lemma ToggledSpec(list: seq<string>, id: string)
    ensures id !in list ==> Toggled(list, id) == list + [id]
    ensures id in list ==>
      exists i :: 0 <= i < |list| && list[i] == id && id !in list[..i] && Toggled(list, id) == list[..i] + list[i + 1..]
  {
    IndexOfSpec(list, id);
  }

  /** `list.filter(x => x !== id)`: every occurrence of `id` gone, the rest in order. */
  function Without(list: seq<string>, id: string): (r: seq<string>)
    ensures id !in r
    ensures forall x :: x in r <==> x in list && x != id
  {
    if list == [] then []
    else
      assert list == [list[0]] + list[1..];
      if list[0] == id then Without(list[1..], id)
      else [list[0]] + Without(list[1..], id)
  }

  /** Filtering keeps every other id as often as it occurred. */
  lemma {:induction false} WithoutKeepsCounts(list: seq<string>, id: string)
    ensures multiset(Without(list, id)) == multiset(list)[id := 0]
  {
    if list != [] {
      WithoutKeepsCounts(list[1..], id);
      assert list == [list[0]] + list[1..];
    }
  }

  /** Filtering distributes over concatenation. */
  lemma {:induction false} WithoutAppend(a: seq<string>, b: seq<string>, id: string)
    ensures Without(a + b, id) == Without(a, id) + Without(b, id)
  {
    if a != [] {
      assert (a + b)[1..] == a[1..] + b;
      WithoutAppend(a[1..], b, id);
    } else {
      assert a + b == b;
    }
  }

  /** A duplicate-free list stays duplicate-free when an element is spliced out. */
  lemma SpliceKeepsNoDup(list: seq<string>, i: nat)
    requires i < |list| && NoDup(list)
    ensures NoDup(list[..i] + list[i + 1..])
    ensures forall x :: x in list[..i] + list[i + 1..] <==> x in list && x != list[i]
  {
    var r := list[..i] + list[i + 1..];
    forall a | 0 <= a < |r| ensures r[a] == list[if a < i then a else a + 1] {}
    forall x | x in list && x != list[i] ensures x in r {
      var a :| 0 <= a < |list| && list[a] == x;
      assert r[if a < i then a else a - 1] == x;
    }
  }

  /** A toggle of `id` leaves the membership of any other id unchanged. */
  lemma ToggledKeepsOther(list: seq<string>, id: string, x: string)
    requires x != id
    ensures x in Toggled(list, id) <==> x in list
  {
    IndexOfSpec(list, id);
    if id in list {
      var i := IndexOf(list, id);
      assert list == list[..i] + [list[i]] + list[i + 1..];
    }
  }

  /** On a duplicate-free list a toggle flips membership of `id` and keeps the list duplicate-free. */
  lemma ToggledFlipsId(list: seq<string>, id: string)
    requires NoDup(list)
    ensures NoDup(Toggled(list, id))
    ensures id in Toggled(list, id) <==> id !in list
  {
    IndexOfSpec(list, id);
    if id in list {
      var i := IndexOf(list, id);
      SpliceKeepsNoDup(list, i);
    }
  }

  /** On a duplicate-free list a toggle flips membership of `id`, keeps every other id and keeps the list duplicate-free. */
  lemma ToggledFlipsMembership(list: seq<string>, id: string)
    requires NoDup(list)
    ensures NoDup(Toggled(list, id))
    ensures id in Toggled(list, id) <==> id !in list
    ensures forall x :: x != id ==> (x in Toggled(list, id) <==> x in list)
  {
    ToggledFlipsId(list, id);
    forall x | x != id ensures x in Toggled(list, id) <==> x in list {
      ToggledKeepsOther(list, id, x);
    }
  }

  /** Apart from `id`, a toggle keeps every id and their relative order. */
  lemma ToggledKeepsOthersInOrder(list: seq<string>, id: string)
    ensures Without(Toggled(list, id), id) == Without(list, id)
  {
    var idx := IndexOf(list, id);
    IndexOfSpec(list, id);
    if idx == -1 {
      WithoutAppend(list, [id], id);
    } else {
      assert list == list[..idx] + ([list[idx]] + list[idx + 1..]);
      WithoutAppend(list[..idx], [list[idx]] + list[idx + 1..], id);
      WithoutAppend([list[idx]], list[idx + 1..], id);
      WithoutAppend(list[..idx], list[idx + 1..], id);
    }
  }

  /** Toggling an absent id twice gives back exactly the list it started from. */
  lemma ToggleTwiceRestoresAbsent(list: seq<string>, id: string)
    requires id !in list
    ensures Toggled(list + [id], id) == list
    ensures Toggled(Toggled(list, id), id) == list
  {
    var once := list + [id];
    ToggledSpec(list, id);
    IndexOfSpec(once, id);
    assert once[..|list|] == list;
    assert once[|list|] == id;
    assert IndexOf(once, id) == |list|;
  }

  /** Toggling a present id twice, in a duplicate-free list, gives back the same ids (the id moves to the end). */
  lemma ToggleTwiceRestoresMembership(list: seq<string>, id: string)
    requires NoDup(list)
    ensures forall x :: x in Toggled(Toggled(list, id), id) <==> x in list
  {
    ToggledFlipsMembership(list, id);
    ToggledFlipsMembership(Toggled(list, id), id);
  }

  /** The list after `n` successive toggles of the same id. */
  function ToggledTimes(list: seq<string>, id: string, n: nat): seq<string> {
    if n == 0 then list else Toggled(ToggledTimes(list, id, n - 1), id)
  }

  /** Starting from a list without `id`, an even number of toggles gives the list back and an odd number appends `id` once. */
  lemma {:induction false} ToggledTimesFromAbsent(list: seq<string>, id: string, m: nat)
    requires id !in list
    ensures ToggledTimes(list, id, 2 * m) == list
    ensures ToggledTimes(list, id, 2 * m + 1) == list + [id]
  {
    ToggledSpec(list, id);
    if m > 0 {
      ToggledTimesFromAbsent(list, id, m - 1);
      ToggleTwiceRestoresAbsent(list, id);
      assert ToggledTimes(list, id, 2 * m) == Toggled(ToggledTimes(list, id, 2 * m - 1), id);
    }
  }

  /** `n` toggles are one toggle followed by `n - 1` more. */
  lemma {:induction false} ToggledTimesFirst(list: seq<string>, id: string, n: nat)
    requires n > 0
    ensures ToggledTimes(list, id, n) == ToggledTimes(Toggled(list, id), id, n - 1)
  {
    if n > 1 {
      ToggledTimesFirst(list, id, n - 1);
      assert ToggledTimes(list, id, n) == Toggled(ToggledTimes(list, id, n - 1), id);
      assert ToggledTimes(Toggled(list, id), id, n - 1) == Toggled(ToggledTimes(Toggled(list, id), id, n - 2), id);
    }
  }

  /** Starting from a duplicate-free list holding `id`, an odd number of toggles removes it and an even number brings it back. */
  lemma ToggledTimesFromPresent(list: seq<string>, id: string, m: nat)
    requires NoDup(list) && id in list
    ensures id !in ToggledTimes(list, id, 2 * m + 1)
    ensures id in ToggledTimes(list, id, 2 * m + 2)
  {
    var once := Toggled(list, id);
    ToggledFlipsId(list, id);
    ToggledTimesFromAbsent(once, id, m);
    ToggledTimesFirst(list, id, 2 * m + 1);
    ToggledTimesFirst(list, id, 2 * m + 2);
    assert ToggledTimes(list, id, 2 * m + 2)[|once|] == id;
  }

  /** On a duplicate-free list, an even number of toggles of `id` leaves it saved or not as it was, and an odd number flips it. */
  lemma ToggledTimesParity(list: seq<string>, id: string, m: nat)
    requires NoDup(list)
    ensures id in ToggledTimes(list, id, 2 * m) <==> id in list
    ensures id in ToggledTimes(list, id, 2 * m + 1) <==> id !in list
  {
    if id !in list {
      ToggledTimesFromAbsent(list, id, m);
      assert ToggledTimes(list, id, 2 * m + 1)[|list|] == id;
    } else {
      ToggledTimesFromPresent(list, id, m);
      if m == 0 {
        assert ToggledTimes(list, id, 0) == list;
      } else {
        ToggledTimesFromPresent(list, id, m - 1);
        assert 2 * (m - 1) + 2 == 2 * m;
      }
    }
  }

  /** Filtering out an id that occurs only at index `i` splices index `i` out. */
  lemma RemoveSingle(list: seq<string>, i: nat, id: string)
    requires i < |list| && list[i] == id
    requires id !in list[..i] && id !in list[i + 1..]
    ensures Without(list, id) == list[..i] + list[i + 1..]
  {
    var front, back := list[..i], list[i + 1..];
    assert list == front + ([id] + back);
    WithoutAppend(front, [id] + back, id);
    assert ([id] + back)[1..] == back;
    WithoutNotIn(front, id);
    WithoutNotIn(back, id);
  }

  /** In a duplicate-free list nothing after index `i` equals the element at `i`. */
  lemma NoDupTail(list: seq<string>, i: nat)
    requires NoDup(list) && i < |list|
    ensures list[i] !in list[i + 1..]
  {
    var tail := list[i + 1..];
    forall b | 0 <= b < |tail| ensures tail[b] != list[i] {
      assert tail[b] == list[i + 1 + b];
    }
  }

  /** On a duplicate-free list holding `id`, the panel's Remove and a toggle write the same list. */
  lemma RemoveAgreesWithToggle(list: seq<string>, id: string)
    requires NoDup(list) && id in list
    ensures Without(list, id) == Toggled(list, id)
  {
    var i := IndexOf(list, id);
    IndexOfSpec(list, id);
    NoDupTail(list, i);
    RemoveSingle(list, i, id);
  }

  /** Filtering out an id that is not there changes nothing. */
  lemma {:induction false} WithoutNotIn(list: seq<string>, id: string)
    requires id !in list
    ensures Without(list, id) == list
  {
    if list != [] {
      WithoutNotIn(list[1..], id);
      assert list == [list[0]] + list[1..];
    }
  }

  /** A write under one namespace's key is read back as written and leaves the other namespace's list alone. */
  lemma WriteThenRead(storage: map<string, Stored>, ns: Namespace, list: seq<string>)
    ensures ReadList(storage[Key(ns) := IdList(list)], Key(ns)) == list
    ensures ReadList(storage[Key(ns) := IdList(list)], Key(Other(ns))) == ReadList(storage, Key(Other(ns)))
  {
  }

  /** The page's local storage, as seen by the bookmark code. */
  class BookmarkStore {
    var storage: map<string, Stored>

    /** A store over `storage`; on a first visit neither key is set and both lists are empty. */
    constructor (storage: map<string, Stored>)
      ensures this.storage == storage
      ensures Key(TopicMarks) !in storage && Key(ResourceMarks) !in storage ==>
        Marks(TopicMarks) == [] && Marks(ResourceMarks) == [] && Valid()
    {
      this.storage := storage;
    }

    /** The current list of namespace `ns`, read afresh from storage. */
    function Marks(ns: Namespace): seq<string>
      reads this
    {
      ReadList(storage, Key(ns))
    }

    /** `isBookmarked` / `isResourceBookmarked`; also whether the item's button shows as pressed. */
    predicate IsBookmarked(ns: Namespace, id: string)
      reads this
    {
      id in Marks(ns)
    }

    /** Neither list holds an id twice. */
    ghost predicate Valid()
      reads this
    {
      NoDup(Marks(TopicMarks)) && NoDup(Marks(ResourceMarks))
    }

    /**
      `toggleBookmark` / `toggleResourceBookmark`: with an empty id nothing happens;
      otherwise the list is read, `id` is pushed or its first occurrence spliced
      out, and the list is written back under the namespace's key.
     */
    method Toggle(ns: Namespace, id: string)
      modifies this
      ensures id == "" ==> storage == old(storage)
      ensures id != "" ==> storage == old(storage)[Key(ns) := IdList(Toggled(old(Marks(ns)), id))]
      ensures id != "" && old(Valid()) ==> Valid() && (IsBookmarked(ns, id) <==> !old(IsBookmarked(ns, id)))
      ensures id != "" && old(Valid()) ==>
        forall x :: x != id ==> (IsBookmarked(ns, x) <==> old(IsBookmarked(ns, x)))
      ensures Marks(Other(ns)) == old(Marks(Other(ns)))
    {
      if id == "" {
        return;
      }
      var bookmarks := ReadList(storage, Key(ns));
      var idx := IndexOf(bookmarks, id);
      if idx == -1 {
        bookmarks := bookmarks + [id];
      } else {
        bookmarks := bookmarks[..idx] + bookmarks[idx + 1..];
      }
      ghost var before, untouched := Marks(ns), Marks(Other(ns));
      assert bookmarks == Toggled(before, id);
      WriteThenRead(storage, ns, bookmarks);
      storage := storage[Key(ns) := IdList(bookmarks)];
      assert Marks(ns) == bookmarks && Marks(Other(ns)) == untouched;
      if old(Valid()) {
        ToggledFlipsMembership(before, id);
        ValidFromBoth(ns);
      }
    }

    /** The panel's Remove button: every occurrence of `id` is filtered out and the list written back. */
    method Remove(ns: Namespace, id: string)
      modifies this
      ensures storage == old(storage)[Key(ns) := IdList(Without(old(Marks(ns)), id))]
      ensures !IsBookmarked(ns, id)
      ensures forall x :: x != id ==> (IsBookmarked(ns, x) <==> old(IsBookmarked(ns, x)))
      ensures old(Valid()) ==> Valid()
      ensures Marks(Other(ns)) == old(Marks(Other(ns)))
    {
      ghost var before, untouched := Marks(ns), Marks(Other(ns));
      var updated := Without(ReadList(storage, Key(ns)), id);
      WriteThenRead(storage, ns, updated);
      storage := storage[Key(ns) := IdList(updated)];
      assert Marks(ns) == updated && Marks(Other(ns)) == untouched;
      if old(Valid()) {
        WithoutKeepsNoDup(before, id);
        ValidFromBoth(ns);
      }
    }

    /** The invariant, split by namespace. */
    lemma ValidFromBoth(ns: Namespace)
      requires NoDup(Marks(ns)) && NoDup(Marks(Other(ns)))
      ensures Valid()
    {
    }
  }

  /** Filtering keeps a duplicate-free list duplicate-free. */
  lemma {:induction false} WithoutKeepsNoDup(list: seq<string>, id: string)
    requires NoDup(list)
    ensures NoDup(Without(list, id))
  {
    if list != [] {
      assert NoDup(list[1..]);
      WithoutKeepsNoDup(list[1..], id);
      assert list[0] !in list[1..];
    }
  }
}
