/** The notebook: notes with a title, a body, tags and a creation timestamp, kept in `notes.json`. */
module Notes {
  import opened Common
  import opened Ordering

  /** `createdAt` is the ISO-8601 text of the moment the note was added. */
  datatype Note = Note(id: int, title: string, body: string, tags: seq<string>, createdAt: string)

  function NoteId(n: Note): int {
    n.id
  }

  function NewestFirst(n: Note): Key {
    [S(n.createdAt)]
  }

  predicate Tagged(n: Note, tag: Option<string>) {
    tag.None? || tag.value == "" || tag.value in n.tags
  }

  function WithTag(ns: seq<Note>, tag: Option<string>): seq<Note> {
    if tag.Some? && tag.value != "" then Filter(ns, (n: Note) => tag.value in n.tags) else ns
  }

  lemma WithTagMembers(ns: seq<Note>, tag: Option<string>)
    ensures forall n :: n in WithTag(ns, tag) <==> n in ns && Tagged(n, tag)
  {
    if tag.Some? && tag.value != "" {
      FilterMembers(ns, (n: Note) => tag.value in n.tags);
    }
  }

  /** `NotesManager.list`: the notes with the tag, newest first, notes created at the same moment in stored order. */
  function ListNotes(ns: seq<Note>, tag: Option<string>): (r: seq<Note>)
    ensures Sorted(r, ByKey(NewestFirst, true))
    ensures multiset(r) == multiset(WithTag(ns, tag))
    ensures forall n :: n in r <==> n in ns && Tagged(n, tag)
    ensures forall c :: Ties(r, ByKey(NewestFirst, true), c) == Ties(WithTag(ns, tag), ByKey(NewestFirst, true), c)
  {
    var r := SortByKey(WithTag(ns, tag), NewestFirst, true);
    WithTagMembers(ns, tag);
    assert forall n :: n in r <==> n in multiset(r);
    r
  }

  /** `q in s` for some tag `s` of the list (Python's `any`). */
  predicate AnyContains(tags: seq<string>, q: string) {
    exists i :: 0 <= i < |tags| && Contains(Lower(tags[i]), q)
  }

  /** The search condition, on the query already lowered. */
  predicate Matches(n: Note, ql: string) {
    Contains(Lower(n.title), ql) || Contains(Lower(n.body), ql) || AnyContains(n.tags, ql)
  }

  /** `q` occurs somewhere in `s`, at some index. */
  predicate OccursIn(s: string, q: string) {
    exists i :: 0 <= i <= |s| && OccursAt(s, q, i)
  }

  /**
   * `NotesManager.search`: the notes, in stored order and with repeats kept, whose title, body or a tag holds the
   * query at some index, ignoring case.
   */
  function Search(ns: seq<Note>, q: string): (r: seq<Note>)
    ensures r == Filter(ns, (n: Note) =>
      OccursIn(Lower(n.title), Lower(q)) || OccursIn(Lower(n.body), Lower(q)) ||
      exists t :: 0 <= t < |n.tags| && OccursIn(Lower(n.tags[t]), Lower(q)))
    ensures forall n :: n in r <==> n in ns && Matches(n, Lower(q))
  {
    var ql := Lower(q);
    forall i | 0 <= i < |ns|
      ensures Matches(ns[i], ql) <==>
        OccursIn(Lower(ns[i].title), ql) || OccursIn(Lower(ns[i].body), ql) ||
        exists t :: 0 <= t < |ns[i].tags| && OccursIn(Lower(ns[i].tags[t]), ql)
    {
      ContainsAt(Lower(ns[i].title), ql);
      ContainsAt(Lower(ns[i].body), ql);
      forall t | 0 <= t < |ns[i].tags| {
        ContainsAt(Lower(ns[i].tags[t]), ql);
      }
    }
    FilterEquivalent(ns, (n: Note) => Matches(n, ql), (n: Note) =>
      OccursIn(Lower(n.title), ql) || OccursIn(Lower(n.body), ql) ||
      exists t :: 0 <= t < |n.tags| && OccursIn(Lower(n.tags[t]), ql));
    FilterMembers(ns, (n: Note) => Matches(n, ql));
    Filter(ns, (n: Note) => Matches(n, ql))
  }

  lemma {:induction false} LowerIdempotent(s: string)
    ensures Lower(Lower(s)) == Lower(s)
  {
    if s != [] {
      LowerIdempotent(s[1..]);
    }
  }

  /** The query's case does not matter: searching for its lower-case form finds the same notes. */
  lemma SearchIgnoresCase(ns: seq<Note>, q: string)
    ensures Search(ns, Lower(q)) == Search(ns, q)
  {
    LowerIdempotent(q);
  }

  /** The empty query occurs in every text, so it finds every note. */
  lemma SearchEmptyFindsAll(ns: seq<Note>)
    ensures Search(ns, "") == ns
  {
    assert Lower("") == "";
    forall i | 0 <= i < |ns|
      ensures Matches(ns[i], "")
    {
      assert IsPrefix("", Lower(ns[i].title));
    }
    FilterAllTrue(ns, (n: Note) => Matches(n, ""));
  }

  class NotesManager {
    var notes: seq<Note>
    /** What `notes.json` parses to; each `_save` writes the current notes there. */
    ghost var persisted: Option<seq<Note>>

    ghost predicate Synced()
      reads this
    {
      LoadList(persisted) == notes
    }

    constructor(stored: Option<seq<Note>>)
      ensures notes == LoadList(stored) && persisted == stored
      ensures Synced()
    {
      notes := LoadList(stored);
      persisted := stored;
    }

    /** Appends a note with a fresh id, stamped `now`, and saves. */
    method Add(title: string, body: string, tags: Option<seq<string>>, now: string) returns (n: Note)
      modifies this
      ensures n == Note(NextId(Ids(old(notes), NoteId)), title, body, if tags.Some? then tags.value else [], now)
      ensures forall i :: 0 <= i < |old(notes)| ==> old(notes)[i].id < n.id
      ensures notes == old(notes) + [n] && persisted == Some(notes)
    {
      n := Note(NextId(Ids(notes, NoteId)), title, body, if tags.Some? then tags.value else [], now);
      notes := notes + [n];
      persisted := Some(notes);
    }

    /** Removes every note with the id; saves and answers true only when one was removed. */
    method Delete(id: int) returns (found: bool)
      modifies this
      ensures found <==> HasId(old(notes), NoteId, id)
      ensures found ==> notes == Filter(old(notes), (n: Note) => n.id != id) && persisted == Some(notes)
      ensures !found ==> notes == old(notes) && persisted == old(persisted)
      ensures forall n :: n in notes <==> n in old(notes) && n.id != id
      ensures old(Synced()) ==> Synced()
    {
      var before := |notes|;
      var kept := Filter(notes, (n: Note) => n.id != id);
      FilterKeepsLength(notes, (n: Note) => n.id != id);
      FilterMembers(notes, (n: Note) => n.id != id);
      if |kept| != before {
        notes := kept;
        persisted := Some(notes);
        return true;
      }
      FilterAllTrue(notes, (n: Note) => n.id != id);
      return false;
    }
  }
}
