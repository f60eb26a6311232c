/**
 The tree walk of ctrl/fs.go, for any callback: its calls are those of a single pass over the
 preorder list of the tree in which a call can jump ahead.
 */
module FileWalk {
  import opened Wrappers

  datatype Error = SkipDir | Failure(code: nat)

  datatype Entry = Leaf(name: string, symlink: bool) | Dir(name: string, listing: Listing)

  /** What comes of opening and listing a directory. */
  datatype Listing = Unopenable(why: Error) | Unreadable(why: Error) | Children(entries: seq<Entry>)

  /** What comes of opening and examining the root. */
  datatype Root = Unopened(why: Error) | Unexamined(why: Error) | Found(entry: Entry)

  /** What the callback is told of a file; nothing for a root that could not be examined. */
  datatype Info = Absent | Info(isDir: bool, symlink: bool)

  /** One call of the callback: the path, what is known of the file, and the error so far. */
  datatype Event = Event(path: string, info: Info, err: Option<Error>)

  /** The callback, with whatever state it keeps. */
  type Callback<!S> = (S, Event) -> (S, Option<Error>)

  datatype Walked<S> = Walked(state: S, err: Option<Error>)

  function JoinPath(path: string, name: string): string
  {
    path + ['/'] + name
  }

  function Call<S>(fn: Callback<S>, s: S, e: Event): Walked<S>
  {
    var (s', r) := fn(s, e);
    Walked(s', r)
  }

  function EventOf(e: Entry, path: string): Event
  {
    match e
    case Leaf(_, symlink) => Event(path, Info(false, symlink), None)
    case Dir(_, Unopenable(why)) => Event(path, Info(true, false), Some(why))
    case Dir(_, Unreadable(why)) => Event(path, Info(true, false), Some(why))
    case Dir(_, Children(_)) => Event(path, Info(true, false), None)
  }

  /** The callback sees the path and what kind of file it is, and an error exactly where listing fails. */
  lemma ToldOf(e: Entry, path: string)
    ensures EventOf(e, path).path == path && EventOf(e, path).info.Info?
    ensures EventOf(e, path).info.isDir <==> e.Dir?
    ensures EventOf(e, path).info.symlink <==> e.Leaf? && e.symlink
    ensures EventOf(e, path).err.Some? <==> e.Dir? && !e.listing.Children?
    ensures EventOf(e, path).err.Some? ==> EventOf(e, path).err.value == e.listing.why
  {
  }

  /** walk: the error it returns decides how the caller goes on. */
  function WalkEntry<S>(fn: Callback<S>, e: Entry, path: string, s: S): Walked<S>
    decreases e, 1
  {
    var c := Call(fn, s, EventOf(e, path));
    match e
    case Leaf(_, _) => c
    case Dir(_, Unopenable(why)) => if c.err.Some? then c else Walked(c.state, Some(why))
    case Dir(_, Unreadable(_)) => c
    case Dir(_, Children(entries)) => if c.err.Some? then c else WalkEntries(fn, entries, path, c.state)
  }

  function WalkEntries<S>(fn: Callback<S>, entries: seq<Entry>, path: string, s: S): Walked<S>
    decreases entries, 0
  {
    if entries == [] then Walked(s, None)
    else
      var r := WalkEntry(fn, entries[0], JoinPath(path, entries[0].name), s);
      if r.err.Some? && (entries[0].Leaf? || r.err.value != SkipDir) then r
      else WalkEntries(fn, entries[1..], path, r.state)
  }

  /** Walk: a skip that nothing handled is no error. */
  function Walk<S>(fn: Callback<S>, root: Root, path: string, s: S): Walked<S>
  {
    if root.Unopened? then Walked(s, Some(root.why))
    else
      var r := if root.Unexamined? then Call(fn, s, Event(path, Absent, Some(root.why)))
               else WalkEntry(fn, root.entry, path, s);
      if r.err == Some(SkipDir) then Walked(r.state, None) else r
  }

  // ---------------------------------------------------------------- the flat form

  /** A call to make, how many of the following items a skip jumps over, and the error if the call has none. */
  datatype Item = Item(event: Event, skip: nat, otherwise: Option<Error>)

  /** The items of an entry in preorder; `later` items of the same directory follow it. */
  function Items(e: Entry, path: string, later: nat): seq<Item>
    decreases e, 1
  {
    match e
    case Leaf(_, _) => [Item(EventOf(e, path), later, None)]
    case Dir(_, Unopenable(why)) => [Item(EventOf(e, path), 0, Some(why))]
    case Dir(_, Unreadable(_)) => [Item(EventOf(e, path), 0, None)]
    case Dir(_, Children(entries)) =>
      var below := AllItems(entries, path);
      [Item(EventOf(e, path), |below|, None)] + below
  }

  function AllItems(entries: seq<Entry>, path: string): seq<Item>
    decreases entries, 0
  {
    if entries == [] then []
    else
      var later := AllItems(entries[1..], path);
      Items(entries[0], JoinPath(path, entries[0].name), |later|) + later
  }

  /** One pass: no error goes on, a skip jumps, any other error stops. */
  function Pass<S>(fn: Callback<S>, items: seq<Item>, s: S): Walked<S>
    decreases |items|
  {
    if items == [] then Walked(s, None)
    else
      var c := Call(fn, s, items[0].event);
      var err := if c.err.Some? then c.err else items[0].otherwise;
      match err
      case None => Pass(fn, items[1..], c.state)
      case Some(SkipDir) => Pass(fn, if items[0].skip < |items| then items[1 + items[0].skip..] else [], c.state)
      case Some(e) => Walked(c.state, Some(e))
  }

  /** What the pass does after an entry, by the error the walk of the entry returned. */
  function Continue<S>(fn: Callback<S>, r: Walked<S>, unskipped: seq<Item>, skipped: seq<Item>): Walked<S>
  {
    match r.err
    case None => Pass(fn, unskipped, r.state)
    case Some(SkipDir) => Pass(fn, skipped, r.state)
    case Some(e) => r
  }

  lemma {:induction false} EntryIsPass<S>(fn: Callback<S>, e: Entry, path: string, s: S, later: nat, rest: seq<Item>)
    requires later <= |rest|
    ensures Pass(fn, Items(e, path, later) + rest, s) ==
            Continue(fn, WalkEntry(fn, e, path, s), rest, if e.Leaf? then rest[later..] else rest)
    decreases e, 1
  {
    var items := Items(e, path, later);
    var all := items + rest;
    var c := Call(fn, s, EventOf(e, path));
    if e.Dir? && e.listing.Children? {
      var below := AllItems(e.listing.entries, path);
      assert all == [items[0]] + (below + rest);
      assert all[1..] == below + rest;
      assert all[1 + |below|..] == rest;
      EntriesArePass(fn, e.listing.entries, path, c.state, rest);
    } else {
      assert all[1..] == rest;
      assert all[1 + later..] == rest[later..];
    }
  }

  lemma {:induction false} EntriesArePass<S>(fn: Callback<S>, entries: seq<Entry>, path: string, s: S, rest: seq<Item>)
    ensures Pass(fn, AllItems(entries, path) + rest, s) == Continue(fn, WalkEntries(fn, entries, path, s), rest, rest)
    decreases entries, 0
  {
    if entries == [] {
      assert AllItems(entries, path) + rest == rest;
    } else {
      var e, p := entries[0], JoinPath(path, entries[0].name);
      var later := AllItems(entries[1..], path);
      var after := later + rest;
      assert AllItems(entries, path) + rest == Items(e, p, |later|) + after;
      EntryIsPass(fn, e, p, s, |later|, after);
      assert after[|later|..] == rest;
      var r := WalkEntry(fn, e, p, s);
      EntriesArePass(fn, entries[1..], path, r.state, rest);
    }
  }

  function RootItems(root: Root, path: string): seq<Item>
  {
    match root
    case Unopened(_) => []
    case Unexamined(why) => [Item(Event(path, Absent, Some(why)), 0, None)]
    case Found(entry) => Items(entry, path, 0)
  }

  /**
   The walk makes exactly the calls of the flat pass, in order, and returns its error: a skip
   from a directory jumps over what is below it, a skip from a file over the rest of its
   directory, and any other error ends the walk. Only a root that cannot be opened is reported
   without a call.
   */
  lemma WalkIsPass<S>(fn: Callback<S>, root: Root, path: string, s: S)
    ensures Walk(fn, root, path, s) ==
            if root.Unopened? then Walked(s, Some(root.why)) else Pass(fn, RootItems(root, path), s)
  {
    match root {
      case Unopened(_) =>
      case Unexamined(why) =>
        assert RootItems(root, path)[1..] == [];
      case Found(entry) =>
        EntryIsPass(fn, entry, path, s, 0, []);
        assert Items(entry, path, 0) + [] == Items(entry, path, 0);
        assert Pass(fn, [], WalkEntry(fn, entry, path, s).state) == Walked(WalkEntry(fn, entry, path, s).state, None);
    }
  }
}
