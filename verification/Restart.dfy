/**
 Handing listeners from a process to its successor (NewServer and the global tables of
 servers/grace.go, getListener, ListenAndServe and fork of servers/server.go), over any number
 of restarts.
 */
module Restart {
  import opened Wrappers
  import opened Text

  /** An open socket; the descriptors passed on stand for the socket itself. */
  type Listener = nat

  const GRACEFUL := "-graceful"

  const ORDER := "-socketorder="

  // ---------------------------------------------------------------- the offset table

  /** The loop of NewServer over the addresses of `-socketorder`. */
  function Numbered(offsets: map<string, nat>, parts: seq<string>): map<string, nat>
  {
    if parts == [] then offsets
    else Numbered(offsets, parts[..|parts| - 1])[parts[|parts| - 1] := |parts| - 1]
  }

  function Register(offsets: map<string, nat>, socketOrder: string, registered: nat, addr: string): map<string, nat>
  {
    if |socketOrder| > 0 then Numbered(offsets, Split(socketOrder, ",")) else offsets[addr := registered]
  }

  /** The table after the addresses were registered in this order. */
  function RegisterAll(socketOrder: string, order: seq<string>): map<string, nat>
  {
    if order == [] then map[]
    else
      var before := order[..|order| - 1];
      Register(RegisterAll(socketOrder, before), socketOrder, |before|, order[|order| - 1])
  }

  lemma RegisterNext(socketOrder: string, order: seq<string>, addr: string)
    ensures RegisterAll(socketOrder, order + [addr]) ==
            Register(RegisterAll(socketOrder, order), socketOrder, |order|, addr)
  {
    assert (order + [addr])[..|order|] == order;
  }

  /** The Go map yields zero for an address it does not hold. */
  function SlotOf(offsets: map<string, nat>, addr: string): nat
  {
    if addr in offsets then offsets[addr] else 0
  }

  /** The offsets number exactly these addresses, each one once, from zero. */
  predicate IsTable(table: seq<string>, offsets: map<string, nat>)
  {
    (forall i :: 0 <= i < |table| ==> table[i] in offsets && offsets[table[i]] == i) &&
    forall a :: a in offsets ==> a in table
  }

  predicate Distinct(s: seq<string>)
  {
    forall i, j :: 0 <= i < j < |s| ==> s[i] != s[j]
  }

  predicate ValidAddress(a: string)
  {
    a != "" && ',' !in a
  }

  ghost predicate SameAddresses(order: seq<string>, table: seq<string>)
  {
    Distinct(order) && forall a :: a in order <==> a in table
  }

  lemma {:induction false} NumberedIsTable(offsets: map<string, nat>, parts: seq<string>)
    requires Distinct(parts) && forall a :: a in offsets ==> a in parts
    ensures forall i :: 0 <= i < |parts| ==>
              parts[i] in Numbered(offsets, parts) && Numbered(offsets, parts)[parts[i]] == i
    ensures forall a :: a in Numbered(offsets, parts) ==> a in parts
  {
    NumberedSome(offsets, parts);
  }

  lemma {:induction false} NumberedSome(offsets: map<string, nat>, parts: seq<string>)
    requires Distinct(parts)
    ensures forall i :: 0 <= i < |parts| ==>
              parts[i] in Numbered(offsets, parts) && Numbered(offsets, parts)[parts[i]] == i
    ensures forall a :: a in Numbered(offsets, parts) ==> a in parts || a in offsets
  {
    if parts != [] {
      NumberedSome(offsets, parts[..|parts| - 1]);
    }
  }

  /** A first process numbers its addresses in the order in which it registers them. */
  lemma {:induction false} RootTable(order: seq<string>)
    requires Distinct(order)
    ensures IsTable(order, RegisterAll("", order))
  {
    if order != [] {
      RootTable(order[..|order| - 1]);
    }
  }

  lemma JoinNotEmpty(table: seq<string>)
    requires |table| > 1
    ensures |Join(table, ',')| > 0
  {
  }

  /** A child restores the table it was passed, in whatever order it registers its addresses. */
  lemma {:induction false} ChildTable(table: seq<string>, order: seq<string>)
    requires |table| > 1 && Distinct(table) && forall a :: a in table ==> ValidAddress(a)
    requires order != []
    ensures IsTable(table, RegisterAll(Join(table, ','), order))
  {
    var before := order[..|order| - 1];
    SplitOfJoin(table, ',');
    JoinNotEmpty(table);
    if before != [] {
      ChildTable(table, before);
    }
    NumberedIsTable(RegisterAll(Join(table, ','), before), table);
  }

  /** The names survive being joined and split if and only if none holds a comma. */
  lemma JoinRestoresIff(table: seq<string>)
    requires table != []
    ensures Split(Join(table, ','), ",") == table <==> forall a :: a in table ==> ',' !in a
  {
    if forall a :: a in table ==> ',' !in a {
      SplitOfJoin(table, ',');
    }
    if Split(Join(table, ','), ",") == table {
      PartsOfSplit(Join(table, ','), ",");
      forall a | a in table ensures ',' !in a {
        assert ","[0] == ',';
        assert forall i :: 0 <= i < |a| ==> a[i] !in ",";
      }
    }
  }

  // ---------------------------------------------------------------- the arguments

  /** The arguments before the first `-graceful`. */
  function OwnArgs(args: seq<string>): (r: seq<string>)
    ensures GRACEFUL !in r
  {
    if args == [] || args[0] == GRACEFUL then [] else [args[0]] + OwnArgs(args[1..])
  }

  function RebuiltArgs(args: seq<string>, names: seq<string>): seq<string>
  {
    OwnArgs(args) + [GRACEFUL] + (if |names| > 1 then [ORDER + Join(names, ',')] else [])
  }

  lemma {:induction false} OwnArgsCut(own: seq<string>, rest: seq<string>)
    requires GRACEFUL !in own && rest != [] && rest[0] == GRACEFUL
    ensures OwnArgs(own + rest) == own
  {
    if own == [] {
      assert own + rest == rest;
    } else {
      assert own[0] in own && own[0] != GRACEFUL;
      assert (own + rest)[1..] == own[1..] + rest;
      OwnArgsCut(own[1..], rest);
    }
  }

  lemma OwnOfRebuilt(args: seq<string>, names: seq<string>)
    ensures OwnArgs(RebuiltArgs(args, names)) == OwnArgs(args)
  {
    var flags := [GRACEFUL] + (if |names| > 1 then [ORDER + Join(names, ',')] else []);
    assert RebuiltArgs(args, names) == OwnArgs(args) + flags;
    OwnArgsCut(OwnArgs(args), flags);
  }

  /** Rebuilding the arguments again changes nothing. */
  lemma RebuiltTwice(args: seq<string>, names: seq<string>)
    ensures RebuiltArgs(RebuiltArgs(args, names), names) == RebuiltArgs(args, names)
  {
    OwnOfRebuilt(args, names);
  }

  /** What the flags say of `-socketorder`: the last value given, or nothing. */
  function OrderFlag(args: seq<string>): string
  {
    if args == [] then ""
    else
      var last := args[|args| - 1];
      if ORDER <= last then last[|ORDER|..] else OrderFlag(args[..|args| - 1])
  }

  lemma OrderFlagSkips(args: seq<string>, arg: string)
    requires !(ORDER <= arg)
    ensures OrderFlag(args + [arg]) == OrderFlag(args)
  {
    assert (args + [arg])[..|args|] == args;
  }

  lemma OrderFlagGiven(args: seq<string>, order: string)
    ensures OrderFlag(args + [ORDER + order]) == order
  {
    assert (ORDER + order)[|ORDER|..] == order;
  }

  /** A process started with the rebuilt arguments reads its parent's addresses out of them. */
  lemma OrderIsPassedOn(args: seq<string>, names: seq<string>)
    ensures GRACEFUL in RebuiltArgs(args, names)
    ensures OrderFlag(RebuiltArgs(args, names)) == if |names| > 1 then Join(names, ',') else OrderFlag(OwnArgs(args))
  {
    var graceful := OwnArgs(args) + [GRACEFUL];
    NotTheOrder(GRACEFUL);
    OrderFlagSkips(OwnArgs(args), GRACEFUL);
    if |names| > 1 {
      OrderFlagGiven(graceful, Join(names, ','));
    } else {
      assert graceful + [] == graceful;
    }
    assert RebuiltArgs(args, names)[|OwnArgs(args)|] == GRACEFUL;
  }

  lemma NotTheOrder(arg: string)
    requires |arg| == |GRACEFUL|
    ensures !(ORDER <= arg)
  {
  }

  // ---------------------------------------------------------------- processes

  /**
   A process: its flags and arguments, the descriptors it was given, the addresses in the order
   it registered them, and the listener of each server once it has one.
   */
  datatype Proc = Proc(isChild: bool, socketOrder: string, args: seq<string>, inherited: seq<Option<Listener>>,
                       order: seq<string>, servers: map<string, Option<Listener>>)
  {
    function Offsets(): map<string, nat>
    {
      RegisterAll(socketOrder, order)
    }
  }

  /** The flags are those of the arguments. */
  predicate FlagsRead(p: Proc)
  {
    p.isChild == (GRACEFUL in p.args) && p.socketOrder == OrderFlag(p.args)
  }

  /** ListenAndServe's default. */
  function Laddr(addr: string): string
  {
    if addr == "" then ":http" else addr
  }

  /** getListener of a child: descriptor 3 plus the offset. */
  function Inherited(inherited: seq<Option<Listener>>, offsets: map<string, nat>, laddr: string): Option<Listener>
  {
    var slot := SlotOf(offsets, laddr);
    if slot < |inherited| then inherited[slot] else None
  }

  /** What fork puts into its two arrays. */
  predicate Filled(files: seq<Option<Listener>>, names: seq<string>, offsets: map<string, nat>,
                   servers: map<string, Option<Listener>>)
  {
    |files| == |servers| && |names| == |servers| &&
    forall a :: a in servers ==>
                  SlotOf(offsets, a) < |servers| && files[SlotOf(offsets, a)] == servers[a] &&
                    names[SlotOf(offsets, a)] == a
  }

  /** fork gets through its loop: each server has a listener, and a slot within the arrays. */
  ghost predicate Ready(offsets: map<string, nat>, servers: map<string, Option<Listener>>)
  {
    forall a :: a in servers ==> servers[a].Some? && SlotOf(offsets, a) < |servers|
  }

  /** No two servers share a slot. */
  ghost predicate OwnSlots(offsets: map<string, nat>, servers: map<string, Option<Listener>>)
  {
    forall a, b :: a in servers && b in servers && a != b ==> SlotOf(offsets, a) != SlotOf(offsets, b)
  }

  /** The servers visited so far had what it takes, and their slots are filled. */
  ghost predicate Stored(files: seq<Option<Listener>>, names: seq<string>, offsets: map<string, nat>,
                         servers: map<string, Option<Listener>>, left: set<string>)
  {
    |files| == |names| == |servers| && left <= servers.Keys &&
    (forall a :: a in servers && a !in left ==> servers[a].Some? && SlotOf(offsets, a) < |servers|) &&
    (OwnSlots(offsets, servers) ==>
       forall a :: a in servers && a !in left ==>
         files[SlotOf(offsets, a)] == servers[a] && names[SlotOf(offsets, a)] == a)
  }

  lemma StoredNext(files: seq<Option<Listener>>, names: seq<string>, offsets: map<string, nat>,
                   servers: map<string, Option<Listener>>, left: set<string>, a: string)
    requires Stored(files, names, offsets, servers, left) && a in left
    requires servers[a].Some? && SlotOf(offsets, a) < |servers|
    ensures var slot := SlotOf(offsets, a);
            Stored(files[slot := servers[a]], names[slot := a], offsets, servers, left - {a})
  {
  }

  /** `c` is what fork starts, once it has registered the same addresses and opened their listeners. */
  ghost predicate Successor(p: Proc, c: Proc, names: seq<string>)
  {
    Filled(c.inherited, names, p.Offsets(), p.servers) &&
    FlagsRead(c) && c.args == RebuiltArgs(p.args, names) &&
    SameAddresses(c.order, p.order) &&
    c.servers == map a | a in c.order :: Inherited(c.inherited, c.Offsets(), Laddr(a))
  }

  /** A first process, all of whose servers listen. */
  ghost predicate Root(p: Proc)
  {
    FlagsRead(p) && !p.isChild && p.socketOrder == "" && Distinct(p.order) &&
    (forall a :: a in p.order ==> ValidAddress(a)) &&
    (forall a :: a in p.servers <==> a in p.order) && forall a :: a in p.servers ==> p.servers[a].Some?
  }

  /** What every generation keeps of the first one. */
  ghost predicate Kept(root: Proc, p: Proc)
  {
    IsTable(root.order, p.Offsets()) && SameAddresses(p.order, root.order) && p.servers == root.servers &&
    OwnArgs(p.args) == OwnArgs(root.args)
  }

  function SetOf(s: seq<string>): set<string>
  {
    set a | a in s
  }

  lemma {:induction false} CardOf(s: seq<string>)
    requires Distinct(s)
    ensures |SetOf(s)| == |s|
  {
    if s != [] {
      var t, x := s[..|s| - 1], s[|s| - 1];
      CardOf(t);
      assert SetOf(s) == SetOf(t) + {x};
    }
  }

  lemma ServerCount(table: seq<string>, servers: map<string, Option<Listener>>)
    requires Distinct(table) && forall a :: a in servers <==> a in table
    ensures |servers| == |table|
  {
    CardOf(table);
    assert servers.Keys == SetOf(table);
  }

  /** The names are the table: every slot is filled, by the address whose number it is. */
  lemma NamesAreTable(table: seq<string>, p: Proc, files: seq<Option<Listener>>, names: seq<string>)
    requires Distinct(table) && IsTable(table, p.Offsets())
    requires (forall a :: a in p.servers <==> a in table) && Filled(files, names, p.Offsets(), p.servers)
    ensures names == table
  {
    ServerCount(table, p.servers);
    forall i | 0 <= i < |table| ensures names[i] == table[i] {
      assert table[i] in p.servers;
    }
  }

  lemma SameSingle(order: seq<string>, table: seq<string>)
    requires SameAddresses(order, table) && Distinct(table) && |table| <= 1
    ensures order == table
  {
    CardOf(order);
    CardOf(table);
    assert SetOf(order) == SetOf(table);
    if |order| == 1 {
      assert order[0] in table;
    }
  }

  lemma ChildOffsets(table: seq<string>, order: seq<string>)
    requires Distinct(table) && SameAddresses(order, table) && forall a :: a in table ==> ValidAddress(a)
    ensures IsTable(table, RegisterAll(if |table| > 1 then Join(table, ',') else "", order))
  {
    if |table| > 1 {
      assert table[0] in order;
      ChildTable(table, order);
    } else {
      SameSingle(order, table);
      RootTable(order);
    }
  }

  /** Two tables of the same addresses give each the same number. */
  lemma SameSlots(table: seq<string>, offsets: map<string, nat>, offsets': map<string, nat>)
    requires IsTable(table, offsets) && IsTable(table, offsets')
    ensures offsets == offsets'
  {
  }

  /** A child opens for each address the very listener its parent holds. */
  lemma SuccessorKeeps(root: Proc, p: Proc, c: Proc, names: seq<string>)
    requires Root(root) && Kept(root, p) && Successor(p, c, names)
    ensures names == root.order && Kept(root, c) && c.isChild
    ensures c.socketOrder == if |names| > 1 then Join(names, ',') else ""
  {
    OwnFlags(root);
    OrderIsPassedOn(p.args, names);
    OwnOfRebuilt(p.args, names);
    NamesAreTable(root.order, p, c.inherited, names);
    ChildOffsets(root.order, c.order);
    SameSlots(root.order, p.Offsets(), c.Offsets());
    SameServers(root, p, c, names);
  }

  /** A first process was started without either flag. */
  lemma OwnFlags(root: Proc)
    requires Root(root)
    ensures OwnArgs(root.args) == root.args && OrderFlag(OwnArgs(root.args)) == ""
  {
    NothingCut(root.args);
  }

  lemma {:induction false} NothingCut(args: seq<string>)
    requires GRACEFUL !in args
    ensures OwnArgs(args) == args
  {
    if args != [] {
      assert args[0] in args;
      NothingCut(args[1..]);
    }
  }

  lemma SameServers(root: Proc, p: Proc, c: Proc, names: seq<string>)
    requires Root(root) && Kept(root, p) && Filled(c.inherited, names, p.Offsets(), p.servers)
    requires SameAddresses(c.order, p.order) && c.Offsets() == p.Offsets()
    requires c.servers == map a | a in c.order :: Inherited(c.inherited, c.Offsets(), Laddr(a))
    ensures c.servers == p.servers
  {
    assert c.servers.Keys == p.servers.Keys;
    forall a | a in c.servers ensures c.servers[a] == p.servers[a] {
      OwnListener(p, c, names, a);
    }
  }

  lemma OwnListener(p: Proc, c: Proc, names: seq<string>, a: string)
    requires a in p.servers && ValidAddress(a) && Filled(c.inherited, names, p.Offsets(), p.servers)
    requires c.Offsets() == p.Offsets()
    ensures Inherited(c.inherited, c.Offsets(), Laddr(a)) == p.servers[a]
  {
  }

  /** A child asks for the slot of an address if and only if the address is not empty, or harmlessly first. */
  lemma LaddrSlotIff(table: seq<string>, offsets: map<string, nat>, addr: string)
    requires IsTable(table, offsets) && addr in table
    ensures SlotOf(offsets, Laddr(addr)) == SlotOf(offsets, addr) <==>
            addr != "" || (table[0] == "" && ":http" !in table)
  {
    var i :| 0 <= i < |table| && table[i] == addr;
    if ":http" in table {
      var j :| 0 <= j < |table| && table[j] == ":http";
    }
  }

  /** A run: each process starts the next one, with the names it wrote into `-socketorder`. */
  ghost predicate Generations(run: seq<Proc>, names: seq<seq<string>>)
  {
    |run| == |names| + 1 && Root(run[0]) &&
    (|names| > 0 ==> Generations(run[..|names|], names[..|names| - 1]) &&
                     Successor(run[|names| - 1], run[|names|], names[|names| - 1]))
  }

  /**
   After any number of restarts, with addresses registered anew in any order: the table is a
   bijection from the addresses onto 0..n-1, the same one as at the start; every server holds
   the listener its forebears held; and from the first restart on the arguments stay the same.
   */
  lemma {:induction false} ListenersAreInherited(run: seq<Proc>, names: seq<seq<string>>)
    requires Generations(run, names)
    ensures Kept(run[0], run[|names|])
    ensures |names| > 0 ==> names[|names| - 1] == run[0].order
    ensures |names| > 0 ==> run[|names|].args == RebuiltArgs(run[0].args, run[0].order)
  {
    var n := |names|;
    if n == 0 {
      RootTable(run[0].order);
    } else {
      ListenersAreInherited(run[..n], names[..n - 1]);
      assert run[..n][n - 1] == run[n - 1] && run[..n][0] == run[0];
      SuccessorKeeps(run[0], run[n - 1], run[n], names[n - 1]);
      RebuiltTwice(run[0].args, run[0].order);
    }
  }

  // ---------------------------------------------------------------- restarting too early

  /**
   A child that is told to restart before it has registered all addresses stays within fork's
   arrays if and only if the addresses it has registered come first in the table.
   */
  lemma EarlyForkFitsIff(table: seq<string>, offsets: map<string, nat>, servers: map<string, Option<Listener>>)
    requires IsTable(table, offsets) && forall a :: a in servers ==> a in table
    ensures |servers| <= |table|
    ensures (forall a :: a in servers ==> SlotOf(offsets, a) < |servers|) <==> servers.Keys == SetOf(table[..|servers|])
  {
    DistinctTable(table, offsets);
    var r := servers.Keys;
    assert r <= SetOf(table);
    SubsetCount(r, SetOf(table));
    CardOf(table);
    var first := SetOf(table[..|r|]);
    assert Distinct(table[..|r|]);
    CardOf(table[..|r|]);
    if forall a :: a in servers ==> SlotOf(offsets, a) < |servers| {
      forall a | a in r ensures a in first {
        var i :| 0 <= i < |table| && table[i] == a;
        assert table[..|r|][i] == a;
      }
      SameCount(r, first);
    }
    if r == first {
      forall a | a in servers ensures SlotOf(offsets, a) < |servers| {
        var i :| 0 <= i < |r| && table[..|r|][i] == a;
        assert table[i] == a;
      }
    }
  }

  /** A child that has registered only its second address is out of bounds. */
  lemma EarlyForkOverruns(table: seq<string>, offsets: map<string, nat>, l: Listener)
    requires IsTable(table, offsets) && |table| > 1
    ensures !Ready(offsets, map[table[1] := Some(l)])
  {
    var servers: map<string, Option<Listener>> := map[table[1] := Some(l)];
    assert servers.Keys == {table[1]} && |servers| == 1;
    assert table[1] in servers && SlotOf(offsets, table[1]) == 1;
  }

  lemma DistinctTable(table: seq<string>, offsets: map<string, nat>)
    requires IsTable(table, offsets)
    ensures Distinct(table)
  {
  }

  lemma SubsetCount<T>(a: set<T>, b: set<T>)
    requires a <= b
    ensures |a| <= |b|
  {
    assert b == a + (b - a);
  }

  lemma SameCount<T>(a: set<T>, b: set<T>)
    requires a <= b && |a| == |b|
    ensures a == b
  {
    assert b == a + (b - a);
  }

  // ---------------------------------------------------------------- the global tables

  /** What fork does: nothing, panic, or start a process with these arguments and files. */
  datatype Forked = Nothing | Panic | Started(args: seq<string>, files: seq<Option<Listener>>)

  class Process {
    const isChild: bool
    const socketOrder: string
    const args: seq<string>
    const inherited: seq<Option<Listener>>
    var runningServers: map<string, Option<Listener>>
    var runningServersOrder: seq<string>
    var socketPtrOffsetMap: map<string, nat>
    var runningServersForked: bool

    function State(): Proc
      reads this
    {
      Proc(isChild, socketOrder, args, inherited, runningServersOrder, runningServers)
    }

    ghost predicate Valid()
      reads this
    {
      socketPtrOffsetMap == State().Offsets() && forall a :: a in runningServers <==> a in runningServersOrder
    }

    constructor (args: seq<string>, inherited: seq<Option<Listener>>)
      ensures Valid() && FlagsRead(State()) && !runningServersForked
      ensures State() == Proc(isChild, socketOrder, args, inherited, [], map[])
    {
      this.args, this.inherited := args, inherited;
      isChild, socketOrder := GRACEFUL in args, OrderFlag(args);
      runningServers, runningServersOrder, socketPtrOffsetMap, runningServersForked := map[], [], map[], false;
    }

    method NumberAddresses(parts: seq<string>)
      modifies this`socketPtrOffsetMap
      ensures socketPtrOffsetMap == Numbered(old(socketPtrOffsetMap), parts)
    {
      assert parts[..0] == [];
      for i := 0 to |parts|
        invariant socketPtrOffsetMap == Numbered(old(socketPtrOffsetMap), parts[..i])
      {
        assert parts[..i + 1][..i] == parts[..i];
        socketPtrOffsetMap := socketPtrOffsetMap[parts[i] := i];
      }
      assert parts[..|parts|] == parts;
    }

    method NewServer(addr: string)
      requires Valid()
      modifies this`runningServers, this`runningServersOrder, this`socketPtrOffsetMap
      ensures Valid()
      ensures State() == old(State()).(order := old(runningServersOrder) + [addr],
                servers := old(runningServers)[addr := None])
    {
      if |socketOrder| > 0 {
        NumberAddresses(Split(socketOrder, ","));
      } else {
        socketPtrOffsetMap := socketPtrOffsetMap[addr := |runningServersOrder|];
      }
      RegisterNext(socketOrder, runningServersOrder, addr);
      runningServersOrder := runningServersOrder + [addr];
      runningServers := runningServers[addr := None];
    }

    /** Opens the server's listener; `bound` is what binding the address gives a first process. */
    method ListenAndServe(addr: string, bound: Option<Listener>) returns (ok: bool)
      requires Valid() && addr in runningServers
      modifies this`runningServers
      ensures Valid()
      ensures var l := if isChild then Inherited(inherited, socketPtrOffsetMap, Laddr(addr)) else bound;
              ok == l.Some? && runningServers == old(runningServers)[addr := l]
    {
      var laddr := if addr == "" then ":http" else addr;
      var ln := bound;
      if isChild {
        var ptrOffset := 0;
        if |socketPtrOffsetMap| > 0 {
          ptrOffset := SlotOf(socketPtrOffsetMap, laddr);
        }
        ln := if ptrOffset < |inherited| then inherited[ptrOffset] else None;
      }
      runningServers := runningServers[addr := ln];
      return ln.Some?;
    }

    /**
     Starts the next process, once: later calls do nothing. Panics when some server has no
     listener, or a slot outside of the arrays; which server it comes to first makes no difference.
     */
    method Fork() returns (r: Forked)
      requires Valid()
      modifies this`runningServersForked
      ensures Valid() && runningServersForked
      ensures r.Nothing? <==> old(runningServersForked)
      ensures r.Started? <==> !old(runningServersForked) && Ready(socketPtrOffsetMap, runningServers)
      ensures r.Started? && OwnSlots(socketPtrOffsetMap, runningServers) ==>
                exists names :: Filled(r.files, names, socketPtrOffsetMap, runningServers) &&
                  r.args == RebuiltArgs(args, names)
    {
      if runningServersForked {
        return Nothing;
      }
      runningServersForked := true;
      var n := |runningServers|;
      var files := new Option<Listener>[n](_ => None);
      var orderArgs := new string[n](_ => "");
      var ok := FillSlots(files, orderArgs);
      if !ok {
        return Panic;
      }
      var newArgs := ChildArguments(orderArgs[..]);
      return Started(newArgs, files[..]);
    }

    method FillSlots(files: array<Option<Listener>>, orderArgs: array<string>) returns (ok: bool)
      requires files.Length == |runningServers| == orderArgs.Length
      modifies files, orderArgs
      ensures ok <==> Ready(socketPtrOffsetMap, runningServers)
      ensures ok && OwnSlots(socketPtrOffsetMap, runningServers) ==>
                Filled(files[..], orderArgs[..], socketPtrOffsetMap, runningServers)
    {
      var left := runningServers.Keys;
      while left != {}
        invariant Stored(files[..], orderArgs[..], socketPtrOffsetMap, runningServers, left)
        decreases |left|
      {
        var a :| a in left;
        var slot := SlotOf(socketPtrOffsetMap, a);
        if runningServers[a].None? || slot >= files.Length {
          return false;
        }
        StoredNext(files[..], orderArgs[..], socketPtrOffsetMap, runningServers, left, a);
        files[slot] := runningServers[a];
        orderArgs[slot] := a;
        left := left - {a};
      }
      return true;
    }

    method ChildArguments(names: seq<string>) returns (r: seq<string>)
      ensures r == RebuiltArgs(args, names)
    {
      r := [];
      var i := 0;
      assert args[0..] == args && [] + OwnArgs(args) == OwnArgs(args);
      while i < |args| && args[i] != GRACEFUL
        invariant i <= |args| && r + OwnArgs(args[i..]) == OwnArgs(args)
      {
        assert args[i..][1..] == args[i + 1..];
        Assoc(r, [args[i]], OwnArgs(args[i + 1..]));
        r := r + [args[i]];
        i := i + 1;
      }
      assert r + [] == r;
      r := r + [GRACEFUL];
      if |names| > 1 {
        r := r + [ORDER + Join(names, ',')];
      }
    }
  }

  /** In a process whose table is complete and whose servers all listen, fork goes through and keeps slots apart. */
  lemma CompleteTableForks(table: seq<string>, offsets: map<string, nat>, servers: map<string, Option<Listener>>)
    requires IsTable(table, offsets) && forall a :: a in servers <==> a in table
    ensures OwnSlots(offsets, servers)
    ensures Ready(offsets, servers) <==> forall a :: a in servers ==> servers[a].Some?
  {
    DistinctTable(table, offsets);
    ServerCount(table, servers);
    forall a | a in servers ensures SlotOf(offsets, a) < |servers| && table[SlotOf(offsets, a)] == a {
      var i :| 0 <= i < |table| && table[i] == a;
    }
  }
}
