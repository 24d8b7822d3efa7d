/** The environment: setenv, unsetenv and getenv over the table `environ`. */
module Environ {
  datatype Option<T> = None | Some(value: T)

  /** A slot of a table: a pointer to a string, or NULL. */
  datatype Slot = Null | Str(s: string)

  // ----- variables

  /** strncmp, and an equals sign behind the name. */
  predicate Names(entry: string, name: string) {
    |name| < |entry| && entry[..|name|] == name && entry[|name|] == '='
  }

  function Entry(name: string, value: string): string { name + "=" + value }

  /** The position of the first entry for the name, or the number of entries. */
  function Find(vars: seq<string>, name: string): (i: nat)
    ensures i <= |vars|
    ensures i < |vars| ==> Names(vars[i], name)
    ensures forall j :: 0 <= j < i ==> !Names(vars[j], name)
  {
    if vars == [] || Names(vars[0], name) then 0 else 1 + Find(vars[1..], name)
  }

  function Lookup(vars: seq<string>, name: string): Option<string> {
    var i := Find(vars, name); if i < |vars| then Some(vars[i][|name| + 1..]) else None
  }

  function PutEntry(vars: seq<string>, name: string, entry: string, replace: bool): seq<string> {
    var i := Find(vars, name);
    if i == |vars| then vars + [entry] else if replace then vars[i := entry] else vars
  }

  function Put(vars: seq<string>, name: string, value: string, replace: bool): seq<string> {
    PutEntry(vars, name, Entry(name, value), replace)
  }

  function Drop(vars: seq<string>, name: string): seq<string> {
    if vars == [] then []
    else (if Names(vars[0], name) then [] else [vars[0]]) + Drop(vars[1..], name)
  }

  // ----- they are a map

  /** Where the name of an entry ends. */
  function NameEnd(e: string): (n: nat)
    ensures n <= |e| && (n < |e| ==> e[n] == '=') && forall j :: 0 <= j < n ==> e[j] != '='
  {
    if e == [] || e[0] == '=' then 0 else 1 + NameEnd(e[1..])
  }

  lemma NamedByPrefix(e: string, name: string)
    requires '=' !in name && Names(e, name)
    ensures name == e[..NameEnd(e)]
  {
    forall j | 0 <= j < |name| ensures e[j] != '=' { assert e[j] == e[..|name|][j] == name[j]; }
    assert e[|name|] == '=';
  }

  lemma BothNamed(e: string, a: string, b: string)
    requires '=' !in a && '=' !in b && Names(e, a) && Names(e, b)
    ensures a == b
  {
    NamedByPrefix(e, a);
    NamedByPrefix(e, b);
  }

  /** An entry made for a name is an entry for no other name. */
  lemma EntryNames(name: string, value: string, other: string)
    requires '=' !in name && '=' !in other
    ensures Names(Entry(name, value), other) <==> other == name
    ensures Entry(name, value)[|name| + 1..] == value
  {
    var e := Entry(name, value);
    assert e[..|name|] == name && e[|name|] == '=';
    if Names(e, other) { BothNamed(e, name, other); }
  }

  lemma NamesInFull(e: string, name: string)
    ensures Names(e, name) <==> name + "=" <= e
  {
    if |name| < |e| { assert e[..|name| + 1] == e[..|name|] + [e[|name|]]; }
  }

  /** In full: the value of a name stands behind the equals sign of the first entry that begins with both. */
  lemma FirstEntryCounts(vars: seq<string>, name: string, value: string, i: nat)
    requires i < |vars| && vars[i] == name + "=" + value
    requires forall j :: 0 <= j < i ==> !(name + "=" <= vars[j])
    ensures Lookup(vars, name) == Some(value)
  {
    forall j | 0 <= j < i ensures !Names(vars[j], name) { NamesInFull(vars[j], name); }
    assert vars[i][..|name|] == name && vars[i][|name| + 1..] == value;
    FindAt(vars, name, i);
  }

  lemma NoEntryNoValue(vars: seq<string>, name: string)
    requires forall j :: 0 <= j < |vars| ==> !(name + "=" <= vars[j])
    ensures Lookup(vars, name) == None
  {
    forall j | 0 <= j < |vars| ensures !Names(vars[j], name) { NamesInFull(vars[j], name); }
    FindAt(vars, name, |vars|);
  }

  lemma FindAt(vars: seq<string>, name: string, i: nat)
    requires i <= |vars| && (i < |vars| ==> Names(vars[i], name)) && forall j :: 0 <= j < i ==> !Names(vars[j], name)
    ensures Find(vars, name) == i
  {
    var f := Find(vars, name);
    assert f < |vars| ==> Names(vars[f], name);
    assert i < |vars| ==> Names(vars[i], name);
  }

  /** The first entry counts; other names keep their values. */
  lemma PutIsUpdate(vars: seq<string>, name: string, value: string, replace: bool, m: string)
    requires '=' !in name && '=' !in m
    ensures Lookup(Put(vars, name, value, replace), m)
         == if m == name && (replace || Lookup(vars, name) == None) then Some(value) else Lookup(vars, m)
  {
    var i, k, now := Find(vars, name), Find(vars, m), Put(vars, name, value, replace);
    EntryNames(name, value, m);
    if i < |vars| && i == k { BothNamed(vars[i], name, m); }
    if i == |vars| || replace {
      assert now[i] == Entry(name, value) && forall j :: 0 <= j < i ==> now[j] == vars[j];
      FindAt(now, m, if m == name then i else if k == |vars| then |now| else k);
    }
  }

  lemma LookupStep(e: string, rest: seq<string>, m: string)
    ensures Lookup([e] + rest, m) == if Names(e, m) then Some(e[|m| + 1..]) else Lookup(rest, m)
  {
    assert ([e] + rest)[1..] == rest;
  }

  /** Every entry for the name goes, and no other. */
  lemma {:induction false} DropIsRemoval(vars: seq<string>, name: string, m: string)
    requires '=' !in name && '=' !in m
    ensures Lookup(Drop(vars, name), m) == if m == name then None else Lookup(vars, m)
  {
    if vars != [] {
      var e, rest := vars[0], vars[1..];
      DropIsRemoval(rest, name, m);
      assert vars == [e] + rest;
      LookupStep(e, rest, m);
      LookupStep(e, Drop(rest, name), m);
      if Names(e, name) && Names(e, m) { BothNamed(e, name, m); }
      assert Names(e, name) ==> Drop(vars, name) == Drop(rest, name);
    }
  }

  datatype Event = Set(name: string, value: string, replace: bool) | Unset(name: string)

  function Step(vars: seq<string>, e: Event): seq<string> {
    match e case Set(n, v, r) => Put(vars, n, v, r) case Unset(n) => Drop(vars, n)
  }

  function Run(vars: seq<string>, es: seq<Event>): seq<string>
    decreases |es|
  {
    if es == [] then vars else Run(Step(vars, es[0]), es[1..])
  }

  /** What becomes of one name, given only the events that are about it. */
  function Fate(current: Option<string>, m: string, es: seq<Event>): Option<string>
    decreases |es|
  {
    if es == [] then current
    else
      var e := es[0];
      Fate(if e.name != m then current
           else if e.Unset? then None
           else if e.replace || current == None then Some(e.value)
           else current, m, es[1..])
  }

  /** Over any run, each name has the value that the events about it gave it. */
  lemma {:induction false} RunIsMap(vars: seq<string>, es: seq<Event>, m: string)
    requires '=' !in m && forall i :: 0 <= i < |es| ==> '=' !in es[i].name
    ensures Lookup(Run(vars, es), m) == Fate(Lookup(vars, m), m, es)
    decreases |es|
  {
    if es != [] {
      match es[0] {
        case Set(n, v, r) => PutIsUpdate(vars, n, v, r, m);
        case Unset(n) => DropIsRemoval(vars, n, m);
      }
      RunIsMap(Step(vars, es[0]), es[1..], m);
    }
  }

  // ----- the tables

  /** The strings up to the first NULL. */
  function Strings(slots: seq<Slot>): (r: seq<string>)
    ensures |r| <= |slots|
    ensures forall i :: 0 <= i < |r| ==> slots[i] == Str(r[i])
    ensures |r| < |slots| ==> slots[|r|] == Null
  {
    if slots == [] || slots[0] == Null then [] else [slots[0].s] + Strings(slots[1..])
  }

  predicate Terminated(slots: seq<Slot>) { |Strings(slots)| < |slots| }

  lemma {:induction false} StringsOf(slots: seq<Slot>, strings: seq<string>)
    requires |strings| < |slots| && slots[|strings|] == Null
    requires forall i :: 0 <= i < |strings| ==> slots[i] == Str(strings[i])
    ensures Strings(slots) == strings && Terminated(slots)
  {
    if strings != [] {
      assert slots[0] == Str(strings[0]);
      StringsOf(slots[1..], strings[1..]);
    }
  }

  lemma Extended(slots: seq<Slot>, vars: seq<string>, entry: string)
    requires |slots| == |vars| + 2 && slots[|vars|] == Str(entry) && slots[|vars| + 1] == Null
    requires forall i :: 0 <= i < |vars| ==> slots[i] == Str(vars[i])
    ensures Strings(slots) == vars + [entry] && Terminated(slots)
  {
    StringsOf(slots, vars + [entry]);
  }

  /** The slots from ep up to dp have been moved down by one. */
  ghost predicate ShiftedTo(now: seq<Slot>, slots: seq<Slot>, ep: nat, dp: nat) {
    && |now| == |slots| && ep <= dp < |slots|
    && forall k {:trigger now[k]} :: 0 <= k < |now| ==> now[k] == slots[if ep <= k < dp then k + 1 else k]
  }

  lemma ShiftStep(now: seq<Slot>, slots: seq<Slot>, ep: nat, dp: nat)
    requires ShiftedTo(now, slots, ep, dp) && dp + 1 < |slots|
    ensures ShiftedTo(now[dp := now[dp + 1]], slots, ep, dp + 1) && now[dp + 1] == slots[dp + 1]
  {
  }

  lemma Shifted(slots: seq<Slot>, now: seq<Slot>, vars: seq<string>, ep: nat)
    requires Strings(slots) == vars && ep < |vars| < |slots| && ShiftedTo(now, slots, ep, |vars|)
    ensures Strings(now) == vars[..ep] + vars[ep + 1..] && Terminated(now)
  {
    var rest := vars[..ep] + vars[ep + 1..];
    forall i | 0 <= i < |rest| ensures now[i] == Str(rest[i]) {
      assert now[i] == slots[if i < ep then i else i + 1];
    }
    StringsOf(now, rest);
  }

  /** Drops the entries for the name from ep on. */
  function DropFrom(vars: seq<string>, ep: nat, name: string): seq<string>
    requires ep <= |vars|
  {
    vars[..ep] + Drop(vars[ep..], name)
  }

  lemma DropFromStart(vars: seq<string>, name: string)
    ensures DropFrom(vars, 0, name) == Drop(vars, name)
  {
    assert vars[0..] == vars;
  }

  lemma DropFromEnd(vars: seq<string>, name: string)
    ensures DropFrom(vars, |vars|, name) == vars
  {
  }

  lemma DropOne(vars: seq<string>, ep: nat, name: string)
    requires ep < |vars|
    ensures DropFrom(vars, ep, name) == if Names(vars[ep], name) then DropFrom(vars[..ep] + vars[ep + 1..], ep, name)
                                        else DropFrom(vars, ep + 1, name)
  {
    assert vars[ep..][1..] == vars[ep + 1..];
    var d := Drop(vars[ep + 1..], name);
    if Names(vars[ep], name) {
      var cut := vars[..ep] + vars[ep + 1..];
      assert cut[..ep] == vars[..ep] && cut[ep..] == vars[ep + 1..];
      assert [] + d == d;
    } else {
      assert vars[..ep + 1] == vars[..ep] + [vars[ep]];
      assert vars[..ep] + ([vars[ep]] + d) == vars[..ep] + [vars[ep]] + d;
    }
  }

  /** A block of slots; not live once it has been given back. */
  class Table {
    var slots: seq<Slot>
    var live: bool

    constructor (slots: seq<Slot>)
      ensures this.slots == slots && live
    {
      this.slots, live := slots, true;
    }

    /** Moves the entries behind ep down by one, with the NULL, which is at n. */
    method ShiftDown(ep: nat, ghost n: nat)
      requires ep < n < |slots| && slots[n] == Null && forall i :: 0 <= i < n ==> slots[i] != Null
      modifies this`slots
      ensures ShiftedTo(slots, old(slots), ep, n)
    {
      ghost var before := slots;
      var dp := ep;
      while true
        invariant dp < n && ShiftedTo(slots, before, ep, dp)
        decreases n - dp
      {
        ShiftStep(slots, before, ep, dp);
        slots := slots[dp := slots[dp + 1]];
        dp := dp + 1;
        if slots[dp - 1] == Null { break; }
      }
    }

    method RemoveAt(ep: nat, ghost vars: seq<string>)
      requires Terminated(slots) && vars == Strings(slots) && ep < |vars|
      modifies this`slots
      ensures Terminated(slots) && Strings(slots) == vars[..ep] + vars[ep + 1..]
    {
      ghost var before := slots;
      ShiftDown(ep, |vars|);
      Shifted(before, slots, vars, ep);
    }

    /** Removes the entries for the name. */
    method RemoveAll(name: string)
      requires Terminated(slots)
      modifies this`slots
      ensures Terminated(slots) && Strings(slots) == Drop(old(Strings(slots)), name)
    {
      var ep := 0;
      ghost var vars := Strings(slots);
      ghost var dropped := Drop(vars, name);
      DropFromStart(vars, name);
      while slots[ep] != Null
        invariant Terminated(slots) && vars == Strings(slots) && ep <= |vars|
        invariant dropped == DropFrom(vars, ep, name)
        decreases |vars| - ep
      {
        DropOne(vars, ep, name);
        if Names(slots[ep].s, name) {
          RemoveAt(ep, vars);
          vars := vars[..ep] + vars[ep + 1..];
        } else {
          ep := ep + 1;
        }
      }
      DropFromEnd(vars, name);
    }
  }

  datatype Error = NoError | EINVAL | ENOMEM

  /** What the allocator answers to realloc: nothing, or a block, the same or another one. */
  datatype Grow = Refused | InPlace | Moved

  /** The value that a new string comes to; without one it is what its memory holds up to a NUL. */
  function ValueFor(value: Slot, found: string): string { if value == Null then found else value.s }

  function EntryFor(name: string, value: Slot, combined: Slot, found: string): string {
    if combined.Str? then combined.s else Entry(name, ValueFor(value, found))
  }

  class Environment {
    var environ: Table?
    var lastEnviron: Table?     // the table that setenv allocated, if any
    var errno: Error

    /** The program at its start, with the table it is given. */
    constructor (startup: Table?)
      requires startup != null ==> startup.live && Terminated(startup.slots)
      ensures Valid() && environ == startup && lastEnviron == null && errno == NoError
    {
      environ, lastEnviron, errno := startup, null, NoError;
    }

    ghost predicate Valid()
      reads this, environ, lastEnviron
    {
      && (environ != null ==> environ.live && Terminated(environ.slots))
      && (lastEnviron != null ==> lastEnviron.live)
    }

    ghost function Vars(): seq<string>
      reads this, environ
    {
      if environ == null then [] else Strings(environ.slots)
    }

    method Getenv(tag: string) returns (r: Option<string>)
      requires Valid()
      ensures r == Lookup(Vars(), tag)
    {
      if environ == null { return None; }
      var i := 0;
      while environ.slots[i].Str?
        invariant 0 <= i <= |Vars()|
        invariant forall j :: 0 <= j < i ==> !Names(Vars()[j], tag)
        decreases |Vars()| - i
      {
        var name := environ.slots[i].s;
        if Names(name, tag) {
          FindAt(Vars(), tag, i);
          return Some(name[|tag| + 1..]);
        }
        i := i + 1;
      }
      FindAt(Vars(), tag, i);
      return None;
    }

    /** The index of the first entry for the name, or of the NULL at the end. */
    method FindEntry(name: string) returns (size: nat)
      requires Valid()
      ensures size == Find(Vars(), name)
    {
      size := 0;
      if environ != null {
        while environ.slots[size].Str?
          invariant 0 <= size <= |Vars()|
          invariant forall j :: 0 <= j < size ==> !Names(Vars()[j], name)
          decreases |Vars()| - size
        {
          if Names(environ.slots[size].s, name) { break; }
          size := size + 1;
        }
      }
      FindAt(Vars(), name, size);
    }

    /** Enters a variable, as the string `combined` if there is one, or made of name and value. `grow` and `room` are
        the answers of the allocator, when it is asked. If there is no room for the string after the table of an
        earlier setenv has been moved, that table is gone and is still pointed to; that is the one way to get into a
        state that is not valid. */
    method AddToEnviron(name: string, value: Slot, combined: Slot, replace: bool, grow: Grow, room: bool, found: string)
      returns (r: int)
      requires Valid() && (grow == InPlace ==> lastEnviron != null)
      modifies this, environ, lastEnviron
      ensures var isNew := Find(old(Vars()), name) == |old(Vars())|;
              var made := combined == Null && !room;
              && (r == 0 <==> if isNew then grow != Refused && !made else !replace || !made)
              && (r == 0 || r == -1) && errno == (if r == 0 then old(errno) else ENOMEM)
              && (r == 0 ==>
                    Valid()
                    && var entry := if combined.Str? then combined.s
                                    else name + "=" + (if value.Str? then value.s else found);
                       Vars() == PutEntry(old(Vars()), name, entry, replace))
              && (r == -1 ==> environ == old(environ) && lastEnviron == old(lastEnviron))
              && (r == -1 ==> (Valid() <==> !(isNew && grow == Moved && lastEnviron != null)))
              && (r == -1 && Valid() ==> Vars() == old(Vars()))
              && (r == 0 && isNew ==> OwnTable(old(lastEnviron)))
              && (r == -1 && !Valid() ==> !lastEnviron.live)
    {
      var size := FindEntry(name);
      if environ == null || environ.slots[size] == Null {
        r := Extend(size, EntryFor(name, value, combined, found), grow, combined != Null || room);
      } else if replace {
        if combined == Null && !room {
          errno := ENOMEM;
          return -1;
        }
        ghost var vars := Vars();
        environ.slots := environ.slots[size := Str(EntryFor(name, value, combined, found))];
        StringsOf(environ.slots, vars[size := EntryFor(name, value, combined, found)]);
        return 0;
      } else {
        return 0;
      }
    }

    /** The table is setenv's own, the one it had or a new one. */
    twostate predicate OwnTable(last: Table?)
      reads this
    {
      environ != null && environ == lastEnviron && (environ == last || fresh(environ))
    }

    /** Enters a new variable behind the `size` there are, in a table with room for it. */
    method Extend(size: nat, entry: string, grow: Grow, room: bool) returns (r: int)
      requires Valid() && (grow == InPlace ==> lastEnviron != null) && size == |Vars()|
      modifies this, environ, lastEnviron
      ensures (r == 0 <==> grow != Refused && room) && (r == 0 || r == -1)
      ensures errno == if r == 0 then old(errno) else ENOMEM
      ensures r == 0 ==> Valid() && Vars() == old(Vars()) + [entry] && OwnTable(old(lastEnviron))
      ensures r == -1 ==> environ == old(environ) && lastEnviron == old(lastEnviron)
      ensures r == -1 ==> (Valid() <==> !(grow == Moved && lastEnviron != null))
      ensures r == -1 && grow == Moved && lastEnviron != null ==> !lastEnviron.live
      ensures r == -1 && Valid() ==> Vars() == old(Vars())
    {
      ghost var vars := Vars();
      var newEnviron := Realloc(lastEnviron, size + 2, grow);
      if newEnviron == null { return -1; }
      if !room {
        newEnviron.slots := newEnviron.slots[size := Null];
        errno := ENOMEM;
        if environ != null && environ.live { StringsOf(environ.slots, vars); }
        return -1;
      }
      newEnviron.slots := newEnviron.slots[size := Str(entry)];
      if environ != lastEnviron && environ != null {
        newEnviron.slots := environ.slots[..size] + newEnviron.slots[size..];
      }
      newEnviron.slots := newEnviron.slots[size + 1 := Null];
      environ, lastEnviron := newEnviron, newEnviron;
      Extended(newEnviron.slots, vars, entry);
      return 0;
    }

    /** Slots of which only the number is promised. */
    static method Unknown(n: nat) returns (junk: seq<Slot>)
      ensures |junk| == n
    {
      junk := seq(n, i => Null);
    }

    /** realloc of a table to n slots. What is in the slots it did not have is not known. When it is refused, realloc
        says so in errno. */
    method Realloc(t: Table?, n: nat, grow: Grow) returns (r: Table?)
      requires grow == InPlace ==> t != null
      modifies t, this`errno
      ensures r == null <==> grow == Refused
      ensures errno == if r == null then ENOMEM else old(errno)
      ensures r == null && t != null ==> t.slots == old(t.slots) && t.live == old(t.live)
      ensures r != null ==>
                |r.slots| == n
                && (if grow == InPlace then r == t && t.live == old(t.live) else r.live && fresh(r))
      ensures r != null && t != null ==> forall i :: 0 <= i < n && i < |old(t.slots)| ==> r.slots[i] == old(t.slots[i])
      ensures grow == Moved && t != null ==> !t.live && t.slots == old(t.slots)
    {
      if grow == Refused {
        errno := ENOMEM;
        return null;
      }
      var held: seq<Slot> := if t == null then [] else t.slots;
      var kept := if |held| < n then held else held[..n];
      var junk := Unknown(n - |kept|);
      if grow == InPlace {
        t.slots := kept + junk;
        r := t;
      } else {
        r := new Table(kept + junk);
        if t != null { t.live := false; }
      }
    }

    /** setenv. Without a value, the string made is not ended, and goes on with whatever its block holds: `found`. */
    method Setenv(name: Slot, value: Slot, replace: bool, grow: Grow, room: bool, found: string) returns (r: int)
      requires Valid() && (grow == InPlace ==> lastEnviron != null)
      modifies this, environ, lastEnviron
      ensures name == Null || name.s == "" || '=' in name.s ==>
                r == -1 && errno == EINVAL && Valid() && Vars() == old(Vars()) && environ == old(environ)
      ensures name.Str? && name.s != "" && '=' !in name.s ==>
                var isNew := Find(old(Vars()), name.s) == |old(Vars())|;
                && (r == 0 <==> if isNew then grow != Refused && room else !replace || room)
                && (Valid() <==> !(isNew && grow == Moved && !room && old(lastEnviron) != null))
                && (r == 0 && isNew ==> OwnTable(old(lastEnviron)))
                && errno == (if r == 0 then old(errno) else ENOMEM)
      ensures r != 0 ==> environ == old(environ) && lastEnviron == old(lastEnviron) && (!Valid() ==> !lastEnviron.live)
      ensures r == 0 ==>
                name.Str? && Vars() == Put(old(Vars()), name.s, if value.Str? then value.s else found, replace)
      ensures r != 0 ==> r == -1 && (Valid() ==> Vars() == old(Vars()))
    {
      if name == Null || name.s == "" || '=' in name.s {
        errno := EINVAL;
        return -1;
      }
      r := AddToEnviron(name.s, value, Null, replace, grow, room, found);
    }

    method Unsetenv(name: Slot) returns (r: int)
      requires Valid()
      modifies this`errno, environ
      ensures Valid()
      ensures if name == Null || name.s == "" || '=' in name.s then r == -1 && errno == EINVAL && Vars() == old(Vars())
              else r == 0 && errno == old(errno) && Vars() == Drop(old(Vars()), name.s)
    {
      if name == Null || name.s == "" || '=' in name.s {
        errno := EINVAL;
        return -1;
      }
      if environ != null {
        environ.RemoveAll(name.s);
      }
      return 0;
    }
  }

  /** One variable is set, and then there is no room for the string of a second one behind a table that was moved:
      environ points to a table that was given back. */
  method DanglingTable() returns (e: Environment)
    ensures fresh(e) && !e.Valid() && e.environ != null && !e.environ.live
  {
    e := new Environment(null);
    assert Find([], "A") == 0;
    var r := e.Setenv(Str("A"), Str("1"), true, Moved, true, "");
    assert e.Vars() == [Entry("A", "1")];
    EntryNames("A", "1", "B");
    FindAt(e.Vars(), "B", 1);
    r := e.Setenv(Str("B"), Str("2"), true, Moved, false, "");
  }
}
