/** The process environment of src/runtime/libc_absent.c: a table of `NAME=VALUE` strings that
    behaves as a finite map from names to values. */
module Environment {
  import opened Wrappers

  datatype Status = Done | InvalidName | OutOfMemory

  const ENV_MAX: nat := 128

  /** A name POSIX accepts: not null, not empty, without '='. */
  predicate NameOk(name: Option<string>) {
    name.Some? && name.value != "" && '=' !in name.value
  }

  // ---- Entries --------------------------------------------------------------------------------

  function Entry(name: string, value: string): string {
    name + "=" + value
  }

  /** The test of env_find: the entry starts with the name and goes on with '='. */
  predicate Matches(entry: string, name: string) {
    |name| < |entry| && entry[..|name|] == name && entry[|name|] == '='
  }

  function NameOf(entry: string): (name: string)
    ensures '=' !in name && name <= entry
    ensures '=' in entry ==> |name| < |entry| && entry[|name|] == '='
  {
    if entry == "" || entry[0] == '=' then "" else [entry[0]] + NameOf(entry[1..])
  }

  function ValueOf(entry: string): string {
    if |NameOf(entry)| < |entry| then entry[|NameOf(entry)| + 1..] else ""
  }

  /** An entry matches a name without '=' exactly when that is its name: no name is taken for
      another of which it is a prefix. */
  lemma MatchesIffName(entry: string, name: string)
    requires '=' !in name && '=' in entry
    ensures Matches(entry, name) <==> NameOf(entry) == name
  {
  }

  lemma FirstEquals(entry: string, name: string)
    requires '=' !in name && Matches(entry, name)
    ensures NameOf(entry) == name
  {
  }

  lemma EntryParts(name: string, value: string)
    requires '=' !in name
    ensures NameOf(Entry(name, value)) == name && ValueOf(Entry(name, value)) == value
  {
    var entry := Entry(name, value);
    assert entry[..|name|] == name && entry[|name|] == '=';
    FirstEquals(entry, name);
  }

  // ---- The table as a map ---------------------------------------------------------------------

  type Table = seq<Option<string>>

  /** Every entry has a name, and no name occurs twice. */
  ghost predicate WellFormed(t: Table) {
    && (forall i :: 0 <= i < |t| && t[i].Some? ==> '=' in t[i].value && NameOf(t[i].value) != "")
    && (forall i, j :: 0 <= i < j < |t| && t[i].Some? && t[j].Some? ==>
          NameOf(t[i].value) != NameOf(t[j].value))
  }

  predicate Named(t: Table, i: nat, name: string) {
    i < |t| && t[i].Some? && NameOf(t[i].value) == name
  }

  function Names(t: Table): set<string> {
    set i | 0 <= i < |t| && t[i].Some? :: NameOf(t[i].value)
  }

  ghost function IndexOf(t: Table, name: string): (i: nat)
    requires name in Names(t)
    ensures Named(t, i, name)
  {
    var i :| 0 <= i < |t| && t[i].Some? && NameOf(t[i].value) == name; i
  }

  /** What the environment means. */
  ghost function Meaning(t: Table): map<string, string> {
    map name | name in Names(t) :: ValueOf(t[IndexOf(t, name)].value)
  }

  lemma MeaningAt(t: Table, i: nat, name: string)
    requires WellFormed(t) && Named(t, i, name)
    ensures name in Meaning(t) && Meaning(t)[name] == ValueOf(t[i].value)
  {
  }

  /** Slot `i` may hold an entry called `name`: it does already, or nobody else does. */
  ghost predicate RoomFor(t: Table, i: nat, name: string) {
    i < |t| && if t[i].Some? then NameOf(t[i].value) == name else name !in Names(t)
  }

  lemma PutWellFormed(t: Table, i: nat, name: string, e: string)
    requires WellFormed(t) && RoomFor(t, i, name) && name != "" && '=' in e && NameOf(e) == name
    ensures WellFormed(t[i := Some(e)])
  {
  }

  lemma PutEntry(t: Table, i: nat, name: string, e: string)
    requires WellFormed(t) && RoomFor(t, i, name) && name != "" && '=' in e && NameOf(e) == name
    ensures WellFormed(t[i := Some(e)]) && Meaning(t[i := Some(e)]) == Meaning(t)[name := ValueOf(e)]
  {
    var t' := t[i := Some(e)];
    PutWellFormed(t, i, name, e);
    SameElsewhere(t, t', i, name);
    MeaningAt(t', i, name);
    UpdatedMap(Meaning(t), Meaning(t'), name, ValueOf(e));
  }

  lemma UpdatedMap(m: map<string, string>, m': map<string, string>, name: string, v: string)
    requires name in m' && m'[name] == v && m.Keys - {name} == m'.Keys - {name}
    requires forall n :: n in m.Keys - {name} ==> m'[n] == m[n]
    ensures m' == m[name := v]
  {
    forall n ensures n in m' <==> n in m[name := v] {
      assert n != name ==> (n in m.Keys - {name} <==> n in m'.Keys - {name});
    }
  }

  lemma PutMeaning(t: Table, i: nat, name: string, value: string)
    requires WellFormed(t) && RoomFor(t, i, name) && name != "" && '=' !in name
    ensures var t' := t[i := Some(Entry(name, value))];
      WellFormed(t') && Meaning(t') == Meaning(t)[name := value]
  {
    EntryParts(name, value);
    assert Entry(name, value)[|name|] == '=';
    PutEntry(t, i, name, Entry(name, value));
  }

  /** Changing slot `i` leaves the meaning of all other names alone. */
  lemma SameElsewhere(t: Table, t': Table, i: nat, name: string)
    requires WellFormed(t) && WellFormed(t') && |t'| == |t| && i < |t|
    requires forall k :: 0 <= k < |t| && k != i ==> t'[k] == t[k]
    requires t[i].Some? ==> NameOf(t[i].value) == name
    requires t'[i].Some? ==> NameOf(t'[i].value) == name
    ensures Names(t) - {name} == Names(t') - {name}
    ensures forall n :: n in Names(t) - {name} ==> Meaning(t')[n] == Meaning(t)[n]
  {
    forall n | n != name ensures n in Names(t) <==> n in Names(t') {
      if n in Names(t) { assert Named(t', IndexOf(t, n), n); }
      if n in Names(t') { assert Named(t, IndexOf(t', n), n); }
    }
    forall n | n in Names(t) - {name} ensures Meaning(t')[n] == Meaning(t)[n] {
      var k := IndexOf(t, n);
      assert k != i && Named(t', k, n);
      MeaningAt(t, k, n);
      MeaningAt(t', k, n);
    }
  }

  lemma NameOnce(t: Table, i: nat, k: nat, name: string)
    requires WellFormed(t) && Named(t, i, name) && Named(t, k, name)
    ensures i == k
  {
  }

  lemma ClearMeaning(t: Table, i: nat, name: string)
    requires WellFormed(t) && Named(t, i, name)
    ensures WellFormed(t[i := None]) && Meaning(t[i := None]) == Meaning(t) - {name}
  {
    var t' := t[i := None];
    assert WellFormed(t');
    SameElsewhere(t, t', i, name);
    forall k: nat | Named(t, k, name) ensures k == i {
      NameOnce(t, i, k, name);
    }
    assert forall k: nat :: Named(t', k, name) ==> Named(t, k, name);
    assert name in Names(t) && Names(t') == Names(t) - {name};
  }

  lemma NamesStep(t: Table)
    requires t != []
    ensures var n := |t| - 1;
      Names(t) == if t[n].Some? then Names(t[..n]) + {NameOf(t[n].value)} else Names(t[..n])
  {
  }

  lemma {:induction false} FullTable(t: Table)
    requires WellFormed(t) && forall i :: 0 <= i < |t| ==> t[i].Some?
    ensures |Names(t)| == |t|
  {
    if t != [] {
      var n := |t| - 1;
      NamesStep(t);
      FullTable(t[..n]);
      assert NameOf(t[n].value) !in Names(t[..n]);
    }
  }

  lemma {:induction false} PartTable(t: Table, i: nat)
    requires WellFormed(t) && i < |t| && t[i].None?
    ensures |Names(t)| < |t|
  {
    var n := |t| - 1;
    if i == n {
      NamesStep(t);
      AtMost(t[..n]);
    } else {
      NamesStep(t);
      PartTable(t[..n], i);
    }
  }

  lemma {:induction false} AtMost(t: Table)
    ensures |Names(t)| <= |t|
  {
    if t != [] {
      var n := |t| - 1;
      NamesStep(t);
      AtMost(t[..n]);
    }
  }

  // ---- The table in place ---------------------------------------------------------------------

  class Env {
    const entries: array<Option<string>>

    ghost predicate Valid()
      reads this, entries
    {
      entries.Length == ENV_MAX && WellFormed(entries[..])
    }

    ghost function Vars(): map<string, string>
      reads this, entries
    {
      Meaning(entries[..])
    }

    constructor ()
      ensures Valid() && fresh(entries) && Vars() == map[]
    {
      entries := new Option<string>[ENV_MAX](_ => None);
      new;
      assert Names(entries[..]) == {};
    }

    method Find(name: string) returns (r: int)
      requires Valid() && '=' !in name
      ensures r == -1 <==> name !in Vars()
      ensures r != -1 ==> 0 <= r < entries.Length && Named(entries[..], r, name)
    {
      for i := 0 to entries.Length
        invariant forall k :: 0 <= k < i ==> !Named(entries[..], k, name)
      {
        if entries[i].Some? {
          MatchesIffName(entries[i].value, name);
          if Matches(entries[i].value, name) {
            MeaningAt(entries[..], i, name);
            return i;
          }
        }
      }
      return -1;
    }

    method GetEnv(name: Option<string>) returns (value: Option<string>)
      requires Valid()
      ensures value == if NameOk(name) && name.value in Vars() then Some(Vars()[name.value]) else None
    {
      if !NameOk(name) {
        return None;
      }
      var i := Find(name.value);
      if i < 0 {
        return None;
      }
      MeaningAt(entries[..], i, name.value);
      return Some(entries[i].value[|name.value| + 1..]);
    }

    /** `granted` says whether the platform had memory for the entry. A name that is set can be
        set again even in a full table; a new one fails exactly when 128 names are set. */
    method SetEnv(name: Option<string>, value: Option<string>, overwrite: bool, granted: bool)
      returns (status: Status)
      requires Valid()
      modifies entries
      ensures Valid()
      ensures status == if !NameOk(name) then InvalidName
                        else if name.value in old(Vars()) && !overwrite then Done
                        else if granted && (name.value in old(Vars()) || |old(Vars())| < ENV_MAX) then Done
                        else OutOfMemory
      ensures Vars() == if status == Done && (name.value !in old(Vars()) || overwrite)
                        then old(Vars())[name.value := if value.Some? then value.value else ""] else old(Vars())
    {
      if !NameOk(name) {
        return InvalidName;
      }
      var i := Find(name.value);
      if i >= 0 && !overwrite {
        return Done;
      }
      var v := if value.Some? then value.value else "";
      if !granted {
        return OutOfMemory;
      }
      assert Vars().Keys == Names(entries[..]);
      if i < 0 {
        i := 0;
        while i < entries.Length && entries[i].Some?
          invariant 0 <= i <= entries.Length
          invariant forall k :: 0 <= k < i ==> entries[k].Some?
        {
          i := i + 1;
        }
        if i == entries.Length {
          FullTable(entries[..]);
          return OutOfMemory;
        }
        PartTable(entries[..], i);
      }
      PutMeaning(entries[..], i, name.value, v);
      entries[i] := Some(Entry(name.value, v));
      return Done;
    }

    method UnsetEnv(name: Option<string>) returns (status: Status)
      requires Valid()
      modifies entries
      ensures Valid()
      ensures status == if NameOk(name) then Done else InvalidName
      ensures Vars() == if NameOk(name) then old(Vars()) - {name.value} else old(Vars())
    {
      if !NameOk(name) {
        return InvalidName;
      }
      var i := Find(name.value);
      if i >= 0 {
        ClearMeaning(entries[..], i, name.value);
        entries[i] := None;
      }
      return Done;
    }
  }
}
