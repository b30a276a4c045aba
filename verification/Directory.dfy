/** The directory: a table of fixed-size entries searched by the first nine characters (filesys/directory.cc). */
module Directories {
  import opened Words
  import opened FileFormats

  const FILE_NAME_MAX_LEN: int := 9

  /** A C string without its terminator. */
  type CString = s: seq<Byte> | 0 !in s

  /** What of a name counts: its first nine characters. */
  function Key(name: CString): (k: CString)
    ensures |k| <= FILE_NAME_MAX_LEN
  {
    if |name| <= FILE_NAME_MAX_LEN then name else name[..FILE_NAME_MAX_LEN]
  }

  /** The key a name field holds: up to its first zero byte, or nine characters. */
  function FieldKey(field: seq<Byte>, n: nat): (k: CString)
    requires n <= FILE_NAME_MAX_LEN <= |field|
    ensures |k| <= FILE_NAME_MAX_LEN - n
    decreases FILE_NAME_MAX_LEN - n
  {
    if n == FILE_NAME_MAX_LEN || field[n] == 0 then [] else [field[n]] + FieldKey(field, n + 1)
  }

  function EntryKey(e: Entry): CString
    requires EntryOk(e)
  { FieldKey(e.name, 0) }

  /** Character `i` of a terminated string. */
  function CharAt(name: CString, i: nat): Byte {
    if i < |name| then name[i] else 0
  }

  /** `!strncmp(field, name, 9)`. */
  method SameName(field: seq<Byte>, name: CString) returns (same: bool)
    requires |field| == NAME_FIELD
    ensures same == (FieldKey(field, 0) == Key(name))
  {
    var i := 0;
    while i < FILE_NAME_MAX_LEN
      invariant 0 <= i <= FILE_NAME_MAX_LEN && i <= |name|
      invariant (FieldKey(field, 0) == Key(name)) <==> (FieldKey(field, i) == Key(name)[i..])
    {
      if field[i] != CharAt(name, i) {
        return false;
      }
      if field[i] == 0 {
        return true;
      }
      StepName(field, name, i);
      i := i + 1;
    }
    same := true;
  }

  lemma StepName(field: seq<Byte>, name: CString, i: nat)
    requires |field| == NAME_FIELD && i < FILE_NAME_MAX_LEN && i < |name| && field[i] == name[i] != 0
    ensures FieldKey(field, i) == Key(name)[i..] <==> FieldKey(field, i + 1) == Key(name)[i + 1..]
  {
    assert Key(name)[i..] == [name[i]] + Key(name)[i + 1..];
    assert FieldKey(field, i) == [field[i]] + FieldKey(field, i + 1);
    assert ([field[i]] + FieldKey(field, i + 1))[1..] == FieldKey(field, i + 1);
    assert ([name[i]] + Key(name)[i + 1..])[1..] == Key(name)[i + 1..];
  }

  /** `strncpy(field, name, 9)`: at most nine characters, padded with zeros; the tenth byte is left alone. */
  function CopyName(field: seq<Byte>, name: CString): (f: seq<Byte>)
    requires |field| == NAME_FIELD
    ensures |f| == NAME_FIELD && f[9] == field[9]
  {
    seq(9, i requires 0 <= i < 9 => CharAt(name, i)) + [field[9]]
  }

  lemma {:induction false} CopyNameKey(field: seq<Byte>, name: CString, i: nat)
    requires |field| == NAME_FIELD && i <= FILE_NAME_MAX_LEN && i <= |Key(name)|
    ensures FieldKey(CopyName(field, name), i) == Key(name)[i..]
    decreases FILE_NAME_MAX_LEN - i
  {
    var f := CopyName(field, name);
    if i < FILE_NAME_MAX_LEN {
      assert f[i] == CharAt(name, i);
      if i < |name| {
        assert f[i] == name[i] && name[i] in name;
        CopyNameKey(field, name, i + 1);
        assert Key(name)[i..] == [name[i]] + Key(name)[i + 1..];
      }
    }
  }

  /** Names in use are different. */
  predicate UniqueNames(t: Table) {
    forall i, j :: 0 <= i < j < |t| && t[i].inUse && t[j].inUse ==> EntryKey(t[i]) != EntryKey(t[j])
  }

  predicate Listed(t: Table, key: CString) {
    exists i :: 0 <= i < |t| && t[i].inUse && EntryKey(t[i]) == key
  }

  lemma NewNameUnique(t: Table, k: nat, e: Entry)
    requires k < |t| && EntryOk(e) && !Listed(t, EntryKey(e)) && UniqueNames(t)
    ensures UniqueNames(t[k := e])
  {
    hide EntryKey;
  }

  class Directory {
    var table: Table

    constructor (t: Table)
      ensures table == t
    {
      table := t;
    }

    /** The entry listing a name, or -1 exactly when no entry does. */
    method FindIndex(name: CString) returns (i: int)
      ensures -1 <= i < |table|
      ensures i == -1 <==> !Listed(table, Key(name))
      ensures i >= 0 ==> table[i].inUse && EntryKey(table[i]) == Key(name)
    {
      i := 0;
      while i < |table|
        invariant 0 <= i <= |table|
        invariant forall k :: 0 <= k < i ==> !(table[k].inUse && EntryKey(table[k]) == Key(name))
      {
        var same := SameName(table[i].name, name);
        if table[i].inUse && same {
          return;
        }
        i := i + 1;
      }
      i := -1;
    }

    /** The sector of the listed file's header, or -1 when there is none. */
    method Find(name: CString) returns (sector: int, ghost i: int)
      ensures !Listed(table, Key(name)) ==> sector == -1
      ensures Listed(table, Key(name)) ==>
                exists k :: 0 <= k < |table| && table[k].inUse && EntryKey(table[k]) == Key(name)
                            && table[k].sector == sector
      ensures -1 <= i < |table|
      ensures i == -1 <==> !Listed(table, Key(name))
      ensures i == -1 ==> sector == -1
      ensures i >= 0 ==> table[i].inUse && EntryKey(table[i]) == Key(name) && sector == table[i].sector
    {
      var n := FindIndex(name);
      i := n;
      if n != -1 {
        sector := table[n].sector;
      } else {
        sector := -1;
      }
    }

    /**
     Fails exactly when the name is listed already or no entry is free; otherwise the first free entry now
     lists it.
     */
    method Add(name: CString, newSector: int) returns (ok: bool, ghost i: nat)
      requires IsInt32(newSector)
      modifies this
      ensures ok <==> !old(Listed(table, Key(name))) && exists k :: 0 <= k < |old(table)| && !old(table)[k].inUse
      ensures |table| == |old(table)|
      ensures !ok ==> table == old(table)
      ensures ok ==> i < |table| && !old(table)[i].inUse
      ensures ok ==> table == old(table)[i := table[i]] && table[i].inUse && table[i].sector == newSector
      ensures ok ==> EntryKey(table[i]) == Key(name) && forall j :: 0 <= j < i ==> old(table)[j].inUse
      ensures UniqueNames(old(table)) ==> UniqueNames(table)
    {
      hide UniqueNames, Key, CopyName;
      i := 0;
      var found := FindIndex(name);
      if found != -1 {
        return false, 0;
      }
      var k := 0;
      while k < |table|
        invariant 0 <= k <= |table| && table == old(table)
        invariant forall j :: 0 <= j < k ==> table[j].inUse
      {
        if !table[k].inUse {
          CopyNameKey(table[k].name, name, 0);
          var e := Entry(true, newSector, CopyName(table[k].name, name));
          if UniqueNames(table) {
            NewNameUnique(table, k, e);
          }
          table := table[k := e];
          return true, k;
        }
        k := k + 1;
      }
      ok := false;
    }

    /** Fails exactly when the name is not listed; otherwise its entry becomes free. */
    method Remove(name: CString) returns (ok: bool, ghost i: int)
      modifies this
      ensures ok <==> old(Listed(table, Key(name)))
      ensures !ok ==> table == old(table)
      ensures ok ==> 0 <= i < |old(table)| && old(table)[i].inUse && EntryKey(old(table)[i]) == Key(name)
      ensures ok ==> table == old(table)[i := old(table)[i].(inUse := false)]
    {
      var n := FindIndex(name);
      i := n;
      if n == -1 {
        return false, n;
      }
      table := table[n := table[n].(inUse := false)];
      ok := true;
    }
  }
}
