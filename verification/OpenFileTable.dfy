/** The table of open files (internal/openfiletable): one shared entry per backing file, counted by
    its users, and a counter of exclusive lock operations over all files. */
module OpenFileTable {
  import opened ByteSeqs

  class Entry {
    var refCount: nat
    var id: Option<Bytes>

    constructor ()
      ensures refCount == 0 && id == None
    {
      refCount, id := 0, None;
    }
  }

  class Table {
    var writeOpCount: nat
    var entries: map<nat, Entry>

    constructor ()
      ensures writeOpCount == 0 && entries == map[]
    {
      writeOpCount, entries := 0, map[];
    }

    /** ContentLock.Lock of any entry. */
    method Lock()
      modifies this`writeOpCount
      ensures writeOpCount == old(writeOpCount) + 1
    {
      writeOpCount := writeOpCount + 1;
    }

    method Register(qi: nat) returns (e: Entry)
      modifies this`entries, if qi in entries then {entries[qi]} else {}
      ensures entries == old(entries)[qi := e]
      ensures if qi in old(entries)
              then e == old(entries)[qi] && e.refCount == old(entries[qi].refCount) + 1 && e.id == old(entries[qi].id)
              else fresh(e) && e.refCount == 1 && e.id == None
    {
      if qi in entries {
        e := entries[qi];
      } else {
        e := new Entry();
        entries := entries[qi := e];
      }
      e.refCount := e.refCount + 1;
    }

    method Unregister(qi: nat)
      requires qi in entries && entries[qi].refCount > 0
      modifies this`entries, entries[qi]
      ensures old(entries[qi]).refCount == old(entries[qi].refCount) - 1
      ensures old(entries[qi]).id == old(entries[qi].id)
      ensures entries == if old(entries[qi].refCount) == 1 then old(entries) - {qi} else old(entries)
    {
      var e := entries[qi];
      e.refCount := e.refCount - 1;
      if e.refCount == 0 {
        entries := entries - {qi};
      }
    }
  }
}
