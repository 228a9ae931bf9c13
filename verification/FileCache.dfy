/**
 The file cache of `fileio.cpp`: accounting and eviction of the shared table. Every method
 named after a critical section is one stretch of code under the mutex, so any interleaving
 of threads is a sequence of these methods.
 */
module FileCache {
  import opened Bytes

  type File = bytes

  /** Nanoseconds of the steady clock. */
  type Time = int

  const SECOND := 1_000_000_000

  datatype Entry = Entry(content: bytes, mtime: int, lastCheck: Time, size: nat)

  type Table = map<File, Entry>

  /** Sum of the recorded sizes. */
  ghost function Total(m: Table): nat
    decreases |m|
  {
    if m == map[] then 0
    else
      var f :| f in m;
      assert |m - {f}| < |m| by { Smaller(m, f); }
      m[f].size + Total(m - {f})
  }

  lemma Smaller(m: Table, f: File)
    requires f in m
    ensures |m - {f}| == |m| - 1
  {
    assert (m - {f}).Keys == m.Keys - {f};
    assert |(m - {f}).Keys| == |m.Keys| - 1;
  }

  /** The sum does not depend on the order of removal. */
  lemma {:induction false} TotalWithout(m: Table, f: File)
    requires f in m
    ensures Total(m) == m[f].size + Total(m - {f})
    decreases |m|
  {
    var g :| g in m && Total(m) == m[g].size + Total(m - {g});
    if g != f {
      Smaller(m, g);
      Smaller(m, f);
      TotalWithout(m - {g}, f);
      TotalWithout(m - {f}, g);
      assert (m - {g}) - {f} == (m - {f}) - {g};
    }
  }

  lemma TotalInsert(m: Table, f: File, e: Entry)
    requires f !in m
    ensures Total(m[f := e]) == Total(m) + e.size
  {
    TotalWithout(m[f := e], f);
    assert m[f := e] - {f} == m;
  }

  ghost predicate SizesTrue(m: Table) {
    forall f :: f in m ==> m[f].size == |m[f].content|
  }

  predicate Newest(m: Table, f: File)
    requires f in m
  {
    forall g :: g in m && g != f ==> m[g].lastCheck < m[f].lastCheck
  }

  /** `kept` is what oldest-first eviction may leave of `m`. */
  ghost predicate EvictedOldest(m: Table, kept: Table) {
    && (forall f :: f in kept ==> f in m && kept[f] == m[f])
    && forall f, g :: f in m && f !in kept && g in kept ==> m[f].lastCheck <= kept[g].lastCheck
  }

  /** What eviction leaves of `m`: everything if it fits, else the newest, with no entry removed in vain. */
  ghost predicate Trimmed(m: Table, kept: Table, maxSize: nat) {
    && EvictedOldest(m, kept)
    && (Total(m) <= maxSize ==> kept == m)
    && (kept != m ==> exists f :: f in m && f !in kept && Total(kept) + m[f].size > maxSize)
  }

  /** What expiry leaves: the entries checked within the time to live. */
  ghost function Unexpired(m: Table, now: Time, ttl: Time): Table {
    map f | f in m && now - m[f].lastCheck <= ttl :: m[f]
  }

  class Cache {
    const maxSize: nat
    const ttl: Time
    var entries: Table
    var total: nat
    var calls: nat

    constructor (maxSize: nat, ttl: Time)
      ensures Valid() && entries == map[]
      ensures this.maxSize == maxSize && this.ttl == ttl
    {
      this.maxSize, this.ttl := maxSize, ttl;
      entries, total, calls := map[], 0, 0;
    }

    /** The counters are exact. */
    ghost predicate Accounted()
      reads this
    {
      total == Total(entries) && SizesTrue(entries)
    }

    /** What holds whenever the mutex is free. */
    ghost predicate Valid()
      reads this
    {
      Accounted() && total <= maxSize
    }

    /** Takes one entry out and its size off the total. */
    method Erase(f: File)
      requires Accounted() && f in entries
      modifies this`entries, this`total
      ensures Accounted() && entries == old(entries) - {f}
      ensures total == old(total) - old(entries)[f].size
    {
      TotalWithout(entries, f);
      total := total - entries[f].size;
      entries := entries - {f};
    }

    method RemoveEntry(f: File)
      requires Accounted()
      modifies this`entries, this`total
      ensures Accounted() && entries == old(entries) - {f} && total <= old(total)
    {
      if f in entries {
        Erase(f);
      }
    }

    method InsertEntry(f: File, content: bytes, mtime: int, now: Time)
      requires Accounted()
      modifies this`entries, this`total
      ensures Accounted() && entries == old(entries)[f := Entry(content, mtime, now, |content|)]
    {
      RemoveEntry(f);
      var e := Entry(content, mtime, now, |content|);
      TotalInsert(entries, f, e);
      total := total + e.size;
      entries := entries[f := e];
      assert entries == old(entries)[f := e];
    }

    /** `evict_ttl_unlocked`: exactly the entries not checked for longer than the time to live go. */
    method EvictTtl(now: Time)
      requires Accounted()
      modifies this`entries, this`total
      ensures Accounted() && total <= old(total)
      ensures entries == Unexpired(old(entries), now, ttl)
    {
      ghost var recent := Unexpired(entries, now, ttl);
      var todo := entries.Keys;
      while todo != {}
        invariant Accounted() && total <= old(total)
        invariant todo <= entries.Keys
        invariant forall f :: f in entries ==> f in old(entries) && entries[f] == old(entries)[f]
        invariant forall f :: f in old(entries) ==> f in todo || (f in entries <==> f in recent)
        decreases todo
      {
        var f :| f in todo;
        todo := todo - {f};
        if now - entries[f].lastCheck > ttl {
          Erase(f);
        }
      }
    }

    /** `std::min_element` by last check; which of several equally old entries wins is left open. */
    method Oldest() returns (f: File)
      requires entries != map[]
      ensures f in entries
      ensures forall g :: g in entries ==> entries[f].lastCheck <= entries[g].lastCheck
    {
      assert entries.Keys != {};
      f :| f in entries.Keys;
      var todo := entries.Keys - {f};
      while todo != {}
        invariant f in entries && todo <= entries.Keys
        invariant forall g :: g in entries && g !in todo ==> entries[f].lastCheck <= entries[g].lastCheck
        decreases todo
      {
        var g :| g in todo;
        todo := todo - {g};
        if entries[g].lastCheck < entries[f].lastCheck {
          f := g;
        }
      }
    }

    /**
     `evict_size_unlocked`: removes oldest first and no more than needed, ends within the
     limit, and never removes a strictly newest entry that fits by itself.
     */
    method EvictSize()
      requires Accounted()
      modifies this`entries, this`total
      ensures Valid()
      ensures Trimmed(old(entries), entries, maxSize)
      ensures forall f :: f in old(entries) && Newest(old(entries), f) && old(entries)[f].size <= maxSize ==> f in entries
    {
      ghost var last: Option<File> := None;
      while total > maxSize && entries != map[]
        invariant Accounted()
        invariant EvictedOldest(old(entries), entries)
        invariant last.None? ==> entries == old(entries)
        invariant last.Some? ==> last.value in old(entries) && last.value !in entries && total + old(entries)[last.value].size > maxSize
        invariant old(total) <= maxSize ==> entries == old(entries)
        invariant forall f :: f in old(entries) && Newest(old(entries), f) && old(entries)[f].size <= maxSize ==> f in entries
        decreases |entries|
      {
        var oldest := Oldest();
        Smaller(entries, oldest);
        forall f | f in old(entries) && Newest(old(entries), f) && old(entries)[f].size <= maxSize
          ensures f != oldest
        {
          if f == oldest {
            AloneIsTotal(entries, f);
            assert false;
          }
        }
        Erase(oldest);
        last := Some(oldest);
      }
    }

    /** `maybe_maintain_unlocked` */
    method MaybeMaintain(call: nat, now: Time)
      requires Valid()
      modifies this`entries, this`total
      ensures Valid()
      ensures entries == if call % 10 == 0 then Unexpired(old(entries), now, ttl) else old(entries)
    {
      if call % 10 == 0 {
        EvictTtl(now);
        EvictSize();
      }
    }

    // --------------------------------------------------------------- critical sections

    /** First lock of a read: a hit if the entry was checked less than a second ago. */
    method ReadFresh(f: File, call: nat, now: Time, later: Time) returns (hit: Option<bytes>)
      requires Valid()
      modifies this`entries, this`total
      ensures Valid()
      ensures entries == if call % 10 == 0 then Unexpired(old(entries), later, ttl) else old(entries)
      ensures hit == if f in entries && now - entries[f].lastCheck < SECOND then Some(entries[f].content) else None
    {
      MaybeMaintain(call, later);
      hit := None;
      if f in entries && now - entries[f].lastCheck < SECOND {
        hit := Some(entries[f].content);
      }
    }

    /** Second lock: a hit if the file still has the recorded mtime; otherwise the entry goes. */
    method Revalidate(f: File, now: Time, mtime: int) returns (hit: Option<bytes>)
      requires Valid()
      modifies this`entries, this`total
      ensures Valid()
      ensures if f in old(entries) && old(entries)[f].mtime == mtime
              then hit == Some(old(entries)[f].content) && entries == old(entries)[f := old(entries)[f].(lastCheck := now)]
              else hit == None && entries == old(entries) - {f}
    {
      hit := None;
      if f in entries {
        TouchKeepsTotal(entries, f, now);
        entries := entries[f := entries[f].(lastCheck := now)];
        if entries[f].mtime == mtime {
          return Some(entries[f].content);
        }
        Erase(f);
        assert entries == old(entries) - {f};
      }
    }

    /** Third lock: stores what was read from disk and returns the stored copy. */
    method Store(f: File, content: bytes, mtime: int, now: Time) returns (text: bytes)
      requires Valid() && |content| <= maxSize
      modifies this`entries, this`total
      ensures Valid()
      ensures (forall g :: g in old(entries) && g != f ==> old(entries)[g].lastCheck < now) ==>
        && text == content && f in entries && entries[f] == Entry(content, mtime, now, |content|)
        && Trimmed(old(entries)[f := Entry(content, mtime, now, |content|)], entries, maxSize)
      ensures f in entries && text == entries[f].content
      ensures var inserted := old(entries)[f := Entry(content, mtime, now, |content|)];
              || Trimmed(inserted, entries, maxSize)
              || (entries[f] == Entry([], 0, now, 0) && Trimmed(inserted, entries - {f}, maxSize))
    {
      InsertEntry(f, content, mtime, now);
      ghost var inserted := entries;
      EvictSize();
      hide Trimmed;
      if f in entries {
        text := entries[f].content;
      } else {
        // operator[] default-constructs an entry when eviction took the new one
        ghost var m := entries;
        TotalInsert(m, f, Entry([], 0, now, 0));
        entries := entries[f := Entry([], 0, now, 0)];
        assert entries - {f} == m;
        text := [];
      }
    }

    /** The lock of a write, after the file has been written. */
    method NoteWrite(f: File, content: bytes, mtime: int, now: Time)
      requires Valid()
      modifies this`entries, this`total
      ensures Valid()
      ensures if |content| > maxSize then entries == old(entries) - {f}
              else Trimmed(old(entries)[f := Entry(content, mtime, now, |content|)], entries, maxSize)
      ensures |content| <= maxSize && (forall g :: g in old(entries) && g != f ==> old(entries)[g].lastCheck < now) ==> f in entries
    {
      if |content| > maxSize {
        RemoveEntry(f);
      } else {
        InsertEntry(f, content, mtime, now);
        EvictSize();
      }
    }
  }

  lemma AloneIsTotal(m: Table, f: File)
    requires f in m && (forall g :: g in m ==> g == f)
    ensures Total(m) == m[f].size
  {
    TotalWithout(m, f);
    assert m - {f} == map[];
  }

  lemma TouchKeepsTotal(m: Table, f: File, now: Time)
    requires f in m
    ensures Total(m[f := m[f].(lastCheck := now)]) == Total(m)
  {
    var m' := m[f := m[f].(lastCheck := now)];
    TotalWithout(m, f);
    TotalWithout(m', f);
    assert m' - {f} == m - {f};
  }

  // ------------------------------------------------------------------- interleavings

  /** A critical section with whatever its thread brings along. */
  datatype Section =
    | Fresh(f: File, call: nat, now: Time, later: Time)
    | Recheck(f: File, now: Time, mtime: int)
    | Load(f: File, content: bytes, mtime: int, now: Time)
    | Wrote(f: File, content: bytes, mtime: int, now: Time)

  /**
   Any interleaving of any number of threads, as the sequence in which they get the mutex:
   the accounting invariant holds at every release.
   */
  method Interleave(cache: Cache, schedule: seq<Section>)
    requires cache.Valid()
    requires forall s :: s in schedule && s.Load? ==> |s.content| <= cache.maxSize
    modifies cache
    ensures cache.Valid()
  {
    for i := 0 to |schedule|
      invariant cache.Valid()
    {
      assert schedule[i] in schedule;
      match schedule[i]
      case Fresh(f, call, now, later) => var _ := cache.ReadFresh(f, call, now, later);
      case Recheck(f, now, mtime) => var _ := cache.Revalidate(f, now, mtime);
      case Load(f, content, mtime, now) => var _ := cache.Store(f, content, mtime, now);
      case Wrote(f, content, mtime, now) => cache.NoteWrite(f, content, mtime, now);
    }
  }
}
