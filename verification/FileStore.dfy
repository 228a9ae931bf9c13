/**
 The cached file functions against a disk that other programs also write to.
 Assumptions, as `requires` of the methods: times are read off one clock that moves between
 operations, a write gives a file an mtime it never had before, `write_entire_file` stamps
 that mtime, and nobody writes while a call is under way.
 */
module FileStore {
  import opened Bytes
  import opened FileCache

  /** The text and modification time a file got, or its removal, and when that happened. */
  datatype Change = Change(f: File, text: Option<bytes>, mtime: int, time: Time)

  datatype OnDisk = OnDisk(text: bytes, mtime: int)

  /** The state of a file after the changes. */
  function Current(log: seq<Change>, f: File): Option<OnDisk> {
    if log == [] then None
    else
      var c := log[|log| - 1];
      if c.f != f then Current(log[..|log| - 1], f)
      else if c.text.Some? then Some(OnDisk(c.text.value, c.mtime)) else None
  }

  /** The changes made up to an instant. */
  function Until(log: seq<Change>, t: Time): seq<Change> {
    if log == [] then []
    else if log[|log| - 1].time <= t then log else Until(log[..|log| - 1], t)
  }

  /** What `read` would have found at an instant; an absent file reads as the empty text. */
  function TextAt(log: seq<Change>, f: File, t: Time): bytes {
    match Current(Until(log, t), f)
    case Some(d) => d.text
    case None => []
  }

  /** Times increase along the log, and no file has the same mtime twice. */
  ghost predicate Ordered(log: seq<Change>, clock: Time) {
    && (forall i, j :: 0 <= i < j < |log| ==> log[i].time <= log[j].time)
    && (forall i :: 0 <= i < |log| ==> log[i].time <= clock)
    && forall i, j :: 0 <= i < j < |log| && log[i].f == log[j].f && log[i].text.Some? && log[j].text.Some? ==>
         log[i].mtime != log[j].mtime
  }

  ghost predicate NewMtime(log: seq<Change>, f: File, mtime: int) {
    forall i :: 0 <= i < |log| && log[i].f == f && log[i].text.Some? ==> log[i].mtime != mtime
  }

  /** The file had this text when it had this mtime. */
  ghost predicate HadTextAtMtime(log: seq<Change>, f: File, e: Entry) {
    exists i :: 0 <= i < |log| && log[i].f == f && log[i].mtime == e.mtime && log[i].text == Some(e.content)
  }

  /** An entry is a past version of its file, and the one that was current when it was last checked. */
  ghost predicate EntryCoherent(log: seq<Change>, clock: Time, f: File, e: Entry) {
    && e.lastCheck <= clock
    && HadTextAtMtime(log, f, e)
    && TextAt(log, f, e.lastCheck) == e.content
  }

  lemma {:induction false} UntilNow(log: seq<Change>, clock: Time, t: Time)
    requires Ordered(log, clock) && clock <= t
    ensures Until(log, t) == log
  {
  }

  lemma UntilEarlier(log: seq<Change>, c: Change, t: Time)
    requires t < c.time
    ensures Until(log + [c], t) == Until(log, t)
  {
    assert (log + [c])[..|log|] == log;
  }

  /** Later changes leave the past as it was. */
  lemma ChangeKeepsCoherent(log: seq<Change>, clock: Time, c: Change, f: File, e: Entry)
    requires EntryCoherent(log, clock, f, e) && clock < c.time
    ensures EntryCoherent(log + [c], c.time, f, e)
  {
    UntilEarlier(log, c, e.lastCheck);
    var i :| 0 <= i < |log| && log[i].f == f && log[i].mtime == e.mtime && log[i].text == Some(e.content);
    assert (log + [c])[i] == log[i];
  }

  /** The current version is in the log under its mtime. */
  lemma {:induction false} CurrentInLog(log: seq<Change>, f: File) returns (i: nat)
    requires Current(log, f).Some?
    ensures i < |log| && log[i].f == f && log[i].text == Some(Current(log, f).value.text)
    ensures log[i].mtime == Current(log, f).value.mtime
    decreases |log|
  {
    if log[|log| - 1].f == f {
      i := |log| - 1;
    } else {
      i := CurrentInLog(log[..|log| - 1], f);
    }
  }

  /** An entry whose mtime is the current one holds the current text. */
  lemma SameMtimeSameText(log: seq<Change>, clock: Time, f: File, e: Entry)
    requires Ordered(log, clock) && HadTextAtMtime(log, f, e)
    requires Current(log, f).Some? && Current(log, f).value.mtime == e.mtime
    ensures Current(log, f).value.text == e.content
  {
    var i := CurrentInLog(log, f);
    var j :| 0 <= j < |log| && log[j].f == f && log[j].mtime == e.mtime && log[j].text == Some(e.content);
  }

  /** At or after the last change, the past is the present. */
  lemma TextNow(log: seq<Change>, clock: Time, f: File, t: Time)
    requires Ordered(log, clock) && clock <= t
    ensures TextAt(log, f, t) == match Current(log, f) { case Some(d) => d.text case None => [] }
  {
    UntilNow(log, clock, t);
  }

  /** A copy of the current version, checked now, is coherent. */
  lemma CurrentIsCoherent(log: seq<Change>, clock: Time, f: File, e: Entry)
    requires Ordered(log, clock) && clock <= e.lastCheck
    requires Current(log, f) == Some(OnDisk(e.content, e.mtime))
    ensures EntryCoherent(log, e.lastCheck, f, e)
  {
    TextNow(log, clock, f, e.lastCheck);
    var _ := CurrentInLog(log, f);
  }

  lemma ChangeKeepsOrder(log: seq<Change>, clock: Time, c: Change)
    requires Ordered(log, clock) && clock < c.time && (c.text.Some? ==> NewMtime(log, c.f, c.mtime))
    ensures Ordered(log + [c], c.time)
    ensures forall f :: Current(log + [c], f) ==
              if f != c.f then Current(log, f)
              else if c.text.Some? then Some(OnDisk(c.text.value, c.mtime)) else None
  {
    assert (log + [c])[..|log|] == log;
  }

  /** Storing a version of f that was just loaded or written: unless it is too large, it is there afterwards. */
  ghost predicate Loaded(before: Table, after: Table, f: File, d: OnDisk, now: Time, maxSize: nat) {
    if |d.text| > maxSize then after == before
    else
      var e := Entry(d.text, d.mtime, now, |d.text|);
      f in after && after[f] == e && Trimmed(before[f := e], after, maxSize)
  }

  /** A write leaves the table as loading the new text would. */
  lemma StoredIsLoaded(m: Table, after: Table, f: File, d: OnDisk, now: Time, maxSize: nat)
    requires if |d.text| > maxSize then after == m - {f}
             else f in after && Trimmed(m[f := Entry(d.text, d.mtime, now, |d.text|)], after, maxSize)
    ensures Loaded(m - {f}, after, f, d, now, maxSize)
    ensures forall g :: g in after ==>
      if g == f then after[g] == Entry(d.text, d.mtime, now, |d.text|) else g in m && after[g] == m[g]
  {
    var e := Entry(d.text, d.mtime, now, |d.text|);
    assert (m - {f})[f := e] == m[f := e];
  }

  lemma UnexpiredStays(m: Table, later: Time, ttl: Time)
    ensures forall f :: f in Unexpired(m, later, ttl) ==> f in m && Unexpired(m, later, ttl)[f] == m[f]
  {
  }

  lemma CoherentLater(log: seq<Change>, clock: Time, later: Time, f: File, e: Entry)
    requires EntryCoherent(log, clock, f, e) && clock <= later
    ensures EntryCoherent(log, later, f, e)
  {
  }

  lemma CoherentEntry(log: seq<Change>, clock: Time, f: File, e: Entry)
    requires EntryCoherent(log, clock, f, e)
    ensures TextAt(log, f, e.lastCheck) == e.content && HadTextAtMtime(log, f, e)
  {
  }

  lemma TooLarge(m: Table, f: File, d: OnDisk, now: Time, maxSize: nat)
    requires |d.text| > maxSize
    ensures Loaded(m, m, f, d, now, maxSize)
  {
  }

  class Store {
    const cache: Cache
    /** Everything that ever happened to the files. */
    ghost var log: seq<Change>
    ghost var clock: Time
    /** The files as the operating system shows them. */
    var disk: map<File, OnDisk>

    constructor (maxSize: nat, ttl: Time)
      ensures Valid() && fresh(cache) && disk == map[] && cache.entries == map[]
      ensures cache.maxSize == maxSize
    {
      cache := new Cache(maxSize, ttl);
      log, clock, disk := [], 0, map[];
    }

    ghost predicate Valid()
      reads this, cache
    {
      cache.Valid() && Ordered(log, clock) && DiskIsLast() && Coherent(cache.entries)
    }

    ghost predicate DiskIsLast()
      reads this
    {
      forall f :: Current(log, f) == if f in disk then Some(disk[f]) else None
    }

    /** Every entry holds the text its file had at its recorded mtime and at its last check. */
    ghost predicate Coherent(entries: Table)
      reads this
    {
      forall f :: f in entries ==> EntryCoherent(log, clock, f, entries[f])
    }

    /** What a direct read of the file would give. */
    function Text(f: File): bytes
      reads this
    {
      if f in disk then disk[f].text else []
    }

    /** A write or a removal reaches the disk, from here or from another program; the cache does not notice. */
    method ChangeDisk(f: File, text: Option<bytes>, mtime: int, time: Time)
      requires Valid() && clock < time && (text.Some? ==> NewMtime(log, f, mtime))
      modifies this
      ensures Valid() && cache.entries == old(cache.entries)
      ensures log == old(log) + [Change(f, text, mtime, time)] && clock == time
      ensures disk == if text.Some? then old(disk)[f := OnDisk(text.value, mtime)] else old(disk) - {f}
    {
      hide Ordered, Current, EntryCoherent, NewMtime;
      ghost var c := Change(f, text, mtime, time);
      ChangeKeepsOrder(log, clock, c);
      forall g | g in cache.entries
        ensures EntryCoherent(log + [c], time, g, cache.entries[g])
      {
        ChangeKeepsCoherent(log, clock, c, g, cache.entries[g]);
      }
      log, clock := log + [c], time;
      disk := if text.Some? then disk[f := OnDisk(text.value, mtime)] else disk - {f};
    }

    lemma LaterClock(entries: Table, later: Time)
      requires Ordered(log, clock) && Coherent(entries) && clock <= later
      ensures Ordered(log, later)
      ensures forall f :: f in entries ==> entries[f].lastCheck <= clock
      ensures forall f :: f in entries ==> EntryCoherent(log, later, f, entries[f])
    {
    }

    /** The rest of a read that found the file changed or unknown: load, store, return the stored copy. */
    method Load(f: File, later: Time) returns (text: bytes)
      requires Valid() && f in disk && f !in cache.entries && clock < later
      modifies this`clock, cache
      ensures Valid() && clock == later
      ensures text == disk[f].text
      ensures Loaded(old(cache.entries), cache.entries, f, disk[f], later, cache.maxSize)
      ensures cache.calls == old(cache.calls)
      ensures forall g :: g in cache.entries ==>
        if g == f then cache.entries[g].content == disk[g].text
        else g in old(cache.entries) && cache.entries[g] == old(cache.entries)[g]
    {
      hide Ordered, Current, HadTextAtMtime, EntryCoherent, TextAt, Trimmed, Loaded;
      LaterClock(cache.entries, later);
      var content := disk[f].text;
      if |content| > cache.maxSize {
        TooLarge(cache.entries, f, disk[f], later, cache.maxSize);
        clock := later;
        return content;
      }
      assert cache.entries - {f} == cache.entries;
      text := cache.Store(f, content, disk[f].mtime, later);
      StoredIsLoaded(old(cache.entries), cache.entries, f, disk[f], later, cache.maxSize);
      CurrentIsCoherent(log, clock, f, cache.entries[f]);
      clock := later;
    }

    /** The rest of a read whose file is there: confirm an entry of the same mtime, or load. */
    method ReadStale(f: File, now: Time, later: Time) returns (text: bytes)
      requires Valid() && f in disk && clock < now <= later
      modifies this`clock, cache
      ensures Valid() && clock == later
      ensures text == disk[f].text
      ensures var kept := old(cache.entries);
              if f in kept && kept[f].mtime == disk[f].mtime
              then cache.entries == kept[f := kept[f].(lastCheck := now)]
              else Loaded(kept - {f}, cache.entries, f, disk[f], later, cache.maxSize)
      ensures cache.calls == old(cache.calls)
      ensures forall g :: g in cache.entries ==>
        if g == f then cache.entries[g].content == disk[g].text
        else g in old(cache.entries) && cache.entries[g] == old(cache.entries)[g]
    {
      hide Ordered, Current, HadTextAtMtime, TextAt, EntryCoherent, Trimmed, Loaded;
      LaterClock(cache.entries, later);
      ghost var before := cache.entries;
      var hit := cache.Revalidate(f, now, disk[f].mtime);
      if hit.Some? {
        CoherentEntry(log, later, f, before[f]);
        SameMtimeSameText(log, clock, f, before[f]);
        CurrentIsCoherent(log, clock, f, cache.entries[f]);
        CoherentLater(log, now, later, f, cache.entries[f]);
        clock := later;
        return hit.value;
      }
      text := Load(f, later);
    }

    /** The entries a read finds behind its maintenance, which every tenth call does. */
    ghost function Kept(later: Time): Table
      reads this, cache
    {
      if (cache.calls + 1) % 0x1_0000_0000 % 10 == 0 then Unexpired(cache.entries, later, cache.ttl) else cache.entries
    }

    /**
     `read_entire_file_cached`. The call starts at `now`; maintenance and insertion read the
     clock again at `later`. The text is that of the entry exactly if there is one that was
     checked less than a second ago, and otherwise what the file holds; so it was current at
     some instant `seen` of the last second. A file found unchanged has its entry confirmed,
     one that is new or changed is stored unless it is too large, and nothing else happens to
     the entries but expiry and what storing evicts.
     */
    method Read(f: File, now: Time, later: Time) returns (text: bytes, ghost seen: Time)
      requires Valid() && clock < now <= later
      modifies this`clock, cache
      ensures Valid() && clock == later
      ensures now - SECOND < seen <= now && text == TextAt(log, f, seen)
      ensures var kept := old(Kept(later));
              if f in kept && now - kept[f].lastCheck < SECOND then
                text == kept[f].content && cache.entries == kept
              else if f !in disk then
                text == [] && cache.entries == kept
              else
                && text == disk[f].text
                && if f in kept && kept[f].mtime == disk[f].mtime
                   then cache.entries == kept[f := kept[f].(lastCheck := now)]
                   else Loaded(kept - {f}, cache.entries, f, disk[f], later, cache.maxSize)
      ensures cache.calls == (old(cache.calls) + 1) % 0x1_0000_0000
      ensures forall g :: g in cache.entries ==>
        || (g in old(cache.entries) && cache.entries[g].content == old(cache.entries)[g].content)
        || (g == f && g in disk && cache.entries[g].content == disk[g].text)
    {
      hide Ordered, Current, HadTextAtMtime, TextAt, EntryCoherent, Trimmed, Loaded, Unexpired;
      TextNow(log, clock, f, now);
      UnexpiredStays(cache.entries, later, cache.ttl);
      seen := now;
      cache.calls := (cache.calls + 1) % 0x1_0000_0000;
      LaterClock(cache.entries, later);
      var hit := cache.ReadFresh(f, cache.calls, now, later);
      if hit.Some? {
        seen := cache.entries[f].lastCheck;
        CoherentEntry(log, later, f, cache.entries[f]);
        clock := later;
        return hit.value, seen;
      }
      if f !in disk {
        clock := later;
        return [], seen;
      }
      text := ReadStale(f, now, later);
    }

    /**
     `write_entire_file`: the file is written at `now` and gets `mtime`; the cache entry is
     made at `later`. Afterwards the cache holds the new text or nothing for this file.
     */
    method Write(f: File, content: bytes, mtime: int, now: Time, later: Time)
      requires Valid() && clock < now <= later && NewMtime(log, f, mtime)
      modifies this, cache
      ensures Valid() && clock == later
      ensures disk == old(disk)[f := OnDisk(content, mtime)]
      ensures log == old(log) + [Change(f, Some(content), mtime, now)]
      ensures |content| <= cache.maxSize <==> f in cache.entries
      ensures Loaded(old(cache.entries) - {f}, cache.entries, f, OnDisk(content, mtime), later, cache.maxSize)
      ensures forall g :: g in cache.entries ==>
        if g == f then cache.entries[g].content == content
        else g in old(cache.entries) && cache.entries[g] == old(cache.entries)[g]
    {
      hide Ordered, Current, HadTextAtMtime, TextAt, EntryCoherent, Trimmed, Loaded, NewMtime;
      LaterClock(cache.entries, clock);
      ChangeDisk(f, Some(content), mtime, now);
      assert Current(log, f) == Some(OnDisk(content, mtime));
      LaterClock(cache.entries, later);
      cache.NoteWrite(f, content, mtime, later);
      StoredIsLoaded(old(cache.entries), cache.entries, f, OnDisk(content, mtime), later, cache.maxSize);
      if f in cache.entries {
        CurrentIsCoherent(log, clock, f, cache.entries[f]);
      }
      clock := later;
    }
  }
}
