/**
 Sessions: a JSON value stored under its id through the file cache. Composes the codec's
 round trip with the cache's coherence.
 */
module Session {
  import opened Bytes
  import opened JsonSpec
  import opened FileCache
  import opened FileStore
  import JsonCodec
  import JsonRoundTrip

  const SUFFIX: bytes := [46, 106, 115, 111, 110]

  /** `session_path` */
  function Path(dir: bytes, id: bytes): File {
    (if dir != [] && dir[|dir| - 1] != SLASH then dir + [SLASH] else dir) + id + SUFFIX
  }

  /** The id and .json behind the directory, with one slash between them unless there is no directory. */
  lemma PathText(dir: bytes, id: bytes)
    ensures Path([], id) == id + [46, 106, 115, 111, 110]
    ensures Path(dir + [47], id) == dir + [47] + id + [46, 106, 115, 111, 110]
    ensures dir != [] && dir[|dir| - 1] != 47 ==> Path(dir, id) == dir + [47] + id + [46, 106, 115, 111, 110]
  {
    AppendNothing(id);
  }

  /** Different ids never share a file. */
  lemma PathsDiffer(dir: bytes, a: bytes, b: bytes)
    ensures Path(dir, a) == Path(dir, b) ==> a == b
  {
    var d := if dir != [] && dir[|dir| - 1] != SLASH then dir + [SLASH] else dir;
    if Path(dir, a) == Path(dir, b) {
      assert Path(dir, a)[|d|..|d| + |a|] == a && Path(dir, b)[|d|..|d| + |b|] == b;
    }
  }

  /** The session fields of a request. */
  class Request {
    var sessionId: bytes
    var session: Json

    constructor (sessionId: bytes, session: Json)
      ensures this.sessionId == sessionId && this.session == session
    {
      this.sessionId, this.session := sessionId, session;
    }
  }

  /** The file holds this text and the cache holds nothing else for it. */
  ghost predicate Settled(store: Store, f: File, text: bytes)
    reads store, store.cache
  {
    && f in store.disk && store.disk[f].text == text
    && (f in store.cache.entries ==> store.cache.entries[f].content == text)
  }

  /** `session_save`; `layout` is the session as it lies in memory. */
  method Save(r: Request, layout: Stored, store: Store, dir: bytes, mtime: int, now: Time, later: Time) returns (ok: bool)
    requires Meaning(layout) == r.session
    requires store.Valid() && store.clock < now <= later && NewMtime(store.log, Path(dir, r.sessionId), mtime)
    modifies store, store.cache
    ensures store.Valid()
    ensures ok == (r.sessionId != [])
    ensures ok ==> store.clock == later
                   && store.log == old(store.log) + [Change(Path(dir, r.sessionId), Some(JsonRoundTrip.ToJson(layout, false, 0)), mtime, now)]
                   && Settled(store, Path(dir, r.sessionId), JsonRoundTrip.ToJson(layout, false, 0))
    ensures !ok ==> store.log == old(store.log) && store.disk == old(store.disk) && store.cache.entries == old(store.cache.entries)
  {
    hide Print, Ordered, Current, EntryCoherent;
    if r.sessionId == [] {
      return false;
    }
    var content := JsonCodec.AppendValue(layout, [], Style(false, 0), 0);
    AppendNothing(Print(layout, Style(false, 0), 0));
    store.Write(Path(dir, r.sessionId), content, mtime, now, later);
    return true;
  }

  /**
   `session_load`. The text it goes by is the one the file had at some instant `seen` less than
   a second back; an absent or empty file and a text that does not parse leave the session alone.
   */
  method Load(r: Request, store: Store, dir: bytes, now: Time, later: Time) returns (ok: bool, ghost seen: Time)
    requires store.Valid() && store.clock < now <= later
    modifies r, store, store.cache
    ensures store.Valid() && store.log == old(store.log) && store.disk == old(store.disk)
    ensures r.sessionId == old(r.sessionId)
    ensures now - SECOND < seen <= now
    ensures r.sessionId != [] ==>
              var text := TextAt(store.log, Path(dir, r.sessionId), seen);
              if text != [] && ParseJson(text).Ok? then ok && r.session == ParseJson(text).value
              else !ok && r.session == old(r.session)
    ensures forall text :: old(Settled(store, Path(dir, r.sessionId), text)) && r.sessionId != [] && text != [] ==>
              match ParseJson(text) {
                case Ok(v, _) => ok && r.session == v
                case Bad(_) => !ok && r.session == old(r.session)
              }
    ensures r.sessionId == [] ==> !ok && r.session == old(r.session)
  {
    hide ParseJson, Ordered, Current, EntryCoherent, TextAt;
    if r.sessionId == [] {
      return false, now;
    }
    var content;
    content, seen := store.Read(Path(dir, r.sessionId), now, later);
    if content == [] {
      return false, seen;
    }
    var parsed, pos;
    ok, parsed, pos := JsonCodec.ParseText(content);
    if ok {
      r.session := parsed;
    }
  }

  // -------------------------------------------------------- what may happen meanwhile

  datatype Op =
    | Reading(f: File, now: Time, later: Time)
    | Writing(f: File, content: bytes, mtime: int, now: Time, later: Time)
    | Elsewhere(f: File, text: Option<bytes>, mtime: int, time: Time)

  /** The operations follow each other in time and keep the assumption on mtimes. */
  ghost predicate Feasible(ops: seq<Op>, log: seq<Change>, clock: Time)
    decreases |ops|
  {
    if ops == [] then true
    else
      match ops[0]
      case Reading(_, now, later) => clock < now <= later && Feasible(ops[1..], log, later)
      case Writing(f, content, mtime, now, later) =>
        && clock < now <= later && NewMtime(log, f, mtime)
        && Feasible(ops[1..], log + [Change(f, Some(content), mtime, now)], later)
      case Elsewhere(f, text, mtime, time) =>
        && clock < time && (text.Some? ==> NewMtime(log, f, mtime))
        && Feasible(ops[1..], log + [Change(f, text, mtime, time)], time)
  }

  predicate LeavesAlone(op: Op, f: File) {
    op.Reading? || op.f != f
  }

  ghost function ClockAfter(ops: seq<Op>, clock: Time): Time {
    if ops == [] then clock
    else
      var last := ops[|ops| - 1];
      if last.Elsewhere? then last.time else last.later
  }

  /** Any traffic through the cache that does not write the file keeps it settled. */
  method Traffic(store: Store, ops: seq<Op>, ghost f: File, ghost text: bytes)
    requires store.Valid() && Settled(store, f, text)
    requires Feasible(ops, store.log, store.clock)
    requires forall i :: 0 <= i < |ops| ==> LeavesAlone(ops[i], f)
    modifies store, store.cache
    ensures store.Valid() && Settled(store, f, text)
    ensures store.clock == ClockAfter(ops, old(store.clock))
  {
    hide Ordered, Current, EntryCoherent, TextAt, NewMtime;
    assert ops[0..] == ops;
    for i := 0 to |ops|
      invariant store.Valid() && Settled(store, f, text)
      invariant Feasible(ops[i..], store.log, store.clock)
      invariant store.clock == ClockAfter(ops[..i], old(store.clock))
    {
      DropTwice(ops, i, 1);
      match ops[i]
      case Reading(g, now, later) =>
        var _, _ := store.Read(g, now, later);
      case Writing(g, content, mtime, now, later) =>
        store.Write(g, content, mtime, now, later);
      case Elsewhere(g, other, mtime, time) =>
        store.ChangeDisk(g, other, mtime, time);
    }
    assert ops[..|ops|] == ops;
  }

  /**
   Persistence: a session saved and loaded again under its id, with any other reads, writes
   and evictions in between, comes back as the same value, from the cache, by revalidation
   or from disk; unless it holds a number of a million or more, when the load fails.
   */
  method SaveThenLoad(r: Request, layout: Stored, q: Request, store: Store, dir: bytes, ops: seq<Op>,
                      mtime: int, now: Time, later: Time, now': Time, later': Time) returns (ok: bool)
    requires r != q && r.sessionId == q.sessionId != [] && Meaning(layout) == r.session
    requires store.Valid() && store.clock < now <= later && NewMtime(store.log, Path(dir, r.sessionId), mtime)
    requires Feasible(ops, store.log + [Change(Path(dir, r.sessionId), Some(JsonRoundTrip.ToJson(layout, false, 0)), mtime, now)], later)
    requires forall i :: 0 <= i < |ops| ==> LeavesAlone(ops[i], Path(dir, r.sessionId))
    requires ClockAfter(ops, later) < now' <= later'
    modifies q, store, store.cache
    ensures ok == JsonRoundTrip.PlainNumbers(layout)
    ensures q.session == if ok then r.session else old(q.session)
  {
    hide Ordered, Current, EntryCoherent, TextAt, NewMtime, Print, ParseJson, Feasible, ClockAfter, Meaning, JsonRoundTrip.PlainNumbers;
    var saved := Save(r, layout, store, dir, mtime, now, later);
    ghost var text := JsonRoundTrip.ToJson(layout, false, 0);
    Traffic(store, ops, Path(dir, r.sessionId), text);
    JsonRoundTrip.RoundTrip(layout, false, 0);
    JsonRoundTrip.TextIsNotEmpty(layout, false, 0);
    ghost var seen;
    ok, seen := Load(q, store, dir, now', later');
  }
}
