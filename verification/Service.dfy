/** The service: which config it enforces after a start, and the bounded reader of its control channel. */
module Service {
  import opened Basics
  import opened SessionStore
  import opened ConfigModel
  import opened ConfigGuard

  // ----- Choosing the config to enforce -----

  /** The config in force, if the service starts at all, and the copy to keep, if one is written. */
  datatype Choice = Choice(enforced: Option<Config>, keep: Option<Config>)

  /** `live` and `kept` are what the two files read as; nothing when a file is missing or unreadable. */
  function Choose(live: Option<Config>, kept: Option<Config>, running: seq<Session>): Choice {
    match live
    case Some(c) =>
      if running == [] || kept.None? then Choice(Some(c), Some(c))
      else if Weakening(kept.value, c, running, NamesOf(kept.value.profiles)) == {} then Choice(Some(c), Some(c))
      else Choice(kept, None)
    case None =>
      if running == [] then Choice(None, None)
      else if kept.Some? then Choice(kept, None)
      else Choice(Some(DEFAULT), None)
  }

  /** The files the service starts from, and what it enforces once it has. */
  class Machine {
    var live: Option<Config>
    var kept: Option<Config>
    var enforced: Option<Config>

    constructor (live: Option<Config>, kept: Option<Config>)
      ensures this.live == live && this.kept == kept && enforced == None
    {
      this.live, this.kept, enforced := live, kept, None;
    }

    /** Start the service with the sessions it saved. Keeping a copy is best effort: it may not be written. */
    method Build(running: seq<Session>, writable: bool) returns (started: bool)
      modifies this`kept, this`enforced
      ensures var choice := Choose(live, old(kept), running);
              && enforced == choice.enforced && started == choice.enforced.Some?
              && kept == if choice.keep.Some? && writable then choice.keep else old(kept)
    {
      if live.Some? {
        if running != [] && kept.Some? {
          var lost := WeakeningARunningSession(kept.value, live.value, running, NamesOf(kept.value.profiles));
          if lost != {} {
            enforced := kept;
            return true;
          }
        }
        enforced := live;
        if writable {
          kept := live;
        }
        return true;
      }
      if running == [] {
        enforced := None;
        return false;
      }
      enforced := if kept.Some? then kept else Some(DEFAULT);
      started := true;
    }
  }

  datatype Event = EditE(live: Option<Config>) | BuildE(writable: bool)

  datatype Files = Files(live: Option<Config>, kept: Option<Config>, enforced: Option<Config>)

  function Step(f: Files, e: Event, running: seq<Session>): Files {
    match e
    case EditE(live) => f.(live := live)
    case BuildE(writable) =>
      var choice := Choose(f.live, f.kept, running);
      f.(enforced := choice.enforced, kept := if choice.keep.Some? && writable then choice.keep else f.kept)
  }

  function After(f: Files, events: seq<Event>, running: seq<Session>): Files {
    if events == [] then f else Step(After(f, events[..|events| - 1], running), events[|events| - 1], running)
  }

  /** Every running profile has in `c` each rule it had in `first`. */
  ghost predicate Upholds(first: Config, c: Config, running: seq<Session>) {
    forall s :: s in running ==> HoldsAll(first, c, s.profile)
  }

  lemma GuardUpholds(first: Config, c: Config, next: Config, running: seq<Session>)
    requires Upholds(first, c, running)
    requires Weakening(c, next, running, NamesOf(c.profiles)) == {}
    ensures Upholds(first, next, running)
  {
    GuardPassesExactlyWhen(c, next, running, NamesOf(c.profiles));
    forall s | s in running ensures HoldsAll(first, next, s.profile) {
      KeptHoldsAll(c, next, s.profile);
    }
  }

  /**
   * Whatever is written to the live file and however often the service starts: with sessions running
   * and a first kept copy, everything enforced and everything kept still has the rules it had.
   */
  lemma {:induction false} RestartsUphold(f: Files, first: Config, events: seq<Event>, running: seq<Session>)
    requires running != [] && f.kept == Some(first) && f.enforced.None?
    ensures After(f, events, running).kept.Some? && Upholds(first, After(f, events, running).kept.value, running)
    ensures After(f, events, running).enforced.Some? ==>
                Upholds(first, After(f, events, running).enforced.value, running)
  {
    if events == [] {
    } else {
      var n := |events| - 1;
      RestartsUphold(f, first, events[..n], running);
      var before := After(f, events[..n], running);
      var kept := before.kept.value;
      if events[n].BuildE? && before.live.Some?
         && Weakening(kept, before.live.value, running, NamesOf(kept.profiles)) == {} {
        GuardUpholds(first, kept, before.live.value, running);
      }
    }
  }

  /** The service adopts and keeps a readable config exactly when nothing running and readable speaks against it. */
  lemma AdoptsExactlyWhen(c: Config, kept: Option<Config>, running: seq<Session>)
    ensures Choose(Some(c), kept, running) == Choice(Some(c), Some(c)) <==>
                running == [] || kept.None? || forall s :: s in running ==> Kept(kept.value, c, s.profile)
    ensures Choose(Some(c), kept, running) != Choice(Some(c), Some(c)) ==>
                Choose(Some(c), kept, running) == Choice(kept, None)
  {
    if kept.Some? {
      GuardPassesExactlyWhen(kept.value, c, running, NamesOf(kept.value.profiles));
    }
  }

  /**
   * It starts exactly when the live file is readable or something is running; what it falls back on is the kept
   * copy, left as it is, and failing that a config with nothing in it.
   */
  lemma StartsExactlyWhen(live: Option<Config>, kept: Option<Config>, running: seq<Session>)
    ensures Choose(live, kept, running).enforced.Some? <==> live.Some? || running != []
    ensures kept.Some? && running != [] && Choose(live, kept, running).enforced != live ==>
                Choose(live, kept, running) == Choice(kept, None)
    ensures live.None? && running != [] ==>
              var choice := Choose(live, kept, running);
              choice.keep.None? && choice.enforced.Some? && (kept.None? ==> choice.enforced.value.profiles == [])
  {
  }

  // ----- The bounded reader -----

  type byte = x: int | 0 <= x < 256

  const MAX_REQUEST: nat := 64 * 1024
  const NEWLINE: byte := 10

  function Concat(buffers: seq<seq<byte>>): seq<byte> {
    if buffers == [] then [] else buffers[0] + Concat(buffers[1..])
  }

  function NewlineAt(s: seq<byte>): (i: nat)
    ensures i <= |s| && (i < |s| ==> s[i] == NEWLINE)
    ensures forall j :: 0 <= j < i ==> s[j] != NEWLINE
  {
    if s == [] || s[0] == NEWLINE then 0 else 1 + NewlineAt(s[1..])
  }

  /** The request a stream begins with: through its first newline, to its end, or to the cap. */
  function RequestIn(s: seq<byte>): seq<byte> {
    s[..Min(Min(NewlineAt(s) + 1, |s|), MAX_REQUEST)]
  }

  /** A reader that hands the stream over in non-empty buffers, as they were chopped. */
  class Reader {
    var buffers: seq<seq<byte>>

    ghost predicate Valid()
      reads this
    {
      forall b :: b in buffers ==> b != []
    }

    ghost function Remaining(): seq<byte>
      reads this
    {
      Concat(buffers)
    }

    constructor (buffers: seq<seq<byte>>)
      requires forall b :: b in buffers ==> b != []
      ensures Valid() && this.buffers == buffers
    {
      this.buffers := buffers;
    }

    /** The rest of the current buffer; empty only at the end of the stream. */
    method FillBuf() returns (available: seq<byte>)
      requires Valid()
      ensures available <= Remaining()
      ensures available == [] <==> Remaining() == []
      ensures available == if buffers == [] then [] else buffers[0]
    {
      if buffers == [] {
        return [];
      }
      available := buffers[0];
      assert buffers[0] in buffers;
    }

    method Consume(n: nat)
      requires Valid() && buffers != [] && 0 < n <= |buffers[0]|
      modifies this
      ensures Valid() && n <= |old(Remaining())| && Remaining() == old(Remaining())[n..]
    {
      ghost var rest := Concat(buffers[1..]);
      assert forall b :: b in buffers[1..] ==> b in buffers;
      if n == |buffers[0]| {
        buffers := buffers[1..];
      } else {
        var left := buffers[0][n..];
        assert (buffers[0] + rest)[n..] == left + rest;
        buffers := [left] + buffers[1..];
        assert buffers[1..] == old(buffers)[1..];
      }
    }
  }

  lemma NewlineIs(s: seq<byte>, i: nat)
    requires i <= |s| && (i < |s| ==> s[i] == NEWLINE)
    requires forall j :: 0 <= j < i ==> s[j] != NEWLINE
    ensures NewlineAt(s) == i
  {
  }

  /**
   * The bounded line reader. However the stream is chopped, what is returned is
   * the request it begins with, and exactly those bytes are consumed.
   */
  method ReadRequest(reader: Reader) returns (bytes: seq<byte>)
    requires reader.Valid()
    modifies reader
    ensures reader.Valid()
    ensures bytes == RequestIn(old(reader.Remaining()))
    ensures old(reader.Remaining()) == bytes + reader.Remaining()
  {
    hide RequestIn, NewlineAt, Concat, Reader.Valid, Reader.Remaining, ReadSoFar;
    ghost var stream := reader.Remaining();
    bytes := [];
    var done := false;
    NothingRead(stream);
    while !done
      invariant reader.Valid() && |bytes| <= MAX_REQUEST
      invariant ReadSoFar(stream, bytes, reader.Remaining(), done)
      decreases !done, |reader.Remaining()|
    {
      var room := MAX_REQUEST - |bytes|;
      if room == 0 {
        CappedIs(stream, bytes, reader.Remaining());
        break;
      }
      var available := reader.FillBuf();
      if available == [] {
        EndedIs(stream, bytes, reader.Remaining());
        break;
      }
      var window := available[..Min(|available|, room)];
      ghost var rest := reader.Remaining();
      assert window <= rest;
      var at := NewlineAt(window);
      var chunk, consumed := window, |window|;
      if at < |window| {
        chunk, consumed, done := window[..at + 1], at + 1, true;
      } else {
        done := |window| == room;
      }
      assert chunk == rest[..consumed];
      ChunkIs(stream, bytes, rest, at, chunk, room);
      bytes := bytes + chunk;
      reader.Consume(consumed);
    }
    AllRead(stream, bytes, reader.Remaining());
  }

  /** What has been read of the stream so far: all of the request once done, and no newline before. */
  ghost predicate ReadSoFar(stream: seq<byte>, bytes: seq<byte>, rest: seq<byte>, done: bool) {
    && stream == bytes + rest && |bytes| <= MAX_REQUEST
    && if done then bytes == RequestIn(stream) else NEWLINE !in bytes
  }

  lemma NothingRead(stream: seq<byte>)
    ensures ReadSoFar(stream, [], stream, false)
  {
    assert [] + stream == stream;
  }

  lemma AllRead(stream: seq<byte>, bytes: seq<byte>, rest: seq<byte>)
    requires ReadSoFar(stream, bytes, rest, true)
    ensures bytes == RequestIn(stream) && stream == bytes + rest
  {
  }

  /**
   * What a request is: a prefix with no newline before its last byte, of 65536 bytes at most, that ends
   * in a newline, at that size, or with the stream.
   */
  lemma RequestExactlyWhen(stream: seq<byte>, r: seq<byte>)
    ensures r == RequestIn(stream) <==>
              && r <= stream && |r| <= 65_536
              && (forall j :: 0 <= j < |r| - 1 ==> r[j] != 10)
              && (|r| == 65_536 || r == stream || (r != [] && r[|r| - 1] == 10))
  {
    var i := NewlineAt(stream);
    if r <= stream {
      assert r == stream[..|r|];
      assert forall j :: 0 <= j < |r| ==> r[j] == stream[j];
    }
  }

  lemma CappedIs(stream: seq<byte>, bytes: seq<byte>, rest: seq<byte>)
    requires ReadSoFar(stream, bytes, rest, false) && |bytes| == MAX_REQUEST
    ensures ReadSoFar(stream, bytes, rest, true)
  {
    assert forall j :: 0 <= j < |bytes| ==> stream[j] == bytes[j];
    assert NewlineAt(stream) >= |bytes|;
  }

  lemma EndedIs(stream: seq<byte>, bytes: seq<byte>, rest: seq<byte>)
    requires ReadSoFar(stream, bytes, rest, false) && rest == []
    ensures ReadSoFar(stream, bytes, rest, true)
  {
    assert stream == bytes;
    NewlineIs(stream, |stream|);
  }

  lemma ChunkIs(stream: seq<byte>, bytes: seq<byte>, rest: seq<byte>, at: nat, chunk: seq<byte>, room: nat)
    requires ReadSoFar(stream, bytes, rest, false) && |bytes| + room == MAX_REQUEST && 0 < |chunk| <= room
    requires chunk <= rest && at <= |chunk|
    requires forall j :: 0 <= j < at ==> chunk[j] != NEWLINE
    requires at < |chunk| ==> chunk[at] == NEWLINE && |chunk| == at + 1
    ensures ReadSoFar(stream, bytes + chunk, rest[|chunk|..], at < |chunk| || |chunk| == room)
  {
    assert stream == bytes + chunk + rest[|chunk|..];
    assert forall j :: 0 <= j < |bytes| ==> stream[j] == bytes[j];
    assert forall j :: 0 <= j < |chunk| ==> stream[|bytes| + j] == chunk[j];
    if at < |chunk| {
      NewlineIs(stream, |bytes| + at);
      assert stream[..|bytes| + at + 1] == bytes + chunk;
    } else {
      assert NewlineAt(stream) >= |bytes| + |chunk|;
      assert stream[..|bytes| + |chunk|] == bytes + chunk;
    }
  }
}
