/**
 Filling a buffer from the process or, failing that, from the target's files.
 */
module LoadImage {
  import opened Lldb

  type byte = b: nat | b < 256

  /** What a ReadMemory call does: the bytes it stores at the start of the buffer, the
      count it reports, and whether it reports an error.  The three need not agree. */
  datatype Read = Read(data: seq<byte>, reported: nat, failed: bool)

  /** A reader stores no more than it was asked for. */
  predicate Bounded(read: Option<Read>, size: int) {
    read.Some? ==> |read.value.data| <= size
  }

  function Min(a: nat, b: nat): nat {
    if a < b then a else b
  }

  function Zeros(n: nat): (z: seq<byte>)
    ensures |z| == n
  {
    seq(n, _ => 0)
  }

  /** The buffer once a reader has stored its bytes. */
  function Stored(buffer: seq<byte>, read: Read): seq<byte>
    requires |read.data| <= |buffer|
  {
    read.data + buffer[|read.data|..]
  }

  /** The first `req` bytes after the reported part is kept and the rest cleared. */
  function Filled(buffer: seq<byte>, req: nat, read: Read): seq<byte>
    requires |read.data| <= req <= |buffer|
  {
    var k := Min(read.reported, req);
    Stored(buffer, read)[..k] + Zeros(req - k)
  }

  /** The target is asked when the process gave nothing or failed. */
  predicate AsksTarget(process: Option<Read>) {
    process.None? || process.value.reported == 0 || process.value.failed
  }

  /** The buffer as it is when the deciding reader begins, and that reader's call; with
      no reader at all, a call that stores and reports nothing. */
  function Deciding(buffer: seq<byte>, process: Option<Read>, target: Option<Read>): (seq<byte>, Read)
    requires Bounded(process, |buffer|)
  {
    var first := if process.Some? then process.value else Read([], 0, false);
    if AsksTarget(process) && target.Some? then (Stored(buffer, first), target.value)
    else (buffer, first)
  }

  lemma StoredByte(buffer: seq<byte>, read: Read, i: nat)
    requires |read.data| <= |buffer| && i < |buffer|
    ensures |Stored(buffer, read)| == |buffer|
    ensures Stored(buffer, read)[i] == if i < |read.data| then read.data[i] else buffer[i]
  {}

  lemma FilledByte(buffer: seq<byte>, req: nat, read: Read, i: nat)
    requires |read.data| <= req <= |buffer| && i < req
    ensures |Filled(buffer, req, read)| == req
    ensures Filled(buffer, req, read)[i] ==
            if i >= read.reported then 0 else if i < |read.data| then read.data[i] else buffer[i]
  {
    hide Stored;
    StoredByte(buffer, read, i);
  }

  lemma FilledLength(buffer: seq<byte>, req: nat, read: Read, was: seq<byte>, i: nat)
    requires |read.data| <= req <= |buffer| && req <= i < |was|
    ensures |Filled(buffer, req, read)| == req && (Filled(buffer, req, read) + was[req..])[i] == was[i]
  {}

  lemma StaleBytes(was: seq<byte>, process: Option<Read>, target: Option<Read>)
    requires Bounded(process, |was|)
    ensures var (stale, read) := Deciding(was, process, target);
            |stale| == |was| && forall i :: 0 <= i < |was| ==>
              stale[i] == if AsksTarget(process) && target.Some? && process.Some? && i < |process.value.data|
                          then process.value.data[i] else was[i]
  {}

  method ReadMemory(ptr: array<byte>, read: Read) returns (bytesRead: nat)
    requires |read.data| <= ptr.Length
    modifies ptr
    ensures ptr[..] == Stored(old(ptr[..]), read) && bytesRead == read.reported
  {
    var i := 0;
    while i < |read.data|
      invariant i <= |read.data|
      invariant forall j :: 0 <= j < i ==> ptr[j] == read.data[j]
      invariant forall j :: i <= j < ptr.Length ==> ptr[j] == old(ptr[j])
    {
      ptr[i] := read.data[i];
      i := i + 1;
    }
    return read.reported;
  }

  method ClearFrom(ptr: array<byte>, from: nat, to: nat)
    requires from <= to <= ptr.Length
    modifies ptr
    ensures ptr[..] == old(ptr[..])[..from] + Zeros(to - from) + old(ptr[..])[to..]
  {
    var i := from;
    while i < to
      invariant from <= i <= to
      invariant forall j :: from <= j < i ==> ptr[j] == 0
      invariant forall j :: 0 <= j < from || i <= j < ptr.Length ==> ptr[j] == old(ptr[j])
    {
      ptr[i] := 0;
      i := i + 1;
    }
  }

  lemma NothingStored(buffer: seq<byte>)
    ensures Stored(buffer, Read([], 0, false)) == buffer
  {}

  lemma StoredLength(buffer: seq<byte>, read: Read)
    requires |read.data| <= |buffer|
    ensures |Stored(buffer, read)| == |buffer|
  {}

  lemma FilledSplit(buffer: seq<byte>, req: nat, read: Read)
    requires |read.data| <= req <= |buffer|
    ensures var (k, s) := (Min(read.reported, req), Stored(buffer, read));
            && s[..k] + Zeros(req - k) + s[req..] == Filled(buffer, req, read) + buffer[req..]
            && (k == req ==> s == Filled(buffer, req, read) + buffer[req..])
  {
    var s := Stored(buffer, read);
    assert s[req..] == buffer[req..];
    assert s == s[..req] + s[req..];
  }

  /** The buffer after the clearing is the one asked for. */
  lemma ClearedIsFilled(was: seq<byte>, stale: seq<byte>, req: nat, read: Read, now: seq<byte>)
    requires |read.data| <= req <= |was| && |stale| == |was| && stale[req..] == was[req..]
    requires |Stored(stale, read)| == |was|
    requires var (k, s) := (Min(read.reported, req), Stored(stale, read));
             now == if k < req then s[..k] + Zeros(req - k) + s[req..] else s
    ensures now == Filled(stale, req, read) + was[req..]
  {
    hide Stored, Zeros, Filled;
    FilledSplit(stale, req, read);
  }

  lemma BeyondUntouched(buffer: seq<byte>, req: nat, process: Option<Read>, target: Option<Read>)
    requires req <= |buffer| && Bounded(process, req) && Bounded(target, req)
    ensures var (stale, read) := Deciding(buffer, process, target);
            |stale| == |buffer| && stale[req..] == buffer[req..]
  {}

  /** loadFill: `process` is None for an invalid process, `target` is None for an address
      that does not resolve. */
  method LoadFill(ptr: array?<byte>, size: int, process: Option<Read>, target: Option<Read>)
    requires ptr != null && size > 0 ==> size <= ptr.Length
    requires size > 0 ==> Bounded(process, size) && Bounded(target, size)
    modifies ptr
    ensures ptr != null && size <= 0 ==> ptr[..] == old(ptr[..])
    ensures ptr != null && size > 0 ==>
              var (stale, read) := Deciding(old(ptr[..]), process, target);
              ptr[..] == Filled(stale, size, read) + old(ptr[..])[size..]
    // byte by byte: the process is used if it counts a byte and does not fail
    ensures ptr != null && size > 0 ==> forall i :: size <= i < ptr.Length ==> ptr[i] == old(ptr[i])
    ensures ptr != null && size > 0 && process.Some? && process.value.reported > 0 && !process.value.failed ==>
              forall i :: 0 <= i < size ==>
                ptr[i] == if i >= process.value.reported then 0
                          else if i < |process.value.data| then process.value.data[i] else old(ptr[i])
    // otherwise the target, over whatever the process has stored
    ensures ptr != null && size > 0 && target.Some?
            && (process.None? || process.value.reported == 0 || process.value.failed) ==>
              forall i :: 0 <= i < size ==>
                ptr[i] == if i >= target.value.reported then 0
                          else if i < |target.value.data| then target.value.data[i]
                          else if process.Some? && i < |process.value.data| then process.value.data[i] else old(ptr[i])
    // otherwise what a failing process counts is left
    ensures ptr != null && size > 0 && target.None? && process.Some? && process.value.failed ==>
              forall i :: 0 <= i < size ==>
                ptr[i] == if i >= process.value.reported then 0
                          else if i < |process.value.data| then process.value.data[i] else old(ptr[i])
    ensures ptr != null && size > 0 && target.None? && (process.None? || process.value.reported == 0) ==>
              forall i :: 0 <= i < size ==> ptr[i] == 0
  {
    hide Stored, Zeros, Filled;
    if ptr == null || size <= 0 { return; }
    ghost var was := ptr[..];
    var req: nat := size;
    var bytesRead: nat := 0;
    var failed := false;
    if process.Some? {
      bytesRead := ReadMemory(ptr, process.value);
      failed := process.value.failed;
    }
    NothingStored(was);
    if bytesRead == 0 || failed {
      if target.Some? {
        bytesRead := ReadMemory(ptr, target.value);
      }
    }
    ghost var (stale, read) := Deciding(was, process, target);
    assert ptr[..] == Stored(stale, read) && bytesRead == read.reported;
    if bytesRead > req { bytesRead := req; }
    if bytesRead < req {
      ClearFrom(ptr, bytesRead, req);
    }
    BeyondUntouched(was, req, process, target);
    StoredLength(stale, read);
    ClearedIsFilled(was, stale, req, read, ptr[..]);
    forall i | 0 <= i < ptr.Length
      ensures i >= req ==> ptr[i] == was[i]
      ensures i < req ==>
                ptr[i] == if i >= read.reported then 0 else if i < |read.data| then read.data[i] else stale[i]
    {
      assert ptr[i] == ptr[..][i];
      if i < req { FilledByte(stale, req, read, i); } else { FilledLength(stale, req, read, was, i); }
    }
    StaleBytes(was, process, target);
  }

  /* ---------- one source, then zeros ---------- */

  /** The reader stored every byte it counts. */
  predicate Honest(read: Read, req: nat) {
    Min(read.reported, req) <= |read.data|
  }

  /** From an honest reader the buffer is its bytes and then zeros, whatever was there
      before, another reader's partial result included. */
  lemma HonestFill(buffer: seq<byte>, req: nat, read: Read)
    requires |read.data| <= req <= |buffer| && Honest(read, req)
    ensures var k := Min(read.reported, req);
            Filled(buffer, req, read) == read.data[..k] + Zeros(req - k)
  {}

  /** The buffer is determined by the deciding reader alone if and only if that reader
      is honest; one that counts bytes it did not store lets older bytes through. */
  lemma OneSourceExactly(req: nat, read: Read)
    requires |read.data| <= req
    ensures (forall b: seq<byte>, c: seq<byte> :: |b| == req && |c| == req ==>
               Filled(b, req, read) == Filled(c, req, read))
            <==> Honest(read, req)
  {
    if Honest(read, req) {
      forall b: seq<byte>, c: seq<byte> | |b| == req && |c| == req
        ensures Filled(b, req, read) == Filled(c, req, read)
      {
        HonestFill(b, req, read);
        HonestFill(c, req, read);
      }
    } else {
      var b, c := Zeros(req), seq(req, _ => 1 as byte);
      var i := |read.data|;
      assert Filled(b, req, read)[i] == 0 && Filled(c, req, read)[i] == 1;
    }
  }

  /** An input that mixes sources: the process stores two bytes and fails, the target
      stores one and reports two; the second byte is still the one of the process. */
  lemma MixedSources(a: byte, b: byte, c: byte)
    ensures var process, target := Some(Read([a, b], 2, true)), Some(Read([c], 2, false));
            var (stale, read) := Deciding([0, 0], process, target);
            Filled(stale, 2, read) == [c, b] && !Honest(read, 2)
  {
    var first, second := Read([a, b], 2, true), Read([c], 2, false);
    assert Stored([0, 0], first) == [a, b];
    assert Stored([a, b], second) == [c, b];
  }
}
