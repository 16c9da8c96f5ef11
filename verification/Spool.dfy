/** The spool that keeps a candidate's payload in memory up to a threshold and in a file beyond it. */
module Spool {
  import opened Bytes

  const DEFAULT_MEMORY := 3 * 1024 * 1024
  const INITIAL_MEMORY := 64 * 1024
  const WRITER_BUFFER := 64 * 1024

  function NormalizedMemory(memoryBytes: int): (n: nat)
    ensures n > 0 && (memoryBytes > 0 ==> n == memoryBytes) && (memoryBytes <= 0 ==> n == 3145728)
  {
    if memoryBytes <= 0 then DEFAULT_MEMORY else memoryBytes
  }

  class CandidateSpool {
    var memoryBytes: nat
    var mem: Text
    var capacity: nat
    var hasFile: bool
    var disk: Text
    var buffered: Text
    var spilled: bool
    var size: nat
    var spillCount: nat
    var spillBytes: nat
    /** Everything written for the current candidate. */
    ghost var written: Text

    /** The spool is ready for writes: it holds exactly what was written for this candidate. */
    ghost predicate Valid()
      reads this
    {
      && memoryBytes > 0 && size == |written| && |buffered| <= WRITER_BUFFER
      && (spilled <==> |written| > memoryBytes)
      && if spilled then hasFile && mem == [] && disk + buffered == written && spillCount == 1 && spillBytes == |written|
         else mem == written && |mem| <= capacity && spillCount == 0 && spillBytes == 0
    }

    constructor (memoryLimit: int, hint: int)
      ensures Valid() && written == [] && memoryBytes == NormalizedMemory(memoryLimit)
    {
      memoryBytes := NormalizedMemory(memoryLimit);
      mem, capacity := [], InitialCapacity(NormalizedMemory(memoryLimit), hint);
      hasFile, disk, buffered, spilled := false, [], [], false;
      size, spillCount, spillBytes, written := 0, 0, 0, [];
    }

    static function InitialCapacity(memoryBytes: nat, hint: int): nat {
      var wanted := if hint <= 0 then INITIAL_MEMORY else hint;
      if wanted > memoryBytes then memoryBytes else wanted
    }

    /** Start over for the next candidate, whatever the last one left behind; a file may be kept for reuse. */
    method ResetForCandidate(memoryLimit: int, otherPlace: bool, hint: int)
      modifies this
      requires |buffered| <= WRITER_BUFFER
      ensures Valid() && written == [] && memoryBytes == NormalizedMemory(memoryLimit)
    {
      if hasFile && otherPlace {
        hasFile, disk, buffered := false, [], [];
      }
      memoryBytes := NormalizedMemory(memoryLimit);
      spilled, size, spillCount, spillBytes := false, 0, 0, 0;
      if capacity == 0 || hint > capacity {
        capacity := InitialCapacity(memoryBytes, hint);
      }
      mem := [];
      written := [];
    }

    method EnsureMemCapacity(next: nat)
      requires 0 < next <= memoryBytes
      modifies `capacity
      ensures next <= capacity && capacity >= old(capacity)
    {
      if next > capacity {
        capacity := memoryBytes;
      }
    }

    method Write(p: Text)
      requires Valid()
      modifies this
      ensures Valid() && written == old(written) + p && memoryBytes == old(memoryBytes)
    {
      if |p| == 0 {
        assert written + p == written;
        return;
      }
      if !spilled {
        var next := |mem| + |p|;
        if next <= memoryBytes {
          EnsureMemCapacity(next);
          mem := mem + p;
          size := size + |p|;
          written := written + p;
          return;
        }
        SpillToDisk();
      }
      WriteBuffered(p);
      assert old(written) + p == disk + buffered;
      size := size + |p|;
      spillBytes := spillBytes + |p|;
      written := written + p;
    }

    /** What memory holds moves to the front of the file; nothing an earlier candidate left there remains. */
    method SpillToDisk()
      requires !spilled && mem == written && spillCount == 0 && spillBytes == 0
      modifies this
      ensures spilled && hasFile && mem == [] && disk + buffered == written && |buffered| <= WRITER_BUFFER
      ensures spillCount == 1 && spillBytes == |written|
      ensures unchanged(`written, `memoryBytes, `size)
    {
      hasFile, disk, buffered := true, [], [];
      if |mem| > 0 {
        WriteBuffered(mem);
        spillBytes := spillBytes + |mem|;
        mem, capacity := [], 0;
      }
      spilled := true;
      spillCount := spillCount + 1;
    }

    /** The buffered writer: fill the buffer, flush it when full, pass large pieces through. */
    method WriteBuffered(p: Text)
      requires |buffered| <= WRITER_BUFFER
      modifies `disk, `buffered
      ensures disk + buffered == old(disk + buffered) + p && |buffered| <= WRITER_BUFFER
    {
      var rest := p;
      while |rest| > WRITER_BUFFER - |buffered|
        invariant |buffered| <= WRITER_BUFFER
        invariant disk + buffered + rest == old(disk + buffered) + p
        decreases |rest|, |buffered|
      {
        if |buffered| == 0 {
          disk := disk + rest;
          rest := [];
          break;
        }
        var n := WRITER_BUFFER - |buffered|;
        assert rest == rest[..n] + rest[n..];
        disk := disk + (buffered + rest[..n]);
        buffered := [];
        rest := rest[n..];
      }
      assert disk + (buffered + rest) == old(disk + buffered) + p;
      buffered := buffered + rest;
    }

    method Finalize()
      requires Valid()
      modifies `disk, `buffered
      ensures Valid() && (spilled ==> disk == written && buffered == [])
    {
      if spilled {
        disk := disk + buffered;
        buffered := [];
      }
    }

    /** The readable payload: from memory, or by opening the finished file. */
    method Open() returns (payload: Text)
      requires Valid()
      modifies `disk, `buffered
      ensures Valid() && payload == written
    {
      Finalize();
      payload := if spilled then disk else mem;
    }

    method Cleanup(releaseFile: bool)
      requires Valid()
      modifies this
      ensures |buffered| <= WRITER_BUFFER && size == 0 && spillCount == 0 && spillBytes == 0 && !spilled
    {
      if hasFile {
        if releaseFile {
          hasFile, disk, buffered := false, [], [];
        } else if spilled {
          disk, buffered := [], [];
        }
      }
      size, spillCount, spillBytes, spilled := 0, 0, 0, false;
    }
  }

  /** What a spool reports of a candidate, and the bytes it holds in memory after the last write. */
  datatype Spooled = Spooled(payload: Text, spilled: bool, spillBytes: nat, held: nat)

  /** What it must report of one candidate's writes; whatever the writes, memory never holds more than the threshold. */
  function Expected(writes: seq<Text>, memoryBytes: nat): (r: Spooled)
    ensures r.held <= memoryBytes
  {
    var total := Flatten(writes);
    if |total| > memoryBytes then Spooled(total, true, |total|, 0) else Spooled(total, false, 0, |total|)
  }

  /** One spool for many candidates: each reads back as its own writes, whatever the candidates before it left. */
  method SpoolAll(candidates: seq<seq<Text>>, memoryLimit: int, releaseFile: bool) returns (out: seq<Spooled>)
    ensures |out| == |candidates|
    ensures forall i :: 0 <= i < |candidates| ==> out[i] == Expected(candidates[i], NormalizedMemory(memoryLimit))
  {
    out := [];
    var spool := new CandidateSpool(memoryLimit, 0);
    for i := 0 to |candidates|
      invariant fresh(spool) && |spool.buffered| <= WRITER_BUFFER && |out| == i
      invariant forall k :: 0 <= k < i ==> out[k] == Expected(candidates[k], NormalizedMemory(memoryLimit))
    {
      spool.ResetForCandidate(memoryLimit, false, if i == 0 then 0 else |out[i - 1].payload|);
      var writes := candidates[i];
      assert writes[..0] == [];
      for k := 0 to |writes|
        invariant fresh(spool) && spool.Valid() && spool.written == Flatten(writes[..k])
        invariant spool.memoryBytes == NormalizedMemory(memoryLimit)
      {
        assert writes[..k + 1] == writes[..k] + [writes[k]];
        FlattenAppend(writes[..k], writes[k]);
        spool.Write(writes[k]);
      }
      assert writes[..|writes|] == writes;
      var spilled, spillBytes, held := spool.spilled, spool.spillBytes, |spool.mem|;
      var payload := spool.Open();
      out := out + [Spooled(payload, spilled, spillBytes, held)];
      spool.Cleanup(releaseFile);
    }
  }
}
