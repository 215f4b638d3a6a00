module MultipartSink {
  /**
   objstore/columnar_objstore_module.c, writing: bytes are staged one part at a time; the first full
   part starts a multipart upload, finish sends the rest. A short object is one PUT.
   */

  import opened Prelude
  import opened Bits
  import opened BitPack

  const MAX_PARTS: nat := 10000
  const MIN_PART_SIZE: nat := 5 * 1024 * 1024

  /** An uploaded part and the ETag the store answered with. */
  datatype Part = Part(number: nat, bytes: seq<Byte>, etag: string)

  /** The line of a part in the complete list. */
  datatype Listed = Listed(number: nat, etag: string)

  function Joined(parts: seq<Part>, k: nat): seq<Byte>
    requires k <= |parts|
  {
    if k == 0 then [] else Joined(parts, k - 1) + parts[k - 1].bytes
  }

  function Uploaded(parts: seq<Part>): seq<Byte> { Joined(parts, |parts|) }

  lemma {:induction false} JoinedPrefix(parts: seq<Part>, p: Part, k: nat)
    requires k <= |parts|
    ensures Joined(parts + [p], k) == Joined(parts, k)
  {
    if k > 0 { JoinedPrefix(parts, p, k - 1); }
  }

  lemma {:induction false} UploadedAppend(parts: seq<Part>, p: Part)
    ensures Uploaded(parts + [p]) == Uploaded(parts) + p.bytes
  {
    JoinedPrefix(parts, p, |parts|);
  }

  /** Parts are numbered from 1, the list names them in order with the store's ETags. */
  ghost predicate Numbered(parts: seq<Part>, listed: seq<Listed>) {
    && |parts| == |listed| <= MAX_PARTS
    && forall i | 0 <= i < |parts| :: parts[i].number == i + 1 && listed[i] == Listed(parts[i].number, parts[i].etag)
  }

  ghost predicate AllOf(parts: seq<Part>, size: nat) { forall i | 0 <= i < |parts| :: |parts[i].bytes| == size }

  /** What the store assembles from the complete list: the listed parts in listed order. */
  function Assembled(parts: seq<Part>, listed: seq<Listed>, k: nat): Result<seq<Byte>>
    requires k <= |listed|
  {
    if k == 0 then Ok([])
    else
      var before, l := Assembled(parts, listed, k - 1), listed[k - 1];
      if before.Err? || !(1 <= l.number <= |parts|) || parts[l.number - 1].etag != l.etag then Err
      else Ok(before.value + parts[l.number - 1].bytes)
  }

  lemma {:induction false} AssembledAll(parts: seq<Part>, listed: seq<Listed>, k: nat)
    requires Numbered(parts, listed) && k <= |listed|
    ensures Assembled(parts, listed, k) == Ok(Joined(parts, k))
  {
    if k > 0 { AssembledAll(parts, listed, k - 1); }
  }

  lemma {:induction false} Staged(up: seq<Byte>, buf: seq<Byte>, written: seq<Byte>, data: seq<Byte>, p: nat, take: nat)
    requires p + take <= |data| && up + buf == written + data[..p]
    ensures up + (buf + data[p..p + take]) == written + data[..p + take]
  {
    assert data[..p + take] == data[..p] + data[p..p + take];
    assert up + (buf + data[p..p + take]) == up + buf + data[p..p + take];
  }

  /** How the store answers: an upload id or a refusal, and an ETag or a refusal per part. */
  datatype Server = Server(begin: bool, part: nat -> Result<string>, commit: bool)

  class Sink {
    const partSize: nat
    const needsMinimum: bool
    var buf: seq<Byte>
    var started: bool
    var partNo: nat
    var listed: seq<Listed>
    /** What the store holds of this upload. */
    var parts: seq<Part>

    /** The bytes given so far are the uploaded parts, then the buffer. */
    ghost predicate Holds(written: seq<Byte>)
      reads this
    {
      && partSize > 0 && |buf| < partSize
      && Uploaded(parts) + buf == written
      && Numbered(parts, listed) && AllOf(parts, partSize)
      && partNo == |parts| + 1
      && (started <==> parts != [])
    }

    constructor (size: nat, minimum: bool)
      requires size > 0
      ensures Holds([]) && partSize == size && needsMinimum == minimum && !started
    {
      partSize, needsMinimum := size, minimum;
      buf, started, partNo, listed, parts := [], false, 1, [], [];
    }

    /** os_flush_part: refuse part 10001 before sending it. */
    method FlushPart(server: Server) returns (ok: bool)
      requires Numbered(parts, listed) && partNo == |parts| + 1
      modifies this
      ensures started == old(started)
      ensures !ok ==> buf == old(buf) && parts == old(parts) && listed == old(listed) && partNo == old(partNo)
      ensures !ok ==> old(|parts|) == MAX_PARTS || server.part(old(partNo)).Err?
      ensures ok ==> buf == [] && partNo == old(partNo) + 1 && Numbered(parts, listed)
      ensures ok ==> |parts| == old(|parts|) + 1 && parts[..old(|parts|)] == old(parts) && parts[old(|parts|)].bytes == old(buf)
    {
      if partNo > MAX_PARTS { return false; }
      var etag := server.part(partNo);
      if etag.Err? { return false; }
      parts := parts + [Part(partNo, buf, etag.value)];
      listed := listed + [Listed(partNo, etag.value)];
      buf := [];
      partNo := partNo + 1;
      ok := true;
    }

    /** The full buffer becomes the next part; the first one starts the upload. */
    method UploadFull(server: Server, ghost written: seq<Byte>) returns (ok: bool)
      requires partSize > 0 && |buf| == partSize && Uploaded(parts) + buf == written
      requires Numbered(parts, listed) && AllOf(parts, partSize) && partNo == |parts| + 1 && (started <==> parts != [])
      modifies this
      ensures ok ==> Holds(written)
      ensures !ok ==> Uploaded(parts) + buf == written && Numbered(parts, listed)
    {
      if !started {
        if (partSize < MIN_PART_SIZE && needsMinimum) || !server.begin { return false; }
        started := true;
      }
      ghost var before, full := parts, buf;
      ok := FlushPart(server);
      if ok {
        UploadedAppend(before, parts[|before|]);
        assert parts == before + [parts[|before|]];
      }
    }

    /** objstore_sink_write: fill the part, upload, fill again; the buffer never exceeds one part. */
    method Write(data: seq<Byte>, server: Server, ghost written: seq<Byte>) returns (ok: bool)
      requires Holds(written)
      modifies this
      ensures ok ==> Holds(written + data)
      ensures !ok ==> Numbered(parts, listed) && Uploaded(parts) + buf <= written + data
    {
      hide Uploaded, Numbered, AllOf;
      var p := 0;
      assert written + data[..0] == written;
      while p < |data|
        invariant p <= |data| && Holds(written + data[..p])
      {
        var room := partSize - |buf|;
        var take := if |data| - p < room then |data| - p else room;
        Staged(Uploaded(parts), buf, written, data, p, take);
        buf := buf + data[p..p + take];
        p := p + take;
        if |buf| >= partSize {
          ok := UploadFull(server, written + data[..p]);
          if !ok {
            assert data == data[..p] + data[p..];
            assert written + data == written + data[..p] + data[p..];
            return false;
          }
        }
      }
      assert data[..p] == data;
      ok := true;
    }

    /** objstore_sink_finish: the committed object is exactly the bytes written. */
    method Finish(server: Server, ghost written: seq<Byte>) returns (r: Result<seq<Byte>>)
      requires Holds(written)
      modifies this
      ensures r.Ok? ==> r.value == written
      ensures r.Ok? && started ==> Numbered(parts, listed) && Uploaded(parts) == written
      ensures r.Ok? && started ==> forall i | 0 <= i < |parts| - 1 :: |parts[i].bytes| == partSize
      ensures r.Ok? && started ==> parts != [] && 0 < |parts[|parts| - 1].bytes| <= partSize
      ensures r.Ok? && !started ==> |written| < partSize
    {
      if !started {
        assert Uploaded(parts) + buf == buf;
        if !server.commit { return Err; }
        return Ok(buf);
      }
      ghost var before := parts;
      if |buf| > 0 {
        var ok := FlushPart(server);
        if !ok { return Err; }
        UploadedAppend(before, parts[|before|]);
        assert parts == before + [parts[|before|]];
      } else {
        assert Uploaded(parts) + buf == Uploaded(parts);
      }
      if !server.commit { return Err; }
      AssembledAll(parts, listed, |listed|);
      r := Assembled(parts, listed, |listed|);
    }
  }
}
