/** Byte streams as the descriptors see them: a bounded queue for a pipe, a buffer with an offset for a file
    (kernel/pipe.c, fs/ramfs.c:27-49, fs/fd.c:87-106). */
module Streams {
  import opened Bytes

  type Chunk = seq<u8>

  function Concat(chunks: seq<Chunk>): Chunk
  {
    if chunks == [] then [] else Concat(chunks[..|chunks| - 1]) + chunks[|chunks| - 1]
  }

  // ---------------------------------------------------------------- pipes

  const PIPE_SIZE := 512

  /** How much of the data a pipe holding q takes. */
  function Taken(q: Chunk, data: Chunk): (n: nat)
    requires |q| <= PIPE_SIZE
    ensures n <= |data|
  {
    Min(|data|, PIPE_SIZE - |q|)
  }

  datatype PipeOp = Put(data: Chunk) | Get(max: nat)

  /** What a run has accepted from its writers, delivered to its readers, and still holds. */
  datatype PipeRun = PipeRun(accepted: Chunk, delivered: Chunk, queue: Chunk)

  function PipeStep(r: PipeRun, op: PipeOp): (r1: PipeRun)
    requires |r.queue| <= PIPE_SIZE
    ensures |r1.queue| <= PIPE_SIZE
  {
    match op
    case Put(data) =>
      var d := data[..Taken(r.queue, data)];
      r.(accepted := r.accepted + d, queue := r.queue + d)
    case Get(max) =>
      var n := Min(max, |r.queue|);
      r.(delivered := r.delivered + r.queue[..n], queue := r.queue[n..])
  }

  /** A writer gets rid of all its data or leaves the pipe with 512 bytes; a reader gets all it asked for or leaves it
      empty; and neither disturbs the rest. */
  lemma PipeStepGreedy(r: PipeRun, op: PipeOp)
    requires |r.queue| <= 512
    ensures var t := PipeStep(r, op);
            match op
            case Put(data) =>
              var n: int := |t.queue| - |r.queue|;
              && 0 <= n <= |data| && (n == |data| || |t.queue| == 512)
              && t.queue == r.queue + data[..n] && t.accepted == r.accepted + data[..n] && t.delivered == r.delivered
            case Get(max) =>
              var n: int := |r.queue| - |t.queue|;
              && 0 <= n <= max && (n == max || t.queue == [])
              && r.queue == r.queue[..n] + t.queue && t.delivered == r.delivered + r.queue[..n] && t.accepted == r.accepted
  {
  }

  function RunPipe(ops: seq<PipeOp>): (r: PipeRun)
    ensures |r.queue| <= PIPE_SIZE
  {
    if ops == [] then PipeRun([], [], []) else PipeStep(RunPipe(ops[..|ops| - 1]), ops[|ops| - 1])
  }

  /** At any point of any run, what was delivered followed by what is queued is what was accepted. */
  lemma {:induction false} PipeKeepsOrder(ops: seq<PipeOp>)
    ensures RunPipe(ops).delivered + RunPipe(ops).queue == RunPipe(ops).accepted
    ensures RunPipe(ops).delivered <= RunPipe(ops).accepted
    decreases |ops|
  {
    if ops != [] {
      PipeKeepsOrder(ops[..|ops| - 1]);
      PipeStepKeepsOrder(RunPipe(ops[..|ops| - 1]), ops[|ops| - 1]);
    }
  }

  lemma PipeStepKeepsOrder(r: PipeRun, op: PipeOp)
    requires |r.queue| <= PIPE_SIZE && r.delivered + r.queue == r.accepted
    ensures PipeStep(r, op).delivered + PipeStep(r, op).queue == PipeStep(r, op).accepted
  {
    match op
    case Put(data) =>
      var d := data[..Taken(r.queue, data)];
      assert r.delivered + (r.queue + d) == r.delivered + r.queue + d;
    case Get(max) =>
      var n := Min(max, |r.queue|);
      assert r.delivered + r.queue[..n] + r.queue[n..] == r.delivered + (r.queue[..n] + r.queue[n..]);
      assert r.queue[..n] + r.queue[n..] == r.queue;
  }

  // ---------------------------------------------------------------- files

  /** A file's buffer and length. */
  datatype FileView = FileView(buf: Chunk, length: nat)

  predicate FileOk(f: FileView) { f.length <= |f.buf| }

  function FileBytes(f: FileView): Chunk
    requires FileOk(f)
  {
    f.buf[..f.length]
  }

  /** How much of the data fits at the offset. */
  function Fitting(f: FileView, offset: nat, data: Chunk): (n: nat)
    requires offset <= |f.buf|
    ensures n <= |data| && offset + n <= |f.buf|
  {
    Min(|data|, |f.buf| - offset)
  }

  /** ramfs_write. */
  function WriteAt(f: FileView, offset: nat, data: Chunk): (g: FileView)
    requires FileOk(f) && offset <= |f.buf|
    ensures FileOk(g) && |g.buf| == |f.buf|
  {
    var n := Fitting(f, offset, data);
    FileView(f.buf[..offset] + data[..n] + f.buf[offset + n..], if offset + n > f.length then offset + n else f.length)
  }

  /** A file and the offset of a descriptor on it. */
  datatype Stream = Stream(file: FileView, offset: nat)

  predicate StreamOk(s: Stream) { FileOk(s.file) && s.offset <= |s.file.buf| }

  /** fd_write. */
  function WriteStream(s: Stream, data: Chunk): (t: Stream)
    requires StreamOk(s)
    ensures StreamOk(t) && |t.file.buf| == |s.file.buf|
  {
    Stream(WriteAt(s.file, s.offset, data), s.offset + Fitting(s.file, s.offset, data))
  }

  function WriteChunks(s: Stream, chunks: seq<Chunk>): (t: Stream)
    requires StreamOk(s)
    ensures StreamOk(t) && |t.file.buf| == |s.file.buf|
  {
    if chunks == [] then s else WriteStream(WriteChunks(s, chunks[..|chunks| - 1]), chunks[|chunks| - 1])
  }

  /** However a stream of bytes is cut into writes, a new file ends up with as many of its first bytes as it can hold. */
  lemma {:induction false} ChunkedWrites(cap: nat, buf: Chunk, chunks: seq<Chunk>)
    requires |buf| == cap
    ensures var t, all := WriteChunks(Stream(FileView(buf, 0), 0), chunks), Concat(chunks);
            && t.offset == t.file.length == Min(|all|, cap)
            && FileBytes(t.file) == all[..Min(|all|, cap)]
    decreases |chunks|
  {
    if chunks != [] {
      var init, last := chunks[..|chunks| - 1], chunks[|chunks| - 1];
      ChunkedWrites(cap, buf, init);
      var s := WriteChunks(Stream(FileView(buf, 0), 0), init);
      AppendChunk(s, last);
      FirstBytes(Concat(init), last, cap);
    }
  }

  /** A write at the end of the file appends what fits. */
  lemma AppendChunk(s: Stream, data: Chunk)
    requires StreamOk(s) && s.offset == s.file.length
    ensures var t, n := WriteStream(s, data), Fitting(s.file, s.offset, data);
            t.offset == t.file.length && FileBytes(t.file) == FileBytes(s.file) + data[..n]
  {
  }

  lemma FirstBytes(a: Chunk, b: Chunk, cap: nat)
    ensures var k := Min(|a|, cap);
            a[..k] + b[..Min(|b|, cap - k)] == (a + b)[..Min(|a + b|, cap)]
  {
  }

  /** How many bytes fd_read delivers. */
  function Readable(s: Stream, size: nat): (n: nat)
    requires StreamOk(s)
    ensures s.offset < s.file.length ==> s.offset + n <= s.file.length
    ensures s.offset >= s.file.length ==> n == 0
  {
    if s.offset >= s.file.length then 0 else Min(size, s.file.length - s.offset)
  }

  /** fd_read: the bytes delivered and the offset moved past them. */
  function ReadStream(s: Stream, size: nat): (r: (Chunk, Stream))
    requires StreamOk(s)
    ensures StreamOk(r.1) && r.1.file == s.file
  {
    var n := Readable(s, size);
    (if n == 0 then [] else s.file.buf[s.offset..s.offset + n], s.(offset := s.offset + n))
  }

  /** All that a sequence of reads delivers, and where it ends. */
  function ReadChunks(s: Stream, sizes: seq<nat>): (r: (Chunk, Stream))
    requires StreamOk(s)
    ensures StreamOk(r.1) && r.1.file == s.file
  {
    if sizes == [] then ([], s)
    else
      var (bytes, t) := ReadChunks(s, sizes[..|sizes| - 1]);
      var (more, u) := ReadStream(t, sizes[|sizes| - 1]);
      (bytes + more, u)
  }

  function Sum(sizes: seq<nat>): nat
  {
    if sizes == [] then 0 else Sum(sizes[..|sizes| - 1]) + sizes[|sizes| - 1]
  }

  /** A read delivers what stands between the offset before it and the one after it. */
  lemma ReadDelivers(s: Stream, size: nat)
    requires FileOk(s.file) && s.offset <= s.file.length && StreamOk(s)
    ensures var r, f := ReadStream(s, size), s.file;
            && r.1.offset == Min(s.offset + size, f.length)
            && |FileBytes(f)| == f.length && FileBytes(f)[..s.offset] + r.0 == FileBytes(f)[..r.1.offset]
  {
    Adjoining(s.file.buf, s.file.length, s.offset, s.offset + Readable(s, size));
    assert FileBytes(s.file)[..s.offset] + [] == FileBytes(s.file)[..s.offset];
  }

  lemma Adjoining(b: Chunk, len: nat, from: nat, to: nat)
    requires from <= to <= len <= |b|
    ensures b[..len][..from] + b[from..to] == b[..len][..to]
  {
  }

  /** However reads from the start of a file are sized, they deliver its bytes in order, without gap or repeat. */
  lemma {:induction false} ChunkedReads(f: FileView, sizes: seq<nat>)
    requires FileOk(f)
    ensures var r := ReadChunks(Stream(f, 0), sizes);
            && r.1.offset == Min(Sum(sizes), f.length)
            && r.0 == FileBytes(f)[..Min(Sum(sizes), f.length)]
    decreases |sizes|
  {
    if sizes != [] {
      var init, size := sizes[..|sizes| - 1], sizes[|sizes| - 1];
      ChunkedReads(f, init);
      hide ReadStream, FileBytes;
      ReadDelivers(ReadChunks(Stream(f, 0), init).1, size);
    }
  }

  /** Writing chunks to a new file and reading it back, both cut up in any way, is the identity up to the capacity. */
  lemma WriteThenRead(cap: nat, buf: Chunk, chunks: seq<Chunk>, sizes: seq<nat>)
    requires |buf| == cap && |Concat(chunks)| <= cap && Sum(sizes) >= |Concat(chunks)|
    ensures ReadChunks(Stream(WriteChunks(Stream(FileView(buf, 0), 0), chunks).file, 0), sizes).0 == Concat(chunks)
  {
    ChunkedWrites(cap, buf, chunks);
    ChunkedReads(WriteChunks(Stream(FileView(buf, 0), 0), chunks).file, sizes);
  }
}
