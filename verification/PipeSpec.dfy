/** One writer and one reader on a pipe, interleaved at every semaphore operation, buffer access
    and position update (MeOS/pipe.cpp:13-86, MeOS/semaphore.cpp:5-62). */
module PipeSpec {
  type Byte = bv8

  const INT32_MAX := 0x7FFF_FFFF
  const UINT32_MAX := 0xFFFF_FFFF

  /** A semaphore that only one thread ever waits on; its lock is an int32. */
  datatype Sem = Sem(lock: int, waiting: bool)

  /** The uint32 size as the int32 that semaphore_init takes. */
  function AsInt32(n: nat): int
    requires n <= UINT32_MAX
  {
    if n <= INT32_MAX then n else n - 0x1_0000_0000
  }

  /** semaphore_wait by its one waiter: it is parked, or takes a unit. */
  function Waited(s: Sem): Sem {
    if s.lock <= 0 then s.(waiting := true) else s.(lock := s.lock - 1)
  }

  /** semaphore_signal: the unit goes straight to the waiter, or is added. */
  function Signalled(s: Sem): Sem {
    if s.waiting then s.(waiting := false) else s.(lock := s.lock + 1)
  }

  /** Where the writer is in pipe_write, and the reader in pipe_read.  A thread is Waiting from
      the moment it parks until a signal hands it the unit. */
  datatype WriterPc = WIdle | WWaiting | WStore | WAdvance | WSignal
  datatype ReaderPc = RIdle | RWaiting | RLoad | RAdvance | RSignal

  /** `source` is the buffer pipe_vfs_write loops over and `want` the count of pipe_vfs_read;
      `calls` counts the pipe_write calls that returned, `sent` the bytes stored, `got` the
      bytes read so far and `done` the pipe_read calls that returned. */
  datatype Pipe = Pipe(
    buffer: seq<Byte>, readPos: nat, writePos: nat, slots: Sem, messages: Sem,
    source: seq<Byte>, want: nat,
    writer: WriterPc, calls: nat, sent: nat,
    reader: ReaderPc, done: nat, got: seq<Byte>)

  function Size(p: Pipe): nat {
    |p.buffer|
  }

  /** create_pipe over a buffer of any size that a uint32 can count. */
  function CreatePipe(buffer: seq<Byte>, source: seq<Byte>, want: nat): Pipe
    requires |buffer| <= UINT32_MAX
  {
    Pipe(buffer, 0, 0, Sem(AsInt32(|buffer|), false), Sem(0, false), source, want, WIdle, 0, 0, RIdle, 0, [])
  }

  // ----- steps

  predicate WriterEnabled(p: Pipe) {
    match p.writer
    case WIdle => p.calls < |p.source|
    case WWaiting => false
    case WStore => p.writePos < Size(p) && p.calls < |p.source|
    case _ => true
  }

  predicate ReaderEnabled(p: Pipe) {
    match p.reader
    case RIdle => p.done < p.want
    case RWaiting => false
    case RLoad => p.readPos < Size(p)
    case _ => true
  }

  /** (pos + 1) % size. */
  function Next(pos: nat, size: nat): nat {
    if size == 0 then 0 else (pos + 1) % size
  }

  function WriterStep(p: Pipe): Pipe
    requires WriterEnabled(p)
  {
    match p.writer
    case WIdle =>
      p.(slots := Waited(p.slots), writer := if p.slots.lock <= 0 then WWaiting else WStore)
    case WStore => p.(buffer := p.buffer[p.writePos := p.source[p.calls]], sent := p.sent + 1, writer := WAdvance)
    case WAdvance => p.(writePos := Next(p.writePos, Size(p)), writer := WSignal)
    case WSignal =>
      p.(messages := Signalled(p.messages), writer := WIdle, calls := p.calls + 1,
         reader := if p.messages.waiting then RLoad else p.reader)
  }

  function ReaderStep(p: Pipe): Pipe
    requires ReaderEnabled(p)
  {
    match p.reader
    case RIdle =>
      p.(messages := Waited(p.messages), reader := if p.messages.lock <= 0 then RWaiting else RLoad)
    case RLoad => p.(got := p.got + [p.buffer[p.readPos]], reader := RAdvance)
    case RAdvance => p.(readPos := Next(p.readPos, Size(p)), reader := RSignal)
    case RSignal =>
      p.(slots := Signalled(p.slots), reader := RIdle, done := p.done + 1,
         writer := if p.slots.waiting then WStore else p.writer)
  }

  datatype Turn = WriterTurn | ReaderTurn

  predicate Enabled(p: Pipe, t: Turn) {
    match t
    case WriterTurn => WriterEnabled(p)
    case ReaderTurn => ReaderEnabled(p)
  }

  function Step(p: Pipe, t: Turn): Pipe
    requires Enabled(p, t)
  {
    match t
    case WriterTurn => WriterStep(p)
    case ReaderTurn => ReaderStep(p)
  }

  // ----- the invariant

  function One(b: bool): nat {
    if b then 1 else 0
  }

  /** The unit a thread holds between its wait and its signal. */
  function WriterHolds(p: Pipe): nat {
    One(p.writer.WStore? || p.writer.WAdvance? || p.writer.WSignal?)
  }

  function ReaderHolds(p: Pipe): nat {
    One(p.reader.RLoad? || p.reader.RAdvance? || p.reader.RSignal?)
  }

  /** Slots, messages and operations in progress always add up to the size, and the semaphores
      count exactly the stored bytes that are not yet read. */
  ghost predicate Accounted(p: Pipe) {
    && 0 <= p.slots.lock && 0 <= p.messages.lock
    && p.slots.lock + p.messages.lock + WriterHolds(p) + ReaderHolds(p) == Size(p)
    && p.sent == |p.got| + p.messages.lock + One(p.reader.RLoad?) + One(p.writer.WAdvance? || p.writer.WSignal?)
    && p.sent == p.calls + One(p.writer.WAdvance? || p.writer.WSignal?)
    && |p.got| == p.done + One(p.reader.RAdvance? || p.reader.RSignal?)
  }

  ghost predicate Parked(p: Pipe) {
    && (p.slots.waiting <==> p.writer.WWaiting?) && (p.slots.waiting ==> p.slots.lock == 0)
    && (p.messages.waiting <==> p.reader.RWaiting?) && (p.messages.waiting ==> p.messages.lock == 0)
    && (!p.writer.WIdle? ==> p.calls < |p.source|) && p.calls <= |p.source|
    && (!p.reader.RIdle? ==> p.done < p.want) && p.done <= p.want
  }

  ghost predicate Placed(p: Pipe) {
    && (Size(p) == 0 ==> p.writePos == 0 && p.readPos == 0)
    && (Size(p) > 0 ==>
          && p.writePos == (p.sent - One(p.writer.WAdvance?)) % Size(p)
          && p.readPos == (|p.got| - One(p.reader.RAdvance?)) % Size(p))
  }

  /** Byte k of the source is in its cell. */
  ghost predicate Holds(buffer: seq<Byte>, source: seq<Byte>, k: nat) {
    |buffer| > 0 && k < |source| && buffer[k % |buffer|] == source[k]
  }

  /** Unread bytes are in their cells, and the bytes read are a prefix of the source. */
  ghost predicate Faithful(p: Pipe) {
    && |p.got| <= p.sent <= |p.source|
    && p.got == p.source[..|p.got|]
    && (forall k :: |p.got| <= k < p.sent ==> Holds(p.buffer, p.source, k))
  }

  ghost predicate Inv(p: Pipe) {
    Accounted(p) && Parked(p) && p.sent >= One(p.writer.WAdvance?) && |p.got| >= One(p.reader.RAdvance?) && Placed(p)
        && Faithful(p)
  }
}
