/** The pipe as shared memory: each method is one of the actions between which the two threads
    can be interleaved (MeOS/pipe.cpp:66-86). */
module PipeMemory {
  import opened PipeSpec
  import opened PipeRuns

  class SharedPipe {
    const buffer: array<Byte>
    var readPos: nat
    var writePos: nat
    var slots: Sem
    var messages: Sem

    // the two threads: what they were asked for, and where they are
    const source: seq<Byte>
    const want: nat
    var writer: WriterPc
    var calls: nat
    ghost var sent: nat
    var reader: ReaderPc
    var done: nat
    var got: seq<Byte>

    ghost function State(): Pipe
      reads this, buffer
    {
      Pipe(buffer[..], readPos, writePos, slots, messages, source, want, writer, calls, sent, reader, done, got)
    }

    ghost predicate Valid()
      reads this, buffer
    {
      Inv(State())
    }

    /** create_pipe. */
    constructor (memory: array<Byte>, bytes: seq<Byte>, count: nat)
      requires memory.Length <= UINT32_MAX
      ensures buffer == memory && State() == CreatePipe(memory[..], bytes, count)
      ensures memory.Length <= INT32_MAX ==> Valid()
    {
      buffer, source, want := memory, bytes, count;
      readPos, writePos := 0, 0;
      slots, messages := Sem(AsInt32(memory.Length), false), Sem(0, false);
      writer, calls, sent, reader, done, got := WIdle, 0, 0, RIdle, 0, [];
      new;
      if memory.Length <= INT32_MAX { CreatedOk(memory[..], bytes, count); }
    }

    // ----- pipe_write

    /** semaphore_wait(&pipe->lock_slots) */
    method WaitForSlot()
      requires Valid() && writer.WIdle? && calls < |source|
      modifies this`slots, this`writer
      ensures Valid() && State() == WriterStep(old(State()))
    {
      hide Inv;
      StepKeeps(State(), WriterTurn);
      if slots.lock <= 0 {
        slots := slots.(waiting := true);
        writer := WWaiting;
      } else {
        slots := slots.(lock := slots.lock - 1);
        writer := WStore;
      }
    }

    /** The byte goes into its cell. */
    method StoreByte()
      requires Valid() && writer.WStore?
      modifies this`writer, this`sent, buffer
      ensures Valid() && State() == WriterStep(old(State()))
    {
      AccessesSafe(State());
      hide Inv;
      StepKeeps(State(), WriterTurn);
      buffer[writePos] := source[calls];
      sent, writer := sent + 1, WAdvance;
    }

    method AdvanceWrite()
      requires Valid() && writer.WAdvance?
      modifies this`writePos, this`writer
      ensures Valid() && State() == WriterStep(old(State()))
    {
      hide Inv;
      StepKeeps(State(), WriterTurn);
      writePos, writer := Next(writePos, buffer.Length), WSignal;
    }

    /** semaphore_signal(&pipe->lock_messages); a waiting reader gets the unit itself. */
    method SignalMessage()
      requires Valid() && writer.WSignal?
      modifies this`messages, this`writer, this`calls, this`reader
      ensures Valid() && State() == WriterStep(old(State()))
    {
      hide Inv;
      StepKeeps(State(), WriterTurn);
      writer, calls := WIdle, calls + 1;
      if messages.waiting {
        messages := messages.(waiting := false);
        reader := RLoad;
      } else {
        messages := messages.(lock := messages.lock + 1);
      }
    }

    // ----- pipe_read

    /** semaphore_wait(&pipe->lock_messages) */
    method WaitForMessage()
      requires Valid() && reader.RIdle? && done < want
      modifies this`messages, this`reader
      ensures Valid() && State() == ReaderStep(old(State()))
    {
      hide Inv;
      StepKeeps(State(), ReaderTurn);
      if messages.lock <= 0 {
        messages := messages.(waiting := true);
        reader := RWaiting;
      } else {
        messages := messages.(lock := messages.lock - 1);
        reader := RLoad;
      }
    }

    /** The byte is taken out; it is the next one of the source. */
    method LoadByte() returns (b: Byte)
      requires Valid() && reader.RLoad?
      modifies this`reader, this`got
      ensures Valid() && State() == ReaderStep(old(State()))
      ensures |old(got)| < |source| && b == source[|old(got)|]
    {
      AccessesSafe(State());
      InvBounds(State());
      hide Inv;
      StepKeeps(State(), ReaderTurn);
      b := buffer[readPos];
      got, reader := got + [b], RAdvance;
    }

    method AdvanceRead()
      requires Valid() && reader.RAdvance?
      modifies this`readPos, this`reader
      ensures Valid() && State() == ReaderStep(old(State()))
    {
      hide Inv;
      StepKeeps(State(), ReaderTurn);
      readPos, reader := Next(readPos, buffer.Length), RSignal;
    }

    /** semaphore_signal(&pipe->lock_slots); a waiting writer gets the unit itself. */
    method SignalSlot()
      requires Valid() && reader.RSignal?
      modifies this`slots, this`reader, this`done, this`writer
      ensures Valid() && State() == ReaderStep(old(State()))
    {
      hide Inv;
      StepKeeps(State(), ReaderTurn);
      reader, done := RIdle, done + 1;
      if slots.waiting {
        slots := slots.(waiting := false);
        writer := WStore;
      } else {
        slots := slots.(lock := slots.lock + 1);
      }
    }
  }

  lemma InvBounds(p: Pipe)
    requires Inv(p)
    ensures |p.got| <= p.sent <= |p.source|
  {
  }
}
