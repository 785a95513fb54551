/** The second implementation of the stream decoder, in `ghsh`, up to the events it dispatches,
    and the loop that feeds it whatever each read returns. */
module GhshDecoder {
  import opened Ascii
  import opened TerminalStream
  import opened TerminalProgram

  function Flatten(chunks: seq<seq<byte>>): seq<byte> {
    if chunks == [] then [] else Flatten(chunks[..|chunks| - 1]) + chunks[|chunks| - 1]
  }

  class Decoder {
    var events: seq<Event>

    constructor ()
      ensures events == []
    {
      events := [];
    }

    method ProcessOutput(st: StreamStatus, isStderr: bool, c: byte)
      requires st.Valid()
      modifies this, st, st.parameters
      ensures st.Valid() && st.View() == Step(old(st.View()), isStderr, c).0
      ensures events == old(events) + Step(old(st.View()), isStderr, c).1
    {
      if st.status == Text {
        if c == RETURN {
          return;
        } else if c == TAB {
          events := events + [Write(SPACE, false)];
          events := events + [Write(SPACE, false)];
          events := events + [Write(SPACE, false)];
          events := events + [Write(SPACE, false)];
        } else if c == ESC {
          st.status := LastWasEsc;
        } else {
          events := events + [Write(c, isStderr)];
        }
      } else if st.status == LastWasEsc {
        if c == LEFT_BRACKET {
          st.status := WithinVt100;
        } else if c == LEFT_BRACE {
          st.status := WithinGhostterm;
        } else {
          st.status := Text;
        }
      } else {
        if IsDigit(c) || c == SEMICOLON {
          st.Parameter(c);
        } else {
          st.controlCharacter := c;
          var kind := if st.status == WithinVt100 then Vt100 else Ghostterm;
          events := events + [Sequence(kind, st.parameterCount, st.parameters[..], st.controlCharacter)];
          st.Reset();
        }
      }
    }

    /** The bytes of one read. */
    method ProcessBuffer(st: StreamStatus, isStderr: bool, buf: seq<byte>)
      requires st.Valid()
      modifies this, st, st.parameters
      ensures st.Valid() && st.View() == Run(old(st.View()), isStderr, buf).0
      ensures events == old(events) + Run(old(st.View()), isStderr, buf).1
    {
      hide Step;
      ghost var start := st.View();
      for i := 0 to |buf|
        invariant st.Valid() && st.View() == Run(start, isStderr, buf[..i]).0
        invariant events == old(events) + Run(start, isStderr, buf[..i]).1
      {
        assert buf[..i + 1][..i] == buf[..i];
        ProcessOutput(st, isStderr, buf[i]);
      }
      assert buf[..|buf|] == buf;
    }

    /** One output routine until its stream ends: `chunks` are the successful reads in order, and
        `memory` is what the parameter array happened to hold at the start. */
    method OutputRoutine(chunks: seq<seq<byte>>, isStderr: bool, memory: params)
      modifies this
      ensures events == old(events) + Run(State(Text, 0, memory), isStderr, Flatten(chunks)).1
    {
      hide Run;
      hide Step;
      var st := new StreamStatus(memory);
      ghost var start := st.View();
      RunOnNothing(start, isStderr);
      for i := 0 to |chunks|
        invariant st.Valid() && fresh(st) && fresh(st.parameters)
        invariant st.View() == Run(start, isStderr, Flatten(chunks[..i])).0
        invariant events == old(events) + Run(start, isStderr, Flatten(chunks[..i])).1
      {
        RunInPieces(start, isStderr, Flatten(chunks[..i]), chunks[i]);
        assert chunks[..i + 1][..i] == chunks[..i];
        ProcessBuffer(st, isStderr, chunks[i]);
      }
      assert chunks[..|chunks|] == chunks;
    }
  }

  lemma RunOnNothing(st: State, isStderr: bool)
    ensures Run(st, isStderr, []) == (st, [])
  {
  }
}
