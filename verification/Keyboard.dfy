/** The keyboard's interrupt handler and the buffer it gathers a scan code in. */
module Keyboard {
  import opened ScanCodes

  class Ps2Keyboard {
    const buffer: array<byte>
    /** How many bytes of the scan code have come. */
    var pos: nat
    var scanSet: nat
    var masked: bool
    var commanding: bool
    /** The keycodes registered so far. */
    var keys: seq<nat>

    ghost predicate Valid()
      reads this, buffer
    {
      && buffer.Length == 8 && pos < 8 && Partial(buffer[..pos])
      && forall k :: pos <= k < 8 ==> buffer[k] == 0
    }

    /** `ps2_kbd_validate_state`, with no command under way. */
    predicate Listening()
      reads this
    {
      scanSet == 2 && !masked && !commanding
    }

    constructor ()
      ensures Valid() && fresh(buffer) && pos == 0 && keys == [] && Listening()
    {
      buffer := new byte[8](_ => 0);
      pos, keys, scanSet, masked, commanding := 0, [], 2, false, false;
    }

    method ClearBuffer()
      requires buffer.Length == 8
      modifies this`pos, buffer
      ensures pos == 0 && forall k :: 0 <= k < 8 ==> buffer[k] == 0
    {
      forall k | 0 <= k < 8 {
        buffer[k] := 0;
      }
      pos := 0;
    }

    /** `ps2_kbd_handle_scancode`. */
    method HandleScancode(bytes: nat)
      requires bytes <= buffer.Length
      modifies this`keys
      ensures keys == old(keys) + if bytes == 0 then [] else [Translate(Render(buffer[..bytes]))]
    {
      if bytes == 0 {
        return;
      }
      var rendered: nat := 0;
      for i := 0 to bytes
        invariant rendered == Render(buffer[..i])
      {
        assert buffer[..i + 1][..i] == buffer[..i];
        rendered := rendered * 0x100;
        rendered := rendered + buffer[i];
      }
      keys := keys + [Translate(rendered)];
    }

    /** `__kbd_ps2_irq_handler`, reading `b` from the data port: what waits in the buffer and what was
        registered follow the decoder byte by byte; while it does not listen the byte is dropped and
        the keyboard is masked. */
    method Interrupt(b: byte)
      requires Valid()
      modifies this`pos, this`masked, this`keys, buffer
      ensures Valid() && Listening() == old(Listening())
      ensures !old(Listening()) ==> masked && buffer[..pos] == old(buffer[..pos]) && keys == old(keys)
      ensures old(Listening()) ==>
                var d := Feed(Decoder(old(buffer[..pos]), []), b);
                buffer[..pos] == d.waiting && keys == old(keys) + Keys(d.chunks)
    {
      hide NeedsNext, Translate, Render, Flatten, Partial;
      if !(scanSet == 2 && !masked) || commanding {
        masked := true;
        return;
      }
      ghost var was := buffer[..pos];
      FeedKeeps(Decoder(was, []), b);
      AtMostEight(was + [b]);
      buffer[pos] := b;
      pos := pos + 1;
      assert buffer[..pos] == was + [b];
      if !NeedsNext(buffer[..pos]) {
        HandleScancode(pos);
        ClearBuffer();
      }
    }
  }

  /** A run of interrupts. */
  method Receive(kbd: Ps2Keyboard, stream: seq<byte>)
    requires kbd.Valid() && kbd.Listening() && kbd.pos == 0 && kbd.keys == []
    modifies kbd, kbd.buffer
    ensures kbd.Valid()
    ensures kbd.buffer[..kbd.pos] == FeedAll(START, stream).waiting && kbd.keys == Keys(FeedAll(START, stream).chunks)
  {
    ghost var d := START;
    for i := 0 to |stream|
      invariant kbd.Valid() && kbd.Listening()
      invariant kbd.buffer[..kbd.pos] == d.waiting && kbd.keys == Keys(d.chunks)
      invariant FeedAll(d, stream[i..]) == FeedAll(START, stream)
    {
      assert stream[i..][0] == stream[i] && stream[i..][1..] == stream[i + 1..];
      kbd.Interrupt(stream[i]);
      d := Feed(d, stream[i]);
    }
  }
}
