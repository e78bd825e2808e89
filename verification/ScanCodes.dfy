/** The PS/2 keyboard: how bytes are cut into scan codes, and what the scan codes of set 2 mean. */
module ScanCodes {

  type byte = b: nat | b < 0x100

  /** `ps2_kbd_needs_next_byte`. */
  predicate NeedsNext(s: seq<byte>) {
    match |s|
    case 1 => s[0] == 0xE0 || s[0] == 0xF0 || s[0] == 0xE1
    case 2 => s[1] == 0xF0 || (s[0] == 0xE0 && s[1] == 0x12) || (s[0] == 0xE1 && s[1] == 0x14)
    case 3 => s[2] == 0x77 || s[2] == 0x7C || s[2] == 0xE0
    case 4 => s[3] == 0xE0 || s[3] == 0xE1
    case 5 => s[4] == 0xF0
    case 6 => s[5] == 0x14
    case 7 => s[6] == 0xF0
    case _ => false
  }

  /** The bytes still waiting for more, and the chunks completed so far. */
  datatype Decoder = Decoder(waiting: seq<byte>, chunks: seq<seq<byte>>)

  const START := Decoder([], [])

  /** One byte arrives. */
  function Feed(d: Decoder, b: byte): Decoder {
    var s := d.waiting + [b];
    if NeedsNext(s) then Decoder(s, d.chunks) else Decoder([], d.chunks + [s])
  }

  function FeedAll(d: Decoder, stream: seq<byte>): Decoder
    decreases |stream|
  {
    if stream == [] then d else FeedAll(Feed(d, stream[0]), stream[1..])
  }

  function Flatten(chunks: seq<seq<byte>>): seq<byte> {
    if chunks == [] then [] else Flatten(chunks[..|chunks| - 1]) + chunks[|chunks| - 1]
  }

  /** Bytes that end just where the decoder stops asking for more. */
  ghost predicate Whole(s: seq<byte>) {
    s != [] && !NeedsNext(s) && forall j :: 0 < j < |s| ==> NeedsNext(s[..j])
  }

  ghost predicate Partial(s: seq<byte>) {
    forall j :: 0 < j <= |s| ==> NeedsNext(s[..j])
  }

  /** Exactly these bytes are waited on: a prefix byte; then 0xF0 or the start of Print Screen or Pause; and
      then what those two codes go on with. */
  predicate Waits(s: seq<byte>) {
    s == [] ||
    (&& |s| <= 7 && s[0] in {0xE0, 0xF0, 0xE1}
     && (|s| >= 2 ==> s[1] == 0xF0 || s[..2] == [0xE0, 0x12] || s[..2] == [0xE1, 0x14])
     && (|s| >= 3 ==> s[2] in {0x77, 0x7C, 0xE0}) && (|s| >= 4 ==> s[3] in {0xE0, 0xE1})
     && (|s| >= 5 ==> s[4] == 0xF0) && (|s| >= 6 ==> s[5] == 0x14) && (|s| >= 7 ==> s[6] == 0xF0))
  }

  lemma {:induction false} PartialIs(s: seq<byte>)
    ensures Partial(s) <==> Waits(s)
    decreases |s|
  {
    if s != [] {
      var front := s[..|s| - 1];
      PartialIs(front);
      PartialSplits(s);
      NeedsOneMore(s);
    }
  }

  lemma PartialSplits(s: seq<byte>)
    requires s != []
    ensures Partial(s) <==> Partial(s[..|s| - 1]) && NeedsNext(s)
  {
    hide NeedsNext;
    var front := s[..|s| - 1];
    assert s[..|s|] == s;
    assert forall j :: 0 < j < |s| ==> front[..j] == s[..j];
    if Partial(front) && NeedsNext(s) {
      forall j | 0 < j <= |s| ensures NeedsNext(s[..j]) {
        if j < |s| {
          assert NeedsNext(front[..j]);
        }
      }
    }
    if Partial(s) {
      forall j | 0 < j <= |front| ensures NeedsNext(front[..j]) {
        assert NeedsNext(s[..j]);
      }
      assert NeedsNext(s[..|s|]);
    }
  }

  lemma NeedsOneMore(s: seq<byte>)
    requires s != []
    ensures Waits(s) <==> Waits(s[..|s| - 1]) && NeedsNext(s)
  {
    if |s| >= 3 {
      assert s[..|s| - 1][..2] == s[..2];
    }
  }

  ghost predicate Sound(d: Decoder) {
    Partial(d.waiting) && forall c :: c in d.chunks ==> Whole(c)
  }

  /** No chunk, done or not, can outgrow the eight-byte buffer. */
  lemma AtMostEight(s: seq<byte>)
    ensures Partial(s) ==> |s| < 8
    ensures Whole(s) ==> 1 <= |s| <= 8
  {
    if |s| >= 8 {
      assert !NeedsNext(s[..8]);
    }
  }

  lemma FeedKeeps(d: Decoder, b: byte)
    requires Sound(d)
    ensures Sound(Feed(d, b))
    ensures Flatten(Feed(d, b).chunks) + Feed(d, b).waiting == Flatten(d.chunks) + d.waiting + [b]
  {
    var s, r := d.waiting + [b], Feed(d, b);
    forall j | 0 < j < |s| ensures NeedsNext(s[..j]) {
      assert s[..j] == d.waiting[..j];
    }
    assert s[..|s|] == s;
    if !NeedsNext(s) {
      assert r.chunks[..|r.chunks| - 1] == d.chunks;
    }
  }

  /** Whatever arrives is cut into consecutive chunks of one to eight bytes, none lost and none twice,
      and fewer than eight bytes wait. */
  lemma {:induction false} StreamIsCut(d: Decoder, stream: seq<byte>)
    requires Sound(d)
    ensures var r := FeedAll(d, stream);
            && Sound(r) && |r.waiting| < 8 && (forall c :: c in r.chunks ==> 1 <= |c| <= 8)
            && Flatten(r.chunks) + r.waiting == Flatten(d.chunks) + d.waiting + stream
    decreases |stream|
  {
    if stream == [] {
      AtMostEight(d.waiting);
      forall c | c in d.chunks ensures 1 <= |c| <= 8 {
        AtMostEight(c);
      }
      assert Flatten(d.chunks) + d.waiting + stream == Flatten(d.chunks) + d.waiting;
    } else {
      FeedKeeps(d, stream[0]);
      StreamIsCut(Feed(d, stream[0]), stream[1..]);
      assert [stream[0]] + stream[1..] == stream;
      assert Flatten(d.chunks) + d.waiting + [stream[0]] + stream[1..]
          == Flatten(d.chunks) + d.waiting + ([stream[0]] + stream[1..]);
    }
  }

  /** Bytes already whole come out as one chunk. */
  lemma {:induction false} WholeIsCut(d: Decoder, done: nat, s: seq<byte>)
    requires Whole(s) && done < |s| && d.waiting == s[..done]
    ensures FeedAll(d, s[done..]) == Decoder([], d.chunks + [s])
    decreases |s| - done
  {
    assert s[..done] + [s[done]] == s[..done + 1];
    assert s[done..][1..] == s[done + 1..];
    if done + 1 < |s| {
      WholeIsCut(Feed(d, s[done]), done + 1, s);
    } else {
      assert s[..done + 1] == s;
    }
  }

  lemma {:induction false} FeedConcat(d: Decoder, a: seq<byte>, b: seq<byte>)
    ensures FeedAll(d, a + b) == FeedAll(FeedAll(d, a), b)
    decreases |a|
  {
    if a == [] {
      assert a + b == b;
    } else {
      assert (a + b)[1..] == a[1..] + b;
      FeedConcat(Feed(d, a[0]), a[1..], b);
    }
  }

  /** A stream put together from whole pieces is cut into those pieces, and in no other way. */
  lemma {:induction false} WholesComeBack(pieces: seq<seq<byte>>)
    requires forall c :: c in pieces ==> Whole(c)
    ensures FeedAll(START, Flatten(pieces)) == Decoder([], pieces)
  {
    if pieces != [] {
      var n := |pieces| - 1;
      WholesComeBack(pieces[..n]);
      FeedConcat(START, Flatten(pieces[..n]), pieces[n]);
      assert pieces[n][..0] == [] && pieces[n][0..] == pieces[n];
      WholeIsCut(Decoder([], pieces[..n]), 0, pieces[n]);
      assert pieces[..n] + [pieces[n]] == pieces;
    }
  }

  // ---------------------------------------------------------------- the table

  /** The one-byte make codes. */
  function Plain(c: nat): nat {
    match c
    case 0x01 => 0x60 case 0x03 => 0x5C case 0x04 => 0x5A case 0x05 => 0x58 case 0x06 => 0x59 case 0x07 => 0x63
    case 0x09 => 0x61 case 0x0A => 0x5F case 0x0B => 0x5D case 0x0C => 0x5B case 0x0D => 0x41 case 0x0E => 0x01
    case 0x11 => 0x49 case 0x12 => 0x45 case 0x14 => 0x47 case 0x15 => 0x0E case 0x16 => 0x02 case 0x1A => 0x26
    case 0x1B => 0x1C case 0x1C => 0x1B case 0x1D => 0x0F case 0x1E => 0x03 case 0x21 => 0x28 case 0x22 => 0x27
    case 0x23 => 0x1D case 0x24 => 0x10 case 0x25 => 0x05 case 0x26 => 0x04 case 0x29 => 0x30 case 0x2A => 0x29
    case 0x2B => 0x1E case 0x2C => 0x12 case 0x2D => 0x11 case 0x2E => 0x06 case 0x31 => 0x2B case 0x32 => 0x2A
    case 0x33 => 0x20 case 0x34 => 0x1F case 0x35 => 0x13 case 0x36 => 0x07 case 0x3A => 0x2C case 0x3B => 0x21
    case 0x3C => 0x14 case 0x3D => 0x08 case 0x3E => 0x09 case 0x41 => 0x2D case 0x42 => 0x22 case 0x43 => 0x15
    case 0x44 => 0x16 case 0x45 => 0x0B case 0x46 => 0x0A case 0x49 => 0x2E case 0x4A => 0x2F case 0x4B => 0x23
    case 0x4C => 0x24 case 0x4D => 0x17 case 0x4E => 0x0C case 0x52 => 0x25 case 0x54 => 0x18 case 0x55 => 0x0D
    case 0x58 => 0x4B case 0x59 => 0x46 case 0x5A => 0x40 case 0x5B => 0x19 case 0x5D => 0x1A case 0x66 => 0x42
    case 0x69 => 0x3A case 0x6B => 0x37 case 0x6C => 0x34 case 0x70 => 0x3D case 0x71 => 0x3E case 0x72 => 0x3B
    case 0x73 => 0x38 case 0x74 => 0x39 case 0x75 => 0x35 case 0x76 => 0x43 case 0x77 => 0x4D case 0x78 => 0x62
    case 0x79 => 0x33 case 0x7A => 0x3C case 0x7B => 0x33 case 0x7C => 0x32 case 0x7D => 0x36 case 0x7E => 0x4C
    case 0x83 => 0x5E
    case _ => 0
  }

  /** The make codes behind 0xE0. */
  function Extended(c: nat): nat {
    match c
    case 0x10 => 0x7A case 0x11 => 0x4A case 0x14 => 0x48 case 0x15 => 0x69 case 0x18 => 0x6B case 0x1F => 0x66
    case 0x20 => 0x75 case 0x21 => 0x6C case 0x23 => 0x6E case 0x27 => 0x66 case 0x28 => 0x74 case 0x2B => 0x76
    case 0x2F => 0x79 case 0x30 => 0x71 case 0x32 => 0x6D case 0x34 => 0x6F case 0x37 => 0x7B case 0x38 => 0x72
    case 0x3A => 0x73 case 0x3B => 0x70 case 0x3F => 0x7C case 0x40 => 0x44 case 0x48 => 0x77 case 0x4A => 0x31
    case 0x4D => 0x6A case 0x50 => 0x78 case 0x5A => 0x3F case 0x5E => 0x7D case 0x69 => 0x52 case 0x6B => 0x55
    case 0x6C => 0x4F case 0x70 => 0x4E case 0x71 => 0x51 case 0x72 => 0x56 case 0x74 => 0x57 case 0x75 => 0x54
    case 0x7A => 0x53 case 0x7D => 0x50
    case _ => 0
  }

  /** 0x80 set in the keycode of a key; nothing in that of none. */
  function Released(key: nat): nat {
    if key == 0 then 0 else if key / 0x80 % 2 == 1 then key else key + 0x80
  }

  /** `ps2_translate_keycode`, its cases grouped by the bytes in front of the last. */
  function Translate(rendered: nat): nat {
    var front, last := rendered / 0x100, rendered % 0x100;
    if front == 0 then Plain(last)
    else if front == 0xE0 then Extended(last)
    else if front == 0xF0 then Released(Plain(last))
    else if front == 0xE0F0 then Released(Extended(last))
    else if rendered == 0xE012_E07C then 0x64
    else if rendered == 0xE0F0_7CE0_F012 then Released(0x64)
    else if rendered == 0xE114_77E1_F014_F077 then 0x65
    else 0
  }

  /** The loop of `ps2_kbd_handle_scancode`: the bytes, most significant first. */
  function Render(s: seq<byte>): nat {
    if s == [] then 0 else Render(s[..|s| - 1]) * 0x100 + s[|s| - 1]
  }

  /** Eight bytes fit the 64 bits they are gathered in. */
  lemma {:induction false} RenderFits(s: seq<byte>, n: nat)
    requires |s| <= n
    ensures Render(s) < Bound(n)
    ensures Bound(8) == 0x1_0000_0000_0000_0000
    decreases n
  {
    if n > 0 {
      RenderFits(if |s| == n then s[..n - 1] else s, n - 1);
    }
  }

  function Bound(n: nat): nat {
    if n == 0 then 1 else 0x100 * Bound(n - 1)
  }

  datatype Code = Make(c: byte) | Break(c: byte) | MakeE0(c: byte) | BreakE0(c: byte) | PrintDown | PrintUp | Pause

  /** The codes the table has a key for. */
  predicate Known(code: Code) {
    match code
    case Make(c) => Plain(c) != 0
    case Break(c) => Plain(c) != 0
    case MakeE0(c) => Extended(c) != 0
    case BreakE0(c) => Extended(c) != 0
    case _ => true
  }

  function Bytes(code: Code): seq<byte> {
    match code
    case Make(c) => [c]
    case Break(c) => [0xF0, c]
    case MakeE0(c) => [0xE0, c]
    case BreakE0(c) => [0xE0, 0xF0, c]
    case PrintDown => [0xE0, 0x12, 0xE0, 0x7C]
    case PrintUp => [0xE0, 0xF0, 0x7C, 0xE0, 0xF0, 0x12]
    case Pause => [0xE1, 0x14, 0x77, 0xE1, 0xF0, 0x14, 0xF0, 0x77]
  }

  /** The keycode, with 0x80 for a key let go. */
  function Key(code: Code): nat {
    match code
    case Make(c) => Plain(c)
    case Break(c) => Plain(c) + 0x80
    case MakeE0(c) => Extended(c)
    case BreakE0(c) => Extended(c) + 0x80
    case PrintDown => 0x64
    case PrintUp => 0x64 + 0x80
    case Pause => 0x65
  }

  /** The one-byte make code of a key, in the order the keys are numbered in. */
  function MakeOf(key: nat): nat {
    match key
    case 0x01 => 0x0E case 0x02 => 0x16 case 0x03 => 0x1E case 0x04 => 0x26 case 0x05 => 0x25 case 0x06 => 0x2E
    case 0x07 => 0x36 case 0x08 => 0x3D case 0x09 => 0x3E case 0x0A => 0x46 case 0x0B => 0x45 case 0x0C => 0x4E
    case 0x0D => 0x55 case 0x0E => 0x15 case 0x0F => 0x1D case 0x10 => 0x24 case 0x11 => 0x2D case 0x12 => 0x2C
    case 0x13 => 0x35 case 0x14 => 0x3C case 0x15 => 0x43 case 0x16 => 0x44 case 0x17 => 0x4D case 0x18 => 0x54
    case 0x19 => 0x5B case 0x1A => 0x5D case 0x1B => 0x1C case 0x1C => 0x1B case 0x1D => 0x23 case 0x1E => 0x2B
    case 0x1F => 0x34 case 0x20 => 0x33 case 0x21 => 0x3B case 0x22 => 0x42 case 0x23 => 0x4B case 0x24 => 0x4C
    case 0x25 => 0x52 case 0x26 => 0x1A case 0x27 => 0x22 case 0x28 => 0x21 case 0x29 => 0x2A case 0x2A => 0x32
    case 0x2B => 0x31 case 0x2C => 0x3A case 0x2D => 0x41 case 0x2E => 0x49 case 0x2F => 0x4A case 0x30 => 0x29
    case 0x32 => 0x7C case 0x33 => 0x79 case 0x34 => 0x6C case 0x35 => 0x75 case 0x36 => 0x7D case 0x37 => 0x6B
    case 0x38 => 0x73 case 0x39 => 0x74 case 0x3A => 0x69 case 0x3B => 0x72 case 0x3C => 0x7A case 0x3D => 0x70
    case 0x3E => 0x71 case 0x40 => 0x5A case 0x41 => 0x0D case 0x42 => 0x66 case 0x43 => 0x76 case 0x45 => 0x12
    case 0x46 => 0x59 case 0x47 => 0x14 case 0x49 => 0x11 case 0x4B => 0x58 case 0x4C => 0x7E case 0x4D => 0x77
    case 0x58 => 0x05 case 0x59 => 0x06 case 0x5A => 0x04 case 0x5B => 0x0C case 0x5C => 0x03 case 0x5D => 0x0B
    case 0x5E => 0x83 case 0x5F => 0x0A case 0x60 => 0x01 case 0x61 => 0x09 case 0x62 => 0x78 case 0x63 => 0x07
    case _ => 0
  }

  /** The make code behind 0xE0. */
  function ExtendedOf(key: nat): nat {
    match key
    case 0x31 => 0x4A case 0x3F => 0x5A case 0x44 => 0x40 case 0x48 => 0x14 case 0x4A => 0x11 case 0x4E => 0x70
    case 0x4F => 0x6C case 0x50 => 0x7D case 0x51 => 0x71 case 0x52 => 0x69 case 0x53 => 0x7A case 0x54 => 0x75
    case 0x55 => 0x6B case 0x56 => 0x72 case 0x57 => 0x74 case 0x66 => 0x1F case 0x69 => 0x15 case 0x6A => 0x4D
    case 0x6B => 0x18 case 0x6C => 0x21 case 0x6D => 0x32 case 0x6E => 0x23 case 0x6F => 0x34 case 0x70 => 0x3B
    case 0x71 => 0x30 case 0x72 => 0x38 case 0x73 => 0x3A case 0x74 => 0x28 case 0x75 => 0x20 case 0x76 => 0x2B
    case 0x77 => 0x48 case 0x78 => 0x50 case 0x79 => 0x2F case 0x7A => 0x10 case 0x7B => 0x37 case 0x7C => 0x3F
    case 0x7D => 0x5E
    case _ => 0
  }

  /** A make code is found again from its key; only the keypad's '+', which has the '-' key's code, is not. */
  lemma MakeComesBack(c: nat)
    requires Plain(c) != 0
    ensures if c == 0x7B then Plain(c) == Plain(0x79) else MakeOf(Plain(c)) == c
  {
    hide Plain, MakeOf;
    PlainCodes(c);
    if c == 0x7B {
      PlusIsMinus();
    } else if c < 0x06 {
      MakesBelow06(c);
    } else if c < 0x0B {
      MakesBelow0B(c);
    } else if c < 0x1D {
      MakesBelow1D(c);
    } else if c < 0x2E {
      MakesBelow2E(c);
    } else if c < 0x45 {
      MakesBelow45(c);
    } else if c < 0x60 {
      MakesBelow60(c);
    } else if c < 0x76 {
      MakesBelow76(c);
    } else if c < 0x84 {
      MakesBelow84(c);
    }
  }

  lemma PlusIsMinus()
    ensures Plain(0x7B) == Plain(0x79)
  {
  }

  lemma MakesBelow06(c: nat)
    requires c < 0x06 && Plain(c) != 0
    ensures MakeOf(Plain(c)) == c
  {
  }

  lemma MakesBelow0B(c: nat)
    requires 0x06 <= c < 0x0B && Plain(c) != 0
    ensures MakeOf(Plain(c)) == c
  {
  }

  lemma MakesBelow1D(c: nat)
    requires 0x0B <= c < 0x1D && Plain(c) != 0
    ensures MakeOf(Plain(c)) == c
  {
  }

  lemma MakesBelow2E(c: nat)
    requires 0x1D <= c < 0x2E && Plain(c) != 0
    ensures MakeOf(Plain(c)) == c
  {
  }

  lemma MakesBelow45(c: nat)
    requires 0x2E <= c < 0x45 && Plain(c) != 0
    ensures MakeOf(Plain(c)) == c
  {
  }

  lemma MakesBelow60(c: nat)
    requires 0x45 <= c < 0x60 && Plain(c) != 0
    ensures MakeOf(Plain(c)) == c
  {
  }

  lemma MakesBelow76(c: nat)
    requires 0x60 <= c < 0x76 && Plain(c) != 0
    ensures MakeOf(Plain(c)) == c
  {
  }

  lemma MakesBelow84(c: nat)
    requires 0x76 <= c < 0x84 && Plain(c) != 0 && c != 0x7B
    ensures MakeOf(Plain(c)) == c
  {
  }

  lemma KeyComesBack(key: nat)
    requires MakeOf(key) != 0
    ensures Plain(MakeOf(key)) == key
  {
    hide Plain, MakeOf;
    if key < 0x20 {
      KeysBelow20(key);
    } else if key < 0x3C {
      KeysBelow3C(key);
    } else {
      KeysFrom3C(key);
    }
  }

  lemma KeysBelow20(key: nat)
    requires key < 0x20 && MakeOf(key) != 0
    ensures Plain(MakeOf(key)) == key
  {
  }

  lemma KeysBelow3C(key: nat)
    requires 0x20 <= key < 0x3C && MakeOf(key) != 0
    ensures Plain(MakeOf(key)) == key
  {
  }

  lemma KeysFrom3C(key: nat)
    requires 0x3C <= key && MakeOf(key) != 0
    ensures Plain(MakeOf(key)) == key
  {
  }

  /** The same behind 0xE0, where both logo keys have one code. */
  lemma ExtendedMakeComesBack(c: nat)
    requires Extended(c) != 0
    ensures if c == 0x27 then Extended(c) == Extended(0x1F) else ExtendedOf(Extended(c)) == c
  {
  }

  lemma ExtendedKeyComesBack(key: nat)
    requires ExtendedOf(key) != 0
    ensures Extended(ExtendedOf(key)) == key
  {
  }

  /** No make code looks like a prefix, and keycodes leave the top bit free. */
  lemma PlainCodes(c: nat)
    requires Plain(c) != 0
    ensures c <= 0x83 && Plain(c) < 0x80
  {
  }

  lemma ExtendedCodes(c: nat)
    requires Extended(c) != 0
    ensures 0x10 <= c <= 0x7D && c != 0x12 && c != 0x77 && c != 0x7C && Extended(c) < 0x80
  {
  }

  /** Every scan code of the table is cut out whole. */
  lemma KnownIsWhole(code: Code)
    requires Known(code)
    ensures Whole(Bytes(code))
  {
    hide Plain, Extended, Whole;
    match code
    case Make(c) =>
      PlainCodes(c);
      WholeIs(Bytes(code), [], c);
    case Break(c) =>
      PlainCodes(c);
      WholeIs(Bytes(code), [0xF0], c);
    case MakeE0(c) =>
      ExtendedCodes(c);
      WholeIs(Bytes(code), [0xE0], c);
    case BreakE0(c) =>
      ExtendedCodes(c);
      WholeIs(Bytes(code), [0xE0, 0xF0], c);
    case PrintDown => WholeIs(Bytes(code), [0xE0, 0x12, 0xE0], 0x7C);
    case PrintUp => WholeIs(Bytes(code), [0xE0, 0xF0, 0x7C, 0xE0, 0xF0], 0x12);
    case Pause => WholeIs(Bytes(code), [0xE1, 0x14, 0x77, 0xE1, 0xF0, 0x14, 0xF0], 0x77);
  }

  /** Bytes that are waited on, and one with which they are enough. */
  lemma WholeIs(s: seq<byte>, front: seq<byte>, last: byte)
    requires s == front + [last] && Waits(front) && !NeedsNext(s)
    ensures Whole(s)
  {
    hide NeedsNext, Waits;
    PartialIs(front);
    forall j | 0 < j < |s| ensures NeedsNext(s[..j]) {
      assert s[..j] == front[..j];
    }
  }

  /** Every scan code of the table is given its key. */
  lemma KnownTranslates(code: Code)
    requires Known(code)
    ensures Translate(Render(Bytes(code))) == Key(code)
  {
    hide Plain, Extended, Render;
    match code
    case Make(c) =>
      PlainCodes(c);
      Render1(c);
    case Break(c) =>
      PlainCodes(c);
      Render2(0xF0, c);
    case MakeE0(c) =>
      ExtendedCodes(c);
      Render2(0xE0, c);
    case BreakE0(c) =>
      ExtendedCodes(c);
      Render3(0xE0, 0xF0, c);
    case PrintDown => Render4(0xE0, 0x12, 0xE0, 0x7C);
    case PrintUp => Render6(0xE0, 0xF0, 0x7C, 0xE0, 0xF0, 0x12);
    case Pause => Render8(0xE1, 0x14, 0x77, 0xE1, 0xF0, 0x14, 0xF0, 0x77);
  }

  /** Nothing else is given a key. */
  lemma OnlyKnown(rendered: nat)
    requires Translate(rendered) != 0
    ensures exists code :: Known(code) && Render(Bytes(code)) == rendered && Key(code) == Translate(rendered)
  {
    hide Plain, Extended, Render;
    var front, last := rendered / 0x100, rendered % 0x100;
    var code :=
      if front == 0 then Make(last)
      else if front == 0xE0 then MakeE0(last)
      else if front == 0xF0 then Break(last)
      else if front == 0xE0F0 then BreakE0(last)
      else if rendered == 0xE012_E07C then PrintDown
      else if rendered == 0xE0F0_7CE0_F012 then PrintUp
      else Pause;
    assert Known(code);
    KnownTranslates(code);
    Render1(last);
    Render2(0xF0, last);
    Render2(0xE0, last);
    Render3(0xE0, 0xF0, last);
    Render4(0xE0, 0x12, 0xE0, 0x7C);
    Render6(0xE0, 0xF0, 0x7C, 0xE0, 0xF0, 0x12);
    Render8(0xE1, 0x14, 0x77, 0xE1, 0xF0, 0x14, 0xF0, 0x77);
  }

  lemma Render1(a: byte)
    ensures Render([a]) == a
  {
    assert [a][..0] == [];
  }

  lemma Render2(a: byte, b: byte)
    ensures Render([a, b]) == a * 0x100 + b
  {
    Render1(a);
    assert [a, b][..1] == [a];
  }

  lemma Render3(a: byte, b: byte, c: byte)
    ensures Render([a, b, c]) == a * 0x1_0000 + b * 0x100 + c
  {
    Render2(a, b);
    assert [a, b, c][..2] == [a, b];
  }

  lemma Render4(a: byte, b: byte, c: byte, d: byte)
    ensures Render([a, b, c, d]) == a * 0x100_0000 + b * 0x1_0000 + c * 0x100 + d
  {
    Render3(a, b, c);
    assert [a, b, c, d][..3] == [a, b, c];
  }

  lemma Render6(a: byte, b: byte, c: byte, d: byte, e: byte, f: byte)
    ensures Render([a, b, c, d, e, f]) == Render([a, b, c, d]) * 0x1_0000 + e * 0x100 + f
    ensures Render([a, b, c, d]) == a * 0x100_0000 + b * 0x1_0000 + c * 0x100 + d
  {
    Render4(a, b, c, d);
    assert [a, b, c, d, e][..4] == [a, b, c, d];
    assert [a, b, c, d, e, f][..5] == [a, b, c, d, e];
  }

  lemma Render8(a: byte, b: byte, c: byte, d: byte, e: byte, f: byte, g: byte, h: byte)
    ensures Render([a, b, c, d, e, f, g, h]) == Render([a, b, c, d, e, f]) * 0x1_0000 + g * 0x100 + h
    ensures Render([a, b, c, d, e, f]) == Render([a, b, c, d]) * 0x1_0000 + e * 0x100 + f
    ensures Render([a, b, c, d]) == a * 0x100_0000 + b * 0x1_0000 + c * 0x100 + d
  {
    Render6(a, b, c, d, e, f);
    assert [a, b, c, d, e, f, g][..6] == [a, b, c, d, e, f];
    assert [a, b, c, d, e, f, g, h][..7] == [a, b, c, d, e, f, g];
  }

  function Keys(chunks: seq<seq<byte>>): (keys: seq<nat>)
    ensures |keys| == |chunks| && forall k :: 0 <= k < |chunks| ==> keys[k] == Translate(Render(chunks[k]))
  {
    seq(|chunks|, k requires 0 <= k < |chunks| => Translate(Render(chunks[k])))
  }

  function Written(codes: seq<Code>): (pieces: seq<seq<byte>>)
    ensures |pieces| == |codes| && forall k :: 0 <= k < |codes| ==> pieces[k] == Bytes(codes[k])
  {
    seq(|codes|, k requires 0 <= k < |codes| => Bytes(codes[k]))
  }

  /** Keys typed one after the other arrive as those keys in that order, and nothing is left over. */
  lemma TypedIsRead(codes: seq<Code>)
    requires forall k :: 0 <= k < |codes| ==> Known(codes[k])
    ensures var d := FeedAll(START, Flatten(Written(codes)));
            && d.waiting == [] && |Keys(d.chunks)| == |codes|
            && forall k :: 0 <= k < |codes| ==> Keys(d.chunks)[k] == Key(codes[k])
  {
    hide Translate, Render, Bytes, Known, Key, Whole, Flatten, FeedAll;
    forall c | c in Written(codes) ensures Whole(c) {
      var k :| 0 <= k < |codes| && Written(codes)[k] == c;
      KnownIsWhole(codes[k]);
    }
    WholesComeBack(Written(codes));
    forall k | 0 <= k < |codes| ensures Translate(Render(Written(codes)[k])) == Key(codes[k]) {
      KnownTranslates(codes[k]);
    }
  }
}
