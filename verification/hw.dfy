/** The command channel the acceleration code writes into, and the surfaces
    it draws on. The ring macros themselves (`BEGIN_RING`, `OUT_RING`,
    `OUT_RELOC*`, `MARK_RING`, `MARK_UNDO`, `FIRE_RING`) belong to the
    kernel interface library; here a channel is the list of packets written
    so far, a count of submissions, a mark to roll back to and the tag of
    the handler armed on `flush_notify`. */
module Hw {

  datatype Option<T> = None | Some(value: T)

  /** Values of `pNv->Architecture` the acceleration code compares against. */
  const NvArch04: nat := 0x04
  const NvArch10: nat := 0x10
  const NvArch50: nat := 0x50

  /** The hardware objects bound to the channel at start-up. */
  datatype Obj =
    | ContextSurfaces | Rectangle | ImageBlit | MemFormat
    | ImagePattern | Rop | ClipRectangle | ImageFromCpu

  /** The methods the modelled code starts packets at. */
  datatype Mthd =
    | M2mfDmaBufferIn | M2mfOffsetIn | M2mfLinearIn | M2mfLinearOut | M2mfOffsetInHigh
    | Surf2dFormat
    | RectOperation | RectColorFormat | RectColor1A | RectPoint
    | BlitOperation | BlitPointIn
    | PatternColor0 | RopRop | ClipPoint
    | IfcOperation | IfcPoint | IfcColor

  /** A buffer object: the backing store of a pixmap, or the shared GART
      staging buffer. */
  datatype Bo = PixmapBo(id: nat) | GartBo

  /** Which half of a relocated address a word carries: the object handle
      (`OUT_RELOCo`), the low 32 bits (`OUT_RELOCl`, `OUT_PIXMAPl`) or the
      high bits (`OUT_RELOCh`). */
  datatype RelocPart = Handle | Low | High

  /** One argument word of a packet. A relocation is resolved by the kernel
      at submission; a ROP word is an entry of the driver's ROP table
      (`copy_planemask` when `planemask` is set); `Bytes` is one word of
      pixel data pushed inline, as its four bytes in memory order. */
  datatype Arg =
    | Word(value: int)
    | Reloc(bo: Bo, delta: int, part: RelocPart, write: bool)
    | RopWord(alu: int, planemask: bool)
    | Bytes(b: seq<int>)

  datatype Packet = Packet(obj: Obj, mthd: Mthd, args: seq<Arg>)

  /** The handler armed on `chan->flush_notify`. */
  datatype Notify = NoNotify | SolidResubmit | CopyResubmit | IfcResubmit

  datatype Channel = Channel(packets: seq<Packet>, mark: nat, fired: nat, notify: Notify)
  {
    /** The rollback mark never points past the packets written. */
    predicate Valid() { mark <= |packets| }
  }

  function NewChannel(): (ch: Channel)
    ensures ch.Valid() && ch.packets == [] && ch.notify == NoNotify
  {
    Channel([], 0, 0, NoNotify)
  }

  /** `BEGIN_RING(obj, mthd, |args|)` followed by the argument words. */
  function Out(ch: Channel, obj: Obj, mthd: Mthd, args: seq<Arg>): (r: Channel)
    requires ch.Valid()
    ensures r.Valid()
    ensures r.packets == ch.packets + [Packet(obj, mthd, args)]
    ensures r.mark == ch.mark && r.fired == ch.fired && r.notify == ch.notify
  {
    ch.(packets := ch.packets + [Packet(obj, mthd, args)])
  }

  /** Plain words as packet arguments. */
  function Words(ws: seq<int>): (r: seq<Arg>)
    ensures |r| == |ws|
    ensures forall i :: 0 <= i < |ws| ==> r[i] == Word(ws[i])
  {
    if ws == [] then [] else [Word(ws[0])] + Words(ws[1..])
  }

  /** The values of an argument list made of plain words only, or `None`
      when a relocation, ROP entry or inline data word is among them. */
  function WordValues(args: seq<Arg>): (r: Option<seq<int>>)
    ensures r.Some? ==> |r.value| == |args|
  {
    if args == [] then Some([])
    else if !args[0].Word? then None
    else match WordValues(args[1..])
      case None => None
      case Some(vs) => Some([args[0].value] + vs)
  }

  /** Reading back the words of a packet gives the words written. */
  lemma {:induction false} WordsRoundTrip(ws: seq<int>)
    ensures WordValues(Words(ws)) == Some(ws)
    decreases |ws|
  {
    if ws != [] {
      var rest := Words(ws[1..]);
      assert Words(ws) == [Word(ws[0])] + rest;
      assert ([Word(ws[0])] + rest)[1..] == rest;
      WordsRoundTrip(ws[1..]);
      assert [ws[0]] + ws[1..] == ws;
    }
  }

  /** A packet of plain words. */
  function OutWords(ch: Channel, obj: Obj, mthd: Mthd, words: seq<int>): (r: Channel)
    requires ch.Valid()
    ensures r.Valid()
    ensures r.packets == ch.packets + [Packet(obj, mthd, Words(words))]
    ensures r.mark == ch.mark && r.fired == ch.fired && r.notify == ch.notify
  {
    Out(ch, obj, mthd, Words(words))
  }

  /** Several packets written in order. */
  function OutAll(ch: Channel, pk: seq<Packet>): (r: Channel)
    requires ch.Valid()
    ensures r.Valid() && r.packets == ch.packets + pk
    ensures r.mark == ch.mark && r.fired == ch.fired && r.notify == ch.notify
  {
    ch.(packets := ch.packets + pk)
  }

  /** `FIRE_RING`: the packets written so far are submitted. What the armed
      `flush_notify` handler writes into the fresh buffer is up to its
      owner (the NV04 state machine replays it). */
  function Submit(ch: Channel): (r: Channel)
    requires ch.Valid()
    ensures r.Valid() && r.packets == ch.packets && r.fired == ch.fired + 1
    ensures r.mark == ch.mark && r.notify == ch.notify
  {
    ch.(fired := ch.fired + 1)
  }

  /** `MARK_RING` after it succeeded: everything written from here on can
      be rolled back. */
  function Mark(ch: Channel): (r: Channel)
    requires ch.Valid()
    ensures r.Valid() && r.packets == ch.packets && r.mark == |ch.packets|
    ensures r.fired == ch.fired && r.notify == ch.notify
  {
    ch.(mark := |ch.packets|)
  }

  /** `MARK_UNDO`: drop what was written since the mark. */
  function Undo(ch: Channel): (r: Channel)
    requires ch.Valid()
    ensures r.Valid() && r.packets == ch.packets[..ch.mark]
    ensures r.fired == ch.fired && r.notify == ch.notify
  {
    ch.(packets := ch.packets[..ch.mark])
  }

  /** Rolling back to a mark restores exactly the packets written before it,
      whatever was written in between. */
  lemma UndoRestores(ch: Channel, written: seq<Packet>)
    requires ch.Valid()
    ensures Undo(OutAll(Mark(ch), written)).packets == ch.packets
  {
    assert (ch.packets + written)[..|ch.packets|] == ch.packets;
  }

  /** A surface. `surfFormat` is what the driver's pixmap-to-surface-format
      helper reports for it (`None` when it has no 2D surface format); that
      helper is not part of this model. `tileLayout` is
      `tile_flags & NOUVEAU_BO_TILE_LAYOUT_MASK`. */
  datatype Pixmap = Pixmap(
    width: nat, height: nat, bpp: nat, pitch: nat,
    bo: nat, tileMode: nat, tileLayout: nat, surfFormat: Option<int>)
  {
    /** Bytes per pixel, `bitsPerPixel / 8`. */
    function Cpp(): nat { bpp / 8 }
  }
}
