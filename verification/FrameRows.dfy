/**
 From the composed line buffers to the wire: the row table handed to the DMA
 mapping has one entry per line buffer, and the packets of the submitted list
 are the composed rows.
 */
module FrameRows {
  import opened Scatter
  import opened Compositor
  import LineFraming
  import LinePackets
  import LineSubmit

  /** One entry per line buffer, a line's bytes long. */
  function RowTable(bufs: seq<nat>, n: nat, size: nat): (t: seq<Entry>)
    requires n <= |bufs|
    ensures |t| == n
  {
    seq(n, y requires 0 <= y < n => Entry(bufs[y], size))
  }

  /** `fpga_drm_prepare_active_sgt`: sets the first entries of the frame's table, and says how many are in use. */
  method PrepareActiveSgt(table: array<Entry>, bufs: seq<nat>, mode: Mode) returns (nents: nat)
    requires mode.vdisplay <= table.Length && mode.vdisplay <= |bufs|
    modifies table
    ensures nents == mode.vdisplay && table[..nents] == RowTable(bufs, nents, mode.LineBytes())
    ensures table[nents..] == old(table[nents..])
  {
    for y := 0 to mode.vdisplay
      invariant forall k :: 0 <= k < y ==> table[k] == Entry(bufs[k], mode.LineBytes())
      invariant forall k :: y <= k < table.Length ==> table[k] == old(table[k])
    {
      table[y] := Entry(bufs[y], mode.LineBytes());
    }
    nents := mode.vdisplay;
  }

  /** The CPU sees line buffer y at address bufs[y]. */
  ghost predicate Shows(memory: nat -> Byte, bufs: seq<nat>, rows: seq<seq<Byte>>, size: nat) {
    && |rows| <= |bufs|
    && (forall y :: 0 <= y < |rows| ==> |rows[y]| == size)
    && (forall y, b :: 0 <= y < |rows| && 0 <= b < size ==> memory(bufs[y] + b) == rows[y][b])
  }

  /** Reading the table's bytes is reading the rows one after the other. */
  lemma {:induction false} TableReads(memory: nat -> Byte, bufs: seq<nat>, rows: seq<seq<Byte>>, size: nat)
    requires Shows(memory, bufs, rows, size)
    ensures LineSubmit.Read(memory, Bytes(RowTable(bufs, |rows|, size))) == LineSubmit.Flatten(rows)
  {
    var table := RowTable(bufs, |rows|, size);
    if rows != [] {
      assert table[1..] == RowTable(bufs[1..], |rows[1..]|, size);
      TableReads(memory, bufs[1..], rows[1..], size);
      assert LineSubmit.Read(memory, Span(bufs[0], size)) == rows[0];
      ReadAppend(memory, Span(bufs[0], size), Bytes(table[1..]));
    }
  }

  lemma ReadAppend(memory: nat -> Byte, a: seq<nat>, b: seq<nat>)
    ensures LineSubmit.Read(memory, a + b) == LineSubmit.Read(memory, a) + LineSubmit.Read(memory, b)
  {
  }

  /** The visible part of the line buffers. */
  function Visible(lines: array2<Byte>, mode: Mode): (rows: seq<seq<Byte>>)
    requires mode.vdisplay <= lines.Length0 && mode.LineBytes() <= lines.Length1
    reads lines
    ensures |rows| == mode.vdisplay && forall y :: 0 <= y < |rows| ==> |rows[y]| == mode.LineBytes()
    ensures forall y, b :: 0 <= y < mode.vdisplay && 0 <= b < mode.LineBytes() ==> rows[y][b] == lines[y, b]
  {
    seq(mode.vdisplay, y requires 0 <= y < mode.vdisplay reads lines =>
      seq(mode.LineBytes(), b requires 0 <= b < mode.LineBytes() reads lines => lines[y, b]))
  }

  function ComposedRow(p: Snapshot, o: Snapshot, mode: Mode, y: nat): (row: seq<Byte>)
    ensures |row| == mode.LineBytes()
  {
    seq(mode.LineBytes(), b requires 0 <= b < mode.LineBytes() => Composed(p, o, y, b))
  }

  /**
   A composed frame on the wire. `cpu` shows the line buffers at their
   addresses; `bus` is what the engine sees, and the mapped list, merged or
   moved in any way, denotes there what the row table denotes to the CPU. Then
   the list holds exactly the mode's lines, and packet k is row k of the
   composition.
   */
  lemma {:induction false} ComposedOnWire(lines: array2<Byte>, p: Snapshot, o: Snapshot, mode: Mode, bufs: seq<nat>,
                                          cpu: nat -> Byte, bus: nat -> Byte, es: seq<Entry>, max: nat, k: nat)
    requires mode.vdisplay <= lines.Length0 && mode.LineBytes() <= lines.Length1 && mode.vdisplay <= |bufs|
    requires forall y, b :: 0 <= y < mode.vdisplay && 0 <= b < mode.LineBytes() ==> lines[y, b] == Composed(p, o, y, b)
    requires Shows(cpu, bufs, Visible(lines, mode), mode.LineBytes())
    requires LineSubmit.Read(bus, Bytes(es))
          == LineSubmit.Read(cpu, Bytes(RowTable(bufs, mode.vdisplay, mode.LineBytes())))
    requires 0 < max && 0 < mode.LineBytes() && k < mode.vdisplay
    ensures LinePackets.Fits(es, mode.LineBytes(), mode.vdisplay, max)
    ensures var packets := LineFraming.Packets(LinePackets.Cut(es, mode.LineBytes(), mode.LineBytes(), max), []);
            |packets| == mode.vdisplay && LineSubmit.Read(bus, packets[k]) == ComposedRow(p, o, mode, k)
  {
    var rows := Visible(lines, mode);
    TableReads(cpu, bufs, rows, mode.LineBytes());
    LineSubmit.PacketIsRow(rows, bus, es, mode.LineBytes(), max, k);
    assert rows[k] == ComposedRow(p, o, mode, k);
  }
}
