/**
 Loading the resource FIFO that the Spectrum drains (fpga__load_resource_fifo in
 esp32/main/fpga.c). The Spectrum may take any number of bytes at any time.
 */
module ResourceFifo {
  import opened Basics

  const FPGA_RESOURCE_FIFO_SIZE := 1024
  const LOCAL_CHUNK_SIZE := 512

  /** The status bits: at least a quarter, a half, three quarters full, and full. */
  datatype Status = Status(full: bool, qfull: bool, hfull: bool, qqqfull: bool)

  function StatusAt(level: nat): Status {
    Status(level >= FPGA_RESOURCE_FIFO_SIZE,
           level >= FPGA_RESOURCE_FIFO_SIZE / 4,
           level >= FPGA_RESOURCE_FIFO_SIZE / 2,
           level >= FPGA_RESOURCE_FIFO_SIZE * 3 / 4)
  }

  /** How much the loader dares to write on a given status, with len bytes left. */
  function MaxSize(stat: Status, len: nat): nat {
    var maxsize :=
      if stat.full then 0
      else if stat.qqqfull then 0
      else if stat.hfull then FPGA_RESOURCE_FIFO_SIZE / 4 - 1
      else if stat.qfull then FPGA_RESOURCE_FIFO_SIZE / 2 - 1
      else FPGA_RESOURCE_FIFO_SIZE * 4 / 3 - 1;
    var capped := if maxsize > LOCAL_CHUNK_SIZE then LOCAL_CHUNK_SIZE else maxsize;
    if capped > len then len else capped
  }

  /** The status is precise enough: what is written fits even if nothing has been drained since the
      poll, and below three quarters there is always progress. */
  lemma Fits(level: nat, len: nat)
    requires level <= FPGA_RESOURCE_FIFO_SIZE
    ensures level + MaxSize(StatusAt(level), len) <= FPGA_RESOURCE_FIFO_SIZE
    ensures MaxSize(StatusAt(level), len) == 0 <==> len == 0 || level >= FPGA_RESOURCE_FIFO_SIZE * 3 / 4
    ensures MaxSize(StatusAt(level), len) <= len
  {
  }

  /** How much the loader writes, in numbers: at most 512 bytes below a quarter, one less below a
      half, 255 below three quarters, and nothing above. */
  lemma BudgetInNumbers(level: nat, len: nat)
    requires level <= 1024
    ensures MaxSize(StatusAt(level), len)
         == var most := if level < 256 then 512 else if level < 512 then 511 else if level < 768 then 255 else 0;
            if len < most then len else most
  {
  }

  class Fifo {
    var queued: seq<uint8>
    /** Everything the Spectrum has taken out. */
    var drained: seq<uint8>

    /** Everything that was ever written. */
    ghost function Stream(): seq<uint8>
      reads this
    {
      drained + queued
    }

    constructor ()
      ensures queued == [] && drained == []
    {
      queued, drained := [], [];
    }

    /** The Spectrum at work: any number of bytes leaves at the front. */
    method Environment()
      modifies this
      ensures Stream() == old(Stream()) && |queued| <= |old(queued)|
    {
      var n: nat :| n <= |queued|;
      SplitAt(queued, n);
      Assoc(drained, queued[..n], queued[n..]);
      drained, queued := drained + queued[..n], queued[n..];
    }

    method GetStatus() returns (stat: Status)
      ensures stat == StatusAt(|queued|)
    {
      stat := StatusAt(|queued|);
    }

    /** A write the FIFO has room for; more would be lost. */
    method Write(data: seq<uint8>)
      requires |queued| + |data| <= FPGA_RESOURCE_FIFO_SIZE
      modifies this
      ensures Stream() == old(Stream()) + data && |queued| == |old(queued)| + |data|
    {
      Assoc(drained, queued, data);
      queued := queued + data;
    }
  }

  function Max(a: int, b: int): int {
    if a > b then a else b
  }

  lemma NextPiece<T>(before: seq<T>, data: seq<T>, sent: nat, n: nat)
    requires sent + n <= |data|
    ensures before + data[..sent] + data[sent..][..n] == before + data[..sent + n]
  {
    assert data[..sent + n] == data[..sent] + data[sent..][..n];
    Assoc(before, data[..sent], data[sent..][..n]);
  }

  /** One round of the loop: poll, and write what the status allows. The Spectrum is at work before
      the poll, between poll and write, and so also between a write and the next poll. `level` is
      the fill level that was polled. */
  method Round(fifo: Fifo, data: seq<uint8>) returns (n: nat, ghost level: nat)
    requires |fifo.queued| <= FPGA_RESOURCE_FIFO_SIZE
    modifies fifo
    ensures |fifo.queued| <= FPGA_RESOURCE_FIFO_SIZE
    ensures n <= |data| && fifo.Stream() == old(fifo.Stream()) + data[..n]
    ensures n == 0 <==> data == [] || level >= FPGA_RESOURCE_FIFO_SIZE * 3 / 4
  {
    hide MaxSize, StatusAt, Fifo.Stream;
    fifo.Environment();
    var stat := fifo.GetStatus();
    level := |fifo.queued|;
    Fits(level, |data|);
    fifo.Environment();
    n := MaxSize(stat, |data|);
    if n > 0 {
      fifo.Write(data[..n]);
    } else {
      assert fifo.Stream() + data[..n] == fifo.Stream();
    }
  }

  /** Loads the data in order, never more than the FIFO can hold, or gives up after `timeout`
      waits. `levels` are the fill levels that made it wait. It never polls more often than
      there are bytes and waits. With no data it still waits once. */
  method LoadResourceFifo(fifo: Fifo, data: seq<uint8>, timeout: int)
    returns (r: int, ghost sent: nat, ghost polls: nat, ghost levels: seq<nat>)
    requires |fifo.queued| <= FPGA_RESOURCE_FIFO_SIZE
    modifies fifo
    ensures |fifo.queued| <= FPGA_RESOURCE_FIFO_SIZE
    ensures sent <= |data| && fifo.Stream() == old(fifo.Stream()) + data[..sent]
    ensures r == 0 || r == -1
    ensures r == 0 ==> sent == |data|
    ensures data != [] ==> forall l :: l in levels ==> l >= FPGA_RESOURCE_FIFO_SIZE * 3 / 4
    ensures data != [] ==> (r == -1 <==> sent < |data|)
    ensures r == -1 ==> |levels| == 1 + Max(timeout, 0)
    ensures data == [] ==> |levels| == 1 && (r == -1 <==> timeout <= 0)
    ensures polls <= |data| + 1 + Max(timeout, 0)
  {
    hide Fifo.Stream;
    var left, ticks := |data|, timeout;
    sent, polls, levels := 0, 0, [];
    ghost var before := fifo.Stream();
    assert before + data[..0] == before;
    while true
      invariant |fifo.queued| <= FPGA_RESOURCE_FIFO_SIZE
      invariant sent + left == |data| && (left > 0 || (sent == 0 && data == [] && levels == []))
      invariant fifo.Stream() == before + data[..sent]
      invariant data != [] ==> forall l :: l in levels ==> l >= FPGA_RESOURCE_FIFO_SIZE * 3 / 4
      invariant Max(ticks, 0) + |levels| == Max(timeout, 0)
      invariant polls <= sent + |levels|
      invariant data == [] ==> ticks == timeout
      decreases left + Max(ticks, 0)
    {
      var n, level := Round(fifo, data[|data| - left..]);
      polls := polls + 1;
      if n > 0 {
        NextPiece(before, data, sent, n);
        left := left - n;
        sent := sent + n;
      } else {
        levels := levels + [level];
        assert data[sent..][..0] == [] && before + data[..sent] + [] == before + data[..sent];
        if ticks > 0 {
          ticks := ticks - 1;
        } else {
          return -1, sent, polls, levels;
        }
      }
      if left == 0 {
        return 0, sent, polls, levels;
      }
    }
  }
}
