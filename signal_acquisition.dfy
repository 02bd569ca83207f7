/** Acquisition of raw IQ samples from an RTL-SDR: the streamer that fills a shared
    buffer from a background loop, the store that keeps at most one open device,
    one-off batch acquisition, and the ranking of reads by their peak strength.

    The radio is a `Device` holding the script of what its driver will deliver, the
    background thread is an opaque handle, and a concurrent `stop_stream` becomes the
    number of batches the loop publishes before it sees the request. */
module SignalAcquisition {
  import opened Wrappers
  import opened Slicing
  import Sorting

  datatype Complex = Complex(re: real, im: real)

  /** The tuner gain: the driver's automatic gain control, or a fixed gain in dB. */
  datatype Gain = Auto | Decibels(db: real)

  /** What the driver produces for one `read_samples` call. */
  datatype ReadOutcome = Delivered(samples: seq<Complex>) | Failure(reason: string)

  /** The exceptions the acquisition code lets through. */
  datatype SdrError =
    | DeviceClosed                // reading a device that has been closed
    | NoSamples                   // the driver has nothing more to deliver
    | DriverError(reason: string) // the driver raised
    | ShapeMismatch               // numpy cannot broadcast a read into a buffer row
    | NegativeDimension           // numpy refuses to allocate a negative shape

  /** Frequency correction written into every new device, in PPM. */
  const PpmCorrection := 60

  /** The arguments `start_stream` hands to the acquisition loop. */
  datatype LoopParams = LoopParams(
    centerFreq: real, sampleRate: real, nReads: int, nSamples: int, sleepLength: real, gain: Gain)

  // ---------------------------------------------------------------------------
  // Reads and batches

  /** The outcome of the read at position `k` of the driver's script. */
  function ReadAt(open: bool, script: seq<ReadOutcome>, k: nat): Result<seq<Complex>, SdrError>
  {
    if !open then Err(DeviceClosed)
    else if k >= |script| then Err(NoSamples)
    else match script[k]
      case Delivered(x) => Ok(x)
      case Failure(reason) => Err(DriverError(reason))
  }

  /** numpy's row assignment `buf[i, :] = x` into a row of width `m`: a read of length
      `m` is copied, a single sample is broadcast along the row, anything else raises. */
  function FitRow(x: seq<Complex>, m: nat): (r: Result<seq<Complex>, SdrError>)
    ensures r.Ok? <==> |x| == m || |x| == 1
    ensures r.Ok? ==> |r.value| == m
    ensures r.Ok? ==> forall j :: 0 <= j < m ==> r.value[j] == if |x| == m then x[j] else x[0]
  {
    if |x| == m then Ok(x)
    else if |x| == 1 then Ok(seq(m, _ => x[0]))
    else Err(ShapeMismatch)
  }

  /** Read `k` of the script as it lands in a row of width `m`. */
  function RowAt(open: bool, script: seq<ReadOutcome>, k: nat, m: nat): (r: Result<seq<Complex>, SdrError>)
    ensures r.Ok? ==> |r.value| == m
  {
    match ReadAt(open, script, k)
    case Err(e) => Err(e)
    case Ok(x) => FitRow(x, m)
  }

  /** `n` reads of the script written row by row into an `n x m` buffer, stopping at
      the first read that raises. */
  function BatchReads(open: bool, script: seq<ReadOutcome>, n: nat, m: nat): (r: Result<seq<seq<Complex>>, SdrError>)
    ensures r.Ok? ==> |r.value| == n
    decreases n
  {
    if n == 0 then Ok([])
    else match BatchReads(open, script, n - 1, m)
      case Err(e) => Err(e)
      case Ok(rows) =>
        match RowAt(open, script, n - 1, m)
        case Err(e) => Err(e)
        case Ok(row) => Ok(rows + [row])
  }

  /** A batch succeeds exactly when each of the first `n` reads is delivered by an open
      device with a shape that fits a row; row `k` is then read `k`. */
  lemma {:induction false} BatchReadsSpec(open: bool, script: seq<ReadOutcome>, n: nat, m: nat)
    ensures BatchReads(open, script, n, m).Ok? <==> forall k :: 0 <= k < n ==> RowAt(open, script, k, m).Ok?
    ensures BatchReads(open, script, n, m).Ok? ==>
              |BatchReads(open, script, n, m).value| == n && (n > 0 ==> open && n <= |script|) &&
              forall k :: 0 <= k < n ==> BatchReads(open, script, n, m).value[k] == RowAt(open, script, k, m).value
    decreases n
  {
    if n > 0 {
      BatchReadsSpec(open, script, n - 1, m);
      var prev := BatchReads(open, script, n - 1, m);
      if prev.Ok? && RowAt(open, script, n - 1, m).Ok? {
        assert BatchReads(open, script, n, m).value == prev.value + [RowAt(open, script, n - 1, m).value];
      }
    }
  }

  /** A failed batch reports the error of its first failing read. */
  lemma {:induction false} BatchReadsFirstError(open: bool, script: seq<ReadOutcome>, n: nat, m: nat)
    requires BatchReads(open, script, n, m).Err?
    ensures exists k :: 0 <= k < n && (forall j :: 0 <= j < k ==> RowAt(open, script, j, m).Ok?) &&
              RowAt(open, script, k, m).Err? && BatchReads(open, script, n, m).error == RowAt(open, script, k, m).error
    decreases n
  {
    var prev := BatchReads(open, script, n - 1, m);
    if prev.Err? {
      BatchReadsFirstError(open, script, n - 1, m);
    } else {
      BatchReadsSpec(open, script, n - 1, m);
      assert forall j :: 0 <= j < n - 1 ==> RowAt(open, script, j, m).Ok?;
    }
  }

  /** Once read `i` fails, every longer batch fails with its error. */
  lemma {:induction false} BatchReadsStop(open: bool, script: seq<ReadOutcome>, i: nat, n: nat, m: nat)
    requires i < n && BatchReads(open, script, i, m).Ok? && RowAt(open, script, i, m).Err?
    ensures BatchReads(open, script, n, m) == Err(RowAt(open, script, i, m).error)
    decreases n
  {
    if n > i + 1 {
      BatchReadsStop(open, script, i, n - 1, m);
    }
  }

  /** `acquire_signal`'s outcome: numpy refuses a negative shape, otherwise the batch. */
  function Acquired(open: bool, script: seq<ReadOutcome>, nReads: int, nSamples: int): (r: Result<seq<seq<Complex>>, SdrError>)
    ensures r.Ok? ==> |r.value| == nReads
  {
    if nReads < 0 || nSamples < 0 then Err(NegativeDimension)
    else BatchReads(open, script, nReads, nSamples)
  }

  /** `RowAt` on what is left of the script after `a` reads is read `a + j`. */
  lemma FromRowAt(script: seq<ReadOutcome>, a: nat, j: nat, m: nat)
    ensures RowAt(true, From(script, a), j, m) == RowAt(true, script, a + j, m)
  {
    if a <= |script| {
      assert From(script, a) == script[a..];
    }
  }

  /** Dropping `a` reads and then `n` more is dropping `a + n`. */
  lemma FromFrom(script: seq<ReadOutcome>, a: nat, n: nat)
    requires n <= |From(script, a)|
    ensures From(script, a)[n..] == From(script, a + n)
  {
  }

  /** How many batches the acquisition loop publishes when the concurrent stop request
      is seen after `stopAfter` of them: none when the loop starts disabled, and at
      least one otherwise, because `enabled` is only checked before each batch. */
  function BatchesPublished(enabled: bool, stopAfter: nat): (k: nat)
    ensures enabled <==> k > 0
    ensures enabled ==> k >= stopAfter
  {
    if !enabled then 0 else if stopAfter == 0 then 1 else stopAfter
  }

  /** The first `k` batches of the acquisition loop on a freshly opened device that
      delivers `script`: batch `i` reads `script[i*n:]`, and the loop ends at the first
      batch that raises. On success the value is the last batch. */
  function LoopBatches(script: seq<ReadOutcome>, n: nat, m: nat, k: nat): (r: Result<seq<seq<Complex>>, SdrError>)
    ensures r.Ok? && k > 0 ==> |r.value| == n
    decreases k
  {
    if k == 0 then Ok([])
    else match LoopBatches(script, n, m, k - 1)
      case Err(e) => Err(e)
      case Ok(_) => BatchReads(true, From(script, ReadsBefore(k - 1, n)), n, m)
  }

  /** The batch read after `a` reads succeeds exactly when reads `a .. a + n - 1`
      succeed, and row `j` is then read `a + j`. */
  lemma BatchAfter(script: seq<ReadOutcome>, a: nat, n: nat, m: nat)
    ensures BatchReads(true, From(script, a), n, m).Ok? <==> forall q :: a <= q < a + n ==> RowAt(true, script, q, m).Ok?
    ensures BatchReads(true, From(script, a), n, m).Ok? ==>
              forall j :: 0 <= j < n ==> BatchReads(true, From(script, a), n, m).value[j] == RowAt(true, script, a + j, m).value
  {
    BatchReadsSpec(true, From(script, a), n, m);
    forall q | a <= q < a + n
      ensures RowAt(true, From(script, a), q - a, m) == RowAt(true, script, q, m)
    {
      FromRowAt(script, a, q - a, m);
    }
    forall j | 0 <= j < n
      ensures RowAt(true, From(script, a), j, m) == RowAt(true, script, a + j, m)
    {
      FromRowAt(script, a, j, m);
    }
  }

  /** The number of reads the first `k` batches of `n` reads take. */
  function ReadsBefore(k: nat, n: nat): nat
  {
    k * n
  }

  /** `k` batches succeed exactly when each of the first `k * n` reads is delivered and
      fits a row; the last batch then holds reads `(k-1)*n .. k*n - 1`. */
  lemma {:induction false} LoopBatchesReads(script: seq<ReadOutcome>, n: nat, m: nat, k: nat)
    ensures LoopBatches(script, n, m, k).Ok? <==> forall q :: 0 <= q < ReadsBefore(k, n) ==> RowAt(true, script, q, m).Ok?
    ensures LoopBatches(script, n, m, k).Ok? && k > 0 ==>
              forall j :: 0 <= j < n ==>
                LoopBatches(script, n, m, k).value[j] == RowAt(true, script, ReadsBefore(k - 1, n) + j, m).value
    decreases k
  {
    if k > 0 {
      var a := ReadsBefore(k - 1, n);
      LoopBatchesReads(script, n, m, k - 1);
      BatchAfter(script, a, n, m);
    }
  }

  /** After `b` successful batches, batch `b + 1` reads on from read `b * n`, and when it
      succeeds the script left is the one after `(b + 1) * n` reads. */
  lemma LoopBatchesNext(script: seq<ReadOutcome>, n: nat, m: nat, b: nat)
    requires LoopBatches(script, n, m, b).Ok?
    ensures LoopBatches(script, n, m, b + 1) == BatchReads(true, From(script, ReadsBefore(b, n)), n, m)
    ensures LoopBatches(script, n, m, b + 1).Ok? ==> From(script, ReadsBefore(b, n))[n..] == From(script, ReadsBefore(b + 1, n))
  {
    var a := ReadsBefore(b, n);
    assert ReadsBefore(b + 1, n) == a + n;
    if LoopBatches(script, n, m, b + 1).Ok? {
      BatchReadsSpec(true, From(script, a), n, m);
      FromFrom(script, a, n);
    }
  }

  /** Once a batch raises, running the loop for longer ends with the same error. */
  lemma {:induction false} LoopBatchesStop(script: seq<ReadOutcome>, n: nat, m: nat, i: nat, k: nat)
    requires i <= k && LoopBatches(script, n, m, i).Err?
    ensures LoopBatches(script, n, m, k) == LoopBatches(script, n, m, i)
    decreases k
  {
    if k > i {
      LoopBatchesStop(script, n, m, i, k - 1);
    }
  }

  // ---------------------------------------------------------------------------
  // The device

  /** An RTL-SDR handle: whether it is open, what its driver will still deliver, and
      the tuning that `get_sdr` writes into it. */
  class Device {
    var open: bool
    var script: seq<ReadOutcome>
    var centerFreq: real
    var sampleRate: real
    var freqCorrection: int
    var gain: Gain

    /** Opens the radio; `hardware` is what its driver will deliver. */
    constructor (hardware: seq<ReadOutcome>)
      ensures open && script == hardware
    {
      open := true;
      script := hardware;
    }

    /** `read_samples(num_samples)`: the next scripted outcome, consumed only from an
        open device. */
    method ReadSamples(numSamples: nat) returns (r: Result<seq<Complex>, SdrError>)
      modifies this
      ensures r == ReadAt(old(open), old(script), 0)
      ensures script == if old(open) && |old(script)| > 0 then old(script)[1..] else old(script)
      ensures open == old(open) && centerFreq == old(centerFreq) && sampleRate == old(sampleRate)
      ensures freqCorrection == old(freqCorrection) && gain == old(gain)
    {
      r := ReadAt(open, script, 0);
      if open && |script| > 0 {
        script := script[1..];
      }
    }

    method Close()
      modifies this
      ensures !open && script == old(script)
      ensures centerFreq == old(centerFreq) && sampleRate == old(sampleRate)
      ensures freqCorrection == old(freqCorrection) && gain == old(gain)
    {
      open := false;
    }
  }

  /** Rows of a two-dimensional buffer. */
  function Rows(a: array2<Complex>): (r: seq<seq<Complex>>)
    reads a
    ensures |r| == a.Length0 && forall i :: 0 <= i < |r| ==> |r[i]| == a.Length1
  {
    seq(a.Length0, i requires 0 <= i < a.Length0 reads a =>
      seq(a.Length1, j requires 0 <= j < a.Length1 reads a => a[i, j]))
  }

  /** `buf[i, :] = row`. A caller that passes the streamer publishing `buf` as
      `publisher` may only write it while that streamer disallows reading. */
  method WriteRow(buf: array2<Complex>, i: nat, row: seq<Complex>, ghost publisher: SignalStreamer?)
    requires i < buf.Length0 && |row| == buf.Length1
    requires publisher != null ==> publisher.currentSignal == buf && !publisher.readIsAvailable
    modifies buf
    ensures forall k, j :: 0 <= k < buf.Length0 && 0 <= j < buf.Length1 ==>
              buf[k, j] == if k == i then row[j] else old(buf[k, j])
  {
    var j := 0;
    while j < buf.Length1
      invariant 0 <= j <= buf.Length1
      invariant forall k, j' :: 0 <= k < buf.Length0 && 0 <= j' < buf.Length1 ==>
                  buf[k, j'] == if k == i && j' < j then row[j'] else old(buf[k, j'])
    {
      buf[i, j] := row[j];
      j := j + 1;
    }
  }

  /** `for i in range(n): buf[i, :] = sdr.read_samples(num_samples=m)`: row `i` gets
      read `i` until a read raises. A caller that passes the streamer publishing `buf`
      as `publisher` may only fill it while that streamer disallows reading. */
  method FillRows(sdr: Device, buf: array2<Complex>, ghost publisher: SignalStreamer?) returns (r: Result<(), SdrError>)
    requires publisher != null ==> publisher.currentSignal == buf && !publisher.readIsAvailable
    modifies sdr, buf
    ensures var batch := BatchReads(old(sdr.open), old(sdr.script), buf.Length0, buf.Length1);
            (r.Ok? <==> batch.Ok?) && (r.Err? ==> r.error == batch.error) &&
            (r.Ok? ==> Rows(buf) == batch.value &&
                       buf.Length0 <= |old(sdr.script)| && sdr.script == old(sdr.script)[buf.Length0..])
    ensures sdr.open == old(sdr.open) && sdr.centerFreq == old(sdr.centerFreq) && sdr.sampleRate == old(sdr.sampleRate)
    ensures sdr.freqCorrection == old(sdr.freqCorrection) && sdr.gain == old(sdr.gain)
  {
    ghost var open, script := sdr.open, sdr.script;
    ghost var rows: seq<seq<Complex>> := [];
    var i := 0;
    while i < buf.Length0
      invariant 0 <= i <= buf.Length0 && i <= |script|
      invariant BatchReads(open, script, i, buf.Length1) == Ok(rows) && |rows| == i
      invariant forall k :: 0 <= k < i ==> |rows[k]| == buf.Length1
      invariant sdr.script == script[i..]
      invariant forall k, j :: 0 <= k < i && 0 <= j < buf.Length1 ==> buf[k, j] == rows[k][j]
      invariant sdr.open == open && sdr.centerFreq == old(sdr.centerFreq) && sdr.sampleRate == old(sdr.sampleRate)
      invariant sdr.freqCorrection == old(sdr.freqCorrection) && sdr.gain == old(sdr.gain)
    {
      assert ReadAt(open, script[i..], 0) == ReadAt(open, script, i);
      var x := sdr.ReadSamples(buf.Length1);
      if x.Err? {
        BatchReadsStop(open, script, i, buf.Length0, buf.Length1);
        return Err(x.error);
      }
      var row := FitRow(x.value, buf.Length1);
      if row.Err? {
        BatchReadsStop(open, script, i, buf.Length0, buf.Length1);
        return Err(row.error);
      }
      WriteRow(buf, i, row.value, publisher);
      rows := rows + [row.value];
      i := i + 1;
    }
    forall k | 0 <= k < buf.Length0
      ensures Rows(buf)[k] == rows[k]
    {
      assert forall j :: 0 <= j < buf.Length1 ==> Rows(buf)[k][j] == rows[k][j];
    }
    return Ok(());
  }

  /** `acquire_signal(sdr, n_reads, n_samples)`: an `n_reads x n_samples` buffer whose
      row `i` is read `i`. When anything raises, the device is closed and the error is
      passed on; on success the device stays open. */
  method AcquireSignal(sdr: Device, nReads: int, nSamples: int) returns (r: Result<array2<Complex>, SdrError>)
    modifies sdr
    ensures var expected := Acquired(old(sdr.open), old(sdr.script), nReads, nSamples);
            (r.Ok? <==> expected.Ok?) &&
            (r.Ok? ==> fresh(r.value) && r.value.Length0 == nReads && r.value.Length1 == nSamples &&
                       Rows(r.value) == expected.value && sdr.open == old(sdr.open) &&
                       sdr.script == old(sdr.script)[nReads..]) &&
            (r.Err? ==> r.error == expected.error && !sdr.open)
    ensures sdr.centerFreq == old(sdr.centerFreq) && sdr.sampleRate == old(sdr.sampleRate)
    ensures sdr.freqCorrection == old(sdr.freqCorrection) && sdr.gain == old(sdr.gain)
  {
    if nReads < 0 || nSamples < 0 {
      sdr.Close();
      return Err(NegativeDimension);
    }
    var buffer := new Complex[nReads, nSamples]((i, j) => Complex(0.0, 0.0));
    var filled := FillRows(sdr, buffer, null);
    if filled.Err? {
      sdr.Close();
      return Err(filled.error);
    }
    return Ok(buffer);
  }

  // ---------------------------------------------------------------------------
  // The device store and get_sdr

  /** The process-wide holder of the current device. `retired` (ghost) collects every
      device the store has let go of. */
  class SdrStore {
    var sdr: Device?
    ghost var retired: set<Device>

    /** Every device the store has let go of is closed, and the current one is not
        among them: at most one device the store handed out can still be open. */
    ghost predicate AtMostOneOpen()
      reads this, retired
    {
      (sdr == null || sdr !in retired) && forall d :: d in retired ==> !d.open
    }

    constructor ()
      ensures sdr == null && retired == {} && AtMostOneOpen()
    {
      sdr := null;
      retired := {};
    }
  }

  /** `get_sdr`: closes and drops any device already in the store, then opens a new
      one, tunes it, stores it and returns it. */
  method GetSdr(store: SdrStore, centerFreq: real, sampleRate: real, gain: Gain, hardware: seq<ReadOutcome>)
    returns (sdr: Device)
    requires store.AtMostOneOpen()
    modifies store, store.sdr
    ensures fresh(sdr) && store.sdr == sdr && sdr.open && sdr.script == hardware
    ensures sdr.centerFreq == centerFreq && sdr.sampleRate == sampleRate
    ensures sdr.freqCorrection == PpmCorrection && sdr.gain == gain
    ensures old(store.sdr) != null ==> !old(store.sdr).open && old(store.sdr).script == old(store.sdr.script)
    ensures store.retired == old(store.retired) + (if old(store.sdr) == null then {} else {old(store.sdr)})
    ensures store.AtMostOneOpen()
  {
    if store.sdr != null {
      store.sdr.Close();
      store.retired := store.retired + {store.sdr};
      store.sdr := null;
    }
    sdr := new Device(hardware);
    sdr.sampleRate := sampleRate;
    sdr.centerFreq := centerFreq;
    sdr.freqCorrection := PpmCorrection;
    sdr.gain := gain;
    store.sdr := sdr;
  }

  // ---------------------------------------------------------------------------
  // The streamer

  /** The background thread, as a handle: the streamer and loop arguments it was
      created with, and whether it has been started. */
  class Thread {
    const owner: SignalStreamer
    const params: LoopParams
    var started: bool

    constructor (owner: SignalStreamer, params: LoopParams)
      ensures this.owner == owner && this.params == params && !started
    {
      this.owner := owner;
      this.params := params;
      started := false;
    }

    method Start()
      modifies this
      ensures started
    {
      started := true;
    }
  }

  class SignalStreamer {
    var enabled: bool
    var thread: Thread?
    var currentSignal: array2<Complex>
    var readIsAvailable: bool
    /** The rows of the last batch the loop published. */
    ghost var latest: seq<seq<Complex>>

    /** No acquisition loop is running. */
    predicate CanStartAcquisition()
      reads this`thread
    {
      thread == null
    }

    /** Whenever reading is allowed, the buffer holds the last published batch. */
    ghost predicate PublishedIsLatest()
      reads this`readIsAvailable, this`latest, this`currentSignal, currentSignal
    {
      readIsAvailable ==> Rows(currentSignal) == latest
    }

    constructor ()
      ensures !enabled && thread == null && !readIsAvailable
      ensures fresh(currentSignal) && currentSignal.Length0 * currentSignal.Length1 == 0
      ensures CanStartAcquisition() && PublishedIsLatest()
    {
      enabled := false;
      thread := null;
      currentSignal := new Complex[0, 0];
      readIsAvailable := false;
      latest := [];
    }

    /** `start_stream`: enables the loop and starts a new thread for it. A loop that
        is already running only draws a warning; its handle is replaced all the same. */
    method StartStream(params: LoopParams) returns (warned: bool)
      modifies this
      ensures warned <==> old(thread) != null
      ensures enabled && thread != null && fresh(thread) && thread.started
      ensures thread.owner == this && thread.params == params
      ensures !CanStartAcquisition()
      ensures currentSignal == old(currentSignal) && readIsAvailable == old(readIsAvailable) && latest == old(latest)
    {
      warned := !CanStartAcquisition();
      enabled := true;
      var t := new Thread(this, params);
      t.Start();
      thread := t;
    }

    /** `stop_stream`: with no loop running it only warns; otherwise it disables the
        loop and forgets the thread. */
    method StopStream() returns (warned: bool)
      modifies this
      ensures warned <==> old(thread) == null
      ensures warned ==> enabled == old(enabled)
      ensures !warned ==> !enabled
      ensures thread == null && CanStartAcquisition()
      ensures currentSignal == old(currentSignal) && readIsAvailable == old(readIsAvailable) && latest == old(latest)
    {
      if thread == null {
        return true;
      }
      enabled := false;
      thread := null;
      return false;
    }

    /** `get_current_signal` once reading is allowed: the buffer, which holds the last
        published batch unless a restarted loop has just replaced it with zeros. */
    method GetCurrentSignal() returns (signal: array2<Complex>)
      requires readIsAvailable
      ensures signal == currentSignal && (PublishedIsLatest() ==> Rows(signal) == latest)
    {
      signal := currentSignal;
    }

    /** One pass of the acquisition loop's body, after `done` batches of `script` have
        been published: reading is disallowed, every row of the buffer is overwritten by
        the next read, then reading is allowed again. A read that raises leaves reading
        disallowed. */
    method AcquireBatch(sdr: Device, ghost script: seq<ReadOutcome>, ghost done: nat) returns (r: Result<(), SdrError>)
      requires sdr.open && sdr.script == From(script, ReadsBefore(done, currentSignal.Length0))
      requires LoopBatches(script, currentSignal.Length0, currentSignal.Length1, done).Ok?
      modifies this, currentSignal, sdr
      ensures sdr.centerFreq == old(sdr.centerFreq) && sdr.sampleRate == old(sdr.sampleRate) &&
              sdr.freqCorrection == old(sdr.freqCorrection) && sdr.gain == old(sdr.gain)
      ensures currentSignal == old(currentSignal) && enabled == old(enabled) && thread == old(thread) && sdr.open
      ensures var next := LoopBatches(script, currentSignal.Length0, currentSignal.Length1, done + 1);
              (r.Ok? <==> next.Ok?) &&
              (r.Ok? ==> readIsAvailable && latest == next.value &&
                         sdr.script == From(script, ReadsBefore(done + 1, currentSignal.Length0))) &&
              (r.Err? ==> !readIsAvailable && r.error == next.error)
      ensures PublishedIsLatest()
    {
      LoopBatchesNext(script, currentSignal.Length0, currentSignal.Length1, done);
      readIsAvailable := false;
      r := FillRows(sdr, currentSignal, this);
      if r.Ok? {
        latest := Rows(currentSignal);
        readIsAvailable := true;
      }
    }

    /** `signal_acquisition_loop` run to its end. It opens a device through the store,
        preallocates an `n_reads x n_samples` buffer of zeros and publishes batches
        while `enabled` holds. `stopAfter` stands for the concurrent `stop_stream`: the
        loop sees `enabled` cleared once it has published that many batches. Every
        exit closes the device; the outcome is the first error raised, or the number of
        batches published, the last of which stays in the buffer. */
    method SignalAcquisitionLoop(store: SdrStore, hardware: seq<ReadOutcome>, params: LoopParams, stopAfter: nat)
      returns (exit: Result<nat, SdrError>)
      requires store.AtMostOneOpen()
      modifies this, store, store.sdr
      ensures store.sdr != null && fresh(store.sdr) && !store.sdr.open
      ensures store.sdr.centerFreq == params.centerFreq && store.sdr.sampleRate == params.sampleRate
      ensures store.sdr.freqCorrection == PpmCorrection && store.sdr.gain == params.gain
      ensures old(store.sdr) != null ==> !old(store.sdr).open
      ensures store.AtMostOneOpen()
      ensures thread == old(thread)
      ensures params.nReads < 0 || params.nSamples < 0 ==>
                exit == Err(NegativeDimension) && currentSignal == old(currentSignal) &&
                readIsAvailable == old(readIsAvailable) && latest == old(latest)
      ensures params.nReads >= 0 && params.nSamples >= 0 ==>
                var k := BatchesPublished(old(enabled), stopAfter);
                var out := LoopBatches(hardware, params.nReads, params.nSamples, k);
                exit == (if out.Ok? then Ok(k) else Err(out.error)) &&
                (exit.Ok? && k > 0 ==> latest == out.value)
      ensures exit.Err? && exit.error != NegativeDimension ==> !readIsAvailable
      ensures exit.Err? ==> enabled == old(enabled)
      ensures exit.Ok? ==>
                !enabled && fresh(currentSignal) &&
                currentSignal.Length0 == params.nReads && currentSignal.Length1 == params.nSamples
      ensures exit.Ok? && exit.value > 0 ==> readIsAvailable && PublishedIsLatest()
      ensures exit.Ok? && exit.value == 0 ==>
                readIsAvailable == old(readIsAvailable) && latest == old(latest) &&
                forall i, j :: 0 <= i < currentSignal.Length0 && 0 <= j < currentSignal.Length1 ==>
                  currentSignal[i, j] == Complex(0.0, 0.0)
    {
      var sdr := GetSdr(store, params.centerFreq, params.sampleRate, params.gain, hardware);
      if params.nReads < 0 || params.nSamples < 0 {
        sdr.Close();
        return Err(NegativeDimension);
      }
      var n: nat, m: nat := params.nReads, params.nSamples;
      currentSignal := new Complex[n, m]((i, j) => Complex(0.0, 0.0));
      exit := PublishBatches(sdr, stopAfter);
      sdr.Close();
    }

    /** One pass of `while self.enabled:` as the loop sees it: the next batch is
        acquired, and once `stopAfter` batches are out the stop request is visible. */
    method PublishStep(sdr: Device, ghost script: seq<ReadOutcome>, done: nat, stopAfter: nat)
      returns (r: Result<(), SdrError>)
      requires sdr.open && sdr.script == From(script, ReadsBefore(done, currentSignal.Length0))
      requires LoopBatches(script, currentSignal.Length0, currentSignal.Length1, done).Ok?
      modifies this, currentSignal, sdr
      ensures sdr.centerFreq == old(sdr.centerFreq) && sdr.sampleRate == old(sdr.sampleRate) &&
              sdr.freqCorrection == old(sdr.freqCorrection) && sdr.gain == old(sdr.gain)
      ensures currentSignal == old(currentSignal) && thread == old(thread) && sdr.open
      ensures r.Err? ==> enabled == old(enabled)
      ensures var next := LoopBatches(script, currentSignal.Length0, currentSignal.Length1, done + 1);
              (r.Ok? <==> next.Ok?) &&
              (r.Ok? ==> readIsAvailable && PublishedIsLatest() && latest == next.value &&
                         sdr.script == From(script, ReadsBefore(done + 1, currentSignal.Length0)) &&
                         (enabled <==> old(enabled) && done + 1 < stopAfter)) &&
              (r.Err? ==> !readIsAvailable && r.error == next.error)
    {
      r := AcquireBatch(sdr, script, done);
      if r.Ok? && done + 1 >= stopAfter {
        enabled := false;
      }
    }

    /** `while self.enabled:` of the acquisition loop, on an open device: publish batches
        into the buffer until the stop request is seen or a read raises. The outcome is
        the first error, or the number of batches published, the last of which stays in
        the buffer. */
    method PublishBatches(sdr: Device, stopAfter: nat) returns (exit: Result<nat, SdrError>)
      requires sdr.open
      modifies this, currentSignal, sdr
      ensures sdr.centerFreq == old(sdr.centerFreq) && sdr.sampleRate == old(sdr.sampleRate) &&
              sdr.freqCorrection == old(sdr.freqCorrection) && sdr.gain == old(sdr.gain)
      ensures currentSignal == old(currentSignal) && thread == old(thread) && sdr.open
      ensures var k := BatchesPublished(old(enabled), stopAfter);
              var out := LoopBatches(old(sdr.script), currentSignal.Length0, currentSignal.Length1, k);
              exit == (if out.Ok? then Ok(k) else Err(out.error)) &&
              (exit.Ok? && k > 0 ==> latest == out.value)
      ensures exit.Ok? ==> !enabled
      ensures exit.Err? ==> !readIsAvailable
      ensures exit.Err? ==> enabled == old(enabled)
      ensures exit.Ok? && exit.value > 0 ==> readIsAvailable && PublishedIsLatest()
      ensures exit.Ok? && exit.value == 0 ==>
                readIsAvailable == old(readIsAvailable) && latest == old(latest) && unchanged(currentSignal)
    {
      if !enabled {
        return Ok(0);
      }
      exit := PublishWhileEnabled(sdr, stopAfter);
    }

    /** The same loop, entered with `enabled` set: at least one batch is acquired. */
    method PublishWhileEnabled(sdr: Device, stopAfter: nat) returns (exit: Result<nat, SdrError>)
      requires sdr.open && enabled
      modifies this, currentSignal, sdr
      ensures sdr.centerFreq == old(sdr.centerFreq) && sdr.sampleRate == old(sdr.sampleRate) &&
              sdr.freqCorrection == old(sdr.freqCorrection) && sdr.gain == old(sdr.gain)
      ensures currentSignal == old(currentSignal) && thread == old(thread) && sdr.open
      ensures exit.Err? ==> enabled
      ensures var k := BatchesPublished(true, stopAfter);
              var out := LoopBatches(old(sdr.script), currentSignal.Length0, currentSignal.Length1, k);
              (exit.Ok? <==> out.Ok?) &&
              (exit.Ok? ==> exit.value == k && !enabled && readIsAvailable && PublishedIsLatest() && latest == out.value) &&
              (exit.Err? ==> !readIsAvailable && exit.error == out.error)
    {
      ghost var script := sdr.script;
      var n, m := currentSignal.Length0, currentSignal.Length1;
      var batches: nat := 0;
      ghost var published := BatchesPublished(true, stopAfter);
      while enabled
        invariant sdr.open && currentSignal == old(currentSignal) && thread == old(thread)
        invariant sdr.centerFreq == old(sdr.centerFreq) && sdr.sampleRate == old(sdr.sampleRate)
        invariant sdr.freqCorrection == old(sdr.freqCorrection) && sdr.gain == old(sdr.gain)
        invariant batches <= published && (enabled <==> batches < published)
        invariant sdr.script == From(script, ReadsBefore(batches, n))
        invariant LoopBatches(script, n, m, batches).Ok?
        invariant batches > 0 ==> readIsAvailable && PublishedIsLatest() && latest == LoopBatches(script, n, m, batches).value
        decreases published - batches
      {
        var batch := PublishStep(sdr, script, batches, stopAfter);
        if batch.Err? {
          LoopBatchesStop(script, n, m, batches + 1, published);
          return Err(batch.error);
        }
        batches := batches + 1;
      }
      return Ok(batches);
    }
  }

  // ---------------------------------------------------------------------------
  // get_indices_of_highest_peaks

  /** Reads are ranked by their tenth-strongest sample. */
  const PulseRank := 10

  /** `|c|^2`. It orders samples exactly as `np.abs` does. */
  function SquaredMagnitude(c: Complex): (r: real)
    ensures r >= 0.0
  {
    SquareNonNegative(c.re);
    SquareNonNegative(c.im);
    c.re * c.re + c.im * c.im
  }

  lemma SquareNonNegative(x: real)
    ensures x * x >= 0.0
  {
    if x < 0.0 {
      assert x * x == (-x) * (-x);
    }
  }

  function Magnitudes(row: seq<Complex>): (r: seq<real>)
    ensures |r| == |row|
  {
    seq(|row|, j requires 0 <= j < |row| => SquaredMagnitude(row[j]))
  }

  /** `np.sort(np.abs(row))[-10]`. */
  function TenthHighestPulse(row: seq<Complex>): (r: real)
    requires |row| >= PulseRank
    ensures r >= 0.0
  {
    Sorting.KthLargestRank(Magnitudes(row), PulseRank);
    Sorting.Sort(Magnitudes(row))[|row| - PulseRank]
  }

  /** The ranking key of a read is the magnitude of one of its samples, with fewer
      than ten samples stronger than it and at least ten at least as strong. */
  lemma TenthHighestPulseRank(row: seq<Complex>)
    requires |row| >= PulseRank
    ensures exists j :: 0 <= j < |row| && SquaredMagnitude(row[j]) == TenthHighestPulse(row)
    ensures Sorting.CountAbove(Magnitudes(row), TenthHighestPulse(row)) < PulseRank
    ensures Sorting.CountAtLeast(Magnitudes(row), TenthHighestPulse(row)) >= PulseRank
  {
    Sorting.KthLargestRank(Magnitudes(row), PulseRank);
    var j :| 0 <= j < |row| && Magnitudes(row)[j] == TenthHighestPulse(row);
  }

  /** The key of every read. */
  function PeakKeys(signal: seq<seq<Complex>>): (r: seq<real>)
    requires forall i :: 0 <= i < |signal| ==> |signal[i]| >= PulseRank
    ensures |r| == |signal|
  {
    seq(|signal|, i requires 0 <= i < |signal| && |signal[i]| >= PulseRank => TenthHighestPulse(signal[i]))
  }

  datatype Peaks = One(index: nat) | Several(indices: seq<nat>)

  datatype PeakError =
    | TooFewSamples // `[:, -10]` on signal shorter than ten samples
    | NoReads       // `indices[0]` on an empty selection

  /** `argsort(keys)[-n:][::-1]`: the last `n` positions of the ascending order, from
      the strongest down. */
  function TopIndices(keys: seq<real>, n: int): (r: seq<nat>)
    ensures |r| <= |keys| && forall k :: 0 <= k < |r| ==> r[k] < |keys|
  {
    Reversed(From(Sorting.ArgSort(keys), -n))
  }

  /** `get_indices_of_highest_peaks(s, n=n)` for the `|signal| x width` array `s`. */
  function IndicesOfHighestPeaks(signal: seq<seq<Complex>>, width: nat, n: int): (r: Result<Peaks, PeakError>)
    requires forall i :: 0 <= i < |signal| ==> |signal[i]| == width
    ensures r.Ok? ==> (r.value.One? <==> n <= 1)
    ensures r.Ok? && r.value.One? ==> r.value.index < |signal|
    ensures r.Ok? && r.value.Several? ==> forall k :: 0 <= k < |r.value.indices| ==> r.value.indices[k] < |signal|
  {
    if width < PulseRank then Err(TooFewSamples)
    else
      var top := TopIndices(PeakKeys(signal), n);
      if n > 1 then Ok(Several(top))
      else if |top| == 0 then Err(NoReads)
      else Ok(One(top[0]))
  }

  /** The ranking fails when the reads are shorter than ten samples, or when `n <= 1` and
      the slice `[-n:]` selects nothing. */
  lemma HighestPeaksErrors(signal: seq<seq<Complex>>, width: nat, n: int)
    requires forall i :: 0 <= i < |signal| ==> |signal[i]| == width
    ensures IndicesOfHighestPeaks(signal, width, n).Err? <==>
              width < PulseRank || (n <= 1 && (|signal| == 0 || |signal| + n <= 0))
    ensures IndicesOfHighestPeaks(signal, width, n).Err? ==>
              IndicesOfHighestPeaks(signal, width, n).error == if width < PulseRank then TooFewSamples else NoReads
  {
  }

  /** The first entry of `order[-n:][::-1]`, when there is one, is the last entry of
      a sorting permutation, so no key exceeds its key. */
  lemma TopFirstIsMax(keys: seq<real>, order: seq<nat>, n: int)
    requires |order| == |keys| && Sorting.AscendingBy(order, keys)
    requires forall x: nat :: x < |keys| ==> x in order
    requires |Reversed(From(order, -n))| > 0
    ensures Reversed(From(order, -n))[0] == order[|order| - 1]
    ensures forall j :: 0 <= j < |keys| ==> keys[j] <= keys[order[|order| - 1]]
  {
    var last := |order| - 1;
    forall j | 0 <= j < |keys|
      ensures keys[j] <= keys[order[last]]
    {
      assert j in order;
      var p :| 0 <= p < |order| && order[p] == j;
      if p < last {
        assert keys[order[p]] <= keys[order[last]];
      }
    }
  }

  /** For `n >= 1`, `top == order[-n:][::-1]` over a sorting permutation lists
      `min(n, |keys|)` distinct indices from the largest key down, and every index it
      leaves out has a key no larger than any it lists. */
  lemma TopRanked(keys: seq<real>, order: seq<nat>, n: int, top: seq<nat>)
    requires |order| == |keys| && Sorting.AscendingBy(order, keys) && Sorting.Distinct(order)
    requires forall x: nat :: x < |keys| ==> x in order
    requires n >= 1 && top == Reversed(From(order, -n))
    ensures |top| == (if n < |keys| then n else |keys|)
    ensures forall k :: 0 <= k < |top| ==> top[k] < |keys|
    ensures Sorting.Distinct(top)
    ensures forall a, b :: 0 <= a < b < |top| ==> keys[top[b]] <= keys[top[a]]
    ensures forall j, k :: 0 <= j < |keys| && j !in top && 0 <= k < |top| ==> keys[j] <= keys[top[k]]
  {
    var L := |order|;
    var start := SliceIndex(-n, L);
    assert |top| == L - start;
    assert forall k :: 0 <= k < |top| ==> top[k] == order[L - 1 - k] && top[k] < |keys|;
    assert forall q :: start <= q < L ==> order[q] == top[L - 1 - q];
    forall j, k | 0 <= j < |keys| && j !in top && 0 <= k < |top|
      ensures keys[j] <= keys[top[k]]
    {
      assert j in order;
      var p :| 0 <= p < L && order[p] == j;
      assert p < start;
      assert keys[order[p]] <= keys[order[L - 1 - k]];
    }
  }

  /** With `n <= 1` (the default `n == 1` included) the single index returned names a
      read whose key no other read exceeds. */
  lemma HighestPeakIsMaximal(signal: seq<seq<Complex>>, width: nat, n: int)
    requires forall i :: 0 <= i < |signal| ==> |signal[i]| == width
    requires n <= 1 && IndicesOfHighestPeaks(signal, width, n).Ok?
    ensures IndicesOfHighestPeaks(signal, width, n).value.One?
    ensures var i := IndicesOfHighestPeaks(signal, width, n).value.index;
            i < |signal| && forall j :: 0 <= j < |signal| ==> PeakKeys(signal)[j] <= PeakKeys(signal)[i]
  {
    var keys := PeakKeys(signal);
    Sorting.ArgSortIsSortingPermutation(keys);
    TopFirstIsMax(keys, Sorting.ArgSort(keys), n);
  }

  /** With `n > 1` the result lists `min(n, |signal|)` distinct reads, strongest first,
      and no read left out has a key above any read listed. */
  lemma HighestPeaksRanked(signal: seq<seq<Complex>>, width: nat, n: int)
    requires forall i :: 0 <= i < |signal| ==> |signal[i]| == width
    requires n > 1 && width >= PulseRank
    ensures IndicesOfHighestPeaks(signal, width, n).Ok? && IndicesOfHighestPeaks(signal, width, n).value.Several?
    ensures var top := IndicesOfHighestPeaks(signal, width, n).value.indices;
            var keys := PeakKeys(signal);
            |top| == (if n < |signal| then n else |signal|) &&
            (forall k :: 0 <= k < |top| ==> top[k] < |signal|) &&
            Sorting.Distinct(top) &&
            (forall a, b :: 0 <= a < b < |top| ==> keys[top[b]] <= keys[top[a]]) &&
            (forall j, k :: 0 <= j < |signal| && j !in top && 0 <= k < |top| ==> keys[j] <= keys[top[k]])
  {
    var keys := PeakKeys(signal);
    Sorting.ArgSortIsSortingPermutation(keys);
    TopRanked(keys, Sorting.ArgSort(keys), n, TopIndices(keys, n));
    assert IndicesOfHighestPeaks(signal, width, n) == Ok(Several(TopIndices(keys, n)));
  }
}
