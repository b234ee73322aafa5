/** The chunk reader of lib/keys.js: raw input-device bytes are walked in
    32-byte records, and each key record may change one key's level. */
module Keys {
  import opened Wrappers
  import opened KeyDriver
  import KeyEvdev

  type Byte = b: int | 0 <= b < 256

  const EvKey: int := 1
  const ChunkSize: nat := 32

  /** `readUInt16LE(off)`. */
  function U16(buf: seq<Byte>, off: nat): (v: nat)
    requires off + 2 <= |buf|
    ensures v < 0x1_0000
  {
    (buf[off] as int) + 256 * (buf[off + 1] as int)
  }

  /** `readUInt32LE(off)`. */
  function U32(buf: seq<Byte>, off: nat): (v: nat)
    requires off + 4 <= |buf|
    ensures v < 0x1_0000_0000
  {
    U16(buf, off) + 65536 * U16(buf, off + 2)
  }

  /** `par.keymap[keycode - 1]`: codes count keymap entries from 1; outside
      the keymap the lookup is `undefined`, the property name "undefined". */
  function KeyName(keymap: seq<string>, code: nat): (name: string)
    ensures 1 <= code <= |keymap| ==> name == keymap[code - 1]
    ensures !(1 <= code <= |keymap|) ==> name == "undefined"
  {
    if 1 <= code <= |keymap| then keymap[code - 1] else "undefined"
  }

  /** The same code names the key one place further on than in the evdev driver. */
  lemma KeyNameOffsetByOne(keymap: seq<string>, code: nat)
    ensures KeyName(keymap, code) == KeyEvdev.KeyName(keymap, code - 1)
  {
  }

  /** `readUInt32LE(0) * 1000 + readUInt32LE(4) / 1000`: seconds and
      microseconds combined into fractional milliseconds. */
  function MillisOf(chunk: seq<Byte>): (ms: real)
    requires 8 <= |chunk|
    // the evdev driver's microsecond stamp of the same time, over 1000
    ensures ms * 1000.0 == (U32(chunk, 0) * 1000000 + U32(chunk, 4)) as real
  {
    (U32(chunk, 0) * 1000) as real + (U32(chunk, 4) as real) / 1000.0
  }

  /** One chunk: `None` where a read runs past its end (a RangeError). */
  function ReadChunk(keymap: seq<string>, state: KeyState, chunk: seq<Byte>): (r: Option<(KeyState, seq<Emission>)>)
    ensures r.None? <==> |chunk| < 10 || (U16(chunk, 8) == EvKey && |chunk| < 16)
    ensures r.Some? && U16(chunk, 8) != EvKey ==> r.value == (state, [])
    ensures r.Some? && U16(chunk, 8) == EvKey ==>
      var name := KeyName(keymap, U16(chunk, 10));
      && r.value.0 == state[name := U32(chunk, 12)]
      && (r.value.1 != [] <==> name !in state || state[name] != U32(chunk, 12))
    ensures r.Some? && U16(chunk, 8) == EvKey && r.value.1 != [] ==>
      r.value.1 == [StateChanged(map[KeyName(keymap, U16(chunk, 10)) := U32(chunk, 12)], Millis(MillisOf(chunk)))]
  {
    if |chunk| < 10 then None
    else if U16(chunk, 8) != EvKey then Some((state, []))
    else if |chunk| < 16 then None
    else Some(Apply(state, KeyName(keymap, U16(chunk, 10)), U32(chunk, 12), Millis(MillisOf(chunk))))
  }

  /** The effects of one `reader(buf)` call: the state and emissions up to
      the end of the buffer, or up to the chunk whose read threw. */
  datatype Scan = Scan(state: KeyState, emitted: seq<Emission>, aborted: bool)

  function Min(a: nat, b: nat): nat
  {
    if a < b then a else b
  }

  /** The number of chunks in `n` bytes, the last one possibly short. */
  function ChunkCount(n: int): nat
  {
    if n <= 0 then 0 else (n + ChunkSize - 1) / ChunkSize
  }

  lemma ChunkCountStep(n: int)
    requires n > 0
    ensures ChunkCount(n) == 1 + ChunkCount(n - ChunkSize)
  {
  }

  /** Between two offsets on the record grid there is room for a whole
      record, and the grid is kept by a step of one record. */
  lemma AlignedOffsets(i: nat, n: nat)
    requires i < n
    ensures n % ChunkSize == 0 && i % ChunkSize == 0 ==> i + ChunkSize <= n
    ensures (i + ChunkSize) % ChunkSize == i % ChunkSize
  {
  }

  /** The chunk at offset `i`: 32 bytes, or what is left of the buffer. */
  function ChunkAt(buf: seq<Byte>, i: nat): seq<Byte>
    requires i < |buf|
  {
    buf[i..Min(i + ChunkSize, |buf|)]
  }

  /** Reading from offset `i`: at most one emission per chunk, and an
      aborted read only where the buffer ends in a short chunk. */
  function ReadFrom(keymap: seq<string>, state: KeyState, buf: seq<Byte>, i: nat): (r: Scan)
    ensures |r.emitted| <= ChunkCount(|buf| - i)
    ensures r.aborted ==> |buf| % ChunkSize != 0 || i % ChunkSize != 0
    decreases |buf| - i
  {
    if i >= |buf| then Scan(state, [], false)
    else
      ChunkCountStep(|buf| - i);
      AlignedOffsets(i, |buf|);
      var chunk := ChunkAt(buf, i);
      match ReadChunk(keymap, state, chunk)
      case None => Scan(state, [], true)
      case Some((state', emitted)) =>
        var rest := ReadFrom(keymap, state', buf, i + ChunkSize);
        Scan(rest.state, emitted + rest.emitted, rest.aborted)
  }

  /** `reader(buf)`: at most one emission per 32-byte chunk; a buffer of
      whole chunks is always read to the end. */
  function Reader(keymap: seq<string>, state: KeyState, buf: seq<Byte>): (r: Scan)
    ensures |r.emitted| <= ChunkCount(|buf|)
    ensures |buf| % ChunkSize == 0 ==> !r.aborted
  {
    ReadFrom(keymap, state, buf, 0)
  }

  // ----- Encoding, the inverse of the chunk layout -----

  function LE16(v: nat): seq<Byte>
    requires v < 0x1_0000
    ensures |LE16(v)| == 2
  {
    [v % 256, v / 256]
  }

  function LE32(v: nat): seq<Byte>
    requires v < 0x1_0000_0000
    ensures |LE32(v)| == 4
  {
    LE16(v % 0x1_0000) + LE16(v / 0x1_0000)
  }

  /** A key-record chunk: seconds, microseconds, type, code, value, padding. */
  function Encode(sec: nat, usec: nat, kind: nat, code: nat, value: nat): (chunk: seq<Byte>)
    requires sec < 0x1_0000_0000 && usec < 0x1_0000_0000 && value < 0x1_0000_0000
    requires kind < 0x1_0000 && code < 0x1_0000
    ensures |chunk| == ChunkSize
  {
    LE32(sec) + LE32(usec) + LE16(kind) + LE16(code) + LE32(value) + seq(16, _ => 0)
  }

  lemma U16OfLE16(buf: seq<Byte>, off: nat, v: nat)
    requires v < 0x1_0000 && off + 2 <= |buf| && buf[off..off + 2] == LE16(v)
    ensures U16(buf, off) == v
  {
    assert buf[off] == v % 256 && buf[off + 1] == v / 256;
  }

  lemma U32OfLE32(buf: seq<Byte>, off: nat, v: nat)
    requires v < 0x1_0000_0000 && off + 4 <= |buf| && buf[off..off + 4] == LE32(v)
    ensures U32(buf, off) == v
  {
    var w := buf[off..off + 4];
    assert w[0..2] == LE16(v % 0x1_0000) && w[2..4] == LE16(v / 0x1_0000);
    assert buf[off..off + 2] == w[0..2];
    assert buf[off + 2..off + 4] == w[2..4];
    U16OfLE16(buf, off, v % 0x1_0000);
    U16OfLE16(buf, off + 2, v / 0x1_0000);
  }

  /** Decoding an encoded chunk gives back its type, code and value and the
      time stamp in milliseconds. */
  lemma DecodeEncode(sec: nat, usec: nat, kind: nat, code: nat, value: nat)
    requires sec < 0x1_0000_0000 && usec < 0x1_0000_0000 && value < 0x1_0000_0000
    requires kind < 0x1_0000 && code < 0x1_0000
    ensures U32(Encode(sec, usec, kind, code, value), 0) == sec
    ensures U32(Encode(sec, usec, kind, code, value), 4) == usec
    ensures U16(Encode(sec, usec, kind, code, value), 8) == kind
    ensures U16(Encode(sec, usec, kind, code, value), 10) == code
    ensures U32(Encode(sec, usec, kind, code, value), 12) == value
    ensures MillisOf(Encode(sec, usec, kind, code, value)) == (sec * 1000) as real + (usec as real) / 1000.0
  {
    var c := Encode(sec, usec, kind, code, value);
    assert c[0..4] == LE32(sec);
    assert c[4..8] == LE32(usec);
    assert c[8..10] == LE16(kind);
    assert c[10..12] == LE16(code);
    assert c[12..16] == LE32(value);
    U32OfLE32(c, 0, sec);
    U32OfLE32(c, 4, usec);
    U16OfLE16(c, 8, kind);
    U16OfLE16(c, 10, code);
    U32OfLE32(c, 12, value);
  }

  /** An encoded key record with code `c` changes the state exactly as the
      evdev driver does for a key event with code `c - 1`. */
  lemma ChunkMatchesEvdevEvent(keymap: seq<string>, state: KeyState, sec: nat, usec: nat, code: nat, value: nat)
    requires sec < 0x1_0000_0000 && usec < 0x1_0000_0000 && value < 0x1_0000_0000 && code < 0x1_0000
    ensures ReadChunk(keymap, state, Encode(sec, usec, EvKey, code, value)).Some?
    ensures ReadChunk(keymap, state, Encode(sec, usec, EvKey, code, value)).value.0 ==
      KeyEvdev.Read(keymap, state, KeyEvdev.InputEvent(KeyEvdev.EvKey, code - 1, value, sec, usec)).0
    ensures |ReadChunk(keymap, state, Encode(sec, usec, EvKey, code, value)).value.1| ==
      |KeyEvdev.Read(keymap, state, KeyEvdev.InputEvent(KeyEvdev.EvKey, code - 1, value, sec, usec)).1|
  {
    DecodeEncode(sec, usec, EvKey, code, value);
    KeyNameOffsetByOne(keymap, code);
  }

  // ----- Whole buffers: the chunk reader against the evdev reader -----

  /** An evdev event that fits the raw record layout; its raw code is one
      more than its evdev code. */
  predicate Encodable(e: KeyEvdev.InputEvent)
  {
    && 0 <= e.sec < 0x1_0000_0000 && 0 <= e.usec < 0x1_0000_0000
    && 0 <= e.value < 0x1_0000_0000
    && 0 <= e.kind < 0x1_0000 && -1 <= e.code && e.code + 1 < 0x1_0000
  }

  /** The raw record of an evdev event. */
  function EncodeEvent(e: KeyEvdev.InputEvent): (chunk: seq<Byte>)
    requires Encodable(e)
    ensures |chunk| == ChunkSize
  {
    Encode(e.sec, e.usec, e.kind, e.code + 1, e.value)
  }

  /** The raw bytes of a stream of evdev events, one record each. */
  function EncodeAll(es: seq<KeyEvdev.InputEvent>): (buf: seq<Byte>)
    requires forall i :: 0 <= i < |es| ==> Encodable(es[i])
    ensures |buf| == ChunkSize * |es|
  {
    if |es| == 0 then [] else EncodeEvent(es[0]) + EncodeAll(es[1..])
  }

  /** One raw record has the effect of its evdev event: the same state, and
      the same announced changes (only the stamp's unit differs). */
  lemma ChunkMatchesEvent(keymap: seq<string>, state: KeyState, e: KeyEvdev.InputEvent)
    requires Encodable(e)
    ensures ReadChunk(keymap, state, EncodeEvent(e)).Some?
    ensures ReadChunk(keymap, state, EncodeEvent(e)).value.0 == KeyEvdev.Read(keymap, state, e).0
    ensures ChangesOf(ReadChunk(keymap, state, EncodeEvent(e)).value.1) ==
      ChangesOf(KeyEvdev.Read(keymap, state, e).1)
  {
    DecodeEncode(e.sec, e.usec, e.kind, e.code + 1, e.value);
    KeyNameOffsetByOne(keymap, e.code + 1);
  }

  /** Reading the raw records of an evdev stream placed after any prefix,
      from where they start, is reading the stream with the evdev reader. */
  lemma {:induction false} ReadEncodedFrom(keymap: seq<string>, state: KeyState, pre: seq<Byte>, es: seq<KeyEvdev.InputEvent>)
    requires forall i :: 0 <= i < |es| ==> Encodable(es[i])
    ensures !ReadFrom(keymap, state, pre + EncodeAll(es), |pre|).aborted
    ensures ReadFrom(keymap, state, pre + EncodeAll(es), |pre|).state == KeyEvdev.ReadAll(keymap, state, es).0
    ensures ChangesOf(ReadFrom(keymap, state, pre + EncodeAll(es), |pre|).emitted) ==
      ChangesOf(KeyEvdev.ReadAll(keymap, state, es).1)
    decreases |es|
  {
    if |es| == 0 {
      assert pre + EncodeAll(es) == pre;
    } else {
      var c, rest := EncodeEvent(es[0]), EncodeAll(es[1..]);
      var buf := pre + EncodeAll(es);
      assert buf == (pre + c) + rest;
      assert ChunkAt(buf, |pre|) == c by {
        assert Min(|pre| + ChunkSize, |buf|) == |pre| + ChunkSize;
      }
      ChunkMatchesEvent(keymap, state, es[0]);
      var s1 := KeyEvdev.Read(keymap, state, es[0]).0;
      ReadEncodedFrom(keymap, s1, pre + c, es[1..]);
      ChangesOfAppend(ReadChunk(keymap, state, c).value.1, ReadFrom(keymap, s1, buf, |pre| + ChunkSize).emitted);
      ChangesOfAppend(KeyEvdev.Read(keymap, state, es[0]).1, KeyEvdev.ReadAll(keymap, s1, es[1..]).1);
    }
  }

  /** `reader` on the raw records of an evdev stream reads all of it and ends
      in the evdev reader's state, having announced the same changes. */
  lemma ReaderMatchesEvdev(keymap: seq<string>, state: KeyState, es: seq<KeyEvdev.InputEvent>)
    requires forall i :: 0 <= i < |es| ==> Encodable(es[i])
    ensures !Reader(keymap, state, EncodeAll(es)).aborted
    ensures Reader(keymap, state, EncodeAll(es)).state == KeyEvdev.ReadAll(keymap, state, es).0
    ensures ChangesOf(Reader(keymap, state, EncodeAll(es)).emitted) ==
      ChangesOf(KeyEvdev.ReadAll(keymap, state, es).1)
  {
    ReadEncodedFrom(keymap, state, [], es);
    assert [] + EncodeAll(es) == EncodeAll(es);
  }

  /** Two chunks of one length whose first 16 bytes (the stamp, the type,
      the code and the value) agree. */
  predicate SameHead(c: seq<Byte>, d: seq<Byte>)
  {
    |c| == |d| && forall j :: 0 <= j < |c| && j < 16 ==> c[j] == d[j]
  }

  /** A chunk is read only up to its value field: bytes 16-31 of a record
      never matter. */
  lemma ReadChunkReadsHead(keymap: seq<string>, state: KeyState, c: seq<Byte>, d: seq<Byte>)
    requires SameHead(c, d)
    ensures ReadChunk(keymap, state, c) == ReadChunk(keymap, state, d)
  {
    if |c| >= 10 {
      assert U16(c, 8) == U16(d, 8);
      if |c| >= 16 {
        assert U16(c, 10) == U16(d, 10);
        assert U32(c, 12) == U32(d, 12);
        assert MillisOf(c) == MillisOf(d);
      }
    }
  }

  /** Two buffers of one length whose records agree on their first 16 bytes. */
  predicate SameHeads(a: seq<Byte>, b: seq<Byte>)
  {
    |a| == |b| && forall i :: 0 <= i < |a| && i % ChunkSize < 16 ==> a[i] == b[i]
  }

  lemma {:induction false} ReadFromReadsHeads(keymap: seq<string>, state: KeyState, a: seq<Byte>, b: seq<Byte>, i: nat)
    requires SameHeads(a, b) && i % ChunkSize == 0
    ensures ReadFrom(keymap, state, a, i) == ReadFrom(keymap, state, b, i)
    decreases |a| - i
  {
    if i < |a| {
      var c := ChunkAt(a, i);
      var d := ChunkAt(b, i);
      forall j | 0 <= j < |c| && j < 16
        ensures c[j] == d[j]
      {
        assert (i + j) % ChunkSize == j;
        assert c[j] == a[i + j] && d[j] == b[i + j];
      }
      ReadChunkReadsHead(keymap, state, c, d);
      AlignedOffsets(i, |a|);
      match ReadChunk(keymap, state, c)
      case None =>
      case Some((state', _)) =>
        ReadFromReadsHeads(keymap, state', a, b, i + ChunkSize);
    }
  }

  /** `reader` sees each record only through its first 16 bytes. */
  lemma ReaderReadsHeads(keymap: seq<string>, state: KeyState, a: seq<Byte>, b: seq<Byte>)
    requires SameHeads(a, b)
    ensures Reader(keymap, state, a) == Reader(keymap, state, b)
  {
    ReadFromReadsHeads(keymap, state, a, b, 0);
  }

  /** The evdev correspondence holds whatever the records carry in their
      last 16 bytes. */
  lemma PaddedReaderMatchesEvdev(keymap: seq<string>, state: KeyState, es: seq<KeyEvdev.InputEvent>, buf: seq<Byte>)
    requires forall i :: 0 <= i < |es| ==> Encodable(es[i])
    requires SameHeads(buf, EncodeAll(es))
    ensures !Reader(keymap, state, buf).aborted
    ensures Reader(keymap, state, buf).state == KeyEvdev.ReadAll(keymap, state, es).0
    ensures ChangesOf(Reader(keymap, state, buf).emitted) == ChangesOf(KeyEvdev.ReadAll(keymap, state, es).1)
  {
    ReaderReadsHeads(keymap, state, buf, EncodeAll(es));
    ReaderMatchesEvdev(keymap, state, es);
  }

  lemma ChangesOfAppend(a: seq<Emission>, b: seq<Emission>)
    ensures ChangesOf(a + b) == ChangesOf(a) + ChangesOf(b)
  {
  }
}
